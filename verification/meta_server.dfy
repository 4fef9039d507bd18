/** The page server: it escapes a blueprint's name for HTML, recognises
    `/blueprints/<id>` request paths, builds the description/title/card/image
    meta tags for the page, and substitutes them for the `__META_TAGS__`
    placeholder of the page template. */
module MetaServer {
  import opened Wrappers
  import opened JsStrings

  // ---------------------------------------------------------------------------
  // HTML escaping
  // ---------------------------------------------------------------------------

  /** `s.replace(/c/g, rep)`: every occurrence of `c` replaced by `rep`. */
  function ReplaceAllChar(s: string, c: char, rep: string): (r: string)
    ensures c !in rep ==> c !in r
    ensures forall d :: d in r ==> d in s || d in rep
  {
    if s == [] then []
    else (if s[0] == c then rep else [s[0]]) + ReplaceAllChar(s[1..], c, rep)
  }

  lemma {:induction false} ReplaceAllCharAppend(a: string, b: string, c: char, rep: string)
    ensures ReplaceAllChar(a + b, c, rep) == ReplaceAllChar(a, c, rep) + ReplaceAllChar(b, c, rep)
  {
    if a == [] {
      assert a + b == b;
    } else {
      assert (a + b)[0] == a[0];
      assert (a + b)[1..] == a[1..] + b;
      ReplaceAllCharAppend(a[1..], b, c, rep);
    }
  }

  lemma {:induction false} ReplaceAllCharAbsent(s: string, c: char, rep: string)
    requires c !in s
    ensures ReplaceAllChar(s, c, rep) == s
  {
    if s != [] {
      ReplaceAllCharAbsent(s[1..], c, rep);
      assert s == [s[0]] + s[1..];
    }
  }

  /** The five replacements in the server's order: ampersand first, so the
      entities the later steps insert are not escaped again. */
  function EscapeChain(s: string): string
  {
    var s1 := ReplaceAllChar(s, '&', "&amp;");
    var s2 := ReplaceAllChar(s1, '<', "&lt;");
    var s3 := ReplaceAllChar(s2, '>', "&gt;");
    var s4 := ReplaceAllChar(s3, '"', "&quot;");
    ReplaceAllChar(s4, '\'', "&#039;")
  }

  /** `sanitize`: empty input is returned as it is, anything else goes
      through the replacement chain. */
  function Sanitize(s: string): (r: string)
    ensures s == "" ==> r == ""
    ensures '<' !in r && '>' !in r && '"' !in r && '\'' !in r
  {
    if s == "" then s
    else
      SanitizeIsCharwise(s);
      EscapeChain(s)
  }

  /** The entity for one character; every other character stands for itself. */
  function EscapeChar(c: char): string
  {
    match c
    case '&' => "&amp;"
    case '<' => "&lt;"
    case '>' => "&gt;"
    case '"' => "&quot;"
    case '\'' => "&#039;"
    case _ => [c]
  }

  /** The reference escaper: each character mapped on its own. */
  function EscapeCharwise(s: string): (r: string)
    ensures '<' !in r && '>' !in r && '"' !in r && '\'' !in r
    ensures |r| >= |s|
  {
    if s == [] then [] else EscapeChar(s[0]) + EscapeCharwise(s[1..])
  }

  lemma EscapeChainAppend(a: string, b: string)
    ensures EscapeChain(a + b) == EscapeChain(a) + EscapeChain(b)
  {
    var a1, b1 := ReplaceAllChar(a, '&', "&amp;"), ReplaceAllChar(b, '&', "&amp;");
    ReplaceAllCharAppend(a, b, '&', "&amp;");
    var a2, b2 := ReplaceAllChar(a1, '<', "&lt;"), ReplaceAllChar(b1, '<', "&lt;");
    ReplaceAllCharAppend(a1, b1, '<', "&lt;");
    var a3, b3 := ReplaceAllChar(a2, '>', "&gt;"), ReplaceAllChar(b2, '>', "&gt;");
    ReplaceAllCharAppend(a2, b2, '>', "&gt;");
    var a4, b4 := ReplaceAllChar(a3, '"', "&quot;"), ReplaceAllChar(b3, '"', "&quot;");
    ReplaceAllCharAppend(a3, b3, '"', "&quot;");
    ReplaceAllCharAppend(a4, b4, '\'', "&#039;");
  }

  lemma ReplaceAllCharSingle(c: char, d: char, rep: string)
    ensures ReplaceAllChar([c], d, rep) == if c == d then rep else [c]
  {
    assert [c][1..] == [];
  }

  /** The chain applied to one character yields its entity: the entities
      inserted by one step hold none of the characters later steps replace. */
  lemma EscapeChainSingle(c: char)
    ensures EscapeChain([c]) == EscapeChar(c)
  {
    if c == '&' { ChainOfAmpersand(); }
    else if c == '<' { ChainOfLess(); }
    else if c == '>' { ChainOfGreater(); }
    else if c == '"' { ChainOfQuote(); }
    else if c == '\'' { ChainOfApostrophe(); }
    else { ChainOfPlain(c); }
  }

  lemma AmpersandEntityIsInert()
    ensures '<' !in "&amp;" && '>' !in "&amp;" && '"' !in "&amp;" && '\'' !in "&amp;"
  {
    assert "&amp;" == ['&', 'a', 'm', 'p', ';'];
  }

  lemma ChainOfAmpersand()
    ensures EscapeChain(['&']) == "&amp;"
  {
    AmpersandEntityIsInert();
    ReplaceAllCharSingle('&', '&', "&amp;");
    ReplaceAllCharAbsent("&amp;", '<', "&lt;");
    ReplaceAllCharAbsent("&amp;", '>', "&gt;");
    ReplaceAllCharAbsent("&amp;", '"', "&quot;");
    ReplaceAllCharAbsent("&amp;", '\'', "&#039;");
  }

  lemma LessEntityIsInert()
    ensures '>' !in "&lt;" && '"' !in "&lt;" && '\'' !in "&lt;"
  {
    assert "&lt;" == ['&', 'l', 't', ';'];
  }

  lemma ChainOfLess()
    ensures EscapeChain(['<']) == "&lt;"
  {
    LessEntityIsInert();
    ReplaceAllCharSingle('<', '&', "&amp;");
    ReplaceAllCharSingle('<', '<', "&lt;");
    ReplaceAllCharAbsent("&lt;", '>', "&gt;");
    ReplaceAllCharAbsent("&lt;", '"', "&quot;");
    ReplaceAllCharAbsent("&lt;", '\'', "&#039;");
  }

  lemma GreaterEntityIsInert()
    ensures '"' !in "&gt;" && '\'' !in "&gt;"
  {
    assert "&gt;" == ['&', 'g', 't', ';'];
  }

  lemma ChainOfGreater()
    ensures EscapeChain(['>']) == "&gt;"
  {
    GreaterEntityIsInert();
    ReplaceAllCharSingle('>', '&', "&amp;");
    ReplaceAllCharSingle('>', '<', "&lt;");
    ReplaceAllCharSingle('>', '>', "&gt;");
    ReplaceAllCharAbsent("&gt;", '"', "&quot;");
    ReplaceAllCharAbsent("&gt;", '\'', "&#039;");
  }

  lemma QuoteEntityIsInert()
    ensures '\'' !in "&quot;"
  {
    assert "&quot;" == ['&', 'q', 'u', 'o', 't', ';'];
  }

  lemma ChainOfQuote()
    ensures EscapeChain(['"']) == "&quot;"
  {
    QuoteEntityIsInert();
    ReplaceAllCharSingle('"', '&', "&amp;");
    ReplaceAllCharSingle('"', '<', "&lt;");
    ReplaceAllCharSingle('"', '>', "&gt;");
    ReplaceAllCharSingle('"', '"', "&quot;");
    ReplaceAllCharAbsent("&quot;", '\'', "&#039;");
  }

  lemma ChainOfApostrophe()
    ensures EscapeChain(['\'']) == "&#039;"
  {
    ReplaceAllCharSingle('\'', '&', "&amp;");
    ReplaceAllCharSingle('\'', '<', "&lt;");
    ReplaceAllCharSingle('\'', '>', "&gt;");
    ReplaceAllCharSingle('\'', '"', "&quot;");
    ReplaceAllCharSingle('\'', '\'', "&#039;");
  }

  lemma ChainOfPlain(c: char)
    requires c != '&' && c != '<' && c != '>' && c != '"' && c != '\''
    ensures EscapeChain([c]) == [c]
  {
    ReplaceAllCharSingle(c, '&', "&amp;");
    ReplaceAllCharSingle(c, '<', "&lt;");
    ReplaceAllCharSingle(c, '>', "&gt;");
    ReplaceAllCharSingle(c, '"', "&quot;");
    ReplaceAllCharSingle(c, '\'', "&#039;");
  }

  /** The five-step chain is the character-wise map. */
  lemma {:induction false} SanitizeIsCharwise(s: string)
    ensures EscapeChain(s) == EscapeCharwise(s)
  {
    if s != [] {
      assert s == [s[0]] + s[1..];
      EscapeChainAppend([s[0]], s[1..]);
      EscapeChainSingle(s[0]);
      SanitizeIsCharwise(s[1..]);
    }
  }

  lemma {:induction false} EscapeCharwiseAppend(a: string, b: string)
    ensures EscapeCharwise(a + b) == EscapeCharwise(a) + EscapeCharwise(b)
  {
    if a == [] {
      assert a + b == b;
    } else {
      assert (a + b)[0] == a[0];
      assert (a + b)[1..] == a[1..] + b;
      EscapeCharwiseAppend(a[1..], b);
    }
  }

  /** Escaping distributes over concatenation. */
  lemma SanitizeAppend(a: string, b: string)
    ensures Sanitize(a + b) == Sanitize(a) + Sanitize(b)
  {
    SanitizeIsCharwise(a);
    SanitizeIsCharwise(b);
    SanitizeIsCharwise(a + b);
    EscapeCharwiseAppend(a, b);
    if a == [] { assert a + b == b; }
    if b == [] { assert a + b == a; }
  }

  predicate HasNoSpecial(s: string)
  {
    '&' !in s && '<' !in s && '>' !in s && '"' !in s && '\'' !in s
  }

  lemma {:induction false} EscapeCharwiseIdentity(s: string)
    requires HasNoSpecial(s)
    ensures EscapeCharwise(s) == s
  {
    if s != [] {
      assert s == [s[0]] + s[1..];
      EscapeCharwiseIdentity(s[1..]);
    }
  }

  /** Text without any of the five characters is left as it is. */
  lemma SanitizeIdentity(s: string)
    requires HasNoSpecial(s)
    ensures Sanitize(s) == s
  {
    SanitizeIsCharwise(s);
    EscapeCharwiseIdentity(s);
  }

  /** Each of the five characters turns into an entity that starts with an
      ampersand and is longer than the character itself. */
  lemma {:induction false} EscapeCharwiseGrows(s: string)
    requires !HasNoSpecial(s)
    ensures |EscapeCharwise(s)| > |s|
    ensures '&' in EscapeCharwise(s)
  {
    assert s == [s[0]] + s[1..];
    var e := EscapeChar(s[0]);
    assert EscapeCharwise(s) == e + EscapeCharwise(s[1..]);
    if HasNoSpecial([s[0]]) {
      assert e == [s[0]];
      assert !HasNoSpecial(s[1..]);
      EscapeCharwiseGrows(s[1..]);
    } else {
      assert |e| > 1 && e[0] == '&';
    }
  }

  /** Escaping is not idempotent: text holding any of the five characters
      changes again when escaped a second time, as "&lt;" becomes
      "&amp;lt;". */
  lemma SanitizeNotIdempotent(s: string)
    requires !HasNoSpecial(s)
    ensures Sanitize(Sanitize(s)) != Sanitize(s)
  {
    SanitizeIsCharwise(s);
    EscapeCharwiseGrows(s);
    var t := Sanitize(s);
    SanitizeIsCharwise(t);
    EscapeCharwiseGrows(t);
  }

  /** An ampersand is escaped whatever follows it. */
  lemma SanitizeAmpersand(rest: string)
    ensures Sanitize(['&'] + rest) == "&amp;" + Sanitize(rest)
  {
    SanitizeIsCharwise(['&'] + rest);
    SanitizeIsCharwise(rest);
    assert (['&'] + rest)[0] == '&' && (['&'] + rest)[1..] == rest;
  }

  // ---------------------------------------------------------------------------
  // Routing
  // ---------------------------------------------------------------------------

  /** The blueprint id of a request path: present exactly when the path
      splits at '/' into three pieces whose middle one is "blueprints". */
  function RouteId(path: string): (r: Option<string>)
    ensures r.Some? <==> |Split(path, '/')| == 3 && Split(path, '/')[1] == "blueprints"
    ensures r.Some? ==> r.value == Split(path, '/')[2] && '/' !in r.value
  {
    var segs := Split(path, '/');
    if |segs| == 3 && segs[1] == "blueprints" then Some(segs[2]) else None
  }

  /** A path is routed to a blueprint exactly when it is `/blueprints/<id>`
      (or the same with any text before the first slash) for an id without
      slashes; that id is the one extracted. */
  lemma RouteIdRoundTrip(path: string, id: string)
    ensures RouteId(path) == Some(id) <==> exists pre :: path == pre + "/blueprints/" + id && '/' !in pre && '/' !in id
  {
    if RouteId(path) == Some(id) {
      var segs := Split(path, '/');
      JoinSplit(path, '/');
      assert path == Join(segs, '/');
      assert Join(segs, '/') == segs[0] + "/" + Join(segs[1..], '/');
      assert Join(segs[1..], '/') == segs[1] + "/" + Join(segs[2..], '/');
      assert segs[2..] == [id];
      assert path == segs[0] + "/blueprints/" + id;
    }
    if exists pre :: path == pre + "/blueprints/" + id && '/' !in pre && '/' !in id {
      var pre :| path == pre + "/blueprints/" + id && '/' !in pre && '/' !in id;
      RoutePathSplits(pre, id);
    }
  }

  lemma RoutePathSplits(pre: string, id: string)
    requires '/' !in pre && '/' !in id
    ensures RouteId(pre + "/blueprints/" + id) == Some(id)
  {
    var parts := [pre, "blueprints", id];
    assert '/' !in "blueprints" by {
      assert "blueprints" == ['b', 'l', 'u', 'e', 'p', 'r', 'i', 'n', 't', 's'];
    }
    SplitJoin(parts, '/');
    assert Join(parts, '/') == pre + "/" + ("blueprints" + "/" + id) by {
      assert Join(parts[2..], '/') == id;
    }
    assert pre + "/blueprints/" + id == pre + "/" + ("blueprints" + "/" + id);
  }

  /** A blueprint page path, and the same path with an empty id, which is
      routed too (the lookup then fails). */
  lemma RouteIdExamples()
    ensures RouteId("/blueprints/abc") == Some("abc")
    ensures RouteId("/blueprints/") == Some("")
  {
    RoutePathSplits("", "abc");
    RoutePathSplits("", "");
    assert "" + "/blueprints/" + "abc" == "/blueprints/abc";
    assert "" + "/blueprints/" + "" == "/blueprints/";
  }

  // ---------------------------------------------------------------------------
  // Meta tags
  // ---------------------------------------------------------------------------

  /** One head element: `<meta name=…>`, `<meta property=…>` or `<title>`. */
  datatype MetaTag =
    | MetaName(name: string, content: string)
    | MetaProperty(property: string, content: string)
    | Title(text: string)

  function Render(t: MetaTag): string
  {
    match t
    case MetaName(n, c) => "<meta name=\"" + n + "\" content=\"" + c + "\" data-rh=\"true\"/>"
    case MetaProperty(p, c) => "<meta property=\"" + p + "\" content=\"" + c + "\" data-rh=\"true\"/>"
    case Title(x) => "<title data-rh=\"true\">" + x + "</title>"
  }

  function RenderAll(ts: seq<MetaTag>): string
  {
    if ts == [] then "" else Render(ts[0]) + RenderAll(ts[1..])
  }

  const Tagline: string := "Captain of Industry blueprints directory and other tools."

  const BaseMeta: seq<MetaTag> := [
    MetaName("description", Tagline),
    MetaName("twitter:description", Tagline),
    MetaProperty("og:description", Tagline)
  ]

  const DefaultMeta: seq<MetaTag> := BaseMeta + [
    MetaName("twitter:title", Tagline),
    MetaProperty("og:title", Tagline),
    Title("The CoI Pond | Captain of Industry blueprints")
  ]

  /** The stored fields the server reads; `name` may be missing. */
  datatype Found = Found(name: Option<string>, screenshotUrl: Option<string>)

  /** Outcome of the record lookup. */
  datatype Lookup = DocFound(data: Found) | DocMissing | LookupFailed

  const TitlePrefix: string := "The CoI Pond | "
  const MissingName: string := "undefined"

  /** The fixed texts around the escaped name hold no character that would
      need escaping. */
  lemma TitlePrefixIsSafe()
    ensures HasNoSpecial(TitlePrefix)
  {
    assert TitlePrefix == ['T', 'h', 'e', ' ', 'C', 'o', 'I', ' ', 'P', 'o', 'n', 'd', ' ', '|', ' '];
  }

  lemma MissingNameIsSafe()
    ensures HasNoSpecial(MissingName)
  {
    assert MissingName == ['u', 'n', 'd', 'e', 'f', 'i', 'n', 'e', 'd'];
  }

  /** The page title: the escaped name, or the text "undefined" when the
      record has no name. Whatever the name, the title holds no quote and no
      angle bracket. */
  function PageTitle(name: Option<string>): (t: string)
    ensures name.Some? ==> t == TitlePrefix + Sanitize(name.value)
    ensures name.None? ==> t == TitlePrefix + MissingName
    ensures '<' !in t && '>' !in t && '"' !in t
  {
    TitlePrefixIsSafe();
    MissingNameIsSafe();
    TitlePrefix + (if name.Some? then Sanitize(name.value) else MissingName)
  }

  /** The tags of a found blueprint: the base description tags, the title in
      three places, the card type (large image exactly when the screenshot
      URL is non-empty), and the three image tags only in that case. */
  function BlueprintMeta(data: Found): (ts: seq<MetaTag>)
    ensures |ts| == if Truthy(data.screenshotUrl) then 10 else 7
    ensures ts[..3] == BaseMeta
    ensures ts[6] == MetaName("twitter:card", if Truthy(data.screenshotUrl) then "summary_large_image" else "summary")
    ensures forall i :: 3 <= i < 6 ==> (if ts[i].Title? then ts[i].text else ts[i].content) == PageTitle(data.name)
    ensures Truthy(data.screenshotUrl) ==>
      ts[7] == MetaName("twitter:image", data.screenshotUrl.value)
      && ts[9] == MetaProperty("og:image", data.screenshotUrl.value)
  {
    var title := PageTitle(data.name);
    var card := if Truthy(data.screenshotUrl) then "summary_large_image" else "summary";
    var head := BaseMeta + [
      MetaName("twitter:title", title),
      MetaProperty("og:title", title),
      Title(title),
      MetaName("twitter:card", card)
    ];
    if Truthy(data.screenshotUrl) then
      head + [
        MetaName("twitter:image", data.screenshotUrl.value),
        MetaName("twitter:image:alt", "Blueprint screenshot"),
        MetaProperty("og:image", data.screenshotUrl.value)
      ]
    else head
  }

  /** The stored name reaches the tags only through the escaped title, so it
      cannot end an attribute value or the title element; the screenshot URL
      is the one stored text placed verbatim, and only in the image tags. */
  lemma BlueprintMetaEscapes(data: Found)
    ensures forall t :: t in BlueprintMeta(data) && t.Title? ==>
      t.text == PageTitle(data.name) && '<' !in t.text && '>' !in t.text
    ensures forall t :: t in BlueprintMeta(data) && !t.Title? ==>
      || t in BaseMeta
      || (t.content == PageTitle(data.name) && '"' !in t.content)
      || t.content in {"summary", "summary_large_image", "Blueprint screenshot"}
      || (Truthy(data.screenshotUrl) && t.content == data.screenshotUrl.value
          && (t == MetaName("twitter:image", t.content) || t == MetaProperty("og:image", t.content)))
  {
  }

  /** The tags for a request: the default tags unless the path names a
      blueprint that the lookup found. */
  function MetaFor(path: string, lookup: Lookup): (ts: seq<MetaTag>)
    ensures RouteId(path).None? ==> ts == DefaultMeta
    ensures RouteId(path).Some? && !lookup.DocFound? ==> ts == DefaultMeta
    ensures RouteId(path).Some? && lookup.DocFound? ==> ts == BlueprintMeta(lookup.data)
  {
    if RouteId(path).None? then DefaultMeta
    else match lookup
      case DocFound(data) => BlueprintMeta(data)
      case DocMissing => DefaultMeta
      case LookupFailed => DefaultMeta
  }

  const Placeholder: string := "__META_TAGS__"

  datatype Response = NotFound404 | Page(body: string)

  /** Serving a page: a missing template is a 404; otherwise the first
      placeholder occurrence is replaced by the rendered tags. */
  function Serve(path: string, lookup: Lookup, template: Option<string>): (r: Response)
    ensures r == NotFound404 <==> template.None?
    ensures template.Some? && IndexOf(template.value, Placeholder) < 0 ==> r == Page(template.value)
    ensures template.Some? && IndexOf(template.value, Placeholder) >= 0 ==>
      var i := IndexOf(template.value, Placeholder);
      r == Page(template.value[..i] + RenderAll(MetaFor(path, lookup)) + template.value[i + |Placeholder|..])
  {
    match template
    case None => NotFound404
    case Some(html) => Page(ReplaceFirst(html, Placeholder, RenderAll(MetaFor(path, lookup))))
  }

  /** The card type is the large-image one exactly when the record has a
      non-empty screenshot URL; the default tags carry no card type. */
  lemma CardTypeFollowsScreenshot(data: Found)
    ensures BlueprintMeta(data)[6].content == "summary_large_image" <==> Truthy(data.screenshotUrl)
    ensures forall t :: t in DefaultMeta ==> t.Title? || t.content == Tagline
  {
  }
}
