/** The blueprint card shown in lists and previews: which image it shows,
    whether it links to the blueprint's page and offers a share URL, how the
    version line is labelled, and where the copied blueprint text comes
    from. */
module Card {
  import opened Wrappers
  import opened Records
  import Folders
  import Listing
  import MetaServer

  /** What a card is built from: a stored record (a preview or a page) or a
      search hit. */
  datatype CardSource = FromRecord(rec: Record) | FromHit(hit: Listing.Hit)

  function ScreenshotUrlOf(src: CardSource): Option<string>
  {
    match src
    case FromRecord(r) => r.screenshotUrl
    case FromHit(h) => h.screenshotUrl
  }

  /** The kind code; search hits may lack it. */
  function KindOf(src: CardSource): Option<string>
  {
    match src
    case FromRecord(r) => Some(r.kind)
    case FromHit(h) => h.kind
  }

  const NoScreenshot: string := "/noscreenshot.png"

  /** The image shown: a non-empty override first; then the placeholder when
      the card has no (or an empty) id or the source no (or an empty)
      screenshot URL; otherwise the stored screenshot URL. */
  function ScreenshotSrc(override: Option<string>, blueprintId: Option<Id>, src: CardSource): string
  {
    if Truthy(override) then override.value
    else if !Truthy(blueprintId) || !Truthy(ScreenshotUrlOf(src)) then NoScreenshot
    else ScreenshotUrlOf(src).value
  }

  /** The three-way precedence, each case stated as an equivalence. */
  lemma ScreenshotPrecedence(override: Option<string>, blueprintId: Option<Id>, src: CardSource)
    ensures Truthy(override) ==> ScreenshotSrc(override, blueprintId, src) == override.value
    ensures !Truthy(override) ==>
      (ScreenshotSrc(override, blueprintId, src) == NoScreenshot
       <==> !Truthy(blueprintId) || !Truthy(ScreenshotUrlOf(src)) || ScreenshotUrlOf(src).value == NoScreenshot)
    ensures !Truthy(override) && Truthy(blueprintId) && Truthy(ScreenshotUrlOf(src)) ==>
      ScreenshotSrc(override, blueprintId, src) == ScreenshotUrlOf(src).value
    ensures ScreenshotSrc(override, blueprintId, src) != ""
  {
  }

  /** The card's link: present exactly when an id is given, even an empty
      one. */
  function CardLink(blueprintId: Option<Id>): (r: Option<string>)
    ensures r.Some? <==> blueprintId.Some?
    ensures r.Some? ==> r.value == "/blueprints/" + blueprintId.value
  {
    match blueprintId
    case None => None
    case Some(id) => Some("/blueprints/" + id)
  }

  /** The share button and the URL it copies: present exactly when an id is
      given; the URL is the page origin followed by the card's link. */
  function ShareUrl(origin: string, blueprintId: Option<Id>): (r: Option<string>)
  {
    if blueprintId.Some? then Some(origin + "/blueprints/" + blueprintId.value) else None
  }

  lemma LinkAndShareAgree(origin: string, blueprintId: Option<Id>)
    ensures ShareUrl(origin, blueprintId).Some? <==> CardLink(blueprintId).Some?
    ensures CardLink(blueprintId).Some? ==> ShareUrl(origin, blueprintId).value == origin + CardLink(blueprintId).value
  {
  }

  /** The link and the image test the id differently: an empty id still
      links (to `/blueprints/`), yet the image falls back to the
      placeholder. */
  lemma EmptyIdAsymmetry(src: CardSource)
    ensures CardLink(Some("")).Some?
    ensures ScreenshotSrc(None, Some(""), src) == NoScreenshot
  {
  }

  /** A card without an id (the preview on the add page) neither links nor
      shares, and shows the override or the placeholder. */
  lemma CardWithoutId(origin: string, override: Option<string>, src: CardSource)
    ensures CardLink(None).None? && ShareUrl(origin, None).None?
    ensures ScreenshotSrc(override, None, src) == if Truthy(override) then override.value else NoScreenshot
  {
  }

  /** A list card links to a path that the page server routes back to the
      same blueprint, for every id without a slash. */
  lemma CardLinkRoutesBack(id: Id)
    requires '/' !in id
    ensures MetaServer.RouteId(CardLink(Some(id)).value) == Some(id)
  {
    MetaServer.RoutePathSplits("", id);
    assert "" + "/blueprints/" + id == "/blueprints/" + id;
  }

  datatype Icon = FolderIcon | BlueprintIcon

  /** The avatar: the folder icon exactly for kind "f". */
  function KindIcon(src: CardSource): (i: Icon)
    ensures i == FolderIcon <==> KindOf(src) == Some("f")
  {
    if KindOf(src) == Some("f") then FolderIcon else BlueprintIcon
  }

  /** The label of the version line: "Min version:" exactly for kind "f",
      "Version:" otherwise, including a hit without a kind. */
  function KindLabel(src: CardSource): (l: string)
    ensures l == "Min version:" || l == "Version:"
    ensures l == "Min version:" <==> KindOf(src) == Some("f")
  {
    if KindOf(src) == Some("f") then "Min version:" else "Version:"
  }

  /** Icon and label always agree, and a card built from a saved folder
      shows the folder icon. */
  lemma IconMatchesLabel(src: CardSource, p: Folders.Parsed)
    ensures KindIcon(src) == FolderIcon <==> KindLabel(src) == "Min version:"
    ensures src.FromRecord? && src.rec.kind == KindCode(p) ==> (KindIcon(src) == FolderIcon <==> p.Group?)
    ensures src.FromHit? && src.hit.kind.None? ==> KindLabel(src) == "Version:"
  {
  }

  /** The text the copy button copies: a record's own blueprint; for a hit,
      the blueprint of the record fetched by its id (`fetched`), or an error
      when that record is missing. */
  function CopyText(src: CardSource, fetched: Option<Record>): (r: Result<string, ()>)
    ensures src.FromRecord? ==> r == Ok(src.rec.blueprint)
    ensures src.FromHit? ==> (r.Err? <==> fetched.None?)
    ensures src.FromHit? && fetched.Some? ==> r == Ok(fetched.value.blueprint)
  {
    match src
    case FromRecord(rec) => Ok(rec.blueprint)
    case FromHit(_) => if fetched.Some? then Ok(fetched.value.blueprint) else Err(())
  }
}
