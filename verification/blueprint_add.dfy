/** The "Add blueprint" page: the form state and its effects, the preview
    record shown beside the form, the submit gate, and the submit itself
    (screenshot upload under a path derived from the file name, then the
    record write). */
module NewBlueprint {
  import opened Wrappers
  import opened JsStrings
  import opened Folders
  import opened Records

  /** A selected screenshot file. */
  datatype File = File(name: string, size: int)

  const MaxScreenshotBytes: int := 5 * 1024 * 1024
  const NameMaxLength: nat := 50

  const FileTooLarge: string := "Screenshot too large (max 5 MB)"
  const CouldNotParse: string := "Could not parse blueprint string"

  /** The form's state. `parsed` is the last successful parse; the text the
      parser sees is supplied with each input event. */
  datatype AddForm = AddForm(
    user: Option<User>,
    name: string,
    description: string,
    blueprint: string,
    file: Option<File>,
    parsed: Option<Parsed>,
    blueprintError: string,
    fileError: string)

  function EmptyForm(user: Option<User>): AddForm
  {
    AddForm(user, "", "", "", None, None, "", "")
  }

  /** Typing in the name field: the input accepts at most fifty characters. */
  function OnNameInput(form: AddForm, typed: string): (f: AddForm)
    ensures |f.name| <= NameMaxLength
    ensures f.name == if |typed| <= NameMaxLength then typed else typed[..NameMaxLength]
    ensures f == form.(name := f.name)
  {
    form.(name := if |typed| <= NameMaxLength then typed else typed[..NameMaxLength])
  }

  /** Choosing a screenshot: the size check only sets an error message. */
  function OnFileSelected(form: AddForm, file: Option<File>): (f: AddForm)
    ensures f.file == file
    ensures f.fileError != "" <==> file.Some? && file.value.size > MaxScreenshotBytes
    ensures f == form.(file := file, fileError := f.fileError)
  {
    form.(file := file,
          fileError := if file.Some? && file.value.size > MaxScreenshotBytes then FileTooLarge else "")
  }

  /** Typing in the blueprint field, as written: the text is stored trimmed;
      when the trimmed text changed, the parse effect clears the error and,
      for non-empty text, stores the parser's outcome `parse` (clearing the
      previous parse and setting an error when it fails). Empty text leaves
      the previous parse in place. */
  function OnBlueprintInput(form: AddForm, raw: string, parse: Option<Parsed>): (f: AddForm)
    ensures f.blueprint == Trim(raw)
    ensures f.blueprint == form.blueprint ==> f == form
    ensures f.blueprint != form.blueprint && f.blueprint != "" ==>
      f.parsed == parse && (f.blueprintError != "" <==> parse.None?)
    ensures f.blueprint != form.blueprint && f.blueprint == "" ==>
      f.parsed == form.parsed && f.blueprintError == ""
    ensures f == form.(blueprint := f.blueprint, parsed := f.parsed, blueprintError := f.blueprintError)
  {
    var text := Trim(raw);
    if text == form.blueprint then form
    else if text == "" then form.(blueprint := text, blueprintError := "")
    else match parse
      case Some(p) => form.(blueprint := text, parsed := Some(p), blueprintError := "")
      case None => form.(blueprint := text, parsed := None, blueprintError := CouldNotParse)
  }

  /** The corrected parse effect: empty text also drops the previous parse. */
  function OnBlueprintInputIntended(form: AddForm, raw: string, parse: Option<Parsed>): (f: AddForm)
    ensures f.blueprint == Trim(raw)
    ensures f.blueprint == "" ==> f.parsed.None?
    ensures f.blueprint != form.blueprint && f.blueprint != "" ==>
      f.parsed == parse && (f.blueprintError != "" <==> parse.None?)
    ensures f.blueprint != "" ==> f == OnBlueprintInput(form, raw, parse)
  {
    var f := OnBlueprintInput(form, raw, parse);
    if f.blueprint == "" then f.(parsed := None) else f
  }

  /** The submit button is disabled while name, description or a parse is
      missing. The screenshot size error does not take part. */
  predicate SubmitDisabled(form: AddForm)
  {
    form.name == "" || form.description == "" || form.parsed.None?
  }

  /** An oversized screenshot shows an error but leaves the submit gate as it
      was. */
  lemma FileSizeDoesNotGateSubmit(form: AddForm, file: File)
    requires file.size > MaxScreenshotBytes
    ensures OnFileSelected(form, Some(file)).fileError == FileTooLarge
    ensures SubmitDisabled(OnFileSelected(form, Some(file))) <==> SubmitDisabled(form)
  {
  }

  /** The preview record: none without a user or a parse; otherwise the
      parse's kind, the blueprint's own version or the folder minimum (whose
      failure propagates), "<NAME>" for an empty name, zero counters and one
      timestamp `now` for both creation and update. */
  function Preview(form: AddForm, now: Time): (r: Result<Option<Record>, MinVersionError>)
    ensures r == Ok(None) <==> (form.user.None? || form.parsed.None?)
    ensures r.Err? <==> (form.user.Some? && form.parsed.Some? && form.parsed.value.Group?
                         && GetMinGameVersion(form.parsed.value.folder).Err?)
    ensures r.Err? ==> r.error == GetMinGameVersion(form.parsed.value.folder).error
  {
    if form.user.None? || form.parsed.None? then Ok(None)
    else
      var p := form.parsed.value;
      var gv := if p.Single? then Ok(p.bp.gameVersion) else GetMinGameVersion(p.folder);
      match gv
      case Err(e) => Err(e)
      case Ok(v) =>
        var u := form.user.value;
        Ok(Some(Record(
          u.uid,
          if Truthy(u.displayName) then u.displayName.value else "",
          KindCode(p),
          if form.name != "" then form.name else "<NAME>",
          form.description,
          form.blueprint,
          v,
          0, 0, now, now, None)))
  }

  /** What a built preview record holds, field by field. */
  lemma PreviewRecord(form: AddForm, now: Time)
    requires Preview(form, now).Ok? && Preview(form, now).value.Some?
    ensures var d := Preview(form, now).value.value;
      && form.user.Some? && form.parsed.Some?
      && d.uid == form.user.value.uid
      && (d.username == "" <==> !Truthy(form.user.value.displayName))
      && (d.kind == "f" <==> form.parsed.value.Group?)
      && (d.name == "<NAME>" <==> form.name == "" || form.name == "<NAME>")
      && (form.name != "" ==> d.name == form.name)
      && d.description == form.description && d.blueprint == form.blueprint
      && (form.parsed.value.Single? ==> d.gameVersion == form.parsed.value.bp.gameVersion)
      && (form.parsed.value.Group? ==> Ok(d.gameVersion) == GetMinGameVersion(form.parsed.value.folder))
      && d.views == 0 && d.downloads == 0 && d.created == d.updated == now
      && d.screenshotUrl.None?
  {
  }

  /** A folder's preview version is the least leaf version of the folder. */
  lemma PreviewFolderVersionIsLeast(form: AddForm, now: Time)
    requires Preview(form, now).Ok? && Preview(form, now).value.Some?
    requires form.parsed.Some? && form.parsed.value.Group?
    requires "" !in TreeVersions(form.parsed.value.folder)
    ensures IsLeast(Preview(form, now).value.value.gameVersion, TreeVersions(form.parsed.value.folder))
  {
    MinGameVersionIsLeast(form.parsed.value.folder);
  }

  /** The object path of an uploaded screenshot: the new record's id and the
      file name's text after its last dot (the whole name when it has none). */
  function ScreenshotPath(id: Id, fileName: string): (path: string)
    ensures |path| >= |id| + 13 && path[..|id| + 13] == "/blueprints/" + id + "."
    ensures '.' !in path[|id| + 13..]
    ensures '.' !in fileName ==> path[|id| + 13..] == fileName
    ensures '.' in fileName ==>
      var ext := path[|id| + 13..];
      |ext| < |fileName| && fileName == fileName[..|fileName| - |ext| - 1] + "." + ext
  {
    var ext := AfterLast(fileName, '.');
    var path := "/blueprints/" + id + "." + ext;
    assert path[|id| + 13..] == ext;
    path
  }

  /** The extension is the text after the last dot only: "shot.final.png"
      is stored as `<id>.png`. */
  lemma ScreenshotPathOfDottedName(id: Id, stem: string, ext: string)
    requires '.' !in ext
    ensures ScreenshotPath(id, stem + "." + ext) == "/blueprints/" + id + "." + ext
  {
    AfterLastOfSuffix(stem, '.', ext);
  }

  /** A name without a dot is used whole as the extension: "shot" is stored
      as `<id>.shot`. */
  lemma ScreenshotPathOfPlainName(id: Id, name: string)
    requires '.' !in name
    ensures ScreenshotPath(id, name) == "/blueprints/" + id + "." + name
  {
  }

  /** Outcome of storing a chosen screenshot: the object is uploaded and its
      download URL fetched; the upload is rejected; or the upload succeeds
      and fetching its URL is rejected. */
  datatype UploadOutcome = Uploaded | UploadRejected | UrlRejected

  datatype SubmitOutcome = NoUser | UploadFailed | UrlFailed | WriteFailed | Created(id: Id)

  /** Submitting under a fresh record id `id`: without a user nothing
      happens; with a file the screenshot is stored first (`upload`), as the
      object at `ScreenshotPath(id, file name)`, which the object store knows
      by the download URL the storage service issues for it (`downloadUrl`);
      then the record is written (`writeOk`) with both timestamps set to
      `now` and, with a file, that URL. A rejected URL fetch or a failed write
      leaves the uploaded object behind. A missing preview would write a
      document with the two timestamps only, which a record cannot hold; the
      record map is then left as it was. */
  function Submit(st: Store, form: AddForm, preview: Option<Record>, id: Id, now: Time,
                  upload: UploadOutcome, downloadUrl: string, writeOk: bool): (r: (Store, SubmitOutcome))
    ensures r.1 == NoUser <==> form.user.None?
    ensures r.1 == UploadFailed <==> form.user.Some? && form.file.Some? && upload == UploadRejected
    ensures r.1 == UrlFailed <==> form.user.Some? && form.file.Some? && upload == UrlRejected
    ensures r.1 == NoUser || r.1 == UploadFailed ==> r.0 == st
    ensures r.1 == UrlFailed ==> r.0 == st.(blobs := st.blobs + {downloadUrl})
    ensures r.1 != Created(id) ==> r.0.records == st.records
    ensures r.0.ledgers == st.ledgers
  {
    if form.user.None? then (st, NoUser)
    else
      var blobs := if form.file.Some? then st.blobs + {downloadUrl} else st.blobs;
      if form.file.Some? && upload == UploadRejected then (st, UploadFailed)
      else if form.file.Some? && upload == UrlRejected then (st.(blobs := blobs), UrlFailed)
      else if !writeOk then (st.(blobs := blobs), WriteFailed)
      else match preview
        case None => (st.(blobs := blobs), Created(id))
        case Some(doc) =>
          var newDoc := doc.(created := now, updated := now,
                             screenshotUrl := if form.file.Some? then Some(downloadUrl) else doc.screenshotUrl);
          (st.(blobs := blobs, records := st.records[id := newDoc]), Created(id))
  }

  /** A created record is the preview with fresh timestamps and, exactly when
      a file was chosen, the uploaded screenshot's URL; no other record
      changes. */
  lemma SubmitCreatesPreview(st: Store, form: AddForm, doc: Record, id: Id, now: Time,
                             upload: UploadOutcome, downloadUrl: string, writeOk: bool)
    requires Submit(st, form, Some(doc), id, now, upload, downloadUrl, writeOk).1 == Created(id)
    ensures var st' := Submit(st, form, Some(doc), id, now, upload, downloadUrl, writeOk).0;
      && id in st'.records
      && st'.records[id] == doc.(created := now, updated := now,
           screenshotUrl := if form.file.Some? then Some(downloadUrl) else doc.screenshotUrl)
      && (forall k :: k != id ==> (k in st'.records <==> k in st.records))
      && (forall k :: k in st.records && k != id ==> st'.records[k] == st.records[k])
      && (form.file.Some? ==> st'.blobs == st.blobs + {downloadUrl})
      && (form.file.None? ==> st'.blobs == st.blobs)
      && writeOk && (form.file.Some? ==> upload == Uploaded)
  {
  }

  /** A submit never writes a ledger, so under a fresh id (one without a
      ledger, as every generated document id is) the co-commit invariant
      survives it. */
  lemma SubmitPreservesConsistency(st: Store, form: AddForm, preview: Option<Record>, id: Id, now: Time,
                                   upload: UploadOutcome, downloadUrl: string, writeOk: bool)
    requires Consistent(st) && id !in st.ledgers
    ensures Consistent(Submit(st, form, preview, id, now, upload, downloadUrl, writeOk).0)
  {
  }

  /** Submitting the page's own preview stores the typed blueprint under the
      signed-in user, with the parse's kind and, for a folder whose leaf
      versions are all non-empty, the least leaf version. */
  lemma SubmitWritesPreview(st: Store, form: AddForm, t: Time, id: Id, now: Time,
                            upload: UploadOutcome, downloadUrl: string, writeOk: bool)
    requires Preview(form, t).Ok? && Preview(form, t).value.Some?
    requires Submit(st, form, Preview(form, t).value, id, now, upload, downloadUrl, writeOk).1 == Created(id)
    ensures var st' := Submit(st, form, Preview(form, t).value, id, now, upload, downloadUrl, writeOk).0;
      && id in st'.records
      && st'.records[id].uid == form.user.value.uid
      && st'.records[id].blueprint == form.blueprint
      && st'.records[id].kind == KindCode(form.parsed.value)
      && st'.records[id].created == st'.records[id].updated == now
      && (form.parsed.value.Group? && "" !in TreeVersions(form.parsed.value.folder) ==>
            IsLeast(st'.records[id].gameVersion, TreeVersions(form.parsed.value.folder)))
  {
    PreviewRecord(form, t);
    SubmitCreatesPreview(st, form, Preview(form, t).value.value, id, now, upload, downloadUrl, writeOk);
    if form.parsed.value.Group? && "" !in TreeVersions(form.parsed.value.folder) {
      PreviewFolderVersionIsLeast(form, t);
    }
  }

  // ---------------------------------------------------------------------------
  // The stale parse left by clearing the blueprint field
  // ---------------------------------------------------------------------------

  /** Clearing the blueprint field, as written: the previous parse stays,
      so the submit gate is exactly as open as before, now with an empty
      blueprint field, which the preview (see `PreviewRecord`) copies into the
      record to be written. */
  lemma ClearingKeepsStaleParse(form: AddForm, raw: string, parse: Option<Parsed>)
    requires form.blueprint != "" && Trim(raw) == ""
    ensures var f := OnBlueprintInput(form, raw, parse);
      && f.blueprint == "" && f.parsed == form.parsed
      && (SubmitDisabled(f) <==> SubmitDisabled(form))
  {
  }

  /** A run that shows it: with name and description filled in, text that
      parses (such as "X") is entered and the field is then cleared (or left
      holding only whitespace); the gate is open with an empty blueprint. */
  lemma StaleParseAfterClearing(f0: AddForm, text: string, p: Parsed, cleared: string)
    requires f0.name != "" && f0.description != ""
    requires Trim(text) != "" && Trim(text) != f0.blueprint && Trim(cleared) == ""
    ensures var f2 := OnBlueprintInput(OnBlueprintInput(f0, text, Some(p)), cleared, None);
      && f2.blueprint == "" && f2.parsed == Some(p)
      && !SubmitDisabled(f2)
  {
    var f1 := OnBlueprintInput(f0, text, Some(p));
    assert f1.parsed == Some(p) && !SubmitDisabled(f1);
    ClearingKeepsStaleParse(f1, cleared, None);
  }

  /** The text "X" and the empty text meet the conditions above. */
  lemma StaleParseWitness()
    ensures Trim("X") == "X" && Trim("") == ""
  {
    TrimKeepsTrimmed("X");
    TrimKeepsTrimmed("");
  }

  /** The corrected form never holds a parse for an empty blueprint field. */
  predicate ParseHasText(form: AddForm)
  {
    form.parsed.Some? ==> form.blueprint != ""
  }

  /** The corrected effect keeps the invariant from any state that has it,
      so an open submit gate always comes with a non-empty blueprint. */
  lemma IntendedInputKeepsParseHasText(form: AddForm, raw: string, parse: Option<Parsed>)
    requires ParseHasText(form)
    ensures ParseHasText(OnBlueprintInputIntended(form, raw, parse))
    ensures !SubmitDisabled(OnBlueprintInputIntended(form, raw, parse)) ==>
      OnBlueprintInputIntended(form, raw, parse).blueprint != ""
  {
  }

  /** The as-written effect does not keep it. */
  lemma AsWrittenInputBreaksParseHasText(p: Parsed)
    ensures var f := EmptyForm(None).(blueprint := "X", parsed := Some(p));
      ParseHasText(f) && !ParseHasText(OnBlueprintInput(f, "", None))
  {
    TrimKeepsTrimmed("");
  }
}
