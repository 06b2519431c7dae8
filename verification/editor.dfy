/** The featured-tiles editor as a state machine (admin/featured-manager.js):
    the nine tiles, the last imported document (`importedData`) and the
    draft slot in local storage, with one transition per user action. */
module Editor {
  import opened Json
  import opened Text
  import opened Tiles
  import opened Entries
  import opened Merge
  import opened Persistence
  import opened Export

  /** `imported` is `importedData`: `Falsy` until an import parses, and
      after an import of a falsy value such as `null`. */
  datatype State = State(tiles: seq<Tile>, imported: Document, storage: Storage)

  /** The status-bar messages the core can leave on screen. */
  datatype Notice =
    | Ready
    | Imported
    | ImportFailed
    | NoImportedData
    | ResetDone
    | DraftCleared
    | ExportedWithImages(count: nat)
    | ExportedDocumentOnly

  /** A transition's new state and the message it shows, if any. */
  datatype Step = Step(state: State, notice: Option<Notice>)

  predicate Valid(st: State) {
    WellFormed(st.tiles)
  }

  /** The stored draft is exactly what saving the current tiles would write. */
  predicate Mirrored(st: State) {
    st.storage == Save(st.tiles)
  }

  /** `init()`: build the nine tiles, apply any saved draft, report ready.
      The "draft loaded" message is replaced at once by the ready one. */
  function Init(storage: Storage): (r: Step)
    ensures Valid(r.state) && r.state.imported == Falsy && r.state.storage == storage
    ensures storage.Empty? || storage.text.Malformed? ==> r.state.tiles == InitialTiles()
    ensures forall k :: 0 <= k < |r.state.tiles| ==> r.state.tiles[k].imageFile.None?
    ensures r.notice == Some(Ready)
  {
    var loaded := Load(InitialTiles(), storage);
    Step(State(loaded.tiles, Falsy, storage), Some(Ready))
  }

  // ---------------------------------------------------------------- edits

  /** The four text inputs of a tile editor. */
  datatype TextField = Title | Price | Url | RemoteImage

  function TextOf(t: Tile, f: TextField): string {
    match f
    case Title => t.title
    case Price => t.price
    case Url => t.url
    case RemoteImage => t.remoteImage
  }

  function WithText(t: Tile, f: TextField, v: string): Tile {
    match f
    case Title => t.(title := v)
    case Price => t.(price := v)
    case Url => t.(url := v)
    case RemoteImage => t.(remoteImage := v)
  }

  /** An `input` event on one text field: that field takes the typed value,
      nothing else changes, and the draft is saved. */
  function SetText(st: State, i: nat, f: TextField, v: string): (r: State)
    requires i < |st.tiles|
    ensures |r.tiles| == |st.tiles| && TextOf(r.tiles[i], f) == v
    ensures forall g :: g != f ==> TextOf(r.tiles[i], g) == TextOf(st.tiles[i], g)
    ensures var (a, b) := (r.tiles[i], st.tiles[i]);
      && a.id == b.id && a.mode == b.mode && a.localImage == b.localImage
      && a.imageFile == b.imageFile && a.imagePreview == b.imagePreview
    ensures forall k :: 0 <= k < |st.tiles| && k != i ==> r.tiles[k] == st.tiles[k]
    ensures r.imported == st.imported && Mirrored(r)
  {
    var tiles := st.tiles[i := WithText(st.tiles[i], f, v)];
    State(tiles, st.imported, Save(tiles))
  }

  /** The two mode buttons. */
  datatype Mode = Local | Remote

  function ModeName(m: Mode): string {
    match m
    case Local => LOCAL
    case Remote => REMOTE
  }

  /** A mode button click: only the mode changes (the remote URL, local
      path, file and preview of the other mode are kept), then a save. */
  function SetMode(st: State, i: nat, m: Mode): (r: State)
    requires i < |st.tiles|
    ensures |r.tiles| == |st.tiles| && r.tiles[i].mode == ModeName(m)
    ensures r.tiles[i].(mode := st.tiles[i].mode) == st.tiles[i]
    ensures forall k :: 0 <= k < |st.tiles| && k != i ==> r.tiles[k] == st.tiles[k]
    ensures r.imported == st.imported && Mirrored(r)
  {
    var tiles := st.tiles[i := st.tiles[i].(mode := ModeName(m))];
    State(tiles, st.imported, Save(tiles))
  }

  /** A `change` on the file input: a chosen file is attached at once and is
      not saved (the draft has no place for it); the preview arrives later
      through `PreviewReady`. With no file chosen nothing happens. */
  function PickFile(st: State, i: nat, chosen: Option<File>): (r: State)
    requires i < |st.tiles|
    ensures chosen.None? ==> r == st
    ensures |r.tiles| == |st.tiles| && r.tiles[i].(imageFile := st.tiles[i].imageFile) == st.tiles[i]
    ensures chosen.Some? ==> r.tiles[i].imageFile == chosen
    ensures forall k :: 0 <= k < |st.tiles| && k != i ==> r.tiles[k] == st.tiles[k]
    ensures r.imported == st.imported && r.storage == st.storage
    ensures Mirrored(st) ==> Mirrored(r)
  {
    if chosen.None? then st
    else
      var tiles := st.tiles[i := st.tiles[i].(imageFile := chosen)];
      SaveIgnoresFiles(tiles, st.tiles);
      State(tiles, st.imported, st.storage)
  }

  /** A `drop`: like picking, but only a file whose type starts with `image/`. */
  function DropFile(st: State, i: nat, dropped: Option<File>): (r: State)
    requires i < |st.tiles|
    ensures r != st ==> dropped.Some? && StartsWith(dropped.value.mimeType, "image/")
    ensures dropped.Some? && StartsWith(dropped.value.mimeType, "image/") ==> r == PickFile(st, i, dropped)
    ensures r.storage == st.storage
  {
    if dropped.Some? && StartsWith(dropped.value.mimeType, "image/") then PickFile(st, i, dropped) else st
  }

  /** The `FileReader` finished: its data URL becomes the preview, and the
      draft is saved. */
  function PreviewReady(st: State, i: nat, dataUrl: string): (r: State)
    requires i < |st.tiles|
    ensures |r.tiles| == |st.tiles| && r.tiles[i].imagePreview == Some(dataUrl)
    ensures r.tiles[i].(imagePreview := st.tiles[i].imagePreview) == st.tiles[i]
    ensures forall k :: 0 <= k < |st.tiles| && k != i ==> r.tiles[k] == st.tiles[k]
    ensures r.imported == st.imported && Mirrored(r)
  {
    var tiles := st.tiles[i := st.tiles[i].(imagePreview := Some(dataUrl))];
    State(tiles, st.imported, Save(tiles))
  }

  /** "Clear Image": the file and the preview go, nothing else, then a save. */
  function ClearImage(st: State, i: nat): (r: State)
    requires i < |st.tiles|
    ensures |r.tiles| == |st.tiles| && r.tiles[i].imageFile.None? && r.tiles[i].imagePreview.None?
    ensures r.tiles[i].(imageFile := st.tiles[i].imageFile, imagePreview := st.tiles[i].imagePreview) == st.tiles[i]
    ensures forall k :: 0 <= k < |st.tiles| && k != i ==> r.tiles[k] == st.tiles[k]
    ensures r.imported == st.imported && Mirrored(r)
  {
    var tiles := st.tiles[i := st.tiles[i].(imageFile := None, imagePreview := None)];
    State(tiles, st.imported, Save(tiles))
  }

  // ------------------------------------------------------ import and reset

  /** `handleImport`: `chosen` is `None` when no file was picked, else the
      parse of its text. A text that does not parse changes nothing. A
      parsed value replaces `importedData` before the merge runs, so it is
      remembered even when the merge then throws; only a merge that runs to
      the end is saved and reported as a success. */
  function Import(st: State, chosen: Option<Parse>): (r: Step)
    ensures chosen.None? ==> r == Step(st, None)
    ensures chosen == Some(Malformed) ==> r == Step(st, Some(ImportFailed))
    ensures chosen.Some? && chosen.value.Parsed? ==>
      var d := chosen.value.value;
      var merged := Populate(st.tiles, d);
      && r.state.imported == d
      && r.state.tiles == merged.tiles
      && (merged.completed ==> Mirrored(r.state) && r.notice == Some(Imported))
      && (!merged.completed ==> r.state.storage == st.storage && r.notice == Some(ImportFailed))
    ensures SameIds(r.state.tiles, st.tiles)
  {
    match chosen
    case None => Step(st, None)
    case Some(Malformed) => Step(st, Some(ImportFailed))
    case Some(Parsed(d)) =>
      var merged := Populate(st.tiles, d);
      if merged.completed then Step(State(merged.tiles, d, Save(merged.tiles)), Some(Imported))
      else Step(State(merged.tiles, d, st.storage), Some(ImportFailed))
  }

  /** `resetToImported`: with no imported document, an error and no change;
      otherwise the same merge as the import, then a save. A merge that
      throws here is not caught: it keeps its partial effect and shows no
      message. */
  function Reset(st: State): (r: Step)
    ensures st.imported.Falsy? ==> r == Step(st, Some(NoImportedData))
    ensures r.state.imported == st.imported
    ensures st.imported.Truthy? ==> r.state.tiles == Populate(st.tiles, st.imported).tiles
    ensures st.imported.Truthy? && Populate(st.tiles, st.imported).completed ==>
      Mirrored(r.state) && r.notice == Some(ResetDone)
    ensures st.imported.Truthy? && !Populate(st.tiles, st.imported).completed ==>
      r.state.storage == st.storage && r.notice.None?
    ensures SameIds(r.state.tiles, st.tiles)
  {
    if st.imported.Falsy? then Step(st, Some(NoImportedData))
    else
      var merged := Populate(st.tiles, st.imported);
      if merged.completed then Step(State(merged.tiles, st.imported, Save(merged.tiles)), Some(ResetDone))
      else Step(State(merged.tiles, st.imported, st.storage), None)
  }

  // ----------------------------------------------------------------- clear

  /** `clearDraft`: only after confirmation. The stored draft is removed
      (and not written again), every tile goes back to its creation values
      except `localImage`, which is kept, and `importedData` is kept. */
  function Clear(st: State, confirmed: bool): (r: Step)
    ensures !confirmed ==> r == Step(st, None)
    ensures confirmed ==> r.state.storage == Empty && r.state.imported == st.imported
    ensures confirmed ==> r.notice == Some(DraftCleared)
    ensures confirmed ==> |r.state.tiles| == |st.tiles| && forall k :: 0 <= k < |st.tiles| ==>
      r.state.tiles[k] == NewTile(st.tiles[k].id).(localImage := st.tiles[k].localImage)
  {
    if !confirmed then Step(st, None)
    else
      var tiles := seq(|st.tiles|, k requires 0 <= k < |st.tiles| =>
        st.tiles[k].(title := "", price := "", url := "", mode := LOCAL, remoteImage := "",
                     imageFile := None, imagePreview := None));
      Step(State(tiles, st.imported, Empty), Some(DraftCleared))
  }

  // ---------------------------------------------------------------- export

  datatype ExportStep = ExportStep(output: Exported, notice: Notice)

  /** `exportData`: the public document always, the archive only when some
      tile is in local mode with a file attached; the state is unchanged. */
  function ExportDraft(st: State): (r: ExportStep)
    ensures r.output.document == ExportDocument(st.tiles)
    ensures r.output.archive == Archive(st.tiles)
    ensures r.output.archive.None? <==> forall k :: 0 <= k < |st.tiles| ==> !Zippable(st.tiles[k])
    ensures r.output.archive.Some? ==> r.notice == ExportedWithImages(|r.output.archive.value|)
    ensures r.output.archive.None? ==> r.notice == ExportedDocumentOnly
  {
    var out := ExportTiles(st.tiles);
    match out.archive
    case None => ExportStep(out, ExportedDocumentOnly)
    case Some(entries) => ExportStep(out, ExportedWithImages(|entries|))
  }

  // ------------------------------------------------------------------ runs

  /** Every user action the editor handles. */
  datatype Event =
    | EditText(tile: nat, field: TextField, value: string)
    | ClickMode(tile: nat, mode: Mode)
    | ChooseFile(tile: nat, chosen: Option<File>)
    | DropOnTile(tile: nat, dropped: Option<File>)
    | PreviewLoaded(tile: nat, dataUrl: string)
    | ClickClearImage(tile: nat)
    | ChooseImport(parsed: Option<Parse>)
    | ClickReset
    | ClickClear(confirmed: bool)
    | ClickExport

  /** The event is on one of the `n` tile editors, or on the toolbar. */
  predicate OnEditor(ev: Event, n: nat) {
    match ev
    case EditText(i, _, _) => i < n
    case ClickMode(i, _) => i < n
    case ChooseFile(i, _) => i < n
    case DropOnTile(i, _) => i < n
    case PreviewLoaded(i, _) => i < n
    case ClickClearImage(i) => i < n
    case _ => true
  }

  function Handle(st: State, ev: Event): (r: State)
    requires OnEditor(ev, |st.tiles|)
    ensures SameIds(r.tiles, st.tiles)
  {
    match ev
    case EditText(i, f, v) => SetText(st, i, f, v)
    case ClickMode(i, m) => SetMode(st, i, m)
    case ChooseFile(i, file) => PickFile(st, i, file)
    case DropOnTile(i, file) => DropFile(st, i, file)
    case PreviewLoaded(i, url) => PreviewReady(st, i, url)
    case ClickClearImage(i) => ClearImage(st, i)
    case ChooseImport(parsed) => Import(st, parsed).state
    case ClickReset => Reset(st).state
    case ClickClear(ok) => Clear(st, ok).state
    case ClickExport => st
  }

  /** The state after a sequence of actions: there are always exactly the
      nine tiles, in order, with their original ids. */
  function Run(st: State, events: seq<Event>): (r: State)
    requires Valid(st)
    requires forall j :: 0 <= j < |events| ==> OnEditor(events[j], TileCount)
    ensures Valid(r) && SameIds(r.tiles, st.tiles)
    decreases |events|
  {
    if events == [] then st
    else
      var next := Handle(st, events[0]);
      SameIdsWellFormed(next.tiles, st.tiles);
      Run(next, events[1..])
  }

  // ---------------------------------------------------------------- lemmas

  /** A fresh editor with nothing stored shows the nine default tiles. */
  lemma FreshStart()
    ensures var st := Init(Empty).state;
      && Valid(st) && st.imported == Falsy && st.storage == Empty
      && forall k :: 0 <= k < TileCount ==> st.tiles[k] == NewTile(TileId(k + 1))
  {
  }

  /** Startup with any parsed draft: tile `T(k+1)` takes, in document
      order, exactly the visited draft elements carrying its id. */
  lemma InitFromDraft(d: Document, k: nat)
    requires k < TileCount
    ensures Init(Stored(Parsed(d))).state.tiles[k] ==
      Fold(Assign, NewTile(TileId(k + 1)), Matches(Visited(d), TileId(k + 1)))
  {
    WellFormedDistinct(InitialTiles());
    LoadPointwise(InitialTiles(), d, k);
  }

  /** Reloading the page after any saved state restores every persisted
      field of every tile; only the attached files are lost. */
  lemma ReloadRestoresDraft(st: State)
    requires Valid(st) && Mirrored(st)
    ensures Init(st.storage).state.tiles == Restored(st.tiles, InitialTiles())
  {
    WellFormedDistinct(st.tiles);
    LoadAfterSave(st.tiles, InitialTiles());
  }

  /** Reset before any import reports an error and leaves everything as is. */
  lemma ResetWithoutImport(storage: Storage)
    ensures var st := Init(storage).state;
      Reset(st) == Step(st, Some(NoImportedData))
  {
  }

  /** Pressing reset twice is pressing it once. */
  lemma ResetIdempotent(st: State)
    requires Valid(st)
    ensures Reset(Reset(st).state) == Reset(st)
  {
    WellFormedDistinct(st.tiles);
    if st.imported.Truthy? {
      PopulateIdempotent(st.tiles, st.imported);
    }
  }

  /** After a successful import, any edits that touch only the merged fields
      of tiles the document names are undone by reset, which also rewrites
      the same draft. */
  lemma ResetRestoresImport(st: State, d: Document, edited: State)
    requires Valid(st)
    requires Import(st, Some(Parsed(d))).notice == Some(Imported)
    requires edited.imported == d
    requires var s1 := Import(st, Some(Parsed(d))).state;
      && SameIds(edited.tiles, s1.tiles)
      && forall k :: 0 <= k < |s1.tiles| ==>
        edited.tiles[k] == s1.tiles[k] ||
        (Covered(d, s1.tiles[k].id)
         && edited.tiles[k].imageFile == s1.tiles[k].imageFile
         && edited.tiles[k].imagePreview == s1.tiles[k].imagePreview)
    ensures Reset(edited) == Step(Import(st, Some(Parsed(d))).state, Some(ResetDone))
  {
    var s1 := Import(st, Some(Parsed(d))).state;
    WellFormedDistinct(st.tiles);
    assert DistinctIds(s1.tiles);
    PopulateForgetsEdits(s1.tiles, edited.tiles, d);
    PopulateIdempotent(st.tiles, d);
  }

  /** Reset right after a successful import changes nothing. */
  lemma ResetAfterImport(st: State, d: Document)
    requires Valid(st)
    requires Import(st, Some(Parsed(d))).notice == Some(Imported)
    ensures var s1 := Import(st, Some(Parsed(d))).state;
      Reset(s1) == Step(s1, Some(ResetDone))
  {
    var s1 := Import(st, Some(Parsed(d))).state;
    ResetRestoresImport(st, d, s1);
  }

  /** Retyping a field of a tile the imported document names, then reset,
      gives back exactly the state right after the import. */
  lemma ResetUndoesTextEdit(st: State, d: Document, i: nat, f: TextField, v: string)
    requires Valid(st) && i < TileCount
    requires d.Truthy? && d.tiles.Some? && Null !in d.tiles.value
    requires Covered(d, TileId(i + 1))
    ensures var s1 := Import(st, Some(Parsed(d))).state;
      Reset(SetText(s1, i, f, v)) == Step(s1, Some(ResetDone))
  {
    var s1 := Import(st, Some(Parsed(d))).state;
    var edited := SetText(s1, i, f, v);
    assert s1.tiles[i].id == TileId(i + 1);
    assert forall k :: 0 <= k < |s1.tiles| && k != i ==> edited.tiles[k] == s1.tiles[k];
    ResetRestoresImport(st, d, edited);
  }

  /** The same for a mode toggle. */
  lemma ResetUndoesModeEdit(st: State, d: Document, i: nat, m: Mode)
    requires Valid(st) && i < TileCount
    requires d.Truthy? && d.tiles.Some? && Null !in d.tiles.value
    requires Covered(d, TileId(i + 1))
    ensures var s1 := Import(st, Some(Parsed(d))).state;
      Reset(SetMode(s1, i, m)) == Step(s1, Some(ResetDone))
  {
    var s1 := Import(st, Some(Parsed(d))).state;
    var edited := SetMode(s1, i, m);
    assert s1.tiles[i].id == TileId(i + 1);
    assert forall k :: 0 <= k < |s1.tiles| && k != i ==> edited.tiles[k] == s1.tiles[k];
    ResetRestoresImport(st, d, edited);
  }

  /** Clearing twice is clearing once. */
  lemma ClearIdempotent(st: State)
    ensures Clear(Clear(st, true).state, true) == Clear(st, true)
  {
  }

  /** A cleared draft is gone for good: reloading starts from the defaults. */
  lemma ReloadAfterClear(st: State)
    ensures Init(Clear(st, true).state.storage).state.tiles == InitialTiles()
  {
  }

  /** Clear gives the creation state exactly when no tile's local path was
      moved off its default; otherwise those paths survive the clear. */
  lemma ClearRestoresDefaultsIff(st: State)
    requires Valid(st)
    ensures Clear(st, true).state.tiles == InitialTiles() <==>
      forall k :: 0 <= k < TileCount ==> st.tiles[k].localImage == DefaultLocalImage(st.tiles[k].id)
  {
    var cleared := Clear(st, true).state.tiles;
    if cleared == InitialTiles() {
      forall k | 0 <= k < TileCount
        ensures st.tiles[k].localImage == DefaultLocalImage(st.tiles[k].id)
      {
        assert cleared[k] == InitialTiles()[k];
      }
    }
  }

  /** The tiles of the scenario below: T1 filled in, the rest at their defaults. */
  function BowlTiles(file: File): seq<Tile> {
    InitialTiles()[0 := Tile("T1", "Silver Bowl", "$200", "", LOCAL, "images/featured/T1.jpg", "", Some(file), None)]
  }

  lemma BowlEdits(file: File)
    ensures
      var s0 := Init(Empty).state;
      var s3 := SetMode(SetText(SetText(s0, 0, Title, "Silver Bowl"), 0, Price, "$200"), 0, Local);
      PickFile(s3, 0, Some(file)).tiles == BowlTiles(file)
  {
    var s0 := Init(Empty).state;
    var s1 := SetText(s0, 0, Title, "Silver Bowl");
    var s2 := SetText(s1, 0, Price, "$200");
    var s3 := SetMode(s2, 0, Local);
    var s4 := PickFile(s3, 0, Some(file));
    assert s0.tiles == InitialTiles();
    assert s0.tiles[0] == NewTile("T1");
    assert s4.tiles == s0.tiles[0 := s4.tiles[0]];
    assert s4.tiles[0] == BowlTiles(file)[0];
  }

  lemma BowlDoc(file: File)
    ensures var out := ExportTiles(BowlTiles(file));
      && out.document.tiles.value[0] == Record(Entry(Some("T1"), Some("Silver Bowl"), Some("$200"),
           Some(""), Some("local"), Some("images/featured/T1.jpg"), Some(""), None))
  {
  }
  lemma BowlIdx(file: File)
    ensures ZipIndices(BowlTiles(file), 0) == [0]
  {
    var tiles := BowlTiles(file);
    assert forall k :: 1 <= k < TileCount ==> tiles[k].imageFile.None?;
    assert ZipIndices(tiles, 1) == [];
  }
  lemma BowlName(file: File)
    requires file.name == "bowl.png"
    ensures ZipEntryName("T1", file) == "T1.png"
  {
    AfterLastDotOfDotted("bowl", "png");
    assert "bowl" + "." + "png" == "bowl.png";
  }
  lemma BowlArchive(file: File)
    requires file.name == "bowl.png"
    ensures Archive(BowlTiles(file)) == Some([ZipEntry("images/featured/T1.png", file)])
  {
    var tiles := BowlTiles(file);
    BowlIdx(file);
    BowlName(file);
    assert tiles[0].id == "T1" && tiles[0].imageFile == Some(file);
    assert ZipEntryOf(tiles[0]).path == ImageFolder + "T1.png";
    assert ImageFolder + "T1.png" == "images/featured/T1.png";
    var entries := Archive(tiles).value;
    assert |entries| == 1;
    assert entries[0] == ZipEntryOf(tiles[0]);
    assert ZipEntryOf(tiles[0]) == ZipEntry("images/featured/T1.png", file);
    assert entries == [ZipEntry("images/featured/T1.png", file)];
  }

  /** The scenario of a fresh editor: title, price, local mode and a
      `bowl.png` upload on T1, then export. The document keeps the default
      `.jpg` path while the archive entry is named after the upload. */
  lemma SilverBowlExport(file: File)
    requires file == File("bowl.png", "image/png")
    ensures
      var s0 := Init(Empty).state;
      var s3 := SetMode(SetText(SetText(s0, 0, Title, "Silver Bowl"), 0, Price, "$200"), 0, Local);
      var out := ExportDraft(PickFile(s3, 0, Some(file)));
      && out.output.document.tiles.value[0] == Record(Entry(Some("T1"), Some("Silver Bowl"), Some("$200"),
           Some(""), Some("local"), Some("images/featured/T1.jpg"), Some(""), None))
      && out.output.archive == Some([ZipEntry("images/featured/T1.png", file)])
      && out.notice == ExportedWithImages(1)
  {
    BowlEdits(file);
    BowlDoc(file);
    BowlArchive(file);
  }
}
