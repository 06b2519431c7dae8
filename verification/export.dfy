/** `exportData` and `createImageZip` (admin/featured-manager.js): the public
    document and the set of archive entries an export produces. */
module Export {
  import opened Json
  import opened Text
  import opened Tiles
  import opened Entries
  import opened Merge

  /** What a tile contributes to the public document: its id and six public
      fields, never its preview or its file. */
  function PublicEntry(t: Tile): Entry {
    Entry(Some(t.id), Some(t.title), Some(t.price), Some(t.url), Some(t.mode),
          Some(t.localImage), Some(t.remoteImage), None)
  }

  /** The `tiles` of the exported `featured.json`. */
  function ExportDocument(tiles: seq<Tile>): (r: Document)
    ensures r.Truthy? && r.tiles.Some? && |r.tiles.value| == |tiles|
    ensures forall k :: 0 <= k < |tiles| ==>
      && r.tiles.value[k].Record?
      && r.tiles.value[k].entry.id == Some(tiles[k].id)
      && r.tiles.value[k].entry.title == Some(tiles[k].title)
      && r.tiles.value[k].entry.price == Some(tiles[k].price)
      && r.tiles.value[k].entry.url == Some(tiles[k].url)
      && r.tiles.value[k].entry.mode == Some(tiles[k].mode)
      && r.tiles.value[k].entry.localImage == Some(tiles[k].localImage)
      && r.tiles.value[k].entry.remoteImage == Some(tiles[k].remoteImage)
      && r.tiles.value[k].entry.imagePreview.None?
  {
    Truthy(Some(seq(|tiles|, k requires 0 <= k < |tiles| => Record(PublicEntry(tiles[k])))))
  }

  /** The filter of `exportData`: local mode with a file attached in this
      session. A preview restored from a draft does not count. */
  predicate Zippable(t: Tile) {
    t.mode == LOCAL && t.imageFile.Some?
  }

  /** The positions, from `from` on, of the tiles that go into the archive. */
  function ZipIndices(tiles: seq<Tile>, from: nat): (ix: seq<nat>)
    requires from <= |tiles|
    ensures forall p :: 0 <= p < |ix| ==> from <= ix[p] < |tiles| && Zippable(tiles[ix[p]])
    ensures forall p, q :: 0 <= p < q < |ix| ==> ix[p] < ix[q]
    ensures forall k :: from <= k < |tiles| && Zippable(tiles[k]) ==> k in ix
    ensures ix == [] <==> forall k :: from <= k < |tiles| ==> !Zippable(tiles[k])
    decreases |tiles| - from
  {
    if from == |tiles| then []
    else
      var rest := ZipIndices(tiles, from + 1);
      if Zippable(tiles[from]) then
        var ix := [from] + rest;
        assert forall p :: 0 < p < |ix| ==> ix[p] == rest[p - 1];
        ix
      else rest
  }

  datatype ZipEntry = ZipEntry(path: string, file: File)

  /** `${tile.id}.${ext}` with `ext = name.split('.').pop()`. */
  function ZipEntryName(id: string, file: File): string {
    id + "." + AfterLastDot(file.name)
  }

  function ZipEntryOf(t: Tile): ZipEntry
    requires t.imageFile.Some?
  {
    ZipEntry(ImageFolder + ZipEntryName(t.id, t.imageFile.value), t.imageFile.value)
  }

  /** The archive: `None` when no tile qualifies (no zip is built), else one
      entry per qualifying tile, in tile order. */
  function Archive(tiles: seq<Tile>): (r: Option<seq<ZipEntry>>)
    ensures r.None? <==> forall k :: 0 <= k < |tiles| ==> !Zippable(tiles[k])
    ensures r.Some? ==> 0 < |r.value| <= |tiles|
  {
    var ix := ZipIndices(tiles, 0);
    if ix == [] then None
    else
      IndicesBounded(ix, |tiles|);
      Some(seq(|ix|, p requires 0 <= p < |ix| => ZipEntryOf(tiles[ix[p]])))
  }

  /** Every archive entry comes from a qualifying tile. */
  lemma ArchiveEntriesQualify(tiles: seq<Tile>)
    ensures var r := Archive(tiles);
      r.Some? ==> forall p :: 0 <= p < |r.value| ==>
        exists k :: 0 <= k < |tiles| && Zippable(tiles[k]) && r.value[p] == ZipEntryOf(tiles[k])
  {
    var ix := ZipIndices(tiles, 0);
    var r := Archive(tiles);
    if r.Some? {
      forall p | 0 <= p < |r.value|
        ensures exists k :: 0 <= k < |tiles| && Zippable(tiles[k]) && r.value[p] == ZipEntryOf(tiles[k])
      {
        var k := ix[p];
        assert 0 <= k < |tiles| && Zippable(tiles[k]) && r.value[p] == ZipEntryOf(tiles[k]);
      }
    }
  }

  /** Strictly increasing positions below `n` number at most `n`. */
  lemma {:induction false} IndicesBounded(ix: seq<nat>, n: nat)
    requires forall p :: 0 <= p < |ix| ==> ix[p] < n
    requires forall p, q :: 0 <= p < q < |ix| ==> ix[p] < ix[q]
    ensures |ix| <= n
    decreases n
  {
    if ix != [] {
      var last := ix[|ix| - 1];
      var front := ix[..|ix| - 1];
      assert forall p :: 0 <= p < |front| ==> front[p] < last;
      IndicesBounded(front, last);
    }
  }

  /** The two artifacts of one export: `featured.json` and, when it is
      built, `featured-images.zip`. */
  datatype Exported = Exported(document: Document, archive: Option<seq<ZipEntry>>)

  function ExportTiles(tiles: seq<Tile>): Exported {
    Exported(ExportDocument(tiles), Archive(tiles))
  }

  /** The archive entries are exactly the qualifying tiles, in tile order. */
  lemma ArchiveInTileOrder(tiles: seq<Tile>)
    ensures var ix := ZipIndices(tiles, 0);
      && (forall k :: 0 <= k < |tiles| ==> (Zippable(tiles[k]) <==> k in ix))
      && (forall p, q :: 0 <= p < q < |ix| ==> ix[p] < ix[q])
      && (Archive(tiles).Some? ==>
            |Archive(tiles).value| == |ix|
            && forall p :: 0 <= p < |ix| ==> Archive(tiles).value[p] == ZipEntryOf(tiles[ix[p]]))
  {
  }

  /** An upload named `stem.ext` lands at `images/featured/{id}.ext`; one
      without a dot keeps its whole name as the extension. */
  lemma ZipEntryNaming(id: string, stem: string, ext: string, mimeType: string)
    requires '.' !in ext
    ensures ZipEntryName(id, File(stem + "." + ext, mimeType)) == id + "." + ext
    ensures ZipEntryName(id, File(ext, mimeType)) == id + "." + ext
  {
    AfterLastDotOfDotted(stem, ext);
    AfterLastDotOfUndotted(ext);
  }

  /** The exported `localImage` is never rewritten from the upload: a tile
      still on its default path points at the archive entry exactly when
      the upload's extension is `jpg`. */
  lemma DefaultPathMatchesEntryIffJpg(t: Tile)
    requires t.imageFile.Some? && t.localImage == DefaultLocalImage(t.id)
    ensures ZipEntryOf(t).path == t.localImage <==> AfterLastDot(t.imageFile.value.name) == "jpg"
  {
    PathCancel(ImageFolder, t.id, AfterLastDot(t.imageFile.value.name));
  }

  lemma PathCancel(folder: string, id: string, ext: string)
    ensures folder + (id + "." + ext) == folder + id + ".jpg" <==> ext == "jpg"
  {
    var head := folder + id + ".";
    assert folder + (id + "." + ext) == head + ext;
    assert folder + id + ".jpg" == head + "jpg";
    if head + ext == head + "jpg" {
      assert (head + ext)[|head|..] == ext;
      assert (head + "jpg")[|head|..] == "jpg";
    }
  }

  /** Importing an exported document back restores every public field, as
      long as no tile has an empty mode or local path (the merge would
      replace those with its defaults). Files and previews are untouched. */
  lemma ExportThenImport(a: seq<Tile>, b: seq<Tile>)
    requires SameIds(a, b) && DistinctIds(a)
    requires forall k :: 0 <= k < |a| ==> a[k].mode != "" && a[k].localImage != ""
    ensures var r := Populate(b, ExportDocument(a));
      && r.completed
      && forall k :: 0 <= k < |a| ==>
        SamePublic(r.tiles[k], a[k])
        && r.tiles[k].imageFile == b[k].imageFile && r.tiles[k].imagePreview == b[k].imagePreview
  {
    var doc := ExportDocument(a);
    var items := doc.tiles.value;
    var r := Populate(b, doc);
    assert forall i :: 0 <= i < |items| ==> items[i].Record?;
    assert Prefix(items) == items;
    assert DistinctIds(b);
    forall k | 0 <= k < |a|
      ensures SamePublic(r.tiles[k], a[k])
    {
      MatchesSingle(items, b[k].id, k);
      PopulatePointwise(b, doc, k);
    }
  }

  /** Exporting right after importing a complete, canonical document gives
      that document back. */
  lemma ImportThenExport(tiles: seq<Tile>, doc: Document)
    requires DistinctIds(tiles)
    requires doc.Truthy? && doc.tiles.Some? && |doc.tiles.value| == |tiles|
    requires forall k :: 0 <= k < |tiles| ==>
      var item := doc.tiles.value[k];
      && item.Record?
      && item.entry.id == Some(tiles[k].id)
      && item.entry.title.Some? && item.entry.price.Some? && item.entry.url.Some?
      && IsTruthy(item.entry.mode) && IsTruthy(item.entry.localImage)
      && item.entry.remoteImage.Some? && item.entry.imagePreview.None?
    ensures Populate(tiles, doc).completed
    ensures ExportDocument(Populate(tiles, doc).tiles) == doc
  {
    var items := doc.tiles.value;
    var r := Populate(tiles, doc).tiles;
    assert forall i :: 0 <= i < |items| ==> items[i].Record?;
    assert Prefix(items) == items;
    forall k | 0 <= k < |tiles|
      ensures items[k] == Record(PublicEntry(r[k]))
    {
      MatchesSingle(items, tiles[k].id, k);
      PopulatePointwise(tiles, doc, k);
    }
    assert ExportDocument(r).tiles.value == items;
  }
}
