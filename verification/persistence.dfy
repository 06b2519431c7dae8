/** The draft kept in the browser's local storage: `saveToLocalStorage` and
    `loadFromLocalStorage` (admin/featured-manager.js). */
module Persistence {
  import opened Json
  import opened Tiles
  import opened Entries

  /** The slot of the one key the editor uses, `dickson_featured_draft`:
      absent, or a text that may or may not parse. */
  datatype Storage = Empty | Stored(text: Parse)

  /** What a tile persists: every field except the uploaded file. */
  function DraftEntry(t: Tile): Entry {
    Entry(Some(t.id), Some(t.title), Some(t.price), Some(t.url), Some(t.mode),
          Some(t.localImage), Some(t.remoteImage), Some(t.imagePreview))
  }

  function DraftItems(tiles: seq<Tile>): seq<Item> {
    seq(|tiles|, k requires 0 <= k < |tiles| => Record(DraftEntry(tiles[k])))
  }

  /** `saveToLocalStorage()`: the slot afterwards holds a draft that lists
      every tile in order with all its persisted fields, and no file. */
  function Save(tiles: seq<Tile>): (r: Storage)
    ensures r.Stored? && r.text.Parsed? && r.text.value.Truthy? && r.text.value.tiles.Some?
    ensures var items := r.text.value.tiles.value;
      && |items| == |tiles|
      && forall k :: 0 <= k < |items| ==>
        && items[k].Record?
        && items[k].entry.id == Some(tiles[k].id)
        && items[k].entry.title == Some(tiles[k].title)
        && items[k].entry.price == Some(tiles[k].price)
        && items[k].entry.url == Some(tiles[k].url)
        && items[k].entry.mode == Some(tiles[k].mode)
        && items[k].entry.localImage == Some(tiles[k].localImage)
        && items[k].entry.remoteImage == Some(tiles[k].remoteImage)
        && items[k].entry.imagePreview == Some(tiles[k].imagePreview)
  {
    Stored(Parsed(Truthy(Some(DraftItems(tiles)))))
  }

  /** The tiles after `loadFromLocalStorage()`, and whether it announced the
      loaded draft (it does only when the whole draft was applied). */
  datatype Loaded = Loaded(tiles: seq<Tile>, announced: bool)

  /** `loadFromLocalStorage()`. An absent key is a no-op; an unparsable text
      is logged and changes nothing; a draft whose `tiles` loop throws
      midway keeps the entries applied before the throw. */
  function Load(tiles: seq<Tile>, storage: Storage): (r: Loaded)
    ensures SameIds(r.tiles, tiles)
    ensures forall k :: 0 <= k < |tiles| ==> r.tiles[k].imageFile == tiles[k].imageFile
    ensures storage.Empty? || storage.text.Malformed? ==> r == Loaded(tiles, false)
    ensures r.announced <==>
      storage.Stored? && storage.text.Parsed? && storage.text.value.Truthy?
      && storage.text.value.tiles.Some? && Null !in storage.text.value.tiles.value
  {
    match storage
    case Empty => Loaded(tiles, false)
    case Stored(Malformed) => Loaded(tiles, false)
    case Stored(Parsed(draft)) =>
      var o := ApplyDocument(Assign, tiles, draft);
      Loaded(o.tiles, o.completed)
  }

  /** Whatever the draft, each tile is matched by id: it takes, one
      `Object.assign` after another, exactly the visited elements carrying
      its id, in document order. Elements after a `null` are never applied,
      while those before it stay applied. */
  lemma LoadPointwise(tiles: seq<Tile>, d: Document, k: nat)
    requires DistinctIds(tiles) && k < |tiles|
    ensures Load(tiles, Stored(Parsed(d))).tiles[k] == Fold(Assign, tiles[k], Matches(Visited(d), tiles[k].id))
  {
    ApplyDocumentPointwise(Assign, tiles, d, k);
  }

  /** A `null` element stops the load: the tiles are what the elements
      before it give, nothing after it is applied, and nothing is announced. */
  lemma LoadStopsAtNull(tiles: seq<Tile>, a: seq<Item>, b: seq<Item>)
    requires Null !in a
    ensures Load(tiles, Stored(Parsed(Truthy(Some(a + [Null] + b))))) == Loaded(ApplyItems(Assign, tiles, a).tiles, false)
  {
    ApplyItemsAppend(Assign, tiles, a, [Null] + b);
    assert a + [Null] + b == a + ([Null] + b);
    assert Null in a + [Null] + b by { assert (a + [Null] + b)[|a|] == Null; }
  }

  /** `b` with every persisted field taken from `a`: what loading a draft of
      `a` into `b` should give. */
  function Restored(a: seq<Tile>, b: seq<Tile>): seq<Tile>
    requires |a| == |b|
  {
    seq(|a|, k requires 0 <= k < |a| => a[k].(imageFile := b[k].imageFile))
  }

  /** Loading a saved draft restores every persisted field of every tile,
      keeps each tile's current file, and announces the load. */
  lemma LoadAfterSave(a: seq<Tile>, b: seq<Tile>)
    requires SameIds(a, b) && DistinctIds(a)
    ensures Load(b, Save(a)) == Loaded(Restored(a, b), true)
  {
    var items := DraftItems(a);
    assert DistinctIds(b);
    assert forall i :: 0 <= i < |items| ==> items[i].Record?;
    var o := ApplyItems(Assign, b, items);
    forall k | 0 <= k < |a|
      ensures o.tiles[k] == Restored(a, b)[k]
    {
      LoadDraftEntry(a, b, k);
    }
    assert o.tiles == Restored(a, b);
  }

  /** The tile at `k` takes exactly the saved entry of `a[k]`. */
  lemma LoadDraftEntry(a: seq<Tile>, b: seq<Tile>, k: nat)
    requires SameIds(a, b) && DistinctIds(b) && k < |a|
    ensures ApplyItems(Assign, b, DraftItems(a)).tiles[k] == a[k].(imageFile := b[k].imageFile)
  {
    var items := DraftItems(a);
    assert forall i :: 0 <= i < |items| ==> items[i].Record?;
    assert Prefix(items) == items;
    ApplyItemsPointwise(Assign, b, items, k);
    MatchesSingle(items, b[k].id, k);
  }

  /** In particular a save followed by a load changes nothing. */
  lemma LoadAfterSaveIdentity(tiles: seq<Tile>)
    requires DistinctIds(tiles)
    ensures Load(tiles, Save(tiles)) == Loaded(tiles, true)
  {
    LoadAfterSave(tiles, tiles);
    assert Restored(tiles, tiles) == tiles;
  }

  /** The uploaded file is not part of the draft: attaching or dropping one
      leaves what a save writes unchanged. */
  lemma SaveIgnoresFiles(a: seq<Tile>, b: seq<Tile>)
    requires |a| == |b|
    requires forall k :: 0 <= k < |a| ==> a[k].(imageFile := None) == b[k].(imageFile := None)
    ensures Save(a) == Save(b)
  {
    forall k | 0 <= k < |a|
      ensures DraftEntry(a[k]) == DraftEntry(b[k])
    {
      assert a[k].(imageFile := None).id == b[k].(imageFile := None).id;
    }
    assert DraftItems(a) == DraftItems(b);
  }
}
