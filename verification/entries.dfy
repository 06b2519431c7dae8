/** Applying a parsed `tiles` array to the nine tiles, element by element.

    `populateFromData` and `loadFromLocalStorage` share one protocol:
    `forEach` over the array, find the tile whose id equals the element's
    id, skip the element when there is none, otherwise update that tile
    in place. Reading `.id` of a `null` element throws, and the elements
    visited before it stay applied. They differ only in how one element
    updates its tile, which `Rule` names. */
module Entries {
  import opened Json
  import opened Tiles

  datatype Rule =
    | Merge   // populateFromData: every public field overwritten, falsy values defaulted
    | Assign  // Object.assign: every key the element carries copied verbatim

  /** One iteration of the `forEach` in `populateFromData`. */
  function Overwrite(t: Tile, e: Entry): (r: Tile)
    ensures r.id == t.id && r.imageFile == t.imageFile && r.imagePreview == t.imagePreview
  {
    t.(title := Or(e.title, ""),
       price := Or(e.price, ""),
       url := Or(e.url, ""),
       mode := Or(e.mode, LOCAL),
       localImage := Or(e.localImage, DefaultLocalImage(t.id)),
       remoteImage := Or(e.remoteImage, ""))
  }

  /** The `Object.assign(tile, tileData)` of `loadFromLocalStorage`, for an
      element whose id is the tile's own. */
  function AssignFields(t: Tile, e: Entry): (r: Tile)
    ensures r.id == t.id && r.imageFile == t.imageFile
    ensures (e.title.Some? ==> r.title == e.title.value) && (e.title.None? ==> r.title == t.title)
    ensures (e.price.Some? ==> r.price == e.price.value) && (e.price.None? ==> r.price == t.price)
    ensures (e.url.Some? ==> r.url == e.url.value) && (e.url.None? ==> r.url == t.url)
    ensures (e.mode.Some? ==> r.mode == e.mode.value) && (e.mode.None? ==> r.mode == t.mode)
    ensures (e.localImage.Some? ==> r.localImage == e.localImage.value) && (e.localImage.None? ==> r.localImage == t.localImage)
    ensures (e.remoteImage.Some? ==> r.remoteImage == e.remoteImage.value) && (e.remoteImage.None? ==> r.remoteImage == t.remoteImage)
    ensures (e.imagePreview.Some? ==> r.imagePreview == e.imagePreview.value) && (e.imagePreview.None? ==> r.imagePreview == t.imagePreview)
  {
    t.(title := e.title.GetOr(t.title),
       price := e.price.GetOr(t.price),
       url := e.url.GetOr(t.url),
       mode := e.mode.GetOr(t.mode),
       localImage := e.localImage.GetOr(t.localImage),
       remoteImage := e.remoteImage.GetOr(t.remoteImage),
       imagePreview := e.imagePreview.GetOr(t.imagePreview))
  }

  function Apply(rule: Rule, t: Tile, e: Entry): (r: Tile)
    ensures r.id == t.id && r.imageFile == t.imageFile
    ensures rule == Merge ==> r.imagePreview == t.imagePreview
  {
    match rule
    case Merge => Overwrite(t, e)
    case Assign => AssignFields(t, e)
  }

  /** Applies the entries of `es` one after another to a single tile. */
  function Fold(rule: Rule, t: Tile, es: seq<Entry>): (r: Tile)
    ensures r.id == t.id && r.imageFile == t.imageFile
    ensures rule == Merge ==> r.imagePreview == t.imagePreview
    decreases |es|
  {
    if es == [] then t else Fold(rule, Apply(rule, t, es[0]), es[1..])
  }

  /** One element: update the first tile carrying its id, if any. */
  function ApplyEntry(rule: Rule, tiles: seq<Tile>, e: Entry): (r: seq<Tile>)
    ensures SameIds(r, tiles)
    ensures forall k :: 0 <= k < |tiles| && e.id != Some(tiles[k].id) ==> r[k] == tiles[k]
    ensures forall k :: 0 <= k < |tiles| ==> r[k].imageFile == tiles[k].imageFile
    ensures rule == Merge ==> forall k :: 0 <= k < |tiles| ==> r[k].imagePreview == tiles[k].imagePreview
  {
    if e.id.None? then tiles
    else match IndexOf(tiles, e.id.value)
      case None => tiles
      case Some(k) => tiles[k := Apply(rule, tiles[k], e)]
  }

  /** The tiles after the `forEach`, and whether it ran to its end. */
  datatype Outcome = Outcome(tiles: seq<Tile>, completed: bool)

  function ApplyItems(rule: Rule, tiles: seq<Tile>, items: seq<Item>): (r: Outcome)
    ensures SameIds(r.tiles, tiles)
    ensures forall k :: 0 <= k < |tiles| ==> r.tiles[k].imageFile == tiles[k].imageFile
    ensures rule == Merge ==> forall k :: 0 <= k < |tiles| ==> r.tiles[k].imagePreview == tiles[k].imagePreview
    ensures r.completed <==> Null !in items
    decreases |items|
  {
    if items == [] then Outcome(tiles, true)
    else match items[0]
      case Null => Outcome(tiles, false)
      case Record(e) =>
        var r := ApplyItems(rule, ApplyEntry(rule, tiles, e), items[1..]);
        assert items == [items[0]] + items[1..];
        r
  }

  /** The elements a document's `forEach` visits with effect. */
  function Visited(doc: Document): seq<Item> {
    if doc.Truthy? && doc.tiles.Some? then Prefix(doc.tiles.value) else []
  }

  /** `doc.tiles.forEach(...)`: when `doc` is falsy or has no `tiles` array,
      the call throws before touching any tile. */
  function ApplyDocument(rule: Rule, tiles: seq<Tile>, doc: Document): (r: Outcome)
    ensures SameIds(r.tiles, tiles)
    ensures forall k :: 0 <= k < |tiles| ==> r.tiles[k].imageFile == tiles[k].imageFile
    ensures rule == Merge ==> forall k :: 0 <= k < |tiles| ==> r.tiles[k].imagePreview == tiles[k].imagePreview
    ensures r.completed <==> doc.Truthy? && doc.tiles.Some? && Null !in doc.tiles.value
    ensures !(doc.Truthy? && doc.tiles.Some?) ==> r.tiles == tiles
  {
    if doc.Truthy? && doc.tiles.Some? then ApplyItems(rule, tiles, doc.tiles.value)
    else Outcome(tiles, false)
  }

  /** The tile at `k` is touched by an element exactly when the element carries its id. */
  lemma ApplyEntryAt(rule: Rule, tiles: seq<Tile>, e: Entry, k: nat)
    requires DistinctIds(tiles) && k < |tiles|
    ensures ApplyEntry(rule, tiles, e)[k] ==
      if e.id == Some(tiles[k].id) then Apply(rule, tiles[k], e) else tiles[k]
  {
    if e.id == Some(tiles[k].id) {
      IndexOfDistinct(tiles, k);
    }
  }

  /** Each tile ends up as the fold of exactly the visited elements that
      carry its id, in document order; no other element affects it. */
  lemma {:induction false} ApplyItemsPointwise(rule: Rule, tiles: seq<Tile>, items: seq<Item>, k: nat)
    requires DistinctIds(tiles) && k < |tiles|
    ensures ApplyItems(rule, tiles, items).tiles[k] == Fold(rule, tiles[k], Matches(Prefix(items), tiles[k].id))
    decreases |items|
  {
    if items != [] && items[0].Record? {
      var e := items[0].entry;
      var id := tiles[k].id;
      var next := ApplyEntry(rule, tiles, e);
      ApplyEntryAt(rule, tiles, e, k);
      assert DistinctIds(next);
      ApplyItemsPointwise(rule, next, items[1..], k);
      assert Prefix(items) == [items[0]] + Prefix(items[1..]);
      assert Prefix(items)[1..] == Prefix(items[1..]);
      if e.id == Some(id) {
        assert Matches(Prefix(items), id) == [e] + Matches(Prefix(items[1..]), id);
      } else {
        assert Matches(Prefix(items), id) == Matches(Prefix(items[1..]), id);
      }
    }
  }

  lemma ApplyDocumentPointwise(rule: Rule, tiles: seq<Tile>, doc: Document, k: nat)
    requires DistinctIds(tiles) && k < |tiles|
    ensures ApplyDocument(rule, tiles, doc).tiles[k] == Fold(rule, tiles[k], Matches(Visited(doc), tiles[k].id))
  {
    if doc.Truthy? && doc.tiles.Some? {
      ApplyItemsPointwise(rule, tiles, doc.tiles.value, k);
    }
  }

  /** Running the elements of `a` and then those of `b` is running `a + b`,
      except that a throw in `a` ends the loop before `b`. */
  lemma {:induction false} ApplyItemsAppend(rule: Rule, tiles: seq<Tile>, a: seq<Item>, b: seq<Item>)
    ensures ApplyItems(rule, tiles, a + b) ==
      var first := ApplyItems(rule, tiles, a);
      if first.completed then ApplyItems(rule, first.tiles, b) else first
    decreases |a|
  {
    if a != [] {
      assert (a + b)[0] == a[0];
      assert (a + b)[1..] == a[1..] + b;
      if a[0].Record? {
        ApplyItemsAppend(rule, ApplyEntry(rule, tiles, a[0].entry), a[1..], b);
      }
    } else {
      assert a + b == b;
    }
  }
}
