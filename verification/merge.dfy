/** `populateFromData`: merging an imported document into the tiles
    (admin/featured-manager.js). */
module Merge {
  import opened Json
  import opened Tiles
  import opened Entries

  /** `populateFromData(data)`: the tiles after the merge, and whether it ran
      to the end rather than throwing. */
  function Populate(tiles: seq<Tile>, data: Document): (r: Outcome)
    ensures SameIds(r.tiles, tiles)
    ensures forall k :: 0 <= k < |tiles| ==>
      r.tiles[k].imageFile == tiles[k].imageFile && r.tiles[k].imagePreview == tiles[k].imagePreview
    ensures r.completed <==> data.Truthy? && data.tiles.Some? && Null !in data.tiles.value
    ensures !(data.Truthy? && data.tiles.Some?) ==> r.tiles == tiles
  {
    ApplyDocument(Merge, tiles, data)
  }

  /** The element whose values tile `id` ends up with: the last visited
      element carrying that id, if any. */
  function LastMatch(data: Document, id: string): (r: Option<Entry>)
    ensures r.Some? ==> r.value.id == Some(id) && Record(r.value) in Visited(data)
    ensures r.None? ==> forall e :: Record(e) in Visited(data) ==> e.id != Some(id)
  {
    var es := Matches(Visited(data), id);
    if es == [] then None else Some(es[|es| - 1])
  }

  /** The defaulting rule of the merge, field by field: a truthy value is
      copied, anything else becomes '' ('local' for the mode, the
      conventional path for the local image). */
  lemma OverwriteFields(t: Tile, e: Entry)
    ensures var r := Overwrite(t, e);
      && (if IsTruthy(e.title) then r.title == e.title.value else r.title == "")
      && (if IsTruthy(e.price) then r.price == e.price.value else r.price == "")
      && (if IsTruthy(e.url) then r.url == e.url.value else r.url == "")
      && (if IsTruthy(e.mode) then r.mode == e.mode.value else r.mode == LOCAL)
      && (if IsTruthy(e.localImage) then r.localImage == e.localImage.value
          else r.localImage == DefaultLocalImage(t.id))
      && (if IsTruthy(e.remoteImage) then r.remoteImage == e.remoteImage.value else r.remoteImage == "")
  {
  }

  /** A merged tile no longer depends on the public fields it had before. */
  lemma OverwriteIgnoresPriorFields(a: Tile, b: Tile, e: Entry)
    requires a.id == b.id && a.imageFile == b.imageFile && a.imagePreview == b.imagePreview
    ensures Overwrite(a, e) == Overwrite(b, e)
  {
  }

  /** A second element for the same tile replaces everything the first wrote. */
  lemma OverwriteAbsorbs(t: Tile, e1: Entry, e2: Entry)
    ensures Overwrite(Overwrite(t, e1), e2) == Overwrite(t, e2)
  {
    OverwriteIgnoresPriorFields(Overwrite(t, e1), t, e2);
  }

  lemma {:induction false} FoldMergeIsLast(t: Tile, es: seq<Entry>)
    ensures Fold(Merge, t, es) == if es == [] then t else Overwrite(t, es[|es| - 1])
    decreases |es|
  {
    if es != [] {
      FoldMergeIsLast(Overwrite(t, es[0]), es[1..]);
      if |es| > 1 {
        OverwriteAbsorbs(t, es[0], es[|es| - 1]);
      }
    }
  }

  /** Each tile ends up merged with the last visited element carrying its
      id (so a later duplicate wins), and is untouched when none does. */
  lemma PopulatePointwise(tiles: seq<Tile>, data: Document, k: nat)
    requires DistinctIds(tiles) && k < |tiles|
    ensures Populate(tiles, data).tiles[k] ==
      match LastMatch(data, tiles[k].id)
      case None => tiles[k]
      case Some(e) => Overwrite(tiles[k], e)
  {
    ApplyDocumentPointwise(Merge, tiles, data, k);
    FoldMergeIsLast(tiles[k], Matches(Visited(data), tiles[k].id));
  }

  /** Merging the same document twice is merging it once, including where
      it throws. */
  lemma PopulateIdempotent(tiles: seq<Tile>, data: Document)
    requires DistinctIds(tiles)
    ensures Populate(Populate(tiles, data).tiles, data) == Populate(tiles, data)
  {
    var once := Populate(tiles, data).tiles;
    var twice := Populate(once, data).tiles;
    assert DistinctIds(once);
    forall k | 0 <= k < |tiles|
      ensures twice[k] == once[k]
    {
      PopulatePointwise(tiles, data, k);
      PopulatePointwise(once, data, k);
      match LastMatch(data, tiles[k].id)
      case None =>
      case Some(e) => OverwriteAbsorbs(tiles[k], e, e);
    }
  }

  /** Tile `id` is one the document's visited elements write. */
  predicate Covered(data: Document, id: string) {
    LastMatch(data, id).Some?
  }

  /** Merging erases any difference in the public fields of covered tiles:
      two tile sequences that differ only there merge to the same result. */
  lemma PopulateForgetsEdits(a: seq<Tile>, b: seq<Tile>, data: Document)
    requires DistinctIds(a) && SameIds(a, b)
    requires forall k :: 0 <= k < |a| ==>
      a[k] == b[k] ||
      (Covered(data, a[k].id) && a[k].imageFile == b[k].imageFile && a[k].imagePreview == b[k].imagePreview)
    ensures Populate(a, data) == Populate(b, data)
  {
    var ra := Populate(a, data).tiles;
    var rb := Populate(b, data).tiles;
    assert DistinctIds(b);
    forall k | 0 <= k < |a|
      ensures ra[k] == rb[k]
    {
      PopulatePointwise(a, data, k);
      PopulatePointwise(b, data, k);
      match LastMatch(data, a[k].id)
      case None =>
      case Some(e) => OverwriteIgnoresPriorFields(a[k], b[k], e);
    }
  }

  /** An element whose id names no tile is skipped without error: the merge
      behaves as if it were absent from the document. */
  lemma UnknownEntrySkipped(tiles: seq<Tile>, pre: seq<Item>, e: Entry, post: seq<Item>)
    requires forall k :: 0 <= k < |tiles| ==> e.id != Some(tiles[k].id)
    ensures Populate(tiles, Truthy(Some(pre + [Record(e)] + post))) == Populate(tiles, Truthy(Some(pre + post)))
  {
    assert pre + [Record(e)] + post == pre + ([Record(e)] + post);
    ApplyItemsAppend(Merge, tiles, pre, [Record(e)] + post);
    ApplyItemsAppend(Merge, tiles, pre, post);
    var first := ApplyItems(Merge, tiles, pre);
    assert ([Record(e)] + post)[1..] == post;
    assert ApplyEntry(Merge, first.tiles, e) == first.tiles;
  }
}
