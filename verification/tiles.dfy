/** The editor's tile records: nine of them, created once with ids `T1`..`T9`
    (admin/featured-manager.js, `generateTileEditors`). */
module Tiles {
  import opened Json
  import opened Text

  const TileCount: nat := 9
  const LOCAL: string := "local"
  const REMOTE: string := "remote"
  const ImageFolder: string := "images/featured/"

  /** An uploaded file, seen through the two properties the editor reads. */
  datatype File = File(name: string, mimeType: string)

  /** `mode` is a free string: the mode buttons only ever write "local" or
      "remote", but a merged or loaded document may put any string there. */
  datatype Tile = Tile(
    id: string,
    title: string,
    price: string,
    url: string,
    mode: string,
    localImage: string,
    remoteImage: string,
    imageFile: Option<File>,
    imagePreview: Option<string>)

  /** The id of the `n`-th tile or card, counting from 1: `T${n}`. */
  function TileId(n: nat): string {
    "T" + Decimal(n)
  }

  lemma TileIdInjective(a: nat, b: nat)
    ensures TileId(a) == TileId(b) <==> a == b
  {
    DecimalInjective(a, b);
    if TileId(a) == TileId(b) {
      assert TileId(a)[1..] == Decimal(a);
      assert TileId(b)[1..] == Decimal(b);
    }
  }

  /** The conventional path of a tile's local image. */
  function DefaultLocalImage(id: string): string {
    ImageFolder + id + ".jpg"
  }

  function NewTile(id: string): Tile {
    Tile(id, "", "", "", LOCAL, DefaultLocalImage(id), "", None, None)
  }

  /** The nine tiles in order, each with the given id. */
  predicate WellFormed(tiles: seq<Tile>) {
    |tiles| == TileCount && forall k :: 0 <= k < |tiles| ==> tiles[k].id == TileId(k + 1)
  }

  predicate SameIds(a: seq<Tile>, b: seq<Tile>) {
    |a| == |b| && forall k :: 0 <= k < |a| ==> a[k].id == b[k].id
  }

  predicate DistinctIds(tiles: seq<Tile>) {
    forall j, k :: 0 <= j < k < |tiles| ==> tiles[j].id != tiles[k].id
  }

  /** The six fields a document carries for a tile. */
  predicate SamePublic(a: Tile, b: Tile) {
    && a.title == b.title && a.price == b.price && a.url == b.url
    && a.mode == b.mode && a.localImage == b.localImage && a.remoteImage == b.remoteImage
  }

  /** The state `generateTileEditors` builds. */
  function InitialTiles(): (r: seq<Tile>)
    ensures WellFormed(r)
    ensures forall k :: 0 <= k < |r| ==> r[k].id == "T" + [DigitChar(k + 1)]
    ensures forall k :: 0 <= k < |r| ==>
      && r[k].title == "" && r[k].price == "" && r[k].url == "" && r[k].remoteImage == ""
      && r[k].mode == LOCAL
      && r[k].localImage == "images/featured/" + r[k].id + ".jpg"
      && r[k].imageFile.None? && r[k].imagePreview.None?
  {
    seq(TileCount, k requires 0 <= k < TileCount => NewTile(TileId(k + 1)))
  }

  lemma WellFormedDistinct(tiles: seq<Tile>)
    requires WellFormed(tiles)
    ensures DistinctIds(tiles)
  {
    forall j, k | 0 <= j < k < |tiles|
      ensures tiles[j].id != tiles[k].id
    {
      TileIdInjective(j + 1, k + 1);
    }
  }

  /** A sequence with the ids of a well-formed one is well-formed. */
  lemma SameIdsWellFormed(a: seq<Tile>, b: seq<Tile>)
    requires WellFormed(b) && SameIds(a, b)
    ensures WellFormed(a) && DistinctIds(a)
  {
    WellFormedDistinct(a);
  }

  /** `tiles.find(t => t.id === id)`, as a position: the first tile with that id. */
  function IndexOf(tiles: seq<Tile>, id: string): (r: Option<nat>)
    ensures r.Some? ==> r.value < |tiles| && tiles[r.value].id == id
    ensures r.Some? ==> forall j :: 0 <= j < r.value ==> tiles[j].id != id
    ensures r.None? ==> forall j :: 0 <= j < |tiles| ==> tiles[j].id != id
    decreases |tiles|
  {
    if tiles == [] then None
    else if tiles[0].id == id then Some(0)
    else match IndexOf(tiles[1..], id)
      case None => None
      case Some(k) => Some(k + 1)
  }

  /** With distinct ids, each tile is found at its own position. */
  lemma IndexOfDistinct(tiles: seq<Tile>, k: nat)
    requires DistinctIds(tiles) && k < |tiles|
    ensures IndexOf(tiles, tiles[k].id) == Some(k)
  {
  }
}
