/** The public page's use of `featured.json` (featured-loader.js,
    `loadFeaturedTiles`): card `i` of the featured grid takes the data of
    tile `T(i+1)`, looked up in a map built from the document. */
module Loader {
  import opened Json
  import opened Tiles
  import opened Export

  /** An `img` element: its source, alternative text and inline display. */
  datatype Img = Img(src: string, alt: string, display: string)

  /** A card's `.product-image` container: whether it still holds the
      placeholder, and its `img`, if it has one. */
  datatype ImageBox = ImageBox(placeholder: bool, img: Option<Img>)

  datatype Link = Link(href: string, target: string, rel: string)

  /** A product card, reduced to the elements the loader writes. Each is
      `None` when the card lacks that element; `title` and `price` hold the
      element's text. */
  datatype Card = Card(image: Option<ImageBox>, title: Option<string>, price: Option<string>, link: Option<Link>)

  /** The property key an element's id becomes: a missing id is the key
      "undefined", which no card ever asks for. */
  function KeyOf(id: Option<string>): string {
    if id.Some? then id.value else "undefined"
  }

  /** The `forEach` that fills `tilesMap`, from the map `acc` built so far;
      `None` when it reaches a `null` element and throws. */
  function Collect(acc: map<string, Entry>, items: seq<Item>): (r: Option<map<string, Entry>>)
    ensures r.Some? <==> Null !in items
    decreases |items|
  {
    if items == [] then Some(acc)
    else match items[0]
      case Null => None
      case Record(e) =>
        var r := Collect(acc[KeyOf(e.id) := e], items[1..]);
        assert items == [items[0]] + items[1..];
        r
  }

  /** For any key a card can ask for, the map holds the last element with
      that id: a later duplicate overwrites an earlier one. */
  lemma {:induction false} CollectLookup(acc: map<string, Entry>, items: seq<Item>, s: string)
    requires Null !in items && s != "undefined"
    ensures var m := Collect(acc, items).value;
      var es := Matches(items, s);
      && (s in m <==> s in acc || es != [])
      && (es != [] ==> m[s] == es[|es| - 1])
      && (es == [] && s in acc ==> m[s] == acc[s])
    decreases |items|
  {
    if items != [] {
      var e := items[0].entry;
      var acc' := acc[KeyOf(e.id) := e];
      assert KeyOf(e.id) == s <==> e.id == Some(s);
      assert Null !in items[1..];
      CollectLookup(acc', items[1..], s);
      if e.id == Some(s) {
        assert Matches(items, s) == [e] + Matches(items[1..], s);
      } else {
        assert Matches(items, s) == Matches(items[1..], s);
      }
    }
  }

  /** The data for card `i`, if the map has tile `T(i+1)`. */
  function Lookup(m: map<string, Entry>, i: nat): Option<Entry> {
    var id := TileId(i + 1);
    if id in m then Some(m[id]) else None
  }

  /** The image source rule: the remote URL in remote mode, the local path
      in local mode, each only when non-empty; otherwise the source stays. */
  function ImageSource(current: string, e: Entry): (r: string)
    ensures e.mode == Some(REMOTE) && IsTruthy(e.remoteImage) ==> r == e.remoteImage.value
    ensures e.mode == Some(LOCAL) && IsTruthy(e.localImage) ==> r == e.localImage.value
    ensures r != current ==>
      (e.mode == Some(REMOTE) && IsTruthy(e.remoteImage)) || (e.mode == Some(LOCAL) && IsTruthy(e.localImage))
  {
    if e.mode == Some(REMOTE) && IsTruthy(e.remoteImage) then e.remoteImage.value
    else if e.mode == Some(LOCAL) && IsTruthy(e.localImage) then e.localImage.value
    else current
  }

  /** `img.alt = tileData.title`; a missing title reads as "undefined". */
  function AltText(title: Option<string>): string {
    title.GetOr("undefined")
  }

  /** The overwrite rules for one card and its tile data. The image (when
      the card has a container) loses its placeholder, gets an `img` if it
      had none, its source by the rule above, the title as alt text and
      `display: block`. Title, price and link change only when the tile's
      value is non-empty. */
  function ProjectCard(card: Card, e: Entry): (r: Card)
    ensures r.image.Some? <==> card.image.Some?
    ensures r.image.Some? ==>
      var img := r.image.value.img;
      && !r.image.value.placeholder && img.Some?
      && img.value.alt == AltText(e.title) && img.value.display == "block"
      && (card.image.value.img.Some? ==> img.value.src == ImageSource(card.image.value.img.value.src, e))
      && (card.image.value.img.None? ==> img.value.src == ImageSource("", e))
    ensures IsTruthy(e.title) && card.title.Some? ==> r.title == e.title
    ensures !IsTruthy(e.title) || card.title.None? ==> r.title == card.title
    ensures IsTruthy(e.price) && card.price.Some? ==> r.price == e.price
    ensures !IsTruthy(e.price) || card.price.None? ==> r.price == card.price
    ensures IsTruthy(e.url) && card.link.Some? ==> r.link == Some(Link(e.url.value, "_blank", "noopener noreferrer"))
    ensures !IsTruthy(e.url) || card.link.None? ==> r.link == card.link
  {
    var image :=
      if card.image.None? then None
      else
        var img := card.image.value.img.GetOr(Img("", "", ""));
        Some(ImageBox(false, Some(Img(ImageSource(img.src, e), AltText(e.title), "block"))));
    var title := if card.title.Some? && IsTruthy(e.title) then e.title else card.title;
    var price := if card.price.Some? && IsTruthy(e.price) then e.price else card.price;
    var link := if card.link.Some? && IsTruthy(e.url) then Some(Link(e.url.value, "_blank", "noopener noreferrer")) else card.link;
    Card(image, title, price, link)
  }

  function ProjectAt(card: Card, m: map<string, Entry>, i: nat): Card {
    match Lookup(m, i)
    case None => card
    case Some(e) => ProjectCard(card, e)
  }

  /** The outcome of `fetch('/featured.json')`: a failed or non-ok response,
      or a body that may or may not parse. */
  datatype Response = Failed | Fetched(body: Parse)

  /** `loadFeaturedTiles`: `section` is the featured grid's cards in DOM
      order, `None` when the grid is missing. Every failure (no response,
      unparsable body, missing grid, no `tiles` array, a `null` element)
      leaves all cards as they were. */
  function LoadFeatured(section: Option<seq<Card>>, response: Response): (r: Option<seq<Card>>)
    ensures r.Some? <==> section.Some?
    ensures r.Some? ==> |r.value| == |section.value|
    ensures response.Failed? || response.body.Malformed? ==> r == section
    ensures response.Fetched? && response.body.Parsed? && !(response.body.value.Truthy? && response.body.value.tiles.Some?) ==> r == section
    ensures (response.Fetched? && response.body.Parsed? && response.body.value.Truthy? && response.body.value.tiles.Some?
             && Null in response.body.value.tiles.value) ==> r == section
  {
    match response
    case Failed => section
    case Fetched(Malformed) => section
    case Fetched(Parsed(data)) =>
      if section.None? || !(data.Truthy? && data.tiles.Some?) then section
      else match Collect(map[], data.tiles.value)
        case None => section
        case Some(m) =>
          var cards := section.value;
          Some(seq(|cards|, i requires 0 <= i < |cards| => ProjectAt(cards[i], m, i)))
  }

  /** Each card depends only on itself and the elements carrying its own id
      `T(i+1)`: unchanged when there are none, otherwise projected with the
      last of them. */
  lemma LoadFeaturedPointwise(cards: seq<Card>, items: seq<Item>, i: nat)
    requires Null !in items && i < |cards|
    ensures var r := LoadFeatured(Some(cards), Fetched(Parsed(Truthy(Some(items)))));
      var es := Matches(items, TileId(i + 1));
      && r.Some? && |r.value| == |cards|
      && r.value[i] == (if es == [] then cards[i] else ProjectCard(cards[i], es[|es| - 1]))
  {
    assert TileId(i + 1)[0] == 'T';
    assert TileId(i + 1) != "undefined";
    CollectLookup(map[], items, TileId(i + 1));
  }

  /** Projecting the same tile data twice is projecting it once. */
  lemma ProjectCardIdempotent(card: Card, e: Entry)
    ensures ProjectCard(ProjectCard(card, e), e) == ProjectCard(card, e)
  {
  }

  /** Loading the same document twice leaves the page as loading it once. */
  lemma LoadFeaturedIdempotent(section: Option<seq<Card>>, response: Response)
    ensures var once := LoadFeatured(section, response);
      LoadFeatured(once, response) == once
  {
    var once := LoadFeatured(section, response);
    if response.Fetched? && response.body.Parsed? && section.Some? {
      var data := response.body.value;
      if data.Truthy? && data.tiles.Some? && Null !in data.tiles.value {
        var m := Collect(map[], data.tiles.value).value;
        var cards := section.value;
        assert once.value == seq(|cards|, i requires 0 <= i < |cards| => ProjectAt(cards[i], m, i));
        forall i | 0 <= i < |cards|
          ensures ProjectAt(once.value[i], m, i) == once.value[i]
        {
          match Lookup(m, i)
          case None =>
          case Some(e) => ProjectCardIdempotent(cards[i], e);
        }
        assert LoadFeatured(once, response).value == seq(|cards|, i requires 0 <= i < |cards| => ProjectAt(once.value[i], m, i));
        assert LoadFeatured(once, response).value == once.value;
      }
    }
  }

  /** A page loading a document the editor exported: card `i` of the first
      nine takes tile `T(i+1)`'s public fields, and any further card is
      left alone. */
  lemma LoadExported(cards: seq<Card>, tiles: seq<Tile>)
    requires WellFormed(tiles)
    ensures var r := LoadFeatured(Some(cards), Fetched(Parsed(ExportDocument(tiles))));
      && r.Some? && |r.value| == |cards|
      && forall i :: 0 <= i < |cards| ==>
        r.value[i] == if i < TileCount then ProjectCard(cards[i], PublicEntry(tiles[i])) else cards[i]
  {
    var items := ExportDocument(tiles).tiles.value;
    assert forall j :: 0 <= j < |items| ==> items[j].Record?;
    var r := LoadFeatured(Some(cards), Fetched(Parsed(ExportDocument(tiles))));
    forall i | 0 <= i < |cards|
      ensures r.value[i] == if i < TileCount then ProjectCard(cards[i], PublicEntry(tiles[i])) else cards[i]
    {
      LoadFeaturedPointwise(cards, items, i);
      forall j | 0 <= j < |items|
        ensures j != i ==> items[j].entry.id != Some(TileId(i + 1))
      {
        TileIdInjective(i + 1, j + 1);
      }
      if i < TileCount {
        MatchesSingle(items, TileId(i + 1), i);
      } else {
        MatchesNone(items, TileId(i + 1));
      }
    }
  }
}
