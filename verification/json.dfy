/** Parsed JSON as the editor and the page loader see it.

    Both read a document only through its `tiles` array and each element's
    named string fields, so a parsed value is abstracted to exactly that:
    whether it is falsy, whether `.tiles` is an array, and for each element
    whether it is `null` (reading `.id` of it throws) and which fields it
    carries. */
module Json {

  datatype Option<+T> = None | Some(value: T) {
    function GetOr(fallback: T): T {
      match this
      case Some(v) => v
      case None => fallback
    }
  }

  /** One element of a `tiles` array. A field is `None` when the key is
      missing or holds `null`; `imagePreview` additionally tells a stored
      `null` (`Some(None)`) from a missing key (`None`). */
  datatype Entry = Entry(
    id: Option<string>,
    title: Option<string>,
    price: Option<string>,
    url: Option<string>,
    mode: Option<string>,
    localImage: Option<string>,
    remoteImage: Option<string>,
    imagePreview: Option<Option<string>>)

  /** `Null` is the only element on which `element.id` throws; any other
      value, object or not, is read as a record of whatever keys it has. */
  datatype Item = Null | Record(entry: Entry)

  /** A parsed value. `Falsy` is `null`, `false`, `0` or `""`; on all of them
      `value.tiles.forEach` throws. `Truthy(None)` is any other value whose
      `tiles` is not an array, on which it throws as well. */
  datatype Document = Falsy | Truthy(tiles: Option<seq<Item>>)

  /** The outcome of `JSON.parse` on a text. */
  datatype Parse = Malformed | Parsed(value: Document)

  /** JavaScript truthiness of a string field: present and non-empty. */
  predicate IsTruthy(v: Option<string>) {
    v.Some? && v.value != ""
  }

  /** `v || fallback` on a string field. */
  function Or(v: Option<string>, fallback: string): string {
    if IsTruthy(v) then v.value else fallback
  }

  /** The elements a `forEach` over `items` visits before one of them throws. */
  function Prefix(items: seq<Item>): (r: seq<Item>)
    ensures r <= items
    ensures Null !in r
    ensures |r| < |items| ==> items[|r|] == Null
    decreases |items|
  {
    if items == [] || items[0].Null? then [] else [items[0]] + Prefix(items[1..])
  }

  /** The entries among `items` whose id is `id`, in document order. */
  function Matches(items: seq<Item>, id: string): (r: seq<Entry>)
    ensures forall e :: e in r ==> e.id == Some(id) && Record(e) in items
    ensures forall e :: Record(e) in items && e.id == Some(id) ==> e in r
    decreases |items|
  {
    if items == [] then []
    else
      var rest := Matches(items[1..], id);
      assert forall e :: Record(e) in items[1..] ==> Record(e) in items;
      match items[0]
      case Null => rest
      case Record(e) => if e.id == Some(id) then [e] + rest else rest
  }

  lemma {:induction false} MatchesNone(items: seq<Item>, id: string)
    requires forall i :: 0 <= i < |items| ==> items[i].Null? || items[i].entry.id != Some(id)
    ensures Matches(items, id) == []
    decreases |items|
  {
    if items != [] {
      MatchesNone(items[1..], id);
    }
  }

  /** When exactly the element at `j` carries `id`, it is the only match. */
  lemma {:induction false} MatchesSingle(items: seq<Item>, id: string, j: nat)
    requires j < |items| && items[j].Record? && items[j].entry.id == Some(id)
    requires forall i :: 0 <= i < |items| && i != j ==> items[i].Null? || items[i].entry.id != Some(id)
    ensures Matches(items, id) == [items[j].entry]
    decreases |items|
  {
    if j == 0 {
      MatchesNone(items[1..], id);
    } else {
      MatchesSingle(items[1..], id, j - 1);
    }
  }
}
