/** The catalog store: the `MarketItems` table, kept as rows in insertion
    order with an auto-increment id, and the service that writes and
    queries it. Writes are methods on `MarketItemService`; queries are
    functions of the rows. */
module MarketItemSchema {
  import opened Common
  import opened Text
  import opened Seqs

  /** A `Double` is only copied, never computed with: it is carried as its
      IEEE-754 bit pattern. */
  datatype Double = Double(bits: bv64)

  /** The item as clients send and receive it. */
  datatype MarketItem = MarketItem(
    id: Int32,
    title: string,
    description: string,
    price: Int32,
    discountPercentage: Double,
    rating: Double,
    stock: Int32,
    brand: string,
    category: string,
    thumbnail: string,
    images: seq<string>)

  /** A row of `MarketItems`: one `image` column where the item has a list. */
  datatype ItemRow = ItemRow(
    id: Int32,
    title: string,
    description: string,
    price: Int32,
    discountPercentage: Double,
    rating: Double,
    stock: Int32,
    brand: string,
    category: string,
    thumbnail: string,
    image: string)

  /** `images.firstOrNull() ?: ""`. */
  function FirstOrEmpty(images: seq<string>): string
  {
    if images == [] then "" else images[0]
  }

  /** The columns `create` and `update` write for `item` under key `id`;
      the item's own `id` is not stored. */
  function RowOf(id: Int32, item: MarketItem): ItemRow
  {
    ItemRow(id, item.title, item.description, item.price, item.discountPercentage,
            item.rating, item.stock, item.brand, item.category, item.thumbnail,
            FirstOrEmpty(item.images))
  }

  /** `toDto`: the stored image becomes a one-element `images` list. */
  function ToDto(row: ItemRow): MarketItem
  {
    MarketItem(row.id, row.title, row.description, row.price, row.discountPercentage,
               row.rating, row.stock, row.brand, row.category, row.thumbnail, [row.image])
  }

  /** Reading back what was written gives the item under its new id, with
      `images` cut down to its first element, or `[""]` when it was empty. */
  lemma ReadBackAfterWrite(id: Int32, item: MarketItem)
    ensures ToDto(RowOf(id, item)).id == id
    ensures ToDto(RowOf(id, item)).images == (if item.images == [] then [""] else [item.images[0]])
    ensures ToDto(RowOf(id, item)) == item.(id := id, images := ToDto(RowOf(id, item)).images)
  {
  }

  /** Writing back what was read leaves a row as it was. */
  lemma WriteBackAfterRead(row: ItemRow)
    ensures RowOf(row.id, ToDto(row)) == row
  {
  }

  function MapDto(rows: seq<ItemRow>): (r: seq<MarketItem>)
    ensures |r| == |rows|
  {
    seq(|rows|, i requires 0 <= i < |rows| => ToDto(rows[i]))
  }

  /** `toDto` loses nothing a row holds, so a row occurs in `a` as often as
      its item occurs in `MapDto(a)`. */
  lemma {:induction false} MapDtoCount(a: seq<ItemRow>, x: ItemRow)
    ensures multiset(MapDto(a))[ToDto(x)] == multiset(a)[x]
  {
    if a != [] {
      MapDtoCount(a[1..], x);
      assert a == [a[0]] + a[1..];
      assert MapDto(a) == [ToDto(a[0])] + MapDto(a[1..]);
      WriteBackAfterRead(a[0]);
      WriteBackAfterRead(x);
    }
  }

  /** Projecting both sides to items keeps a subsequence a subsequence. */
  lemma {:induction false} MapDtoKeepsSubsequence(a: seq<ItemRow>, b: seq<ItemRow>)
    requires IsSubsequence(a, b)
    ensures IsSubsequence(MapDto(a), MapDto(b))
    decreases |b|
  {
    if a != [] {
      assert MapDto(a)[1..] == MapDto(a[1..]);
      assert MapDto(b)[1..] == MapDto(b[1..]);
      if a[0] == b[0] && IsSubsequence(a[1..], b[1..]) {
        MapDtoKeepsSubsequence(a[1..], b[1..]);
      } else {
        MapDtoKeepsSubsequence(a, b[1..]);
      }
    }
  }

  // ---------------------------------------------------------------------------
  // The table
  // ---------------------------------------------------------------------------

  /** The key column `id` of a row. */
  function RowId(row: ItemRow): int { row.id }

  /** `after` is `before` without the row keyed `id`, or `before` itself
      when no row has that key. */
  ghost predicate DeletedId(before: seq<ItemRow>, after: seq<ItemRow>, id: int)
  {
    && (forall k :: 0 <= k < |before| && before[k].id == id ==> after == before[..k] + before[k + 1..])
    && ((forall k :: 0 <= k < |before| ==> before[k].id != id) ==> after == before)
  }

  class MarketItemService {
    /** The rows of `MarketItems`, in insertion order. */
    var rows: seq<ItemRow>
    /** The next value of the id column's serial sequence. */
    var nextId: int

    ghost predicate Valid()
      reads this
    {
      && 1 <= nextId <= MaxInt32 + 1
      && KeysAscending(rows, RowId)   // rows are in insertion order
      && (forall i :: 0 <= i < |rows| ==> 1 <= rows[i].id < nextId)
    }

    /** `SchemaUtils.create(MarketItems)` on a fresh database. */
    constructor ()
      ensures Valid() && rows == [] && nextId == 1
    {
      rows := [];
      nextId := 1;
    }

    /** `create`: inserts the item under the next serial id and returns it.
        Once the serial sequence is past the largest `Int` the insert fails
        and nothing changes. */
    method Create(item: MarketItem) returns (id: Option<Int32>)
      requires Valid()
      modifies this
      ensures Valid()
      ensures old(nextId) <= MaxInt32 ==>
        && id == Some(old(nextId))
        && rows == old(rows) + [RowOf(old(nextId), item)]
        && nextId == old(nextId) + 1
      ensures old(nextId) > MaxInt32 ==> id == None && rows == old(rows) && nextId == old(nextId)
      ensures id.Some? ==> forall i :: 0 <= i < |old(rows)| ==> old(rows)[i].id != id.value
    {
      if nextId > MaxInt32 {
        return None;
      }
      id := Some(nextId);
      rows := rows + [RowOf(nextId, item)];
      nextId := nextId + 1;
    }

    /** `update`: every column but the id of the row with key `id` is
        replaced; the number of rows changed (0 or 1) is returned. */
    method Update(id: Int32, item: MarketItem) returns (count: nat)
      requires Valid()
      modifies this`rows
      ensures Valid()
      ensures |rows| == |old(rows)|
      ensures forall i :: 0 <= i < |rows| ==>
        rows[i] == (if old(rows)[i].id == id then RowOf(id, item) else old(rows)[i])
      ensures count == (if exists i :: 0 <= i < |old(rows)| && old(rows)[i].id == id then 1 else 0)
      ensures (forall i :: 0 <= i < |old(rows)| ==> old(rows)[i].id != id) ==> rows == old(rows)
    {
      var current := rows;
      count := if IndexOfKey(current, RowId, id).Some? then 1 else 0;
      rows := seq(|current|, i requires 0 <= i < |current| =>
        if current[i].id == id then RowOf(id, item) else current[i]);
      assert forall i :: 0 <= i < |rows| ==> rows[i].id == current[i].id;
    }

    /** `delete`: removes the row with key `id`; without one, nothing. */
    method Delete(id: Int32)
      requires Valid()
      modifies this`rows
      ensures Valid()
      ensures DeletedId(old(rows), rows, id)
    {
      match IndexOfKey(rows, RowId, id)
      case Some(k) =>
        RemoveKeepsAscending(rows, RowId, k);
        rows := rows[..k] + rows[k + 1..];
      case None =>
    }

    /** `deleteAll`: empties the table, returning how many rows it held.
        The serial sequence is not reset. */
    method DeleteAll() returns (count: nat)
      requires Valid()
      modifies this`rows
      ensures Valid()
      ensures count == |old(rows)| && rows == []
    {
      count := |rows|;
      rows := [];
    }
  }

  // ---------------------------------------------------------------------------
  // Queries
  // ---------------------------------------------------------------------------

  /** `getPaged`: `selectAll().drop(skip).take(limit)`, as items. Kotlin's
      `drop` and `take` reject negative counts. */
  function GetPaged(rows: seq<ItemRow>, limit: int, skip: int): (r: seq<MarketItem>)
    requires limit >= 0 && skip >= 0
    ensures |r| == Max(0, Min(limit, |rows| - skip))
    ensures forall i :: 0 <= i < |r| ==> r[i] == ToDto(rows[skip + i])
  {
    var dropped := if skip <= |rows| then rows[skip..] else [];
    var taken := if limit <= |dropped| then dropped[..limit] else dropped;
    MapDto(taken)
  }

  /** Two adjacent pages together are the page that spans both. */
  lemma PagesConcatenate(rows: seq<ItemRow>, a: nat, b: nat, skip: nat)
    ensures GetPaged(rows, a, skip) + GetPaged(rows, b, skip + a) == GetPaged(rows, a + b, skip)
  {
  }

  /** `getAllCategories`: `SELECT DISTINCT category`. */
  function GetAllCategories(rows: seq<ItemRow>): (r: seq<string>)
    ensures NoDuplicates(r)
    ensures forall k :: 0 <= k < |r| ==> exists i :: 0 <= i < |rows| && rows[i].category == r[k]
    ensures forall i :: 0 <= i < |rows| ==> rows[i].category in r
  {
    var categories := seq(|rows|, i requires 0 <= i < |rows| => rows[i].category);
    var r := Distinct(categories);
    assert forall i :: 0 <= i < |rows| ==> categories[i] == rows[i].category;
    assert forall k :: 0 <= k < |r| ==> r[k] in categories;
    r
  }

  /** The rows satisfying `p`, as items, in table order. */
  function Select(rows: seq<ItemRow>, p: ItemRow -> bool): (r: seq<MarketItem>)
    ensures forall k :: 0 <= k < |r| ==> exists i :: 0 <= i < |rows| && p(rows[i]) && r[k] == ToDto(rows[i])
    ensures forall i :: 0 <= i < |rows| && p(rows[i]) ==> ToDto(rows[i]) in r
    ensures IsSubsequence(r, MapDto(rows))
    ensures forall i :: 0 <= i < |rows| && p(rows[i]) ==>
      multiset(r)[ToDto(rows[i])] == multiset(MapDto(rows))[ToDto(rows[i])]
  {
    var f := Filter(rows, p);
    var r := MapDto(f);
    MapDtoKeepsSubsequence(f, rows);
    forall i | 0 <= i < |rows| && p(rows[i])
      ensures multiset(r)[ToDto(rows[i])] == multiset(MapDto(rows))[ToDto(rows[i])]
    {
      MapDtoCount(f, rows[i]);
      MapDtoCount(rows, rows[i]);
    }
    assert forall i :: 0 <= i < |rows| && p(rows[i]) ==> ToDto(rows[i]) in r by {
      forall i | 0 <= i < |rows| && p(rows[i]) ensures ToDto(rows[i]) in r {
        var j :| 0 <= j < |f| && f[j] == rows[i];
        assert r[j] == ToDto(rows[i]);
      }
    }
    r
  }

  /** `getByCategory`: the rows whose category equals `category` exactly. */
  function GetByCategory(rows: seq<ItemRow>, category: string): (r: seq<MarketItem>)
    ensures forall k :: 0 <= k < |r| ==> r[k].category == category
    ensures forall i :: 0 <= i < |rows| && rows[i].category == category ==> ToDto(rows[i]) in r
    ensures IsSubsequence(r, MapDto(rows))
    ensures forall i :: 0 <= i < |rows| && rows[i].category == category ==>
      multiset(r)[ToDto(rows[i])] == multiset(MapDto(rows))[ToDto(rows[i])]
  {
    Select(rows, (row: ItemRow) => row.category == category)
  }

  /** The `WHERE` of `search`: `lower(title) LIKE lower(q) || '%'`. */
  predicate TitleMatches(row: ItemRow, q: string)
  {
    Like(Lower(row.title), Lower(q) + "%")
  }

  /** `search`: the rows whose lower-cased title matches the lower-cased
      query followed by `%`, in table order. */
  function Search(rows: seq<ItemRow>, q: string): (r: seq<MarketItem>)
    ensures forall k :: 0 <= k < |r| ==> Like(Lower(r[k].title), Lower(q) + "%")
    ensures forall i :: 0 <= i < |rows| && TitleMatches(rows[i], q) ==> ToDto(rows[i]) in r
    ensures IsSubsequence(r, MapDto(rows))
    ensures forall i :: 0 <= i < |rows| && TitleMatches(rows[i], q) ==>
      multiset(r)[ToDto(rows[i])] == multiset(MapDto(rows))[ToDto(rows[i])]
  {
    Select(rows, (row: ItemRow) => TitleMatches(row, q))
  }

  /** For a query with no `%`, `_` or `\`, search is a case-insensitive
      title-prefix search. */
  lemma SearchIsPrefixMatch(rows: seq<ItemRow>, q: string)
    requires NoLikeMeta(q)
    ensures forall k :: 0 <= k < |Search(rows, q)| ==> Lower(q) <= Lower(Search(rows, q)[k].title)
    ensures forall i :: 0 <= i < |rows| && Lower(q) <= Lower(rows[i].title) ==> ToDto(rows[i]) in Search(rows, q)
  {
    LowerKeepsNoLikeMeta(q);
    var r := Search(rows, q);
    forall k | 0 <= k < |r| ensures Lower(q) <= Lower(r[k].title) {
      LikePrefix(Lower(r[k].title), Lower(q));
    }
    forall i | 0 <= i < |rows| && Lower(q) <= Lower(rows[i].title) ensures ToDto(rows[i]) in r {
      LikePrefix(Lower(rows[i].title), Lower(q));
    }
  }

  /** The empty query matches every row. */
  lemma SearchEmptyQueryMatchesAll(rows: seq<ItemRow>)
    ensures forall i :: 0 <= i < |rows| ==> ToDto(rows[i]) in Search(rows, "")
  {
    forall i | 0 <= i < |rows| ensures TitleMatches(rows[i], "") {
      assert Lower("") + "%" == "%";
      LikeAnyMatches(Lower(rows[i].title));
    }
  }

  /** "abc" finds the title "ABCdef" but not "xABC". */
  lemma SearchIsCaseInsensitivePrefix(row: ItemRow)
    ensures row.title == "ABCdef" ==> TitleMatches(row, "abc")
    ensures row.title == "xABC" ==> !TitleMatches(row, "abc")
  {
    assert Lower("abc") == "abc";
    if row.title == "ABCdef" {
      assert Lower(row.title) == "abcdef";
      LikePrefix("abcdef", "abc");
    } else if row.title == "xABC" {
      assert Lower(row.title) == "xabc";
      LikePrefix("xabc", "abc");
    }
  }
}
