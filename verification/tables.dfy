/** The relational store as the services see it: a table is a sequence of
    rows in storage order plus the next identity value, and the query
    language is filter, order-by, and page. Every helper is generic over
    the row type and takes the column it works on as a function. */
module Tables {
  import opened Common

  /** One table: rows in storage order and the identity the next insert gets. */
  datatype Table<T> = Table(rows: seq<T>, nextId: int)

  /** No two rows share a key. */
  ghost predicate UniqueKeys<T>(rows: seq<T>, key: T -> int)
  {
    forall i, j | 0 <= i < j < |rows| :: key(rows[i]) != key(rows[j])
  }

  /** The table invariant the identity column keeps: keys are unique,
      positive, and all below the next identity value. */
  ghost predicate Valid<T>(t: Table<T>, key: T -> int)
  {
    && UniqueKeys(t.rows, key)
    && (forall x | x in t.rows :: 1 <= key(x) < t.nextId)
    && t.nextId >= 1
  }

  /** `findById`: the first row with the given key, or nothing. */
  function Find<T>(rows: seq<T>, key: T -> int, id: int): (r: Option<T>)
    ensures r.Some? ==> r.value in rows && key(r.value) == id
    ensures r.None? <==> forall x | x in rows :: key(x) != id
  {
    if |rows| == 0 then None
    else if key(rows[0]) == id then Some(rows[0])
    else Find(rows[1..], key, id)
  }

  /** With unique keys, `Find` returns exactly the row that has the key. */
  lemma {:induction false} FindUnique<T>(rows: seq<T>, key: T -> int, x: T)
    requires UniqueKeys(rows, key)
    requires x in rows
    ensures Find(rows, key, key(x)) == Some(x)
  {
    if rows[0] != x {
      assert x in rows[1..];
      assert UniqueKeys(rows[1..], key) by {
        forall i, j | 0 <= i < j < |rows[1..]|
          ensures key(rows[1..][i]) != key(rows[1..][j])
        {
          assert rows[1..][i] == rows[i + 1] && rows[1..][j] == rows[j + 1];
        }
      }
      var k :| 0 <= k < |rows| && rows[k] == x;
      assert k != 0;
      FindUnique(rows[1..], key, x);
    }
  }

  /** Appends a new row; the caller has given it the key `t.nextId`. */
  function Insert<T>(t: Table<T>, row: T): (r: Table<T>)
    ensures r.rows == t.rows + [row]
    ensures r.nextId == t.nextId + 1
  {
    Table(t.rows + [row], t.nextId + 1)
  }

  /** Looking a key up after an append: the earlier rows win, and the
      appended row is found only when no earlier row has its key. */
  lemma {:induction false} FindAppend<T>(rows: seq<T>, key: T -> int, row: T, id: int)
    ensures Find(rows + [row], key, id)
            == if Find(rows, key, id).Some? then Find(rows, key, id)
               else if key(row) == id then Some(row) else None
  {
    if |rows| > 0 {
      assert (rows + [row])[1..] == rows[1..] + [row];
      FindAppend(rows[1..], key, row, id);
    }
  }

  /** After an insert into a valid table, the new key finds the new row and
      every other key finds what it found before. */
  lemma FindAfterInsert<T>(t: Table<T>, key: T -> int, row: T, id: int)
    requires Valid(t, key)
    requires key(row) == t.nextId
    ensures Find(Insert(t, row).rows, key, id) == if id == t.nextId then Some(row) else Find(t.rows, key, id)
  {
    FindAppend(t.rows, key, row, id);
  }

  /** `save` of an existing entity: the row with the same key is replaced,
      every other row stays where it is. */
  function Replace<T>(rows: seq<T>, key: T -> int, row: T): (r: seq<T>)
    ensures |r| == |rows|
    ensures forall i | 0 <= i < |rows| :: r[i] == (if key(rows[i]) == key(row) then row else rows[i])
  {
    if |rows| == 0 then []
    else [if key(rows[0]) == key(row) then row else rows[0]] + Replace(rows[1..], key, row)
  }

  /** A valid table stays valid when a fresh row is inserted under `nextId`. */
  lemma InsertKeepsValid<T>(t: Table<T>, key: T -> int, row: T)
    requires Valid(t, key)
    requires key(row) == t.nextId
    ensures Valid(Insert(t, row), key)
  {
    var r := Insert(t, row);
    forall i, j | 0 <= i < j < |r.rows|
      ensures key(r.rows[i]) != key(r.rows[j])
    {
      if j == |t.rows| {
        assert r.rows[i] in t.rows;
      } else {
        assert r.rows[i] == t.rows[i] && r.rows[j] == t.rows[j];
      }
    }
  }

  /** Saving a row exactly as it is stored changes nothing. */
  lemma ReplaceWithSelf<T>(rows: seq<T>, key: T -> int, row: T)
    requires UniqueKeys(rows, key)
    requires row in rows
    ensures Replace(rows, key, row) == rows
  {
    var k :| 0 <= k < |rows| && rows[k] == row;
    assert forall i | 0 <= i < |rows| :: Replace(rows, key, row)[i] == rows[i];
  }

  /** Replacing a row by one with the same key keeps the table valid. */
  lemma ReplaceKeepsValid<T>(t: Table<T>, key: T -> int, row: T)
    requires Valid(t, key)
    requires exists x | x in t.rows :: key(x) == key(row)
    ensures Valid(Table(Replace(t.rows, key, row), t.nextId), key)
  {
    var rows := Replace(t.rows, key, row);
    forall x | x in rows
      ensures 1 <= key(x) < t.nextId
    {
      var i :| 0 <= i < |rows| && rows[i] == x;
    }
  }

  /** After a replace in a valid table, the replaced key finds the new row
      and every other key finds what it found before. */
  lemma FindAfterReplace<T>(t: Table<T>, key: T -> int, row: T, id: int)
    requires Valid(t, key)
    requires exists x | x in t.rows :: key(x) == key(row)
    ensures Find(Replace(t.rows, key, row), key, id) == if id == key(row) then Some(row) else Find(t.rows, key, id)
  {
    ReplaceKeepsValid(t, key, row);
    if id == key(row) {
      FindReplacedKey(t.rows, key, row);
    } else {
      FindOtherKey(t.rows, key, row, id);
    }
  }

  /** The step of `FindAfterReplace` for the replaced key. */
  lemma FindReplacedKey<T>(rows: seq<T>, key: T -> int, row: T)
    requires UniqueKeys(Replace(rows, key, row), key)
    requires exists x | x in rows :: key(x) == key(row)
    ensures Find(Replace(rows, key, row), key, key(row)) == Some(row)
  {
    var k :| 0 <= k < |rows| && key(rows[k]) == key(row);
    assert Replace(rows, key, row)[k] == row;
    FindUnique(Replace(rows, key, row), key, row);
  }

  /** The step of `FindAfterReplace` for every other key. */
  lemma FindOtherKey<T>(rows: seq<T>, key: T -> int, row: T, id: int)
    requires UniqueKeys(Replace(rows, key, row), key)
    requires id != key(row)
    ensures Find(Replace(rows, key, row), key, id) == Find(rows, key, id)
  {
    var r := Replace(rows, key, row);
    if Find(rows, key, id).Some? {
      var x := Find(rows, key, id).value;
      var j :| 0 <= j < |rows| && rows[j] == x;
      assert r[j] == x;
      FindUnique(r, key, x);
    } else {
      forall y | y in r
        ensures key(y) != id
      {
        var j :| 0 <= j < |r| && r[j] == y;
      }
    }
  }

  /** The rows that satisfy `p`, in storage order (a `where` clause). */
  function Filter<T(!new)>(rows: seq<T>, p: T -> bool): (r: seq<T>)
    ensures forall x :: x in r <==> x in rows && p(x)
    ensures forall x :: multiset(r)[x] == if p(x) then multiset(rows)[x] else 0
  {
    if |rows| == 0 then []
    else
      var rest := Filter(rows[1..], p);
      assert rows == [rows[0]] + rows[1..];
      if p(rows[0]) then [rows[0]] + rest else rest
  }

  /** Removing rows keeps a table valid under the same counter. */
  lemma {:induction false} FilterKeepsValid<T(!new)>(t: Table<T>, key: T -> int, p: T -> bool)
    requires Valid(t, key)
    ensures Valid(Table(Filter(t.rows, p), t.nextId), key)
  {
    FilterKeepsUnique(t.rows, key, p);
  }

  /** Filtering rows with unique keys leaves rows with unique keys. */
  lemma {:induction false} FilterKeepsUnique<T(!new)>(rows: seq<T>, key: T -> int, p: T -> bool)
    requires UniqueKeys(rows, key)
    ensures UniqueKeys(Filter(rows, p), key)
  {
    if |rows| > 0 {
      var rest := Filter(rows[1..], p);
      TailKeepsUnique(rows, key);
      FilterKeepsUnique(rows[1..], key, p);
      if p(rows[0]) {
        forall y | y in rest
          ensures key(y) != key(rows[0])
        {
          var m :| 0 <= m < |rows| - 1 && rows[1..][m] == y;
          assert rows[m + 1] == y;
        }
        ConsKeepsUnique(rows[0], rest, key);
      }
    }
  }

  /** Dropping the first row keeps keys unique. */
  lemma TailKeepsUnique<T>(rows: seq<T>, key: T -> int)
    requires UniqueKeys(rows, key) && |rows| > 0
    ensures UniqueKeys(rows[1..], key)
  {
    forall i, j | 0 <= i < j < |rows| - 1
      ensures key(rows[1..][i]) != key(rows[1..][j])
    {
      assert rows[1..][i] == rows[i + 1] && rows[1..][j] == rows[j + 1];
    }
  }

  /** A row whose key no other row has can go in front. */
  lemma ConsKeepsUnique<T>(h: T, t: seq<T>, key: T -> int)
    requires UniqueKeys(t, key)
    requires forall y | y in t :: key(y) != key(h)
    ensures UniqueKeys([h] + t, key)
  {
    var r := [h] + t;
    forall i, j | 0 <= i < j < |r|
      ensures key(r[i]) != key(r[j])
    {
      if i == 0 {
        assert r[j] == t[j - 1] && t[j - 1] in t;
      } else {
        assert r[i] == t[i - 1] && r[j] == t[j - 1];
      }
    }
  }

  /** `key` does not decrease along `s`. */
  predicate SortedBy<T>(s: seq<T>, key: T -> int)
  {
    forall i, j | 0 <= i < j < |s| :: key(s[i]) <= key(s[j])
  }

  /** Inserts `x` into a sorted sequence before every element with the same key. */
  function InsertSorted<T(!new)>(x: T, s: seq<T>, key: T -> int): (r: seq<T>)
    requires SortedBy(s, key)
    ensures SortedBy(r, key)
    ensures multiset(r) == multiset(s) + multiset{x}
    ensures forall y :: y in r <==> y == x || y in s
  {
    if |s| == 0 then [x]
    else if key(x) <= key(s[0]) then [x] + s
    else
      var rest := InsertSorted(x, s[1..], key);
      assert s == [s[0]] + s[1..];
      assert forall y | y in s[1..] :: key(s[0]) <= key(y) by {
        FirstOfSortedIsLeast(s, key);
      }
      ConsKeepsSorted(s[0], rest, key);
      [s[0]] + rest
  }

  /** Putting an element no greater than every element in front of a
      sorted sequence keeps it sorted. */
  lemma ConsKeepsSorted<T>(h: T, t: seq<T>, key: T -> int)
    requires SortedBy(t, key)
    requires forall y | y in t :: key(h) <= key(y)
    ensures SortedBy([h] + t, key)
  {
    var r := [h] + t;
    forall i, j | 0 <= i < j < |r|
      ensures key(r[i]) <= key(r[j])
    {
      if i == 0 {
        assert r[j] == t[j - 1] && t[j - 1] in t;
      } else {
        assert r[i] == t[i - 1] && r[j] == t[j - 1];
      }
    }
  }

  /** `order by key asc`: a stable insertion sort. */
  function SortBy<T(!new)>(s: seq<T>, key: T -> int): (r: seq<T>)
    ensures SortedBy(r, key)
    ensures multiset(r) == multiset(s)
    ensures forall y :: y in r <==> y in s
  {
    if |s| == 0 then []
    else
      assert s == [s[0]] + s[1..];
      InsertSorted(s[0], SortBy(s[1..], key), key)
  }

  /** The head of a sorted sequence has the least key (`limit 1`). */
  lemma FirstOfSortedIsLeast<T>(s: seq<T>, key: T -> int)
    requires SortedBy(s, key) && |s| > 0
    ensures forall x | x in s :: key(s[0]) <= key(x)
  {
    forall x | x in s
      ensures key(s[0]) <= key(x)
    {
      var j :| 0 <= j < |s| && s[j] == x;
      if j > 0 {
        assert key(s[0]) <= key(s[j]);
      }
    }
  }

  /** `PageRequest.of(page, size)`: the rows at positions
      `page * size` up to (not including) `page * size + size`. */
  function Page<T>(s: seq<T>, page: int, size: int): (r: seq<T>)
    requires page >= 0 && size >= 1
    ensures |r| == if page * size >= |s| then 0 else Min(size, |s| - page * size)
    ensures forall i | 0 <= i < |r| :: page * size + i < |s| && r[i] == s[page * size + i]
  {
    Window(s, page * size, size)
  }

  /** The rows at positions `lo` up to (not including) `lo + size`. */
  function Window<T>(s: seq<T>, lo: int, size: int): (r: seq<T>)
    requires lo >= 0 && size >= 1
    ensures |r| == if lo >= |s| then 0 else Min(size, |s| - lo)
    ensures forall i | 0 <= i < |r| :: lo + i < |s| && r[i] == s[lo + i]
  {
    if lo >= |s| then [] else s[lo..Min(lo + size, |s|)]
  }

  /** A page of a sorted sequence is sorted. */
  lemma PageKeepsSorted<T>(s: seq<T>, page: int, size: int, key: T -> int)
    requires page >= 0 && size >= 1
    requires SortedBy(s, key)
    ensures SortedBy(Page(s, page, size), key)
  {
    var lo := page * size;
    var r := Page(s, page, size);
    forall a, b | 0 <= a < b < |r|
      ensures key(r[a]) <= key(r[b])
    {
      assert r[a] == s[lo + a] && r[b] == s[lo + b];
    }
  }

  /** Every row of a page is a row of the paged result. */
  lemma PageIsSubset<T>(s: seq<T>, page: int, size: int)
    requires page >= 0 && size >= 1
    ensures forall x | x in Page(s, page, size) :: x in s
  {
    var r := Page(s, page, size);
    forall x | x in r
      ensures x in s
    {
      var i :| 0 <= i < |r| && r[i] == x;
      assert s[page * size + i] == x;
    }
  }

  /** The first position of the page that offset `from` falls in: `from`
      rounded down to a multiple of `size`, as `PageRequest.of(from / size,
      size)` does. */
  function PageStart(from: int, size: int): (r: int)
    requires from >= 0 && size >= 1
    ensures r % size == 0
    ensures 0 <= r <= from < r + size
  {
    DivBounds(from, size);
    MultipleHasNoRemainder(from / size, size);
    (from / size) * size
  }

  /** Euclidean division by a positive size: the quotient times the size
      lies within one size below the dividend. */
  lemma DivBounds(a: int, size: int)
    requires a >= 0 && size >= 1
    ensures 0 <= a / size
    ensures (a / size) * size <= a < (a / size) * size + size
  {
    assert a == (a / size) * size + a % size;
  }

  /** Dividing a multiple of `size` by `size` gives the factor back. */
  lemma DivOfMultiple(k: int, size: int)
    requires k >= 0 && size >= 1
    ensures (k * size) / size == k
  {
    var q := (k * size) / size;
    DivBounds(k * size, size);
    if q < k {
      assert (k - q) * size == k * size - q * size;
      MulAtLeast(k - q, size);
    } else if q > k {
      assert (q - k) * size == q * size - k * size;
      MulAtLeast(q - k, size);
    }
  }

  /** A multiple of `size` leaves no remainder. */
  lemma MultipleHasNoRemainder(k: int, size: int)
    requires k >= 0 && size >= 1
    ensures (k * size) % size == 0
  {
    DivOfMultiple(k, size);
    assert k * size == ((k * size) / size) * size + (k * size) % size;
  }

  lemma MulAtLeast(d: int, size: int)
    requires d >= 1 && size >= 1
    ensures d * size >= size
  {
    assert d * size == (d - 1) * size + size;
  }

  /** `r` is the page of `all` that offset `from` falls in: the rows from
      `PageStart(from, size)` on, in order, as many as remain there but no
      more than `size`. */
  ghost predicate IsPageOf<T>(r: seq<T>, all: seq<T>, from: int, size: int)
    requires from >= 0 && size >= 1
  {
    var lo := PageStart(from, size);
    && |r| == (if lo >= |all| then 0 else Min(size, |all| - lo))
    && forall i | 0 <= i < |r| :: lo + i < |all| && r[i] == all[lo + i]
  }

  /** The page of `all` that offset `from` falls in. */
  function PageAt<T>(all: seq<T>, from: int, size: int): (r: seq<T>)
    requires from >= 0 && size >= 1
    ensures IsPageOf(r, all, from, size)
  {
    Page(all, from / size, size)
  }

  /** A page is determined by the listing, the offset and the size. */
  lemma PageOfIsUnique<T>(a: seq<T>, b: seq<T>, all: seq<T>, from: int, size: int)
    requires from >= 0 && size >= 1
    requires IsPageOf(a, all, from, size) && IsPageOf(b, all, from, size)
    ensures a == b
  {
    assert forall i | 0 <= i < |a| :: a[i] == b[i];
  }

  /** Paging loses no row: the row at position `n` of the listing is on the
      page that offset `n` falls in, at position `n - PageStart(n, size)`. */
  lemma EveryRowOnItsPage<T>(all: seq<T>, n: int, size: int)
    requires 0 <= n < |all| && size >= 1
    ensures n - PageStart(n, size) < |PageAt(all, n, size)|
    ensures PageAt(all, n, size)[n - PageStart(n, size)] == all[n]
  {
  }

  /** An offset inside a page gives that whole page: `from` is rounded
      down, not used as a start position. */
  lemma OffsetRoundsDown<T>(all: seq<T>, from: int, size: int)
    requires from >= 0 && size >= 1
    ensures PageStart(PageStart(from, size), size) == PageStart(from, size)
    ensures PageAt(all, from, size) == PageAt(all, PageStart(from, size), size)
  {
    var lo := PageStart(from, size);
    DivBounds(from, size);
    DivOfMultiple(from / size, size);
    assert lo / size == from / size;
    PageOfIsUnique(PageAt(all, from, size), PageAt(all, lo, size), all, from, size);
  }

  /** Offset 5 with page size 10 is page 0, the rows at positions 0 to 9. */
  lemma OffsetFiveSizeTenIsFirstPage<T>(all: seq<T>)
    ensures PageAt(all, 5, 10) == PageAt(all, 0, 10)
    ensures |all| >= 10 ==> PageAt(all, 5, 10) == all[..10]
  {
    OffsetRoundsDown(all, 5, 10);
  }
}
