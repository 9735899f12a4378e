/** The paired in-place sort behind the in-memory key search: keys and items move together. */
module SortingKeys {
  import opened InMemoryModel

  type Row = (string, Item)

  predicate SortedByIdx(rows: seq<Row>) {
    forall i, j :: 0 <= i < j < |rows| ==> rows[i].1.idx <= rows[j].1.idx
  }

  /** Sorted, except that the row at `j` may have to move further to the front. */
  predicate SortedBut(rows: seq<Row>, n: int, j: int) {
    && 0 <= j <= n <= |rows|
    && (forall a, b :: 0 <= a < b < n && b != j ==> rows[a].1.idx <= rows[b].1.idx)
  }

  function Swapped(rows: seq<Row>, i: int, j: int): seq<Row>
    requires 0 <= i < |rows| && 0 <= j < |rows|
  {
    rows[i := rows[j]][j := rows[i]]
  }

  lemma SwappedSameRows(rows: seq<Row>, i: int, j: int)
    requires 0 <= i < |rows| && 0 <= j < |rows|
    ensures multiset(Swapped(rows, i, j)) == multiset(rows)
  {
  }

  lemma SortedAfterSwap(rows: seq<Row>, n: int, j: int)
    requires SortedBut(rows, n, j) && 0 < j < n && rows[j].1.idx < rows[j - 1].1.idx
    ensures SortedBut(Swapped(rows, j, j - 1), n, j - 1)
  {
  }

  class SortingKeys {
    const keys: array<string>
    const items: array<Item>

    ghost predicate Valid() {
      keys.Length == items.Length
    }

    ghost function Rows(): (rows: seq<Row>)
      requires Valid()
      reads keys, items
      ensures |rows| == keys.Length
      ensures forall i :: 0 <= i < |rows| ==> rows[i] == (keys[i], items[i])
    {
      seq(keys.Length, i requires 0 <= i < keys.Length reads keys, items => (keys[i], items[i]))
    }

    constructor (ks: seq<string>, its: seq<Item>)
      requires |ks| == |its|
      ensures Valid() && fresh(keys) && fresh(items)
      ensures keys[..] == ks && items[..] == its
    {
      keys := new string[|ks|](i requires 0 <= i < |ks| => ks[i]);
      items := new Item[|its|](i requires 0 <= i < |its| => its[i]);
    }

    predicate Less(i: int, j: int)
      requires 0 <= i < items.Length && 0 <= j < items.Length
      reads items
    {
      items[i].idx < items[j].idx
    }

    method Swap(i: int, j: int)
      requires Valid() && 0 <= i < keys.Length && 0 <= j < keys.Length
      modifies keys, items
      ensures Rows() == Swapped(old(Rows()), i, j)
    {
      var tmpk, tmpi := keys[i], items[i];
      keys[i] := keys[j];
      items[i] := items[j];
      keys[j] := tmpk;
      items[j] := tmpi;
    }

    /** Sorting through Less and Swap alone, by insertion. */
    method Stable()
      requires Valid()
      modifies keys, items
      ensures SortedByIdx(Rows())
      ensures multiset(Rows()) == multiset(old(Rows()))
    {
      hide SortedBut, Swapped;
      if keys.Length > 0 {
        SortedStart(Rows());
      }
      var i := 1;
      while i < keys.Length
        invariant 1 <= i && (i <= keys.Length || keys.Length == 0)
        invariant keys.Length > 0 ==> SortedBut(Rows(), i, i)
        invariant multiset(Rows()) == multiset(old(Rows()))
      {
        var j := i;
        SortedExtend(Rows(), i);
        while j > 0 && Less(j, j - 1)
          invariant 0 <= j <= i
          invariant SortedBut(Rows(), i + 1, j)
          invariant multiset(Rows()) == multiset(old(Rows()))
        {
          SwappedSameRows(Rows(), j, j - 1);
          SortedAfterSwap(Rows(), i + 1, j);
          Swap(j, j - 1);
          j := j - 1;
        }
        SortedPrefix(Rows(), i + 1, j);
        i := i + 1;
      }
      SortedAll(Rows(), i);
    }
  }

  lemma SortedStart(rows: seq<Row>)
    requires rows != []
    ensures SortedBut(rows, 1, 1)
  {
  }

  lemma SortedExtend(rows: seq<Row>, i: int)
    requires SortedBut(rows, i, i) && i < |rows|
    ensures SortedBut(rows, i + 1, i)
  {
  }

  lemma SortedAll(rows: seq<Row>, i: int)
    requires |rows| <= i && (rows != [] ==> SortedBut(rows, i, i))
    ensures SortedByIdx(rows)
  {
  }

  lemma SortedPrefix(rows: seq<Row>, n: int, j: int)
    requires SortedBut(rows, n, j) && j < n && (j > 0 ==> rows[j - 1].1.idx <= rows[j].1.idx)
    ensures SortedBut(rows, n, n)
  {
    forall a | 0 <= a < j ensures rows[a].1.idx <= rows[j].1.idx {
      if a < j - 1 {
        assert rows[a].1.idx <= rows[j - 1].1.idx;
      }
    }
  }
}
