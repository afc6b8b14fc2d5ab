/**
 * What the two table screens of the web client share: a click on a column
 * header picks the sort field and direction, and the visible rows are sorted
 * with a comparator that calls `localeCompare` on the two rows' sort keys,
 * one way round for `asc` and the other way round for `desc`.
 */
module TableView {
  import opened Lists
  import opened Text

  datatype Direction = Asc | Desc

  /** The comparator handed to `sort`: `a.localeCompare(b)` for `asc`, `b.localeCompare(a)` for `desc`. */
  function DirectedCompare(dir: Direction, a: string, b: string): (r: int)
    ensures -1 <= r <= 1
    ensures r == 0 <==> a == b
  {
    if dir == Asc then Compare(a, b) else Compare(b, a)
  }

  /** Sorting descending compares every pair exactly the other way round from sorting ascending. */
  lemma DescReversesAsc(a: string, b: string)
    ensures DirectedCompare(Desc, a, b) == -DirectedCompare(Asc, a, b)
  {
    CompareAntisymmetric(b, a);
  }

  /** The comparator as the order `sort` may put two rows in. */
  function KeyOrder<T>(key: T -> string, dir: Direction): (T, T) -> bool {
    (a: T, b: T) => DirectedCompare(dir, key(a), key(b)) <= 0
  }

  /** Each row's key is no later, in the chosen direction, than the key of every row after it. */
  ghost predicate SortedByKey<T>(rows: seq<T>, key: T -> string, dir: Direction) {
    forall i, j :: 0 <= i < j < |rows| ==> DirectedCompare(dir, key(rows[i]), key(rows[j])) <= 0
  }

  /** Comparing keys one way or the other is a consistent comparator. */
  lemma KeyOrderIsTotalPreorder<T(!new)>(key: T -> string, dir: Direction)
    ensures TotalPreorder(KeyOrder(key, dir))
  {
    var le := KeyOrder(key, dir);
    forall a: T, b: T ensures le(a, b) || le(b, a) {
      CompareAntisymmetric(key(a), key(b));
    }
    forall a: T, b: T, c: T | le(a, b) && le(b, c) ensures le(a, c) {
      if dir == Asc {
        CompareTransitive(key(a), key(b), key(c));
      } else {
        CompareTransitive(key(c), key(b), key(a));
      }
    }
  }

  /** `rows.sort(comparator)`. */
  function SortByKey<T>(rows: seq<T>, key: T -> string, dir: Direction): (r: seq<T>)
    ensures multiset(r) == multiset(rows)
  {
    SortBy(rows, KeyOrder(key, dir))
  }

  /** The sorted rows are the same rows, ordered by their keys in the chosen direction. */
  lemma SortByKeySorted<T(!new)>(rows: seq<T>, key: T -> string, dir: Direction)
    ensures SortedByKey(SortByKey(rows, key, dir), key, dir)
    ensures multiset(SortByKey(rows, key, dir)) == multiset(rows)
  {
    KeyOrderIsTotalPreorder(key, dir);
    SortBySorted(rows, KeyOrder(key, dir));
    var r := SortByKey(rows, key, dir);
    assert Sorted(r, KeyOrder(key, dir));
    forall i, j | 0 <= i < j < |r| ensures DirectedCompare(dir, key(r[i]), key(r[j])) <= 0 {
      assert KeyOrder(key, dir)(r[i], r[j]);
    }
  }

  /** The rows whose sort key is `k`. */
  function HasKey<T>(key: T -> string, k: string): T -> bool {
    (row: T) => key(row) == k
  }

  /** Rows with the same sort key keep their input order: `sort` is stable. */
  lemma SortByKeyStable<T>(rows: seq<T>, key: T -> string, dir: Direction, k: string)
    ensures Filter(SortByKey(rows, key, dir), HasKey(key, k)) == Filter(rows, HasKey(key, k))
  {
    var le := KeyOrder(key, dir);
    var q := HasKey(key, k);
    forall a, b | q(a) && q(b) ensures le(a, b) {
      assert key(a) == key(b);
    }
    SortByStable(rows, le, q);
  }

  function Flip(dir: Direction): Direction {
    if dir == Asc then Desc else Asc
  }

  /**
   * `handleSort(field)` as a function of the sort state: a click on the field
   * already sorted by flips the direction, a click on another field sorts by
   * that field ascending.
   */
  function NextSort<F(==)>(sortField: F, sortDirection: Direction, clicked: F): (r: (F, Direction))
    ensures r.0 == clicked
    ensures r.1 == Asc <==> (sortField == clicked ==> sortDirection == Desc)
  {
    if sortField == clicked then (sortField, Flip(sortDirection)) else (clicked, Asc)
  }

  /** Two clicks on the sorted-by column give back the state before them. */
  lemma NextSortTwiceRestores<F>(sortField: F, sortDirection: Direction)
    ensures var once := NextSort(sortField, sortDirection, sortField);
      NextSort(once.0, once.1, sortField) == (sortField, sortDirection)
      && once.1 != sortDirection
  {
  }

  /** Two clicks on another column sort by it descending, whatever the state before. */
  lemma NextSortTwiceOnNewField<F>(sortField: F, sortDirection: Direction, clicked: F)
    requires sortField != clicked
    ensures var once := NextSort(sortField, sortDirection, clicked);
      once == (clicked, Asc) && NextSort(once.0, once.1, clicked) == (clicked, Desc)
  {
  }
}
