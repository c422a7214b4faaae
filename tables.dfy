/** Column operations shared by the summaries: row selection, projection,
    sums, distinct values (pandas `nunique`), group-by over an optional key
    (pandas drops rows whose key is null) and a sort in descending order of a
    value column. */
module Tables {

  datatype Option<+T> = None | Some(value: T)

  // ------------------------------------------------------------ selection

  function Filter<T(!new)>(s: seq<T>, p: T -> bool): (r: seq<T>)
    ensures |r| <= |s|
    ensures forall x :: x in r <==> x in s && p(x)
  {
    if s == [] then []
    else if p(s[0]) then [s[0]] + Filter(s[1..], p)
    else Filter(s[1..], p)
  }

  /** Selecting with one test and then another is selecting with both. */
  lemma {:induction false} FilterOfFilter<T(!new)>(s: seq<T>, p: T -> bool, q: T -> bool, pq: T -> bool)
    requires forall x :: x in s ==> (pq(x) <==> p(x) && q(x))
    ensures Filter(Filter(s, p), q) == Filter(s, pq)
  {
    if s != [] {
      FilterOfFilter(s[1..], p, q, pq);
    }
  }

  /** A row appended to the table is kept at the end exactly when it passes. */
  lemma {:induction false} FilterAppend<T(!new)>(s: seq<T>, x: T, p: T -> bool)
    ensures Filter(s + [x], p) == Filter(s, p) + (if p(x) then [x] else [])
  {
    if s == [] {
      assert [] + [x] == [x];
    } else {
      assert (s + [x])[0] == s[0];
      assert (s + [x])[1..] == s[1..] + [x];
      FilterAppend(s[1..], x, p);
    }
  }

  /** A selection keeps table order: selecting from two tables laid end to end
      is selecting from each and laying the results end to end. */
  lemma {:induction false} FilterConcat<T(!new)>(a: seq<T>, b: seq<T>, p: T -> bool)
    ensures Filter(a + b, p) == Filter(a, p) + Filter(b, p)
  {
    if a == [] {
      assert a + b == b;
    } else {
      assert (a + b)[0] == a[0];
      assert (a + b)[1..] == a[1..] + b;
      FilterConcat(a[1..], b, p);
    }
  }

  /** A selection keeps every row that passes, and as many times as it occurs. */
  lemma {:induction false} FilterKeepsAll<T(!new)>(s: seq<T>, p: T -> bool)
    requires forall x :: x in s ==> p(x)
    ensures Filter(s, p) == s
  {
    if s != [] {
      FilterKeepsAll(s[1..], p);
    }
  }

  lemma {:induction false} FilterKeepsNone<T(!new)>(s: seq<T>, p: T -> bool)
    requires forall x :: x in s ==> !p(x)
    ensures Filter(s, p) == []
  {
    if s != [] {
      FilterKeepsNone(s[1..], p);
    }
  }

  /** A selection keeps each passing row exactly as often as it occurs, and no other row. */
  lemma {:induction false} FilterMultiplicity<T(!new)>(s: seq<T>, p: T -> bool, x: T)
    ensures multiset(Filter(s, p))[x] == if p(x) then multiset(s)[x] else 0
  {
    if s != [] {
      FilterMultiplicity(s[1..], p, x);
      assert s == [s[0]] + s[1..];
    }
  }

  /** Position of the first row that passes a test. */
  function FirstIndex<T(!new)>(s: seq<T>, p: T -> bool): (i: nat)
    requires exists j :: 0 <= j < |s| && p(s[j])
    ensures i < |s| && p(s[i])
    ensures forall j :: 0 <= j < i ==> !p(s[j])
  {
    if p(s[0]) then 0
    else
      assert exists j :: 0 <= j < |s[1..]| && p(s[1..][j]) by {
        var j :| 0 <= j < |s| && p(s[j]);
        assert s[1..][j - 1] == s[j];
      }
      1 + FirstIndex(s[1..], p)
  }

  /** Selecting twice with the same test changes nothing more. */
  lemma {:induction false} FilterIdempotent<T(!new)>(s: seq<T>, p: T -> bool)
    ensures Filter(Filter(s, p), p) == Filter(s, p)
  {
    FilterKeepsAll(Filter(s, p), p);
  }

  function Project<T(!new), U>(s: seq<T>, f: T -> U): (r: seq<U>)
    ensures |r| == |s|
    ensures forall i :: 0 <= i < |s| ==> r[i] == f(s[i])
  {
    if s == [] then [] else [f(s[0])] + Project(s[1..], f)
  }

  /** Sum of a column (pandas `sum`; 0 for no rows). */
  function Total<T(!new)>(s: seq<T>, w: T -> int): int {
    if s == [] then 0 else w(s[0]) + Total(s[1..], w)
  }

  /** Rows that satisfy exactly one of two disjoint tests contribute to exactly one sum. */
  lemma {:induction false} TotalOfDisjointSplit<T(!new)>(s: seq<T>, p: T -> bool, q: T -> bool, pq: T -> bool, w: T -> int)
    requires forall x :: x in s ==> (pq(x) <==> p(x) || q(x))
    requires forall x :: x in s ==> !(p(x) && q(x))
    ensures Total(Filter(s, pq), w) == Total(Filter(s, p), w) + Total(Filter(s, q), w)
  {
    if s != [] {
      TotalOfDisjointSplit(s[1..], p, q, pq, w);
    }
  }

  /** Summing a 0/1 indicator of `q` over the rows selected by `p` counts the
      rows that pass both. */
  lemma {:induction false} TotalOfIndicator<T(!new)>(s: seq<T>, p: T -> bool, q: T -> bool, pq: T -> bool, w: T -> int)
    requires forall x :: x in s ==> w(x) == (if q(x) then 1 else 0)
    requires forall x :: x in s ==> (pq(x) <==> p(x) && q(x))
    ensures Total(Filter(s, p), w) == |Filter(s, pq)|
  {
    if s != [] {
      TotalOfIndicator(s[1..], p, q, pq, w);
    }
  }

  // -------------------------------------------------------- distinct values

  predicate NoDup<T(==,!new)>(s: seq<T>) {
    forall i, j :: 0 <= i < j < |s| ==> s[i] != s[j]
  }

  function Elements<T(!new)>(s: seq<T>): set<T> {
    set x | x in s
  }

  /** The distinct values of a column, each once, in order of first occurrence. */
  function Distinct<T(==,!new)>(s: seq<T>): (r: seq<T>)
    ensures NoDup(r)
    ensures forall x :: x in r <==> x in s
    ensures |r| <= |s|
  {
    if s == [] then []
    else
      var d := Distinct(s[..|s| - 1]);
      assert forall x :: x in s <==> x in s[..|s| - 1] || x == s[|s| - 1] by {
        assert s == s[..|s| - 1] + [s[|s| - 1]];
      }
      if s[|s| - 1] in d then d else d + [s[|s| - 1]]
  }

  lemma {:induction false} NoDupCardinality<T(!new)>(s: seq<T>)
    requires NoDup(s)
    ensures |Elements(s)| == |s|
  {
    if s != [] {
      var init := s[..|s| - 1];
      NoDupCardinality(init);
      assert s == init + [s[|s| - 1]];
      assert Elements(s) == Elements(init) + {s[|s| - 1]};
      assert s[|s| - 1] !in Elements(init);
    }
  }

  /** Selecting rows keeps a column free of duplicates. */
  lemma {:induction false} FilterKeepsDistinct<T(!new), U(!new)>(s: seq<T>, p: T -> bool, f: T -> U)
    requires NoDup(Project(s, f))
    ensures NoDup(Project(Filter(s, p), f))
  {
    if s != [] {
      var tail := s[1..];
      assert NoDup(Project(tail, f)) by {
        var pt, ps := Project(tail, f), Project(s, f);
        forall i, j | 0 <= i < j < |pt| ensures pt[i] != pt[j] {
          assert pt[i] == ps[i + 1] && pt[j] == ps[j + 1];
        }
      }
      FilterKeepsDistinct(tail, p, f);
      if p(s[0]) {
        var rest := Filter(tail, p);
        var pr := Project(rest, f);
        forall i | 0 <= i < |pr| ensures pr[i] != f(s[0]) {
          assert rest[i] in tail;
          var j :| 0 <= j < |tail| && tail[j] == rest[i];
          assert Project(s, f)[j + 1] == pr[i];
        }
        assert Project(Filter(s, p), f) == [f(s[0])] + pr;
      }
    }
  }

  /** A duplicate-free column has as many distinct values as rows. */
  lemma CountUniqueOfNoDup<T(!new)>(s: seq<T>)
    requires NoDup(s)
    ensures CountUnique(s) == |s|
  {
    NoDupCardinality(s);
  }

  /** Two duplicate-free lists of the same values have the same length. */
  lemma SameElementsSameLength<T(!new)>(a: seq<T>, b: seq<T>)
    requires NoDup(a) && NoDup(b)
    requires forall x :: x in a <==> x in b
    ensures |a| == |b|
  {
    NoDupCardinality(a);
    NoDupCardinality(b);
    assert Elements(a) == Elements(b);
  }

  /** Number of distinct values of a column (pandas `nunique`). */
  function CountUnique<T(==,!new)>(s: seq<T>): (n: nat)
    ensures n == |Elements(s)|
    ensures n <= |s|
    ensures |s| > 0 ==> n >= 1
  {
    var d := Distinct(s);
    NoDupCardinality(d);
    assert Elements(d) == Elements(s);
    assert |s| > 0 ==> s[0] in d;
    |d|
  }

  // ------------------------------------------------------------- group-by

  /** The test "this row's key is k". */
  function HasKey<T(!new), K(==,!new)>(key: T -> Option<K>, k: K): T -> bool {
    x => key(x) == Some(k)
  }

  /** The test "this row's key is one of ks". */
  function HasKeyIn<T(!new), K(==,!new)>(key: T -> Option<K>, ks: seq<K>): T -> bool {
    x => key(x).Some? && key(x).value in ks
  }

  /** The test "this row's key is not null". */
  function HasSomeKey<T(!new), K(!new)>(key: T -> Option<K>): T -> bool {
    x => key(x).Some?
  }

  /** The rows of one group. */
  function Group<T(!new), K(==,!new)>(s: seq<T>, key: T -> Option<K>, k: K): (r: seq<T>)
    ensures forall x :: x in r <==> x in s && key(x) == Some(k)
  {
    Filter(s, HasKey(key, k))
  }

  /** The rows that belong to some group (non-null key). */
  function Keyed<T(!new), K(!new)>(s: seq<T>, key: T -> Option<K>): (r: seq<T>)
    ensures forall x :: x in r <==> x in s && key(x).Some?
  {
    Filter(s, HasSomeKey(key))
  }

  /** The non-null keys of the rows, with repetitions, in row order. */
  function KeyColumn<T(!new), K(!new)>(s: seq<T>, key: T -> Option<K>): (r: seq<K>)
    ensures forall k :: k in r <==> exists x :: x in s && key(x) == Some(k)
  {
    if s == [] then []
    else
      var rest := KeyColumn(s[1..], key);
      assert forall x :: x in s <==> x == s[0] || x in s[1..];
      match key(s[0])
      case Some(k) => [k] + rest
      case None => rest
  }

  /** A key that is never null makes the key column the plain column. */
  lemma {:induction false} KeyColumnOfTotalKey<T(!new), K(!new)>(s: seq<T>, key: T -> Option<K>, f: T -> K)
    requires forall x :: x in s ==> key(x) == Some(f(x))
    ensures KeyColumn(s, key) == Project(s, f)
  {
    if s != [] {
      assert s[0] in s;
      KeyColumnOfTotalKey(s[1..], key, f);
    }
  }

  /** One entry per group key present, in order of first occurrence. */
  function GroupKeys<T(!new), K(==,!new)>(s: seq<T>, key: T -> Option<K>): (r: seq<K>)
    ensures NoDup(r)
    ensures forall k :: k in r <==> exists x :: x in s && key(x) == Some(k)
    ensures |r| == CountUnique(KeyColumn(s, key))
  {
    Distinct(KeyColumn(s, key))
  }

  // -------------------------------------------------------- summary tables

  /** One row of a two-column summary table: a group key and its aggregate. */
  datatype Tally<K> = Tally(key: K, value: int)

  function SumValues<K>(t: seq<Tally<K>>): int {
    if t == [] then 0 else t[0].value + SumValues(t[1..])
  }

  predicate UniqueKeys<K(==)>(t: seq<Tally<K>>) {
    forall i, j :: 0 <= i < j < |t| ==> t[i].key != t[j].key
  }

  predicate NonIncreasing<K>(t: seq<Tally<K>>) {
    forall i, j :: 0 <= i < j < |t| ==> t[i].value >= t[j].value
  }

  /** Sum of a column per group key, one row per key of `ks`. */
  function GroupSums<T(!new), K(==,!new)>(s: seq<T>, key: T -> Option<K>, w: T -> int, ks: seq<K>): (r: seq<Tally<K>>)
    ensures |r| == |ks|
    ensures forall i :: 0 <= i < |ks| ==> r[i].key == ks[i] && r[i].value == Total(Group(s, key, ks[i]), w)
  {
    if ks == [] then []
    else [Tally(ks[0], Total(Group(s, key, ks[0]), w))] + GroupSums(s, key, w, ks[1..])
  }

  /** Number of distinct values of column `id` per group key, one row per key of `ks`. */
  function GroupUniqueCounts<T(!new), K(==,!new), U(==,!new)>(s: seq<T>, key: T -> Option<K>, id: T -> U, ks: seq<K>): (r: seq<Tally<K>>)
    ensures |r| == |ks|
    ensures forall i :: 0 <= i < |ks| ==> r[i].key == ks[i] && r[i].value == CountUnique(Project(Group(s, key, ks[i]), id))
  {
    if ks == [] then []
    else [Tally(ks[0], CountUnique(Project(Group(s, key, ks[0]), id)))] + GroupUniqueCounts(s, key, id, ks[1..])
  }

  lemma {:induction false} GroupSumsIn<T(!new), K(!new)>(s: seq<T>, key: T -> Option<K>, w: T -> int, ks: seq<K>)
    requires NoDup(ks)
    ensures SumValues(GroupSums(s, key, w, ks)) == Total(Filter(s, HasKeyIn(key, ks)), w)
  {
    if ks == [] {
      FilterKeepsNone(s, HasKeyIn(key, ks));
    } else {
      var k, rest := ks[0], ks[1..];
      assert NoDup(rest) by {
        forall i, j | 0 <= i < j < |rest| ensures rest[i] != rest[j] {
          assert rest[i] == ks[i + 1] && rest[j] == ks[j + 1];
        }
      }
      assert k !in rest by {
        forall i | 0 <= i < |rest| ensures rest[i] != k { assert rest[i] == ks[i + 1]; }
      }
      GroupSumsIn(s, key, w, rest);
      assert forall x :: x in ks <==> x == k || x in rest;
      TotalOfDisjointSplit(s, HasKey(key, k), HasKeyIn(key, rest), HasKeyIn(key, ks), w);
    }
  }

  /** Grouping conserves the column total: the per-group sums add up to the sum
      over all rows whose key is not null. */
  lemma GroupSumsConserve<T(!new), K(!new)>(s: seq<T>, key: T -> Option<K>, w: T -> int, ks: seq<K>)
    requires NoDup(ks)
    requires forall x :: x in s && key(x).Some? ==> key(x).value in ks
    ensures SumValues(GroupSums(s, key, w, ks)) == Total(Keyed(s, key), w)
  {
    GroupSumsIn(s, key, w, ks);
    FilterSameTest(s, HasKeyIn(key, ks), HasSomeKey(key));
  }

  lemma {:induction false} FilterSameTest<T(!new)>(s: seq<T>, p: T -> bool, q: T -> bool)
    requires forall x :: x in s ==> p(x) == q(x)
    ensures Filter(s, p) == Filter(s, q)
  {
    if s != [] {
      FilterSameTest(s[1..], p, q);
    }
  }

  function One<T>(x: T): int {
    1
  }

  lemma {:induction false} TotalOfOnes<T(!new)>(s: seq<T>)
    ensures Total(s, One) == |s|
  {
    if s != [] {
      TotalOfOnes(s[1..]);
    }
  }

  lemma {:induction false} UniqueCountsBelowSizes<T(!new), K(!new), U(!new)>(s: seq<T>, key: T -> Option<K>, id: T -> U, ks: seq<K>)
    ensures SumValues(GroupUniqueCounts(s, key, id, ks)) <= SumValues(GroupSums(s, key, One, ks))
  {
    if ks != [] {
      UniqueCountsBelowSizes(s, key, id, ks[1..]);
      TotalOfOnes(Group(s, key, ks[0]));
    }
  }

  /** Counting distinct values per group never counts more than the rows that
      have a group at all. */
  lemma GroupUniqueCountsBounded<T(!new), K(!new), U(!new)>(s: seq<T>, key: T -> Option<K>, id: T -> U, ks: seq<K>)
    requires NoDup(ks)
    requires forall x :: x in s && key(x).Some? ==> key(x).value in ks
    ensures SumValues(GroupUniqueCounts(s, key, id, ks)) <= |Keyed(s, key)|
  {
    UniqueCountsBelowSizes(s, key, id, ks);
    GroupSumsConserve(s, key, One, ks);
    TotalOfOnes(Keyed(s, key));
  }

  // ------------------------------------------------------------- ordering

  /** A row no smaller than every row of a non-increasing table can go in front. */
  lemma ConsNonIncreasing<K>(y: Tally<K>, t: seq<Tally<K>>)
    requires NonIncreasing(t)
    requires forall z :: z in t ==> z.value <= y.value
    ensures NonIncreasing([y] + t)
  {
    var r := [y] + t;
    forall i, j | 0 <= i < j < |r| ensures r[i].value >= r[j].value {
      assert r[j] == t[j - 1];
      if i > 0 { assert r[i] == t[i - 1]; }
    }
  }

  /** In a non-increasing table no later row exceeds the first. */
  lemma TailBelowHead<K>(s: seq<Tally<K>>)
    requires NonIncreasing(s) && s != []
    ensures forall y :: y in s[1..] ==> y.value <= s[0].value
  {
    forall y | y in s[1..] ensures y.value <= s[0].value {
      var j :| 0 <= j < |s[1..]| && s[1..][j] == y;
      assert s[j + 1] == y;
    }
  }

  /** A bound on every row carries over to any rearrangement of the rows. */
  lemma BoundOfPermutation<K>(r: seq<Tally<K>>, t: seq<Tally<K>>, b: int)
    requires multiset(r) == multiset(t)
    requires forall y :: y in t ==> y.value <= b
    ensures forall y :: y in r ==> y.value <= b
  {
    forall y | y in r ensures y.value <= b {
      assert y in multiset(r);
    }
  }

  function InsertDescending<K>(x: Tally<K>, s: seq<Tally<K>>): (r: seq<Tally<K>>)
    requires NonIncreasing(s)
    ensures NonIncreasing(r)
    ensures multiset(r) == multiset(s) + multiset{x}
  {
    if s == [] || x.value >= s[0].value then
      ConsNonIncreasing(x, s);
      [x] + s
    else
      var tail := s[1..];
      assert s == [s[0]] + tail;
      var rest := InsertDescending(x, tail);
      TailBelowHead(s);
      BoundOfPermutation(rest, tail + [x], s[0].value);
      ConsNonIncreasing(s[0], rest);
      [s[0]] + rest
  }

  lemma {:induction false} InsertDescendingSum<K>(x: Tally<K>, s: seq<Tally<K>>)
    requires NonIncreasing(s)
    ensures SumValues(InsertDescending(x, s)) == x.value + SumValues(s)
  {
    if s != [] && x.value < s[0].value {
      InsertDescendingSum(x, s[1..]);
    }
  }

  /** Putting a row with a new key in front of a table with unique keys keeps them unique. */
  lemma ConsUniqueKeys<K>(y: Tally<K>, t: seq<Tally<K>>)
    requires UniqueKeys(t)
    requires forall z :: z in t ==> z.key != y.key
    ensures UniqueKeys([y] + t)
  {
    var r := [y] + t;
    forall i, j | 0 <= i < j < |r| ensures r[i].key != r[j].key {
      assert r[j] == t[j - 1];
      if i > 0 { assert r[i] == t[i - 1]; }
    }
  }

  lemma {:induction false} InsertDescendingUnique<K>(x: Tally<K>, s: seq<Tally<K>>)
    requires NonIncreasing(s) && UniqueKeys(s)
    requires forall y :: y in s ==> y.key != x.key
    ensures UniqueKeys(InsertDescending(x, s))
  {
    if s == [] || x.value >= s[0].value {
      ConsUniqueKeys(x, s);
    } else {
      var tail := s[1..];
      assert UniqueKeys(tail) by {
        forall i, j | 0 <= i < j < |tail| ensures tail[i].key != tail[j].key {
          assert tail[i] == s[i + 1] && tail[j] == s[j + 1];
        }
      }
      InsertDescendingUnique(x, tail);
      var rest := InsertDescending(x, tail);
      forall z | z in rest ensures z.key != s[0].key {
        assert z in multiset(rest);
        if z != x {
          var j :| 0 <= j < |tail| && tail[j] == z;
          assert s[j + 1] == z;
        }
      }
      ConsUniqueKeys(s[0], rest);
    }
  }

  /** Order a summary table by value, largest first (pandas
      `sort_values(ascending=False)`); the order among equal values is left open. */
  function SortDescending<K>(t: seq<Tally<K>>): (r: seq<Tally<K>>)
    ensures NonIncreasing(r)
    ensures multiset(r) == multiset(t)
  {
    if t == [] then []
    else
      assert t == [t[0]] + t[1..];
      InsertDescending(t[0], SortDescending(t[1..]))
  }

  /** Sorting neither adds nor loses value: the column total is unchanged. */
  lemma {:induction false} SortDescendingSum<K>(t: seq<Tally<K>>)
    ensures SumValues(SortDescending(t)) == SumValues(t)
  {
    if t != [] {
      SortDescendingSum(t[1..]);
      InsertDescendingSum(t[0], SortDescending(t[1..]));
    }
  }

  /** Sorting keeps one row per key. */
  lemma {:induction false} SortDescendingUnique<K>(t: seq<Tally<K>>)
    requires UniqueKeys(t)
    ensures UniqueKeys(SortDescending(t))
  {
    if t != [] {
      var tail := t[1..];
      assert UniqueKeys(tail) by {
        forall i, j | 0 <= i < j < |tail| ensures tail[i].key != tail[j].key {
          assert tail[i] == t[i + 1] && tail[j] == t[j + 1];
        }
      }
      SortDescendingUnique(tail);
      var rest := SortDescending(tail);
      forall z | z in rest ensures z.key != t[0].key {
        assert z in multiset(rest);
        var j :| 0 <= j < |tail| && tail[j] == z;
        assert t[j + 1] == z;
      }
      InsertDescendingUnique(t[0], rest);
    }
  }

  /** The values a column takes, as a set. */
  lemma ElementsOfProject<T(!new), U(!new)>(s: seq<T>, f: T -> U)
    ensures forall v :: v in Elements(Project(s, f)) <==> exists x :: x in s && f(x) == v
  {
    forall v ensures v in Elements(Project(s, f)) <==> exists x :: x in s && f(x) == v {
      if exists x :: x in s && f(x) == v {
        var x :| x in s && f(x) == v;
        var i :| 0 <= i < |s| && s[i] == x;
        assert Project(s, f)[i] == v;
      }
    }
  }

  /** When a row's id determines its key, no id is counted in two groups, so
      the per-group distinct counts add up to the distinct count over all the
      grouped rows. */
  lemma {:induction false} GroupUniqueCountsIn<T(!new), K(!new), U(!new)>(s: seq<T>, key: T -> Option<K>, id: T -> U, ks: seq<K>)
    requires NoDup(ks)
    requires forall x, y :: x in s && y in s && id(x) == id(y) ==> key(x) == key(y)
    ensures SumValues(GroupUniqueCounts(s, key, id, ks)) == CountUnique(Project(Filter(s, HasKeyIn(key, ks)), id))
  {
    if ks == [] {
      FilterKeepsNone(s, HasKeyIn(key, ks));
    } else {
      var k, rest := ks[0], ks[1..];
      assert NoDup(rest) by {
        forall i, j | 0 <= i < j < |rest| ensures rest[i] != rest[j] {
          assert rest[i] == ks[i + 1] && rest[j] == ks[j + 1];
        }
      }
      assert k !in rest by {
        forall i | 0 <= i < |rest| ensures rest[i] != k { assert rest[i] == ks[i + 1]; }
      }
      GroupUniqueCountsIn(s, key, id, rest);
      GroupIdsSplit(s, key, id, k, rest, ks);
      GroupIdsDisjoint(s, key, id, k, rest);
    }
  }

  /** When a row's id determines its key and every key is listed, the
      per-group distinct counts add up to the distinct count over all rows that
      have a key. */
  lemma GroupUniqueCountsConserve<T(!new), K(!new), U(!new)>(s: seq<T>, key: T -> Option<K>, id: T -> U, ks: seq<K>)
    requires NoDup(ks)
    requires forall x :: x in s && key(x).Some? ==> key(x).value in ks
    requires forall x, y :: x in s && y in s && id(x) == id(y) ==> key(x) == key(y)
    ensures SumValues(GroupUniqueCounts(s, key, id, ks)) == CountUnique(Project(Keyed(s, key), id))
  {
    GroupUniqueCountsIn(s, key, id, ks);
    FilterSameTest(s, HasKeyIn(key, ks), HasSomeKey(key));
  }

  /** The ids of the rows keyed in k :: rest are those of group k and those of
      the rows keyed in rest. */
  lemma GroupIdsSplit<T(!new), K(!new), U(!new)>(s: seq<T>, key: T -> Option<K>, id: T -> U, k: K, rest: seq<K>, ks: seq<K>)
    requires forall x :: x in ks <==> x == k || x in rest
    ensures Elements(Project(Filter(s, HasKeyIn(key, ks)), id))
            == Elements(Project(Group(s, key, k), id)) + Elements(Project(Filter(s, HasKeyIn(key, rest)), id))
  {
    var g, others, all := Group(s, key, k), Filter(s, HasKeyIn(key, rest)), Filter(s, HasKeyIn(key, ks));
    ElementsOfProject(g, id);
    ElementsOfProject(others, id);
    ElementsOfProject(all, id);
    forall v | v in Elements(Project(all, id))
      ensures v in Elements(Project(g, id)) + Elements(Project(others, id))
    {
      var x :| x in all && id(x) == v;
      if key(x) == Some(k) { assert x in g; } else { assert x in others; }
    }
    forall v | v in Elements(Project(g, id)) + Elements(Project(others, id))
      ensures v in Elements(Project(all, id))
    {
      if v in Elements(Project(g, id)) {
        var x :| x in g && id(x) == v;
        assert x in all;
      } else {
        var x :| x in others && id(x) == v;
        assert x in all;
      }
    }
  }

  /** When a row's id determines its key, group k and the rows keyed outside k
      share no id. */
  lemma GroupIdsDisjoint<T(!new), K(!new), U(!new)>(s: seq<T>, key: T -> Option<K>, id: T -> U, k: K, rest: seq<K>)
    requires k !in rest
    requires forall x, y :: x in s && y in s && id(x) == id(y) ==> key(x) == key(y)
    ensures Elements(Project(Group(s, key, k), id)) * Elements(Project(Filter(s, HasKeyIn(key, rest)), id)) == {}
  {
    var g, others := Group(s, key, k), Filter(s, HasKeyIn(key, rest));
    ElementsOfProject(g, id);
    ElementsOfProject(others, id);
    forall v | v in Elements(Project(g, id)) ensures v !in Elements(Project(others, id)) {
      var x :| x in g && id(x) == v;
      assert key(x) == Some(k);
    }
  }

  // ------------------------------------------------------ sorted summaries

  /** With distinct keys, the per-group sums have distinct keys. */
  lemma GroupSumsUnique<T(!new), K(!new)>(s: seq<T>, key: T -> Option<K>, w: T -> int, ks: seq<K>)
    requires NoDup(ks)
    ensures UniqueKeys(GroupSums(s, key, w, ks))
  {
    var r := GroupSums(s, key, w, ks);
    forall i, j | 0 <= i < j < |r| ensures r[i].key != r[j].key {
      assert r[i].key == ks[i] && r[j].key == ks[j];
    }
  }

  lemma GroupUniqueCountsUnique<T(!new), K(!new), U(!new)>(s: seq<T>, key: T -> Option<K>, id: T -> U, ks: seq<K>)
    requires NoDup(ks)
    ensures UniqueKeys(GroupUniqueCounts(s, key, id, ks))
  {
    var r := GroupUniqueCounts(s, key, id, ks);
    forall i, j | 0 <= i < j < |r| ensures r[i].key != r[j].key {
      assert r[i].key == ks[i] && r[j].key == ks[j];
    }
  }

  /** A sorted table of group sums: one row per key, largest first, each row
      carrying its own group's total, nothing lost from the column total. */
  lemma SortedGroupSums<T(!new), K(!new)>(s: seq<T>, key: T -> Option<K>, w: T -> int, ks: seq<K>)
    requires NoDup(ks)
    ensures var r := SortDescending(GroupSums(s, key, w, ks));
            |r| == |ks| && NonIncreasing(r) && UniqueKeys(r)
            && (forall t :: t in r <==> t.key in ks && t.value == Total(Group(s, key, t.key), w))
            && SumValues(r) == SumValues(GroupSums(s, key, w, ks))
  {
    var g := GroupSums(s, key, w, ks);
    var r := SortDescending(g);
    assert |r| == |multiset(r)| == |multiset(g)| == |g|;
    GroupSumsUnique(s, key, w, ks);
    SortDescendingUnique(g);
    SortDescendingSum(g);
    forall t ensures t in r <==> t.key in ks && t.value == Total(Group(s, key, t.key), w) {
      assert t in r <==> t in multiset(g);
      if t.key in ks && t.value == Total(Group(s, key, t.key), w) {
        var i :| 0 <= i < |ks| && ks[i] == t.key;
        assert g[i] == t;
      }
    }
  }

  /** A sorted table of distinct counts per group: one row per key, largest
      first, each row carrying the number of distinct values in its group. */
  lemma SortedGroupUniqueCounts<T(!new), K(!new), U(!new)>(s: seq<T>, key: T -> Option<K>, id: T -> U, ks: seq<K>)
    requires NoDup(ks)
    ensures var r := SortDescending(GroupUniqueCounts(s, key, id, ks));
            |r| == |ks| && NonIncreasing(r) && UniqueKeys(r)
            && (forall t :: t in r <==> t.key in ks && t.value == CountUnique(Project(Group(s, key, t.key), id)))
            && SumValues(r) == SumValues(GroupUniqueCounts(s, key, id, ks))
  {
    var g := GroupUniqueCounts(s, key, id, ks);
    var r := SortDescending(g);
    assert |r| == |multiset(r)| == |multiset(g)| == |g|;
    GroupUniqueCountsUnique(s, key, id, ks);
    SortDescendingUnique(g);
    SortDescendingSum(g);
    forall t ensures t in r <==> t.key in ks && t.value == CountUnique(Project(Group(s, key, t.key), id)) {
      assert t in r <==> t in multiset(g);
      if t.key in ks && t.value == CountUnique(Project(Group(s, key, t.key), id)) {
        var i :| 0 <= i < |ks| && ks[i] == t.key;
        assert g[i] == t;
      }
    }
  }
}
