/** The canonical order of `(Pubkey, stake)` pairs and `sort_stakes`:
    descending by stake, equal stakes descending by key, then adjacent
    duplicates removed. */
module StakeOrder {
  import opened Common

  /** One element of the vector `sort_stakes` works on. */
  datatype Entry = Entry(key: Pubkey, stake: nat)

  /** Lexicographic order on byte strings, as `Ord` on `[u8; 32]` compares
      public keys: the first differing byte decides, and a proper prefix
      comes first. */
  predicate KeyLess(a: seq<byte>, b: seq<byte>)
    ensures KeyLess(a, b) ==> a != b
    decreases |a|
  {
    if |b| == 0 then false
    else if |a| == 0 then true
    else a[0] < b[0] || (a[0] == b[0] && KeyLess(a[1..], b[1..]))
  }

  lemma {:induction false} KeyLessTransitive(a: seq<byte>, b: seq<byte>, c: seq<byte>)
    requires KeyLess(a, b) && KeyLess(b, c)
    ensures KeyLess(a, c)
    decreases |a|
  {
    if |a| > 0 && a[0] == b[0] && b[0] == c[0] {
      KeyLessTransitive(a[1..], b[1..], c[1..]);
    }
  }

  /** Two different byte strings are always ordered one way or the other. */
  lemma {:induction false} KeyLessTotal(a: seq<byte>, b: seq<byte>)
    requires a != b
    ensures KeyLess(a, b) || KeyLess(b, a)
    decreases |a|
  {
    if |a| > 0 && |b| > 0 && a[0] == b[0] {
      assert a == [a[0]] + a[1..] && b == [b[0]] + b[1..];
      KeyLessTotal(a[1..], b[1..]);
    }
  }

  /** `x` goes strictly before `y` under the comparator of `sort_stakes`:
      larger stake first and, for equal stakes, larger key first. */
  predicate Before(x: Entry, y: Entry)
    ensures Before(x, y) ==> x != y && x.stake >= y.stake
  {
    x.stake > y.stake || (x.stake == y.stake && KeyLess(y.key, x.key))
  }

  /** `x` may stand immediately before `y` in a sorted vector. */
  predicate Precedes(x: Entry, y: Entry)
  {
    Before(x, y) || x == y
  }

  lemma BeforeIrreflexive(x: Entry)
    ensures !Before(x, x)
  {
  }

  lemma BeforeTransitive(x: Entry, y: Entry, z: Entry)
    requires Before(x, y) && Before(y, z)
    ensures Before(x, z)
  {
    if x.stake == y.stake == z.stake {
      KeyLessTransitive(z.key, y.key, x.key);
    }
  }

  lemma BeforeAsymmetric(x: Entry, y: Entry)
    requires Before(x, y)
    ensures !Before(y, x)
  {
    if Before(y, x) {
      BeforeTransitive(x, y, x);
      BeforeIrreflexive(x);
    }
  }

  /** The comparator is total: it returns `Equal` only for equal entries. */
  lemma BeforeTotal(x: Entry, y: Entry)
    ensures x == y || Before(x, y) || Before(y, x)
  {
    if x.stake == y.stake && x.key != y.key {
      KeyLessTotal(x.key, y.key);
    }
  }

  /** The distinct elements of a vector. */
  function Elements(s: seq<Entry>): set<Entry>
  {
    set e | e in s
  }

  lemma ElementsOfNonEmpty(s: seq<Entry>)
    ensures |s| > 0 ==> s[0] in Elements(s)
  {
  }

  /** Every adjacent pair is in comparator order. */
  predicate Sorted(s: seq<Entry>)
  {
    forall i :: 0 < i < |s| ==> Precedes(s[i - 1], s[i])
  }

  /** Every adjacent pair is in strict comparator order, so no two
      neighbours are equal. */
  predicate StrictlySorted(s: seq<Entry>)
  {
    forall i :: 0 < i < |s| ==> Before(s[i - 1], s[i])
  }

  /** Strict order between neighbours extends to every pair. */
  lemma {:induction false} StrictlySortedPairs(s: seq<Entry>, i: nat, j: nat)
    requires StrictlySorted(s) && i < j < |s|
    ensures Before(s[i], s[j])
    decreases j - i
  {
    if i + 1 < j {
      StrictlySortedPairs(s, i, j - 1);
      BeforeTransitive(s[i], s[j - 1], s[j]);
    }
  }

  /** A strictly sorted vector is fixed by its set of elements alone. */
  lemma {:induction false} StrictlySortedUnique(x: seq<Entry>, y: seq<Entry>)
    requires StrictlySorted(x) && StrictlySorted(y) && Elements(x) == Elements(y)
    ensures x == y
    decreases |x|
  {
    if |x| > 0 {
      assert x[0] in Elements(y);
      assert |y| > 0;
      assert y[0] in Elements(x);
      if x[0] != y[0] {
        var i :| 0 <= i < |x| && x[i] == y[0];
        var j :| 0 <= j < |y| && y[j] == x[0];
        StrictlySortedPairs(x, 0, i);
        StrictlySortedPairs(y, 0, j);
        BeforeAsymmetric(x[0], y[0]);
      }
      forall e | e in x[1..] ensures e != x[0] {
        var i :| 1 <= i < |x| && x[i] == e;
        StrictlySortedPairs(x, 0, i);
        BeforeIrreflexive(x[0]);
      }
      forall e | e in y[1..] ensures e != y[0] {
        var j :| 1 <= j < |y| && y[j] == e;
        StrictlySortedPairs(y, 0, j);
        BeforeIrreflexive(y[0]);
      }
      assert x == [x[0]] + x[1..] && y == [y[0]] + y[1..];
      assert Elements(x[1..]) == Elements(x) - {x[0]};
      assert Elements(y[1..]) == Elements(y) - {y[0]};
      StrictlySortedUnique(x[1..], y[1..]);
    } else {
      ElementsOfNonEmpty(y);
    }
  }

  /** Inserts `e` at its place in a strictly sorted vector, unless it is
      already there. */
  function Insert(e: Entry, t: seq<Entry>): (r: seq<Entry>)
    requires StrictlySorted(t)
    ensures StrictlySorted(r) && Elements(r) == Elements(t) + {e}
    ensures |r| > 0 && (r[0] == e || (|t| > 0 && r[0] == t[0]))
    decreases |t|
  {
    if |t| == 0 then [e]
    else if e == t[0] then
      assert t == [t[0]] + t[1..];
      t
    else if Before(e, t[0]) then [e] + t
    else
      BeforeTotal(e, t[0]);
      var rest := Insert(e, t[1..]);
      assert t == [t[0]] + t[1..];
      assert Elements(t) == {t[0]} + Elements(t[1..]);
      assert Elements([t[0]] + rest) == {t[0]} + Elements(rest);
      [t[0]] + rest
  }

  /** The reference result of `sort_stakes`: the distinct elements of `s`
      inserted one by one into a strictly sorted vector. */
  function Canonical(s: seq<Entry>): (r: seq<Entry>)
    ensures StrictlySorted(r) && Elements(r) == Elements(s)
    decreases |s|
  {
    if |s| == 0 then []
    else
      assert s == s[..|s| - 1] + [s[|s| - 1]];
      Insert(s[|s| - 1], Canonical(s[..|s| - 1]))
  }

  /** Any strictly sorted vector with the elements of `s` is `Canonical(s)`. */
  lemma CanonicalCharacterized(s: seq<Entry>, r: seq<Entry>)
    requires StrictlySorted(r) && Elements(r) == Elements(s)
    ensures r == Canonical(s)
  {
    StrictlySortedUnique(r, Canonical(s));
  }

  /** The result depends only on which elements occur, so in particular not
      on their order. */
  lemma CanonicalPermutation(s: seq<Entry>, t: seq<Entry>)
    requires multiset(s) == multiset(t)
    ensures Canonical(s) == Canonical(t)
  {
    assert Elements(s) == Elements(t) by {
      forall e ensures e in s <==> e in t {
        assert e in s <==> e in multiset(s);
        assert e in t <==> e in multiset(t);
      }
    }
    CanonicalCharacterized(t, Canonical(s));
  }

  /** Applying it twice equals applying it once. */
  lemma CanonicalIdempotent(s: seq<Entry>)
    ensures Canonical(Canonical(s)) == Canonical(s)
  {
    CanonicalCharacterized(Canonical(s), Canonical(s));
  }

  /** The distinct elements of `s` never outnumber its elements. */
  lemma {:induction false} SetCardinality(s: seq<Entry>)
    ensures |Elements(s)| <= |s|
    decreases |s|
  {
    if |s| > 0 {
      var p := s[..|s| - 1];
      assert s == p + [s[|s| - 1]];
      assert Elements(s) == Elements(p) + {s[|s| - 1]};
      SetCardinality(p);
    }
  }

  /** A vector with no repeated element has as many distinct elements as entries. */
  lemma {:induction false} DistinctCardinality(s: seq<Entry>)
    requires forall i, j :: 0 <= i < j < |s| ==> s[i] != s[j]
    ensures |Elements(s)| == |s|
    decreases |s|
  {
    if |s| > 0 {
      var p := s[..|s| - 1];
      assert s == p + [s[|s| - 1]];
      assert Elements(s) == Elements(p) + {s[|s| - 1]};
      assert s[|s| - 1] !in Elements(p);
      DistinctCardinality(p);
    }
  }

  /** A strictly sorted vector has no repeated element at all. */
  lemma StrictlySortedDistinct(s: seq<Entry>)
    requires StrictlySorted(s)
    ensures forall i, j :: 0 <= i < j < |s| ==> s[i] != s[j]
  {
    forall i, j | 0 <= i < j < |s| ensures s[i] != s[j] {
      StrictlySortedPairs(s, i, j);
      BeforeIrreflexive(s[i]);
    }
  }

  /** The result is never longer than the input, and when the input holds no
      repeated element nothing is removed. */
  lemma CanonicalLength(s: seq<Entry>)
    ensures |Canonical(s)| <= |s|
    ensures (forall i, j :: 0 <= i < j < |s| ==> s[i] != s[j]) ==> |Canonical(s)| == |s|
  {
    var c := Canonical(s);
    StrictlySortedDistinct(c);
    DistinctCardinality(c);
    SetCardinality(s);
    if forall i, j :: 0 <= i < j < |s| ==> s[i] != s[j] {
      DistinctCardinality(s);
    }
  }

  /** `Vec::dedup`: keeps an element exactly when it differs from its
      predecessor. */
  function Dedup(s: seq<Entry>): (r: seq<Entry>)
    ensures |r| <= |s|
    ensures |s| > 0 ==> |r| > 0 && r[|r| - 1] == s[|s| - 1]
    decreases |s|
  {
    if |s| <= 1 then s
    else
      var p := Dedup(s[..|s| - 1]);
      if s[|s| - 1] == s[|s| - 2] then p else p + [s[|s| - 1]]
  }

  /** `Dedup` keeps exactly the elements of its input. */
  lemma {:induction false} DedupElements(s: seq<Entry>)
    ensures Elements(Dedup(s)) == Elements(s)
    decreases |s|
  {
    if |s| > 1 {
      var q := s[..|s| - 1];
      DedupElements(q);
      assert s == q + [s[|s| - 1]];
      assert q[|q| - 1] == s[|s| - 2];
      assert Elements(s) == Elements(q) + {s[|s| - 1]};
      assert Elements(Dedup(q) + [s[|s| - 1]]) == Elements(Dedup(q)) + {s[|s| - 1]};
    }
  }

  /** No two adjacent results are equal, and `Dedup` of a sorted vector is
      strictly sorted. */
  lemma {:induction false} DedupNoAdjacentEqual(s: seq<Entry>)
    ensures forall i :: 0 < i < |Dedup(s)| ==> Dedup(s)[i - 1] != Dedup(s)[i]
    ensures Sorted(s) ==> StrictlySorted(Dedup(s))
    decreases |s|
  {
    if |s| > 1 {
      var q := s[..|s| - 1];
      DedupNoAdjacentEqual(q);
      DedupElements(q);
      assert Sorted(s) ==> Sorted(q);
    }
  }

  /** Sorting then deduplicating gives the reference result. */
  lemma SortThenDedup(sorted: seq<Entry>, s: seq<Entry>)
    requires Sorted(sorted) && multiset(sorted) == multiset(s)
    ensures Dedup(sorted) == Canonical(s)
  {
    DedupElements(sorted);
    DedupNoAdjacentEqual(sorted);
    CanonicalPermutation(sorted, s);
    CanonicalCharacterized(sorted, Dedup(sorted));
  }

  method Swap(a: array<Entry>, i: nat, j: nat)
    requires i < a.Length && j < a.Length
    modifies a
    ensures a[..] == old(a[..])[i := old(a[j])][j := old(a[i])]
    ensures multiset(a[..]) == multiset(old(a[..]))
  {
    a[i], a[j] := a[j], a[i];
  }

  /** One step of insertion sort: moves `a[i]` left past every element it
      must precede, so that `a[..i + 1]` becomes sorted. */
  method InsertAt(a: array<Entry>, i: nat)
    requires i < a.Length && Sorted(a[..i])
    modifies a
    ensures Sorted(a[..i + 1])
    ensures a[i + 1..] == old(a[i + 1..])
    ensures multiset(a[..]) == multiset(old(a[..]))
  {
    var j := i;
    while j > 0 && !Precedes(a[j - 1], a[j])
      invariant 0 <= j <= i
      invariant forall k :: 0 < k < j ==> Precedes(a[k - 1], a[k])
      invariant forall k :: j < k <= i ==> Precedes(a[k - 1], a[k])
      invariant 0 < j < i ==> Precedes(a[j - 1], a[j + 1])
      invariant a[i + 1..] == old(a[i + 1..])
      invariant multiset(a[..]) == multiset(old(a[..]))
    {
      BeforeTotal(a[j - 1], a[j]);
      Swap(a, j - 1, j);
      j := j - 1;
    }
  }

  /** `sort_unstable_by` with the comparator of `sort_stakes`, as an
      insertion sort: the comparator is a total order in which only equal
      elements tie, so every correct sort gives the same vector. */
  method SortByStakeThenKey(a: array<Entry>)
    modifies a
    ensures Sorted(a[..])
    ensures multiset(a[..]) == multiset(old(a[..]))
  {
    var i := 0;
    while i < a.Length
      invariant 0 <= i <= a.Length
      invariant Sorted(a[..i])
      invariant multiset(a[..]) == multiset(old(a[..]))
    {
      InsertAt(a, i);
      i := i + 1;
    }
    assert a[..i] == a[..];
  }

  /** `Vec::dedup` in place: kept elements are compacted to the front and the
      new length is returned (the vector is then truncated to it). */
  method DedupInPlace(a: array<Entry>) returns (n: nat)
    modifies a
    ensures n <= a.Length
    ensures a[..n] == Dedup(old(a[..]))
  {
    ghost var s := a[..];
    if a.Length == 0 {
      return 0;
    }
    var w := 1;
    var r := 1;
    while r < a.Length
      invariant 1 <= w <= r <= a.Length
      invariant a[..w] == Dedup(s[..r])
      invariant forall k :: r <= k < a.Length ==> a[k] == s[k]
      invariant a[w - 1] == s[r - 1]
    {
      ghost var p := s[..r];
      assert s[..r + 1] == p + [s[r]];
      assert s[..r + 1][..r] == p;
      if a[r] != a[w - 1] {
        a[w] := a[r];
        w := w + 1;
      }
      r := r + 1;
    }
    assert s[..r] == s;
    n := w;
  }

  /** `sort_stakes`: sort, then drop adjacent duplicates. */
  method SortStakes(a: array<Entry>) returns (n: nat)
    modifies a
    ensures n <= a.Length
    ensures StrictlySorted(a[..n])
    ensures Elements(a[..n]) == Elements(old(a[..]))
    ensures a[..n] == Canonical(old(a[..]))
  {
    SortByStakeThenKey(a);
    ghost var sorted := a[..];
    n := DedupInPlace(a);
    SortThenDedup(sorted, old(a[..]));
  }
}
