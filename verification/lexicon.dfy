/**
 The affix lexicons: the (affix, meaning) entries loaded from the prefix and
 suffix lists, and the copy-then-sort step that orders each list by
 descending affix length. The sort is stable, so entries whose affixes have
 the same length keep the order in which they were loaded.
 */
module AffixLexicon {

  /** One loaded affix together with its gloss. */
  datatype AffixEntry = AffixEntry(affix: string, meaning: string)

  /** Entries appear longest affix first. */
  predicate NonIncreasing(s: seq<AffixEntry>)
  {
    forall i, j :: 0 <= i < j < |s| ==> |s[i].affix| >= |s[j].affix|
  }

  /** The entries of `s` whose affix has exactly `n` characters, in their order in `s`. */
  function OfLength(s: seq<AffixEntry>, n: nat): seq<AffixEntry>
  {
    if s == [] then []
    else OfLength(s[..|s| - 1], n) + (if |s[|s| - 1].affix| == n then [s[|s| - 1]] else [])
  }

  /**
   Where a stable, longest-first insertion puts `x` into the ordered `t`:
   behind every entry whose affix is at least as long as that of `x`, and in
   front of the trailing entries with shorter affixes.
   */
  function InsertionPoint(t: seq<AffixEntry>, x: AffixEntry): (p: nat)
    ensures p <= |t|
    ensures p == 0 || |t[p - 1].affix| >= |x.affix|
    ensures forall k :: p <= k < |t| ==> |t[k].affix| < |x.affix|
  {
    if t == [] || |t[|t| - 1].affix| >= |x.affix| then |t|
    else InsertionPoint(t[..|t| - 1], x)
  }

  /** The step a stable, longest-first insertion sort takes for the next entry in load order. */
  function Insert(t: seq<AffixEntry>, x: AffixEntry): seq<AffixEntry>
  {
    var p := InsertionPoint(t, x);
    t[..p] + [x] + t[p..]
  }

  /**
   The lexicon order: the loaded entries sorted by descending affix length,
   stably. It is the outcome of a stable sort under the comparator
   `b.affix.length - a.affix.length`.
   */
  function SortByLength(s: seq<AffixEntry>): (r: seq<AffixEntry>)
    ensures |r| == |s|
  {
    if s == [] then []
    else Insert(SortByLength(s[..|s| - 1]), s[|s| - 1])
  }

  /** A non-empty sequence is its front followed by its last element. */
  lemma SplitLast(s: seq<AffixEntry>)
    requires s != []
    ensures s == s[..|s| - 1] + [s[|s| - 1]]
  {
  }

  lemma InsertPermutes(t: seq<AffixEntry>, x: AffixEntry)
    ensures multiset(Insert(t, x)) == multiset(t) + multiset{x}
  {
    var p := InsertionPoint(t, x);
    assert t == t[..p] + t[p..];
  }

  /** The lexicon holds exactly the loaded entries, duplicates included. */
  lemma {:induction false} SortPermutes(s: seq<AffixEntry>)
    ensures multiset(SortByLength(s)) == multiset(s)
  {
    if s != [] {
      var m := |s| - 1;
      SortPermutes(s[..m]);
      InsertPermutes(SortByLength(s[..m]), s[m]);
      SplitLast(s);
    }
  }

  /** Both sides of a cut through a longest-first list are longest first. */
  lemma SortedParts(t: seq<AffixEntry>, p: nat)
    requires NonIncreasing(t) && p <= |t|
    ensures NonIncreasing(t[..p]) && NonIncreasing(t[p..])
  {
    assert forall i :: p <= i < |t| ==> t[p..][i - p] == t[i];
  }

  /** Two longest-first lists joined where the first ends no shorter than the second starts. */
  lemma JoinSorted(u: seq<AffixEntry>, v: seq<AffixEntry>)
    requires NonIncreasing(u) && NonIncreasing(v)
    requires u != [] && v != [] ==> |u[|u| - 1].affix| >= |v[0].affix|
    ensures NonIncreasing(u + v)
  {
    forall i, j | 0 <= i < j < |u + v|
      ensures |(u + v)[i].affix| >= |(u + v)[j].affix|
    {
      if i < |u| <= j {
        assert |u[i].affix| >= |u[|u| - 1].affix|;
        assert |v[0].affix| >= |v[j - |u|].affix|;
      }
    }
  }

  lemma InsertKeepsOrder(t: seq<AffixEntry>, x: AffixEntry)
    requires NonIncreasing(t)
    ensures NonIncreasing(Insert(t, x))
  {
    var p := InsertionPoint(t, x);
    var front, back := t[..p], t[p..];
    SortedParts(t, p);
    JoinSorted([x], back);
    JoinSorted(front, [x] + back);
    assert Insert(t, x) == front + ([x] + back);
  }

  /** The lexicon order puts longer affixes first. */
  lemma {:induction false} SortedByLength(s: seq<AffixEntry>)
    ensures NonIncreasing(SortByLength(s))
  {
    if s != [] {
      SortedByLength(s[..|s| - 1]);
      InsertKeepsOrder(SortByLength(s[..|s| - 1]), s[|s| - 1]);
    }
  }

  lemma {:induction false} OfLengthAppend(a: seq<AffixEntry>, b: seq<AffixEntry>, n: nat)
    ensures OfLength(a + b, n) == OfLength(a, n) + OfLength(b, n)
  {
    if b == [] {
      assert a + b == a;
    } else {
      var m := |b| - 1;
      assert (a + b)[..|a + b| - 1] == a + b[..m];
      OfLengthAppend(a, b[..m], n);
    }
  }

  /** An entry is kept by `OfLength(s, n)` exactly when it is in `s` and its affix has length `n`. */
  lemma {:induction false} OfLengthMembers(s: seq<AffixEntry>, n: nat)
    ensures forall y :: y in OfLength(s, n) <==> y in s && |y.affix| == n
  {
    if s != [] {
      var m := |s| - 1;
      OfLengthMembers(s[..m], n);
      assert s == s[..m] + [s[m]];
    }
  }

  lemma NoneOfLength(s: seq<AffixEntry>, n: nat)
    requires forall k :: 0 <= k < |s| ==> |s[k].affix| != n
    ensures OfLength(s, n) == []
  {
    OfLengthMembers(s, n);
  }

  lemma InsertKeepsTies(t: seq<AffixEntry>, x: AffixEntry, n: nat)
    ensures OfLength(Insert(t, x), n) == OfLength(t, n) + OfLength([x], n)
  {
    var p := InsertionPoint(t, x);
    assert t == t[..p] + t[p..];
    OfLengthAppend(t[..p], t[p..], n);
    OfLengthAppend(t[..p], [x], n);
    OfLengthAppend(t[..p] + [x], t[p..], n);
    assert [x][..0] == [];
    if |x.affix| == n {
      NoneOfLength(t[p..], n);
    }
  }

  /**
   Stability: for every affix length, the entries of that length appear in the
   lexicon in the same order as they were loaded.
   */
  lemma {:induction false} SortKeepsTies(s: seq<AffixEntry>, n: nat)
    ensures OfLength(SortByLength(s), n) == OfLength(s, n)
  {
    if s != [] {
      var m := |s| - 1;
      SortKeepsTies(s[..m], n);
      InsertKeepsTies(SortByLength(s[..m]), s[m], n);
      assert s == s[..m] + [s[m]];
      OfLengthAppend(s[..m], [s[m]], n);
      assert [s[m]][..0] == [];
    }
  }

  /** In a longest-first order, the last entry has the shortest affix. */
  lemma LastIsShortest(r: seq<AffixEntry>, y: AffixEntry)
    requires NonIncreasing(r) && y in r
    ensures |y.affix| >= |r[|r| - 1].affix|
  {
    var i :| 0 <= i < |r| && r[i] == y;
  }

  /** Orders that agree length by length hold the same entries. */
  lemma SameEntries(r1: seq<AffixEntry>, r2: seq<AffixEntry>, y: AffixEntry)
    requires forall n: nat :: OfLength(r1, n) == OfLength(r2, n)
    requires y in r1
    ensures y in r2
  {
    OfLengthMembers(r1, |y.affix|);
    OfLengthMembers(r2, |y.affix|);
  }

  /** Dropping the same last entry from two orders that agree length by length leaves orders that still agree. */
  lemma DropLastKeepsTies(p1: seq<AffixEntry>, p2: seq<AffixEntry>, x: AffixEntry)
    requires forall n: nat :: OfLength(p1 + [x], n) == OfLength(p2 + [x], n)
    ensures forall n: nat :: OfLength(p1, n) == OfLength(p2, n)
  {
    forall n: nat
      ensures OfLength(p1, n) == OfLength(p2, n)
    {
      var q1, q2 := OfLength(p1, n), OfLength(p2, n);
      assert (p1 + [x])[..|p1|] == p1 && (p2 + [x])[..|p2|] == p2;
      assert OfLength(p1 + [x], n) == OfLength(p2 + [x], n);
      if n == |x.affix| {
        assert q1 + [x] == q2 + [x];
        assert q1 == (q1 + [x])[..|q1|];
        assert q2 == (q2 + [x])[..|q2|];
      } else {
        assert q1 + [] == q1 && q2 + [] == q2;
      }
    }
  }

  /** The last entry of an order is the last of the entries of its length. */
  lemma LastOfLength(r: seq<AffixEntry>)
    requires r != []
    ensures var q := OfLength(r, |r[|r| - 1].affix|); q != [] && q[|q| - 1] == r[|r| - 1]
  {
  }

  /** Two longest-first orders that agree length by length end with equally long affixes. */
  lemma SameLastLength(r1: seq<AffixEntry>, r2: seq<AffixEntry>)
    requires NonIncreasing(r1) && NonIncreasing(r2) && r1 != [] && r2 != []
    requires forall n: nat :: OfLength(r1, n) == OfLength(r2, n)
    ensures |r1[|r1| - 1].affix| == |r2[|r2| - 1].affix|
  {
    SameEntries(r1, r2, r1[|r1| - 1]);
    SameEntries(r2, r1, r2[|r2| - 1]);
    LastIsShortest(r2, r1[|r1| - 1]);
    LastIsShortest(r1, r2[|r2| - 1]);
  }

  /** Two longest-first orders that agree length by length end with the same entry. */
  lemma SameLast(r1: seq<AffixEntry>, r2: seq<AffixEntry>)
    requires NonIncreasing(r1) && NonIncreasing(r2) && r1 != [] && r2 != []
    requires forall n: nat :: OfLength(r1, n) == OfLength(r2, n)
    ensures r1[|r1| - 1] == r2[|r2| - 1]
  {
    SameLastLength(r1, r2);
    LastOfLength(r1);
    LastOfLength(r2);
    assert OfLength(r1, |r1[|r1| - 1].affix|) == OfLength(r2, |r1[|r1| - 1].affix|);
  }

  /**
   Two longest-first orders that agree, length by length, on the order of the
   entries are the same order.
   */
  lemma {:induction false} TiesDetermineOrder(r1: seq<AffixEntry>, r2: seq<AffixEntry>)
    requires NonIncreasing(r1) && NonIncreasing(r2)
    requires forall n: nat :: OfLength(r1, n) == OfLength(r2, n)
    ensures r1 == r2
    decreases |r1|
  {
    if r1 == [] || r2 == [] {
      if r1 != [] {
        SameEntries(r1, r2, r1[|r1| - 1]);
      }
      if r2 != [] {
        SameEntries(r2, r1, r2[|r2| - 1]);
      }
    } else {
      SameLast(r1, r2);
      var m1, m2 := |r1| - 1, |r2| - 1;
      var x := r1[m1];
      assert r1 == r1[..m1] + [x] && r2 == r2[..m2] + [x];
      DropLastKeepsTies(r1[..m1], r2[..m2], x);
      TiesDetermineOrder(r1[..m1], r2[..m2]);
    }
  }

  /**
   The lexicon order is characterised without reference to any sorting
   algorithm: it is the one longest-first arrangement of the loaded entries
   that keeps the load order among equally long affixes.
   */
  lemma StableSortIsUnique(s: seq<AffixEntry>, r: seq<AffixEntry>)
    requires NonIncreasing(r)
    requires forall n: nat :: OfLength(r, n) == OfLength(s, n)
    ensures r == SortByLength(s)
  {
    SortedByLength(s);
    forall n: nat
      ensures OfLength(r, n) == OfLength(SortByLength(s), n)
    {
      SortKeepsTies(s, n);
    }
    TiesDetermineOrder(r, SortByLength(s));
  }

  /**
   Walks the entry at `a[i]` leftwards, swapping it with each neighbour whose
   affix is shorter, and returns where it stops. Nothing outside `a[..i + 1]`
   moves.
   */
  method ShiftIntoPlace(a: array<AffixEntry>, i: nat) returns (j: nat)
    requires i < a.Length
    modifies a
    ensures j <= i && a[j] == old(a[i])
    ensures forall k :: 0 <= k < j ==> a[k] == old(a[k])
    ensures forall k :: j < k <= i ==> a[k] == old(a[k - 1])
    ensures forall k :: i < k < a.Length ==> a[k] == old(a[k])
    ensures j == 0 || |old(a[j - 1]).affix| >= |old(a[i]).affix|
    ensures forall k :: j <= k < i ==> |old(a[k]).affix| < |old(a[i]).affix|
  {
    var x := a[i];
    j := i;
    while j > 0 && |a[j - 1].affix| < |x.affix|
      invariant 0 <= j <= i
      invariant a[j] == x
      invariant forall k :: 0 <= k < j ==> a[k] == old(a[k])
      invariant forall k :: j < k <= i ==> a[k] == old(a[k - 1])
      invariant forall k :: i < k < a.Length ==> a[k] == old(a[k])
      invariant forall k :: j <= k < i ==> |old(a[k]).affix| < |x.affix|
    {
      a[j - 1], a[j] := a[j], a[j - 1];
      j := j - 1;
    }
  }

  /** One pass of the insertion sort: `a[..i + 1]` becomes `Insert(a[..i], a[i])`. */
  method InsertAt(a: array<AffixEntry>, i: nat)
    requires i < a.Length
    modifies a
    ensures a[..i + 1] == Insert(old(a[..i]), old(a[i]))
    ensures forall k :: i < k < a.Length ==> a[k] == old(a[k])
  {
    ghost var t := a[..i];
    ghost var x := a[i];
    var j := ShiftIntoPlace(a, i);
    assert j == InsertionPoint(t, x);
    assert a[..i + 1] == t[..j] + [x] + t[j..];
  }

  /**
   Sorts the array in place, longest affix first, keeping the load order of
   equally long affixes (lines 24-25 of the loader).
   */
  method SortByDescendingLength(a: array<AffixEntry>)
    modifies a
    ensures a[..] == SortByLength(old(a[..]))
  {
    ghost var s := a[..];
    var i := 0;
    while i < a.Length
      invariant 0 <= i <= a.Length
      invariant a[..i] == SortByLength(s[..i])
      invariant forall k :: i <= k < a.Length ==> a[k] == s[k]
    {
      assert s[..i + 1][..i] == s[..i] && s[..i + 1][i] == s[i] == a[i];
      InsertAt(a, i);
      i := i + 1;
    }
    assert a[..] == a[..a.Length] && s == s[..a.Length];
  }

  /**
   Loads one affix list: copies the loaded array (`.slice()`, lines 16 and 21)
   and sorts the copy; the loaded array itself is left as it was.
   */
  method LoadLexicon(loaded: array<AffixEntry>) returns (lexicon: array<AffixEntry>)
    ensures fresh(lexicon)
    ensures lexicon[..] == SortByLength(loaded[..])
  {
    lexicon := new AffixEntry[loaded.Length](i reads loaded requires 0 <= i < loaded.Length => loaded[i]);
    assert lexicon[..] == loaded[..];
    SortByDescendingLength(lexicon);
  }
}
