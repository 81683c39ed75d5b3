/**
 Why a first-match scan over the sorted lexicon is a longest match. Over a
 lexicon in `SortByLength` order, the entry the scan stops at is the entry
 with the longest fitting affix in the list as it was loaded, and among
 several equally long fitting affixes the one loaded first.
 */
module LongestMatch {
  import opened AffixLexicon
  import opened AffixSplitter

  /**
   `k` is the position, in `lex` as loaded, of the fitting entry with the
   longest affix, the earliest of them when several are equally long; or
   `|lex|` when no entry fits.
   */
  predicate IsLongestFit(lex: seq<AffixEntry>, side: Side, s: string, k: nat)
  {
    && k <= |lex|
    && (k == |lex| ==> forall j :: 0 <= j < |lex| ==> !Fits(side, lex[j].affix, s))
    && (k < |lex| ==>
          && Fits(side, lex[k].affix, s)
          && (forall j :: 0 <= j < |lex| && Fits(side, lex[j].affix, s) ==> |lex[j].affix| <= |lex[k].affix|)
          && (forall j :: 0 <= j < k && Fits(side, lex[j].affix, s) ==> |lex[j].affix| < |lex[k].affix|))
  }

  /**
   Keeps the best candidate so far unless `e` fits and has a strictly longer
   affix: a later entry never displaces an equally long earlier one.
   */
  function Better(best: Option<AffixEntry>, e: AffixEntry, side: Side, s: string): Option<AffixEntry>
  {
    if Fits(side, e.affix, s) && (best.None? || |e.affix| > |best.value.affix|) then Some(e) else best
  }

  /** Reference definition: the position of the longest fit, found by a pass over the loaded order. */
  function LongestFit(lex: seq<AffixEntry>, side: Side, s: string): (k: nat)
    ensures IsLongestFit(lex, side, s, k)
  {
    if lex == [] then 0
    else
      var n := |lex| - 1;
      var b := LongestFit(lex[..n], side, s);
      assert forall j :: 0 <= j < n ==> lex[..n][j] == lex[j];
      if Fits(side, lex[n].affix, s) && (b == n || |lex[n].affix| > |lex[b].affix|) then n
      else if b == n then n + 1
      else b
  }

  /** The longest fitting entry of the loaded list, if any. */
  function Longest(lex: seq<AffixEntry>, side: Side, s: string): Option<AffixEntry>
  {
    Found(lex, LongestFit(lex, side, s))
  }

  lemma LongestStep(a: seq<AffixEntry>, x: AffixEntry, side: Side, s: string)
    ensures Longest(a + [x], side, s) == Better(Longest(a, side, s), x, side, s)
  {
    assert (a + [x])[..|a|] == a;
  }

  /** In front of its place, `Insert` keeps the entries of `t`, and `x` sits at its place. */
  lemma InsertFront(t: seq<AffixEntry>, x: AffixEntry)
    ensures var p, r := InsertionPoint(t, x), Insert(t, x);
      && |r| == |t| + 1 && r[p] == x
      && (forall j :: 0 <= j < p ==> r[j] == t[j])
  {
    var p := InsertionPoint(t, x);
    assert Insert(t, x) == t[..p] + ([x] + t[p..]);
  }

  /** Behind the place of `x`, `Insert` has the rest of `t`, shifted by one. */
  lemma InsertBack(t: seq<AffixEntry>, x: AffixEntry)
    ensures var p, r := InsertionPoint(t, x), Insert(t, x);
      |r| == |t| + 1 && forall j :: p < j <= |t| ==> r[j] == t[j - 1]
  {
    var p, r := InsertionPoint(t, x), Insert(t, x);
    var front, back := t[..p] + [x], t[p..];
    assert r == front + back;
    forall j | p < j <= |t|
      ensures r[j] == t[j - 1]
    {
      assert r[j] == back[j - |front|];
    }
  }

  /** Where `Insert` puts the entries of `t` and `x`. */
  lemma InsertLayout(t: seq<AffixEntry>, x: AffixEntry)
    ensures var p, r := InsertionPoint(t, x), Insert(t, x);
      && |r| == |t| + 1 && r[p] == x
      && (forall j :: 0 <= j < p ==> r[j] == t[j])
      && (forall j :: p < j <= |t| ==> r[j] == t[j - 1])
  {
    InsertFront(t, x);
    InsertBack(t, x);
  }

  /** The scan of `t` stops in front of the place where `x` goes: the inserted lexicon stops at the same entry. */
  lemma ScanInsertBefore(t: seq<AffixEntry>, x: AffixEntry, side: Side, s: string)
    requires FirstFit(t, side, s) < InsertionPoint(t, x)
    ensures Scan(Insert(t, x), side, s) == Scan(t, side, s)
  {
    InsertLayout(t, x);
    FirstFitUnique(Insert(t, x), side, s, FirstFit(t, side, s));
  }

  /** Nothing fits before the place of `x` and `x` fits: the scan stops at `x`. */
  lemma ScanInsertAt(t: seq<AffixEntry>, x: AffixEntry, side: Side, s: string)
    requires FirstFit(t, side, s) >= InsertionPoint(t, x) && Fits(side, x.affix, s)
    ensures Scan(Insert(t, x), side, s) == Some(x)
  {
    InsertLayout(t, x);
    FirstFitUnique(Insert(t, x), side, s, InsertionPoint(t, x));
  }

  /** Nothing fits before the place of `x` and `x` does not fit: the scan stops where it stopped in `t`. */
  lemma ScanInsertAfter(t: seq<AffixEntry>, x: AffixEntry, side: Side, s: string)
    requires FirstFit(t, side, s) >= InsertionPoint(t, x) && !Fits(side, x.affix, s)
    ensures Scan(Insert(t, x), side, s) == Scan(t, side, s)
  {
    InsertLayout(t, x);
    FirstFitUnique(Insert(t, x), side, s, FirstFit(t, side, s) + 1);
  }

  /** Scanning `t` after `x` has been inserted is scanning `t` and then weighing `x` against what was found. */
  lemma ScanInsert(t: seq<AffixEntry>, x: AffixEntry, side: Side, s: string)
    requires NonIncreasing(t)
    ensures Scan(Insert(t, x), side, s) == Better(Scan(t, side, s), x, side, s)
  {
    var p := InsertionPoint(t, x);
    var k := FirstFit(t, side, s);
    if k < p {
      assert |t[k].affix| >= |t[p - 1].affix|;
      ScanInsertBefore(t, x, side, s);
    } else if Fits(side, x.affix, s) {
      ScanInsertAt(t, x, side, s);
    } else {
      ScanInsertAfter(t, x, side, s);
    }
  }

  /**
   A scan of the sorted lexicon stops at the longest fitting entry of the
   loaded list, the earliest loaded among equally long ones.
   */
  lemma {:induction false} SortedScanIsLongest(loaded: seq<AffixEntry>, side: Side, s: string)
    ensures Scan(SortByLength(loaded), side, s) == Longest(loaded, side, s)
  {
    if loaded != [] {
      var m := |loaded| - 1;
      SortedScanIsLongest(loaded[..m], side, s);
      SortedByLength(loaded[..m]);
      ScanInsert(SortByLength(loaded[..m]), loaded[m], side, s);
      LongestStep(loaded[..m], loaded[m], side, s);
      SplitLast(loaded);
    }
  }

  /**
   Tie-break: of two fitting entries with equally long affixes, the one
   loaded later is never the longest fit.
   */
  lemma EarlierTieWins(loaded: seq<AffixEntry>, side: Side, s: string, i: nat, j: nat)
    requires i < j < |loaded| && |loaded[i].affix| == |loaded[j].affix|
    requires Fits(side, loaded[i].affix, s) && Fits(side, loaded[j].affix, s)
    ensures LongestFit(loaded, side, s) != j
  {
  }

  /**
   Over a longest-first lexicon no fitting entry has a longer affix than the
   one the scan stops at.
   */
  lemma ScanOfSortedIsLongest(lex: seq<AffixEntry>, side: Side, s: string)
    requires NonIncreasing(lex)
    ensures forall j :: 0 <= j < |lex| && Fits(side, lex[j].affix, s) ==>
      |lex[j].affix| <= |AffixOf(Scan(lex, side, s))|
  {
    var k := FirstFit(lex, side, s);
    forall j | 0 <= j < |lex| && Fits(side, lex[j].affix, s)
      ensures |lex[j].affix| <= |lex[k].affix|
    {
      assert k <= j;
    }
  }

  /**
   Longest match for the split: with longest-first lexicons, no prefix entry
   longer than the stripped prefix starts the lower-cased word, and no suffix
   entry longer than the stripped suffix ends what the prefix leaves over.
   */
  lemma SplitTakesLongest(originalWord: string, prefixes: seq<AffixEntry>, suffixes: seq<AffixEntry>)
    requires NonIncreasing(prefixes) && NonIncreasing(suffixes)
    ensures var d := Split(originalWord, prefixes, suffixes);
      forall j :: 0 <= j < |prefixes| && StartsWith(ToLower(originalWord), prefixes[j].affix) ==>
        |prefixes[j].affix| <= |d.prefix|
    ensures var d := Split(originalWord, prefixes, suffixes);
      forall j :: 0 <= j < |suffixes| && EndsWith(AfterPrefix(ToLower(originalWord), prefixes), suffixes[j].affix) ==>
        |suffixes[j].affix| <= |d.suffix|
  {
    var word := ToLower(originalWord);
    ScanOfSortedIsLongest(prefixes, Front, word);
    ScanOfSortedIsLongest(suffixes, Back, AfterPrefix(word, prefixes));
  }

  /**
   End to end: splitting against lexicons built from loaded lists strips the
   longest fitting prefix of the lower-cased word and then the longest fitting
   suffix of what is left, each time preferring, among equally long affixes,
   the entry that was loaded first.
   */
  lemma SplitOfLoadedLexicons(originalWord: string, loadedPrefixes: seq<AffixEntry>, loadedSuffixes: seq<AffixEntry>)
    ensures var d := Split(originalWord, SortByLength(loadedPrefixes), SortByLength(loadedSuffixes));
      var p := Longest(loadedPrefixes, Front, ToLower(originalWord));
      d.prefix == AffixOf(p) && d.prefixMeaning == MeaningOf(p)
    ensures var d := Split(originalWord, SortByLength(loadedPrefixes), SortByLength(loadedSuffixes));
      var q := Longest(loadedSuffixes, Back, AfterPrefix(ToLower(originalWord), SortByLength(loadedPrefixes)));
      d.suffix == AffixOf(q) && d.suffixMeaning == MeaningOf(q)
  {
    var word := ToLower(originalWord);
    SortedScanIsLongest(loadedPrefixes, Front, word);
    SortedScanIsLongest(loadedSuffixes, Back, AfterPrefix(word, SortByLength(loadedPrefixes)));
  }

  /**
   With "un" loaded before "under", "undercut" loses the prefix "under", not
   "un": the sort puts "under" first.
   */
  lemma UndercutIsLowerCase()
    ensures ToLower("undercut") == "undercut"
  {
    LowerKeepsNonCapitals("undercut");
  }

  /**
   Of two loaded entries, the one with the strictly longer affix is put first;
   when the affixes are equally long, the load order stays.
   */
  lemma SortTwo(a: AffixEntry, b: AffixEntry)
    ensures |a.affix| >= |b.affix| ==> SortByLength([a, b]) == [a, b]
    ensures |a.affix| < |b.affix| ==> SortByLength([a, b]) == [b, a]
  {
    assert [a, b][..1] == [a] && [a][..0] == [];
    assert InsertionPoint([a], b) == (if |a.affix| >= |b.affix| then 1 else 0) by {
      assert [a][..0] == [];
    }
  }

  lemma UndercutLexicon()
    ensures SortByLength([AffixEntry("un", "not"), AffixEntry("under", "below")]) ==
      [AffixEntry("under", "below"), AffixEntry("un", "not")]
  {
    SortTwo(AffixEntry("un", "not"), AffixEntry("under", "below"));
  }

  lemma UndercutExample()
    ensures Split("undercut", SortByLength([AffixEntry("un", "not"), AffixEntry("under", "below")]), []).prefix == "under"
  {
    var lexicon := [AffixEntry("under", "below"), AffixEntry("un", "not")];
    UndercutLexicon();
    UndercutIsLowerCase();
    assert StartsWith("undercut", "under");
    PrefixIsFirstFit("undercut", lexicon, [], 0);
  }

  /**
   The longest match depends on the sort: against the list as loaded, with
   "un" in front of "under", the scan stops at "un" and "undercut" loses only
   "un".
   */
  lemma UnsortedUndercutExample()
    ensures Split("undercut", [AffixEntry("un", "not"), AffixEntry("under", "below")], []).prefix == "un"
  {
    UndercutIsLowerCase();
    assert StartsWith("undercut", "un");
    PrefixIsFirstFit("undercut", [AffixEntry("un", "not"), AffixEntry("under", "below")], [], 0);
  }
}
