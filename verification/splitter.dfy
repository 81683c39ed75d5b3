/**
 The affix splitter: given a word and two lexicons (prefixes and suffixes),
 strip the first prefix entry that starts the lower-cased word, then the first
 suffix entry that ends what remains, and report the three segments with the
 glosses of the two affixes.
 */
module AffixSplitter {
  import opened AffixLexicon

  datatype Option<T> = None | Some(value: T)

  /**
   The result record of a split. `unmatched` always carries the same string as
   `root`; an empty affix marks a side on which nothing was stripped.
   */
  datatype Decomposition = Decomposition(
    original: string,
    prefix: string,
    prefixMeaning: string,
    root: string,
    suffix: string,
    suffixMeaning: string,
    unmatched: string)

  // Case mapping, restricted to the ASCII letters.

  function LowerChar(c: char): char
  {
    if 'A' <= c <= 'Z' then (c as int + 32) as char else c
  }

  function UpperChar(c: char): char
  {
    if 'a' <= c <= 'z' then (c as int - 32) as char else c
  }

  /** The word with every ASCII capital replaced by its small letter. */
  function ToLower(s: string): (r: string)
    ensures |r| == |s|
    ensures forall i :: 0 <= i < |s| ==> r[i] == LowerChar(s[i])
  {
    if s == [] then [] else [LowerChar(s[0])] + ToLower(s[1..])
  }

  /** The word with every ASCII small letter replaced by its capital. */
  function ToUpper(s: string): (r: string)
    ensures |r| == |s|
    ensures forall i :: 0 <= i < |s| ==> r[i] == UpperChar(s[i])
  {
    if s == [] then [] else [UpperChar(s[0])] + ToUpper(s[1..])
  }

  /** Lower-casing an upper-cased word gives the lower-cased word back. */
  lemma LowerOfUpper(s: string)
    ensures ToLower(ToUpper(s)) == ToLower(s)
  {
    assert forall i :: 0 <= i < |s| ==> LowerChar(UpperChar(s[i])) == LowerChar(s[i]);
  }

  /** A word without ASCII capitals is its own lower-cased form. */
  lemma LowerKeepsNonCapitals(s: string)
    requires forall i :: 0 <= i < |s| ==> !('A' <= s[i] <= 'Z')
    ensures ToLower(s) == s
  {
  }

  /** Lower-casing twice is lower-casing once. */
  lemma LowerIdempotent(s: string)
    ensures ToLower(ToLower(s)) == ToLower(s)
  {
    assert forall i :: 0 <= i < |s| ==> LowerChar(LowerChar(s[i])) == LowerChar(s[i]);
  }

  // Matching an affix against a string, as `String.prototype.startsWith` and
  // `String.prototype.endsWith` do: literally, so the empty affix always matches.

  /** `affix` starts `s`; the empty affix starts every string. */
  predicate StartsWith(s: string, affix: string)
    ensures affix == "" ==> StartsWith(s, affix)
    ensures StartsWith(s, affix) ==> |affix| <= |s|
  {
    |affix| <= |s| && s[..|affix|] == affix
  }

  /** `affix` ends `s`; the empty affix ends every string. */
  predicate EndsWith(s: string, affix: string)
    ensures affix == "" ==> EndsWith(s, affix)
    ensures EndsWith(s, affix) ==> |affix| <= |s|
  {
    |affix| <= |s| && s[|s| - |affix|..] == affix
  }

  /** Cutting a matched prefix off leaves the rest of the string. */
  lemma CutFront(s: string, affix: string)
    requires StartsWith(s, affix)
    ensures s == affix + s[|affix|..]
  {
    assert s == s[..|affix|] + s[|affix|..];
  }

  /** Cutting a matched suffix off leaves the start of the string. */
  lemma CutBack(s: string, affix: string)
    requires EndsWith(s, affix)
    ensures s == s[..|s| - |affix|] + affix
  {
    assert s == s[..|s| - |affix|] + s[|s| - |affix|..];
  }

  /** Every affix starts a string that begins with it, and ends one that finishes with it. */
  lemma AffixFitsItsWord(affix: string, rest: string)
    ensures StartsWith(affix + rest, affix)
    ensures EndsWith(rest + affix, affix)
  {
    assert (affix + rest)[..|affix|] == affix;
    assert (rest + affix)[|rest + affix| - |affix|..] == affix;
  }

  /** Which end of the string a lexicon is matched against. */
  datatype Side = Front | Back

  predicate Fits(side: Side, affix: string, s: string)
  {
    match side
    case Front => StartsWith(s, affix)
    case Back => EndsWith(s, affix)
  }

  /**
   `k` is where a front-to-back scan of `lex` that stops at the first fitting
   entry comes to rest: the first entry whose affix fits `s`, or `|lex|` when
   none does.
   */
  predicate IsFirstFit(lex: seq<AffixEntry>, side: Side, s: string, k: nat)
  {
    && k <= |lex|
    && (k < |lex| ==> Fits(side, lex[k].affix, s))
    && forall j :: 0 <= j < k ==> !Fits(side, lex[j].affix, s)
  }

  function FirstFit(lex: seq<AffixEntry>, side: Side, s: string): (k: nat)
    ensures IsFirstFit(lex, side, s, k)
  {
    if lex == [] || Fits(side, lex[0].affix, s) then 0
    else 1 + FirstFit(lex[1..], side, s)
  }

  /** A scan has exactly one resting place. */
  lemma FirstFitUnique(lex: seq<AffixEntry>, side: Side, s: string, k: nat)
    requires IsFirstFit(lex, side, s, k)
    ensures FirstFit(lex, side, s) == k
  {
  }

  /** The entry at position `k`, if there is one. */
  function Found(lex: seq<AffixEntry>, k: nat): Option<AffixEntry>
  {
    if k < |lex| then Some(lex[k]) else None
  }

  /** The entry a front-to-back scan of `lex` stops at, if any. */
  function Scan(lex: seq<AffixEntry>, side: Side, s: string): (o: Option<AffixEntry>)
    ensures o.Some? ==> o.value in lex && Fits(side, o.value.affix, s)
    ensures o.None? <==> forall j :: 0 <= j < |lex| ==> !Fits(side, lex[j].affix, s)
  {
    Found(lex, FirstFit(lex, side, s))
  }

  /** The affix reported for a scan outcome: the empty string when nothing was found. */
  function AffixOf(o: Option<AffixEntry>): string
  {
    if o.Some? then o.value.affix else ""
  }

  /** The gloss reported for a scan outcome: the empty string when nothing was found. */
  function MeaningOf(o: Option<AffixEntry>): string
  {
    if o.Some? then o.value.meaning else ""
  }

  /** A one-entry lexicon is found exactly when its affix fits. */
  lemma ScanOne(e: AffixEntry, side: Side, s: string)
    ensures Scan([e], side, s) == if Fits(side, e.affix, s) then Some(e) else None
  {
    if !Fits(side, e.affix, s) {
      assert [e][1..] == [];
    }
  }

  lemma Reassemble(a: string, b: string, c: string, w: string)
    requires a + (b + c) == w
    ensures a + b + c == w
  {
    assert a + b + c == a + (b + c);
  }

  /** What is left of `word` once the prefix the scan of `prefixes` stops at is cut off its front. */
  function AfterPrefix(word: string, prefixes: seq<AffixEntry>): (core: string)
    ensures AffixOf(Scan(prefixes, Front, word)) + core == word
  {
    var affix := AffixOf(Scan(prefixes, Front, word));
    CutFront(word, affix);
    word[|affix|..]
  }

  /** What is left of `core` once the suffix the scan of `suffixes` stops at is cut off its end. */
  function BeforeSuffix(core: string, suffixes: seq<AffixEntry>): (root: string)
    ensures root + AffixOf(Scan(suffixes, Back, core)) == core
  {
    var affix := AffixOf(Scan(suffixes, Back, core));
    CutBack(core, affix);
    core[..|core| - |affix|]
  }

  /**
   What a split of `originalWord` against the two lexicons yields. The
   suffix is looked for in what the prefix leaves over (`root + suffix`), not
   in the whole word.
   */
  function Split(originalWord: string, prefixes: seq<AffixEntry>, suffixes: seq<AffixEntry>): (d: Decomposition)
    ensures d.original == originalWord
    ensures d.prefix + d.root + d.suffix == ToLower(originalWord)
    ensures d.unmatched == d.root
  {
    var word := ToLower(originalWord);
    var p := Scan(prefixes, Front, word);
    var core := AfterPrefix(word, prefixes);
    var q := Scan(suffixes, Back, core);
    var root := BeforeSuffix(core, suffixes);
    Reassemble(AffixOf(p), root, AffixOf(q), word);
    Decomposition(originalWord, AffixOf(p), MeaningOf(p), root, AffixOf(q), MeaningOf(q), root)
  }

  /**
   The prefix and its gloss come from the entry where a scan of the prefix
   lexicon over the lower-cased word stops, in stored order.
   */
  lemma PrefixIsFirstFit(originalWord: string, prefixes: seq<AffixEntry>, suffixes: seq<AffixEntry>, k: nat)
    requires IsFirstFit(prefixes, Front, ToLower(originalWord), k)
    ensures var d := Split(originalWord, prefixes, suffixes);
      d.prefix == AffixOf(Found(prefixes, k)) && d.prefixMeaning == MeaningOf(Found(prefixes, k))
  {
    FirstFitUnique(prefixes, Front, ToLower(originalWord), k);
  }

  /**
   The suffix and its gloss come from the entry where a scan of the suffix
   lexicon stops, matched against what the prefix leaves over.
   */
  lemma SuffixIsFirstFit(originalWord: string, prefixes: seq<AffixEntry>, suffixes: seq<AffixEntry>, k: nat)
    requires IsFirstFit(suffixes, Back, AfterPrefix(ToLower(originalWord), prefixes), k)
    ensures var d := Split(originalWord, prefixes, suffixes);
      d.suffix == AffixOf(Found(suffixes, k)) && d.suffixMeaning == MeaningOf(Found(suffixes, k))
  {
    FirstFitUnique(suffixes, Back, AfterPrefix(ToLower(originalWord), prefixes), k);
  }

  /**
   When no prefix entry fits, the prefix and its gloss are empty and the
   suffix scan runs over the whole lower-cased word.
   */
  lemma NoPrefixFit(originalWord: string, prefixes: seq<AffixEntry>, suffixes: seq<AffixEntry>)
    requires forall j :: 0 <= j < |prefixes| ==> !StartsWith(ToLower(originalWord), prefixes[j].affix)
    ensures var d := Split(originalWord, prefixes, suffixes);
      d.prefix == "" && d.prefixMeaning == "" && d.root + d.suffix == ToLower(originalWord)
  {
    var d := Split(originalWord, prefixes, suffixes);
    PrefixIsFirstFit(originalWord, prefixes, suffixes, |prefixes|);
    assert "" + d.root + d.suffix == d.root + d.suffix;
  }

  /**
   When no suffix entry fits what the prefix leaves over, the suffix and its
   gloss are empty and the root is all that the prefix leaves over.
   */
  lemma NoSuffixFit(originalWord: string, prefixes: seq<AffixEntry>, suffixes: seq<AffixEntry>)
    requires forall j :: 0 <= j < |suffixes| ==> !EndsWith(AfterPrefix(ToLower(originalWord), prefixes), suffixes[j].affix)
    ensures var d := Split(originalWord, prefixes, suffixes);
      d.suffix == "" && d.suffixMeaning == "" && d.prefix + d.root == ToLower(originalWord)
  {
    var d := Split(originalWord, prefixes, suffixes);
    SuffixIsFirstFit(originalWord, prefixes, suffixes, |suffixes|);
    assert d.prefix + d.root + "" == d.prefix + d.root;
  }

  /**
   When every affix in the lexicons is non-empty, an empty prefix (suffix)
   in the result means exactly that no prefix (suffix) entry fits.
   */
  lemma EmptyMeansNoFit(originalWord: string, prefixes: seq<AffixEntry>, suffixes: seq<AffixEntry>)
    requires forall j :: 0 <= j < |prefixes| ==> prefixes[j].affix != ""
    requires forall j :: 0 <= j < |suffixes| ==> suffixes[j].affix != ""
    ensures var d := Split(originalWord, prefixes, suffixes);
      d.prefix == "" <==> forall j :: 0 <= j < |prefixes| ==> !StartsWith(ToLower(originalWord), prefixes[j].affix)
    ensures var d := Split(originalWord, prefixes, suffixes);
      d.suffix == "" <==> forall j :: 0 <= j < |suffixes| ==> !EndsWith(AfterPrefix(ToLower(originalWord), prefixes), suffixes[j].affix)
  {
  }

  /**
   An entry with the empty affix fits every word: a scan that reaches it stops
   there, so nothing is cut off on that side, but the gloss reported is that
   entry's gloss.
   */
  lemma EmptyAffixStopsScan(originalWord: string, prefixes: seq<AffixEntry>, suffixes: seq<AffixEntry>, k: nat)
    requires k < |prefixes| && prefixes[k].affix == ""
    requires forall j :: 0 <= j < k ==> !StartsWith(ToLower(originalWord), prefixes[j].affix)
    ensures var d := Split(originalWord, prefixes, suffixes);
      d.prefix == "" && d.prefixMeaning == prefixes[k].meaning
  {
    PrefixIsFirstFit(originalWord, prefixes, suffixes, k);
  }

  /** With both lexicons empty, nothing is stripped and the root is the whole lower-cased word. */
  lemma EmptyLexicons(originalWord: string)
    ensures Split(originalWord, [], []) ==
      Decomposition(originalWord, "", "", ToLower(originalWord), "", "", ToLower(originalWord))
  {
    var word := ToLower(originalWord);
    assert word[0..] == word;
    assert word[..|word| - 0] == word;
  }

  /** The split depends on the word only through its lower-cased form; `original` keeps the input. */
  lemma SplitIgnoresCase(w1: string, w2: string, prefixes: seq<AffixEntry>, suffixes: seq<AffixEntry>)
    requires ToLower(w1) == ToLower(w2)
    ensures Split(w1, prefixes, suffixes) == Split(w2, prefixes, suffixes).(original := w1)
  {
  }

  /** Splitting the upper-cased word gives the same segments and glosses as splitting the word. */
  lemma SplitOfUpperCase(w: string, prefixes: seq<AffixEntry>, suffixes: seq<AffixEntry>)
    ensures Split(ToUpper(w), prefixes, suffixes) == Split(w, prefixes, suffixes).(original := ToUpper(w))
  {
    LowerOfUpper(w);
    SplitIgnoresCase(ToUpper(w), w, prefixes, suffixes);
  }

  /**
   The suffix is matched against what the prefix leaves over: with "re" as
   the only prefix and "ed" as the only suffix, "red" keeps "d" as its root.
   */
  lemma RedExample()
    ensures Split("red", [AffixEntry("re", "again")], [AffixEntry("ed", "past")]) ==
      Decomposition("red", "re", "again", "d", "", "", "d")
  {
    var re, ed := AffixEntry("re", "again"), AffixEntry("ed", "past");
    LowerKeepsNonCapitals("red");
    assert StartsWith("red", "re");
    ScanOne(re, Front, "red");
    assert AfterPrefix("red", [re]) == "d" by {
      assert "red"[2..] == "d";
    }
    assert !EndsWith("d", "ed");
    ScanOne(ed, Back, "d");
    assert BeforeSuffix("d", [ed]) == "d" by {
      assert "d"[..1] == "d";
    }
  }

  /**
   The prefix and the suffix may use up the whole word: "unable" against the
   prefix "un" and the suffix "able" leaves an empty root, and the split still
   yields a result.
   */
  lemma UnableExample()
    ensures Split("unable", [AffixEntry("un", "not")], [AffixEntry("able", "can be")]) ==
      Decomposition("unable", "un", "not", "", "able", "can be", "")
  {
    var un, able := AffixEntry("un", "not"), AffixEntry("able", "can be");
    LowerKeepsNonCapitals("unable");
    assert StartsWith("unable", "un");
    ScanOne(un, Front, "unable");
    assert AfterPrefix("unable", [un]) == "able" by {
      assert "unable"[2..] == "able";
    }
    assert EndsWith("able", "able");
    ScanOne(able, Back, "able");
    assert BeforeSuffix("able", [able]) == "" by {
      assert "able"[..0] == "";
    }
  }

  /**
   The prefix loop of `splitAffixes`: walks the prefix lexicon in stored order
   and stops at the first entry whose affix starts `word`, reporting its affix
   and gloss, or two empty strings when none does.
   */
  method ScanPrefixes(word: string, prefixes: seq<AffixEntry>) returns (matchedPrefix: string, prefixMeaning: string)
    ensures matchedPrefix == AffixOf(Scan(prefixes, Front, word))
    ensures prefixMeaning == MeaningOf(Scan(prefixes, Front, word))
  {
    matchedPrefix, prefixMeaning := "", "";
    var i := 0;
    while i < |prefixes|
      invariant i <= |prefixes|
      invariant forall j :: 0 <= j < i ==> !StartsWith(word, prefixes[j].affix)
      invariant matchedPrefix == "" && prefixMeaning == ""
    {
      if StartsWith(word, prefixes[i].affix) {
        matchedPrefix, prefixMeaning := prefixes[i].affix, prefixes[i].meaning;
        break;
      }
      i := i + 1;
    }
    assert IsFirstFit(prefixes, Front, word, i);
    FirstFitUnique(prefixes, Front, word, i);
  }

  /**
   The suffix loop of `splitAffixes`: walks the suffix lexicon in stored order
   and stops at the first entry whose affix ends `core`, reporting its affix
   and gloss, or two empty strings when none does.
   */
  method ScanSuffixes(core: string, suffixes: seq<AffixEntry>) returns (matchedSuffix: string, suffixMeaning: string)
    ensures matchedSuffix == AffixOf(Scan(suffixes, Back, core))
    ensures suffixMeaning == MeaningOf(Scan(suffixes, Back, core))
  {
    matchedSuffix, suffixMeaning := "", "";
    var i := 0;
    while i < |suffixes|
      invariant i <= |suffixes|
      invariant forall j :: 0 <= j < i ==> !EndsWith(core, suffixes[j].affix)
      invariant matchedSuffix == "" && suffixMeaning == ""
    {
      if EndsWith(core, suffixes[i].affix) {
        matchedSuffix, suffixMeaning := suffixes[i].affix, suffixes[i].meaning;
        break;
      }
      i := i + 1;
    }
    assert IsFirstFit(suffixes, Back, core, i);
    FirstFitUnique(suffixes, Back, core, i);
  }

  /**
   `splitAffixes`: lower-cases the word, scans the prefix lexicon in stored
   order and takes the first entry that starts the word, then scans the suffix
   lexicon the same way against what the prefix leaves over. A matched affix
   is cut off only when it is non-empty, as the source tests the matched
   string for truthiness.
   */
  method SplitAffixes(originalWord: string, prefixes: seq<AffixEntry>, suffixes: seq<AffixEntry>)
    returns (d: Decomposition)
    ensures d == Split(originalWord, prefixes, suffixes)
  {
    var word := ToLower(originalWord);

    var matchedPrefix, prefixMeaning := ScanPrefixes(word, prefixes);

    var coreAfterPrefix := if matchedPrefix != "" then word[|matchedPrefix|..] else word;
    assert coreAfterPrefix == AfterPrefix(word, prefixes);

    var matchedSuffix, suffixMeaning := ScanSuffixes(coreAfterPrefix, suffixes);

    var root := if matchedSuffix != ""
      then coreAfterPrefix[..|coreAfterPrefix| - |matchedSuffix|]
      else coreAfterPrefix;
    assert root == BeforeSuffix(coreAfterPrefix, suffixes);
    var unmatched := root;

    d := Decomposition(originalWord, matchedPrefix, prefixMeaning, root, matchedSuffix, suffixMeaning, unmatched);
  }
}
