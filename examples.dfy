/**
 * The assertions of test/test.c about histogram_create, histogram_fits and
 * histogram_subtract, as lemmas about the model: the histograms the test
 * builds, the fits it expects and rejects, and the two subtractions.
 *
 * The general facts come first (every histogram fits itself, the empty one
 * fits all); the test's six strings follow, with the histograms
 * histogram_create builds for them written out as constants.
 */
module Examples {
  import opened HistogramSpec
  import opened SubtractSpec

  // ---------------------------------------------------------------------
  // Fits, for every histogram

  /** Every valid histogram fits itself. */
  lemma FitsReflexive(h: HistView)
    requires ValidView(h)
    ensures Fits(h, h)
  {
    forall i | 0 <= i < |h.bins|
      ensures h.bins[i] in h.bins && h.freq[i] <= BagOf(h)[h.bins[i]]
    {
      BagAt(h.bins, h.freq, i);
    }
  }

  /** The histogram of the empty string fits every histogram. */
  lemma EmptyFitsAll(base: HistView)
    requires Shaped(base)
    ensures Fits(Tally(""), base)
  {
    TallyFacts("");
    assert |Tally("").bins| == 0 by {
      assert forall c :: c !in Tally("").bins;
    }
  }

  // ---------------------------------------------------------------------
  // The test's histograms

  const HistAbc := HistView("abc", [1, 1, 1], 1, 3)
  const HistAaa := HistView("a", [3], 3, 3)
  const HistA := HistView("a", [1], 1, 1)
  const HistEmpty := HistView("", [], 0, 0)
  const HistAbc2 := HistView("abc", [2, 2, 2], 2, 6)
  const HistAbc3 := HistView("abc", [3, 3, 3], 3, 9)

  /** What is left of "abcabcabc" after both subtractions: three empty slots. */
  const HistZero3 := HistView("abc", [0, 0, 0], 0, 0)

  /** The constants, spelled out for proofs that hide their definitions. */
  lemma Spelled()
    ensures HistAbc == HistView("abc", [1, 1, 1], 1, 3)
    ensures HistAbc2 == HistView("abc", [2, 2, 2], 2, 6)
    ensures HistAbc3 == HistView("abc", [3, 3, 3], 3, 9)
    ensures HistZero3 == HistView("abc", [0, 0, 0], 0, 0)
  {
  }

  // The helpers below unfold the recursive definitions once for three slots,
  // so that the literal examples need no long chains of unfolding.

  /** The largest of three counts. */
  lemma MaxOf3(s: seq<nat>)
    requires |s| == 3
    ensures MaxOf(s) == Max(Max(s[0], s[1]), s[2])
  {
    assert s[..2][..1] == s[..1] && s[..1][..0] == [];
    assert MaxOf(s[..1]) == Max(MaxOf([]), s[0]) == s[0];
    assert MaxOf(s[..2]) == Max(MaxOf(s[..1]), s[1]);
  }

  /** The sum of three counts. */
  lemma Sum3(s: seq<nat>)
    requires |s| == 3
    ensures Sum(s) == s[0] + s[1] + s[2]
  {
    assert s[..2][..1] == s[..1] && s[..1][..0] == [];
    assert Sum(s[..1]) == Sum([]) + s[0];
    assert Sum(s[..2]) == Sum(s[..1]) + s[1];
  }

  /** Three slots hold their characters, each as often as its count. */
  lemma Bag3(bins: seq<char>, freq: seq<nat>)
    requires |bins| == |freq| == 3
    ensures Bag(bins, freq)
         == multiset{}[bins[0] := freq[0]] + multiset{}[bins[1] := freq[1]] + multiset{}[bins[2] := freq[2]]
  {
    assert bins[..2][..1] == bins[..1] && freq[..2][..1] == freq[..1];
    assert bins[..1][..0] == [] && freq[..1][..0] == [];
    assert Bag(bins[..1], freq[..1]) == Bag([], []) + multiset{}[bins[0] := freq[0]];
    assert Bag(bins[..2], freq[..2]) == Bag(bins[..1], freq[..1]) + multiset{}[bins[1] := freq[1]];
  }

  /** Three ascending slots with positive counts, their sum and their largest count. */
  lemma Canonical3(h: HistView)
    requires |h.bins| == |h.freq| == 3 && h.bins[0] < h.bins[1] < h.bins[2]
    requires h.freq[0] > 0 && h.freq[1] > 0 && h.freq[2] > 0
    requires h.ntotal == h.freq[0] + h.freq[1] + h.freq[2]
    requires h.maxfreq == Max(Max(h.freq[0], h.freq[1]), h.freq[2])
    ensures Canonical(h)
  {
    Sum3(h.freq);
    MaxOf3(h.freq);
  }

  /** The three-slot histograms of "abc", "abcabc" and "abcabcabc" are canonical. */
  lemma CanonicalAbc()
    ensures Canonical(HistAbc) && Canonical(HistAbc2) && Canonical(HistAbc3)
  {
    Canonical3(HistAbc);
    Canonical3(HistAbc2);
    Canonical3(HistAbc3);
  }

  lemma BagAbc()
    ensures BagOf(HistAbc) == multiset("abc")
  {
    Bag3(HistAbc.bins, HistAbc.freq);
  }

  lemma BagAbc2()
    ensures BagOf(HistAbc2) == multiset("abcabc")
  {
    Bag3(HistAbc2.bins, HistAbc2.freq);
  }

  lemma BagAbc3()
    ensures BagOf(HistAbc3) == multiset("abcabcabc")
  {
    Bag3(HistAbc3.bins, HistAbc3.freq);
  }

  // ---------------------------------------------------------------------
  // histogram_create

  lemma TallyAbc()
    ensures Tally("abc") == HistAbc
  {
    hide *;
    CanonicalAbc();
    BagAbc();
    TallyIs("abc", HistAbc);
  }

  lemma TallyAbc2()
    ensures Tally("abcabc") == HistAbc2
  {
    hide *;
    CanonicalAbc();
    BagAbc2();
    TallyIs("abcabc", HistAbc2);
  }

  lemma TallyAbc3()
    ensures Tally("abcabcabc") == HistAbc3
  {
    hide *;
    CanonicalAbc();
    BagAbc3();
    TallyIs("abcabcabc", HistAbc3);
  }

  lemma TallyAaa()
    ensures Tally("aaa") == HistAaa
  {
    hide Tally;
    TallyIs("aaa", HistAaa);
  }

  lemma TallyA()
    ensures Tally("a") == HistA
  {
    hide Tally;
    TallyIs("a", HistA);
  }

  lemma TallyEmpty()
    ensures Tally("") == HistEmpty
  {
    hide Tally;
    TallyIs("", HistEmpty);
  }

  /** The slot counts, largest counts and totals test/test.c expects after histogram_create. */
  lemma CreateExamples()
    ensures |Tally("abc").bins| == 3 && Tally("abc").maxfreq == 1 && Tally("abc").ntotal == 3
    ensures |Tally("aaa").bins| == 1 && Tally("aaa").maxfreq == 3 && Tally("aaa").ntotal == 3
    ensures |Tally("a").bins| == 1 && Tally("a").maxfreq == 1 && Tally("a").ntotal == 1
    ensures |Tally("").bins| == 0 && Tally("").maxfreq == 0 && Tally("").ntotal == 0
    ensures |Tally("abcabc").bins| == 3 && Tally("abcabc").maxfreq == 2 && Tally("abcabc").ntotal == 6
    ensures |Tally("abcabcabc").bins| == 3 && Tally("abcabcabc").maxfreq == 3 && Tally("abcabcabc").ntotal == 9
  {
    TallyAbc();
    TallyAaa();
    TallyA();
    TallyEmpty();
    TallyAbc2();
    TallyAbc3();
  }

  // ---------------------------------------------------------------------
  // histogram_fits

  /** "abc" does not fit "aaa"; it fits "abcabc" and "abcabcabc", which do not fit it. */
  lemma FitsAbc()
    ensures !Fits(HistAbc, HistAaa)
    ensures Fits(HistAbc, HistAbc2) && !Fits(HistAbc2, HistAbc)
    ensures Fits(HistAbc, HistAbc3)
  {
    hide *;
    TallyAbc();
    TallyAaa();
    TallyAbc2();
    TallyAbc3();
    TallyFits("abc", "aaa");
    TallyFits("abc", "abcabc");
    TallyFits("abcabc", "abc");
    TallyFits("abc", "abcabcabc");
    assert multiset("abc")['b'] == 1 && multiset("aaa")['b'] == 0;
    assert multiset("abcabc")['a'] == 2 && multiset("abc")['a'] == 1;
  }

  /** "abcabc" fits "abcabcabc", which does not fit it. */
  lemma FitsAbc2()
    ensures Fits(HistAbc2, HistAbc3) && !Fits(HistAbc3, HistAbc2)
  {
    hide *;
    TallyAbc2();
    TallyAbc3();
    TallyFits("abcabc", "abcabcabc");
    TallyFits("abcabcabc", "abcabc");
    assert multiset("abcabcabc")['a'] == 3 && multiset("abcabc")['a'] == 2;
  }

  /** The single letter "a" fits "abc", "aaa", "abcabc" and "abcabcabc". */
  lemma FitsA()
    ensures Fits(HistA, HistAbc) && Fits(HistA, HistAaa) && Fits(HistA, HistAbc2) && Fits(HistA, HistAbc3)
  {
    hide *;
    TallyA();
    TallyAbc();
    TallyAaa();
    TallyAbc2();
    TallyAbc3();
    TallyFits("a", "abc");
    TallyFits("a", "aaa");
    TallyFits("a", "abcabc");
    TallyFits("a", "abcabcabc");
  }

  // ---------------------------------------------------------------------
  // histogram_subtract

  /**
   * When `f`'s last bin is `t`'s last bin, histogram_subtract looks at
   * every slot, so its `maxfreq` is the largest new count.
   */
  lemma WholeWalk(t: HistView, f: HistView)
    requires ValidView(t) && Shaped(f) && |f.bins| > 0 && |t.bins| > 0
    requires f.bins[|f.bins| - 1] == t.bins[|t.bins| - 1]
    ensures Subtracted(t, f).maxfreq == MaxOf(Subtracted(t, f).freq)
  {
    IndexOfStrict(t.bins, |t.bins| - 1);
    var nf := Minus(t.bins, t.freq, BagOf(f));
    assert nf[..|nf|] == nf;
  }

  /**
   * Taking `f` away from the three-slot `t`, where `f` holds `k` of each of
   * `t`'s characters and `t` holds `n` of each, leaves `n - k` of each.
   */
  lemma Subtracted3(t: HistView, f: HistView, n: nat, k: nat)
    requires ValidView(t) && ValidView(f) && Contained(f, t) && |t.bins| == 3
    requires t.freq == [n, n, n] && k <= n
    requires BagOf(f) == multiset{}[t.bins[0] := k] + multiset{}[t.bins[1] := k] + multiset{}[t.bins[2] := k]
    requires |f.bins| > 0 && f.bins[|f.bins| - 1] == t.bins[2]
    ensures Subtracted(t, f) == HistView(t.bins, [n - k, n - k, n - k], n - k, 3 * (n - k))
  {
    SubtractedFacts(t, f);
    WholeWalk(t, f);
    var r := Subtracted(t, f);
    assert r.freq == [n - k, n - k, n - k];
    MaxOf3(r.freq);
    Sum3(r.freq);
  }

  /** "abc" is in "abcabcabc", "abcabc" in itself, and their multisets slot by slot. */
  lemma AbcIn()
    ensures Contained(HistAbc, HistAbc3) && Contained(HistAbc2, HistAbc2)
    ensures ValidView(HistAbc) && ValidView(HistAbc2) && ValidView(HistAbc3)
    ensures BagOf(HistAbc) == multiset{}['a' := 1] + multiset{}['b' := 1] + multiset{}['c' := 1]
    ensures BagOf(HistAbc2) == multiset{}['a' := 2] + multiset{}['b' := 2] + multiset{}['c' := 2]
  {
    hide *;
    FitsAbc();
    FitsReflexive2();
    CanonicalAbc();
    Spelled();
    Bag3("abc", [1, 1, 1]);
    Bag3("abc", [2, 2, 2]);
    Views3();
  }

  /** "abcabc" fits itself. */
  lemma FitsReflexive2()
    ensures Fits(HistAbc2, HistAbc2)
  {
    CanonicalAbc();
    FitsReflexive(HistAbc2);
  }

  /** What the predicates of the three-slot constants unfold to. */
  lemma Views3()
    ensures Canonical(HistAbc) ==> ValidView(HistAbc)
    ensures Canonical(HistAbc2) ==> ValidView(HistAbc2)
    ensures Canonical(HistAbc3) ==> ValidView(HistAbc3)
    ensures Fits(HistAbc, HistAbc3) ==> Contained(HistAbc, HistAbc3)
    ensures Fits(HistAbc2, HistAbc2) ==> Contained(HistAbc2, HistAbc2)
    ensures BagOf(HistAbc) == Bag("abc", [1, 1, 1]) && BagOf(HistAbc2) == Bag("abc", [2, 2, 2])
  {
  }

  /**
   * test/test.c's two subtractions as the code performs them: "abc" from
   * "abcabcabc" succeeds and leaves 3 slots, largest count 2 and 6
   * letters; "abcabc" from that succeeds and leaves the 3 slots with count
   * 0 each and no letters.
   */
  lemma SubtractExamples()
    ensures var r := Subtraction(HistAbc3, HistAbc);
      r.ok && HistView(HistAbc3.bins, r.freq, r.maxfreq, r.ntotal) == HistAbc2
    ensures var r := Subtraction(HistAbc2, HistAbc2);
      r.ok && HistView(HistAbc2.bins, r.freq, r.maxfreq, r.ntotal) == HistZero3
  {
    hide *;
    Spelled();
    AbcIn();
    Subtracted3(HistAbc3, HistAbc, 3, 1);
    Subtracted3(HistAbc2, HistAbc2, 2, 2);
    SubtractionMeaning(HistAbc3, HistAbc);
    SubtractionMeaning(HistAbc2, HistAbc2);
  }
}
