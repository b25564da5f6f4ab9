/**
 * The search words_find evidently means to perform, beside the one the code
 * performs (`SearchSpec.Find`), and the two places where they part.
 *
 * - histogram_subtract recomputes `maxfreq` only over the slots up to the
 *   one matched by the subtracted histogram's last bin, so the cached value
 *   can fall below the largest count; the `maxfreq` test of histogram_fits
 *   then rejects words whose letters are all still there.
 * - words_find returns as soon as one word exhausts the letters, so the
 *   later words of the list are never tried at that level.
 *
 * `SubtractedExact` and `FindAll` correct both, and `FindAllExact` proves
 * what src/main.c:1 and :130 promise (the anagrams of the input, found by
 * looping over all words): the lines printed are exactly the sequences of
 * listed words whose letters are those of the input.
 */
module Exhaustive {
  import opened HistogramSpec
  import opened SubtractSpec
  import opened Words
  import opened SearchSpec
  import opened Examples

  // ---------------------------------------------------------------------
  // The corrected subtraction

  /** histogram_subtract with `maxfreq` recomputed over every slot. */
  function SubtractedExact(t: HistView, f: HistView): HistView
    requires Shaped(t) && Shaped(f)
  {
    var nf := Minus(t.bins, t.freq, BagOf(f));
    HistView(t.bins, nf, MaxOf(nf), Sum(nf))
  }

  /**
   * Subtracting a contained histogram the corrected way leaves a valid
   * histogram with an exact `maxfreq`, the same counts and total as the code
   * leaves, and a `maxfreq` never below the code's.
   */
  lemma ExactFacts(t: HistView, f: HistView)
    requires ValidView(t) && ValidView(f) && Contained(f, t)
    ensures Shaped(SubtractedExact(t, f))
    ensures ValidView(SubtractedExact(t, f)) && ExactMax(SubtractedExact(t, f))
    ensures BagOf(f) <= BagOf(t)
    ensures BagOf(SubtractedExact(t, f)) == BagOf(t) - BagOf(f)
    ensures SubtractedExact(t, f).ntotal == t.ntotal - f.ntotal
    ensures SubtractedExact(t, f).freq == Subtracted(t, f).freq
    ensures Subtracted(t, f).maxfreq <= SubtractedExact(t, f).maxfreq
  {
    SubtractedFacts(t, f);
  }

  /**
   * After the corrected subtraction, histogram_fits of a word is again
   * exactly multiset inclusion in what is left.
   */
  lemma FitsAfterExact(w: seq<char>, t: HistView, f: HistView)
    requires ValidView(t) && ValidView(f) && Contained(f, t)
    ensures Shaped(SubtractedExact(t, f))
    ensures Fits(Tally(w), SubtractedExact(t, f)) <==> multiset(w) <= BagOf(t) - BagOf(f)
  {
    ExactFacts(t, f);
    TallyFacts(w);
    FitsIffSubBag(Tally(w), SubtractedExact(t, f));
  }

  // ---------------------------------------------------------------------
  // The corrected search

  /** words_find with the corrected subtraction and without the early return. */
  function FindAll(ws: seq<seq<char>>, h: HistView, prev: Line, hl: nat, sat: bool): seq<Line>
    requires ValidView(h) && ExactMax(h) && NonEmpty(ws)
    decreases h.ntotal, 1, 0
  {
    if !sat && h.ntotal < hl then []
    else ScanAll(ws, 0, h, prev, hl, sat)
  }

  /** The loop of `FindAll` from word `i` on: every word is tried, in list order. */
  function ScanAll(ws: seq<seq<char>>, i: nat, h: HistView, prev: Line, hl: nat, sat: bool): seq<Line>
    requires ValidView(h) && ExactMax(h) && NonEmpty(ws) && i <= |ws|
    decreases h.ntotal, 0, |ws| - i
  {
    if i == |ws| then []
    else Tried(ws, i, h, prev, hl, sat) + ScanAll(ws, i + 1, h, prev, hl, sat)
  }

  /**
   * The lines of one turn of the corrected loop, for word `i`: nothing for a
   * word that is skipped, the line itself for a word that exhausts the
   * letters (when it is printed at all), else the lines of the branch below.
   */
  function Tried(ws: seq<seq<char>>, i: nat, h: HistView, prev: Line, hl: nat, sat: bool): seq<Line>
    requires ValidView(h) && ExactMax(h) && NonEmpty(ws) && i < |ws|
    decreases h.ntotal, 0, 0
  {
    var w := ws[i];
    if |w| > h.ntotal || !Fits(Tally(w), h) then []
    else
      TallyFacts(w);
      ExactFacts(h, Tally(w));
      var rest := SubtractedExact(h, Tally(w));
      if rest.ntotal == 0 then (if sat || |w| >= hl then [[w] + prev] else [])
      else FindAll(ws, rest, [w] + prev, hl, sat || |w| >= hl)
  }

  /** Every line of the corrected search completes its branch. */
  lemma {:induction false} FindAllSound(ws: seq<seq<char>>, h: HistView, prev: Line, hl: nat, sat: bool)
    requires ValidView(h) && ExactMax(h) && NonEmpty(ws)
    ensures AllComplete(FindAll(ws, h, prev, hl, sat), prev, h, ws, hl, sat)
    decreases h.ntotal, 1, 0
  {
    if sat || h.ntotal >= hl {
      ScanAllSound(ws, 0, h, prev, hl, sat);
    }
  }

  lemma {:induction false} ScanAllSound(ws: seq<seq<char>>, i: nat, h: HistView, prev: Line, hl: nat, sat: bool)
    requires ValidView(h) && ExactMax(h) && NonEmpty(ws) && i <= |ws|
    ensures AllComplete(ScanAll(ws, i, h, prev, hl, sat), prev, h, ws, hl, sat)
    decreases h.ntotal, 0, |ws| - i
  {
    if i < |ws| {
      ScanAllSound(ws, i + 1, h, prev, hl, sat);
      TriedSound(ws, i, h, prev, hl, sat);
    }
  }

  lemma {:induction false} TriedSound(ws: seq<seq<char>>, i: nat, h: HistView, prev: Line, hl: nat, sat: bool)
    requires ValidView(h) && ExactMax(h) && NonEmpty(ws) && i < |ws|
    ensures AllComplete(Tried(ws, i, h, prev, hl, sat), prev, h, ws, hl, sat)
    decreases h.ntotal, 0, 0
  {
    hide FindAll, ScanAll, Tally, SubtractedExact, Completes;
    var w := ws[i];
    if |w| <= h.ntotal && Fits(Tally(w), h) {
      TallyFacts(w);
      ExactFacts(h, Tally(w));
      var rest := SubtractedExact(h, Tally(w));
      if rest.ntotal == 0 {
        if sat || |w| >= hl {
          Exhausted(w, prev, h, rest, ws, hl, sat);
        }
      } else {
        FindAllSound(ws, rest, [w] + prev, hl, sat || |w| >= hl);
        var below := FindAll(ws, rest, [w] + prev, hl, sat || |w| >= hl);
        Recursed(below, [], w, prev, h, rest, ws, hl, sat);
        assert below + [] == below;
      }
    }
  }

  /** A line in the output from word `j` on is in the output from any earlier word. */
  lemma {:induction false} ScanAllGrows(ws: seq<seq<char>>, i: nat, j: nat, h: HistView, prev: Line, hl: nat, sat: bool, line: Line)
    requires ValidView(h) && ExactMax(h) && NonEmpty(ws) && i <= j <= |ws|
    requires line in ScanAll(ws, j, h, prev, hl, sat)
    ensures line in ScanAll(ws, i, h, prev, hl, sat)
    decreases j - i
  {
    hide Tried;
    if i < j {
      ScanAllGrows(ws, i + 1, j, h, prev, hl, sat, line);
    }
  }

  /** Every line that completes the branch is printed by the corrected search. */
  lemma {:induction false} FindAllComplete(ws: seq<seq<char>>, h: HistView, prev: Line, hl: nat, sat: bool, line: Line)
    requires ValidView(h) && ExactMax(h) && NonEmpty(ws)
    requires Completes(line, prev, h, ws, hl, sat)
    ensures line in FindAll(ws, h, prev, hl, sat)
    decreases h.ntotal, 1, 0
  {
    hide FindAll, ScanAll, Tried, Tally, SubtractedExact, Fits, Contained;
    var m := |line| - |prev|;
    var front := line[..m];
    assert front[m - 1] == line[m - 1];
    var j :| 0 <= j < |ws| && ws[j] == line[m - 1];
    if !sat {
      var k :| 0 <= k < |front| && |front[k]| >= hl;
      WordInLetters(front, k);
      BagSize(h.bins, h.freq);
    }
    NotPruned(ws, h, prev, hl, sat);
    ChosenFirst(ws, j, h, prev, hl, sat, line);
    ScanAllGrows(ws, 0, j, h, prev, hl, sat, line);
  }

  /** A branch that has its long word, or enough letters left for one, is searched word by word. */
  lemma NotPruned(ws: seq<seq<char>>, h: HistView, prev: Line, hl: nat, sat: bool)
    requires ValidView(h) && ExactMax(h) && NonEmpty(ws) && (sat || hl <= h.ntotal)
    ensures FindAll(ws, h, prev, hl, sat) == ScanAll(ws, 0, h, prev, hl, sat)
  {
  }

  /**
   * A completing line is printed at the word that was chosen first (the one
   * next to the breadcrumbs `prev`).
   */
  lemma {:induction false} ChosenFirst(ws: seq<seq<char>>, j: nat, h: HistView, prev: Line, hl: nat, sat: bool, line: Line)
    requires ValidView(h) && ExactMax(h) && NonEmpty(ws) && j < |ws|
    requires Completes(line, prev, h, ws, hl, sat) && ws[j] == line[|line| - |prev| - 1]
    ensures line in ScanAll(ws, j, h, prev, hl, sat)
    decreases h.ntotal, 0, 1
  {
    hide FindAll, Fits, Tally, SubtractedExact;
    var w := ws[j];
    Taken(line, prev, h, ws, hl, sat, w);
    TakenAway(h, w, Letters(line[..|line| - |prev| - 1]));
    var rest := SubtractedExact(h, Tally(w));
    if |line| - |prev| == 1 {
      Last(line, prev, h, ws, hl, sat);
    } else {
      Peeled(line, prev, h, rest, ws, hl, sat);
      FindAllComplete(ws, rest, [w] + prev, hl, sat || |w| >= hl, line);
    }
    assert line in Tried(ws, j, h, prev, hl, sat);
  }

  /**
   * The word of a completing line next to the breadcrumbs passes both skip
   * tests; its letters and those of the words before it make up `h`.
   */
  lemma Taken(line: Line, prev: Line, h: HistView, ws: seq<seq<char>>, hl: nat, sat: bool, w: seq<char>)
    requires ValidView(h) && ExactMax(h) && NonEmpty(ws) && Completes(line, prev, h, ws, hl, sat)
    requires w == line[|line| - |prev| - 1]
    ensures 0 < |w| <= h.ntotal && Fits(Tally(w), h) && ValidView(Tally(w)) && Contained(Tally(w), h)
    ensures BagOf(h) == Letters(line[..|line| - |prev| - 1]) + multiset(w)
  {
    var m := |line| - |prev|;
    var front' := line[..m - 1];
    assert line[..m] == front' + [w];
    assert Letters(line[..m]) == BagOf(h) && w in ws;
    assert |BagOf(h)| == h.ntotal by {
      BagSize(h.bins, h.freq);
    }
    TallyFacts(w);
    assert ValidView(Tally(w));
    hide *;
    LettersSnoc(front', w);
    assert |multiset(w)| <= |BagOf(h)|;
    FitsIffSubBag(Tally(w), h);
    ContainedComplete(Tally(w), h);
  }

  /** Taking a word's letters away the corrected way leaves those of the other words. */
  lemma TakenAway(h: HistView, w: seq<char>, others: multiset<char>)
    requires ValidView(h) && ValidView(Tally(w)) && Contained(Tally(w), h)
    requires BagOf(h) == others + multiset(w) && |w| > 0
    ensures ValidView(SubtractedExact(h, Tally(w))) && ExactMax(SubtractedExact(h, Tally(w)))
    ensures BagOf(SubtractedExact(h, Tally(w))) == others
    ensures SubtractedExact(h, Tally(w)).ntotal == |others| < h.ntotal
  {
    TallyFacts(w);
    ExactFacts(h, Tally(w));
    BagSize(h.bins, h.freq);
  }

  /** A completing line of one word before the breadcrumbs is that word, and long enough if need be. */
  lemma Last(line: Line, prev: Line, h: HistView, ws: seq<seq<char>>, hl: nat, sat: bool)
    requires Shaped(h) && Completes(line, prev, h, ws, hl, sat) && |line| - |prev| == 1
    ensures line == [line[0]] + prev && (sat || |line[0]| >= hl)
  {
    assert line == line[..1] + line[1..];
  }

  /**
   * A completing line of several words before the breadcrumbs, with its
   * first chosen word moved onto the breadcrumbs, completes the branch below.
   */
  lemma Peeled(line: Line, prev: Line, h: HistView, rest: HistView, ws: seq<seq<char>>, hl: nat, sat: bool)
    requires Shaped(h) && Shaped(rest) && NonEmpty(ws)
    requires Completes(line, prev, h, ws, hl, sat) && |line| - |prev| > 1
    requires BagOf(rest) == Letters(line[..|line| - |prev| - 1]) && rest.ntotal == |BagOf(rest)|
    ensures var w := line[|line| - |prev| - 1];
      rest.ntotal > 0 && Completes(line, [w] + prev, rest, ws, hl, sat || |w| >= hl)
  {
    hide BagOf, Tally, Fits, Contained, FindAll, ScanAll, Tried, Find, Scan;
    var m := |line| - |prev|;
    var w := line[m - 1];
    var front, front' := line[..m], line[..m - 1];
    assert front'[0] == line[0];
    WordInLetters(front', 0);
    assert line[|line| - |[w] + prev|..] == [w] + prev;
    assert line[..|line| - |[w] + prev|] == front';
    if !(sat || |w| >= hl) {
      var k :| 0 <= k < |front| && |front[k]| >= hl;
      assert front'[k] == front[k];
    }
  }

  /** The corrected search prints exactly the lines that complete the branch. */
  lemma FindAllExact(ws: seq<seq<char>>, h: HistView, prev: Line, hl: nat, sat: bool)
    requires ValidView(h) && ExactMax(h) && NonEmpty(ws)
    ensures forall line :: line in FindAll(ws, h, prev, hl, sat) <==> Completes(line, prev, h, ws, hl, sat)
  {
    FindAllSound(ws, h, prev, hl, sat);
    forall line | Completes(line, prev, h, ws, hl, sat)
      ensures line in FindAll(ws, h, prev, hl, sat)
    {
      FindAllComplete(ws, h, prev, hl, sat, line);
    }
  }

  // ---------------------------------------------------------------------
  // The code as written, on two small inputs

  /** Histograms of the examples, as histogram_create builds them. */
  const HistAb := HistView("ab", [1, 1], 1, 2)
  const HistAbbb := HistView("ab", [1, 3], 3, 4)
  const HistBbb := HistView("b", [3], 3, 3)

  /** What histogram_subtract leaves of `HistAbbb` after taking away "a", and the corrected value. */
  const AbbbLessA := HistView("ab", [0, 3], 0, 3)
  const AbbbLessAExact := HistView("ab", [0, 3], 3, 3)

  /** What histogram_subtract leaves of `HistAbbb` after taking away "bbb". */
  const AbbbLessBbb := HistView("ab", [1, 0], 1, 1)

  /** The histogram of "b", and what histogram_subtract leaves of `HistAb` after taking it away. */
  const HistB := HistView("b", [1], 1, 1)
  const AbLessB := HistView("ab", [1, 0], 1, 1)

  /** The two word lists of the examples. */
  const WordsAb: seq<seq<char>> := ["ab", "a", "b"]
  const WordsAbbb: seq<seq<char>> := ["a", "bbb"]

  lemma TallyAb()
    ensures Tally("ab") == HistAb
  {
    hide Tally;
    assert Bag("ab"[..1], [1, 1][..1]) == multiset{'a'};
    assert BagOf(HistAb) == multiset("ab");
    TallyIs("ab", HistAb);
  }

  lemma TallyAbbb()
    ensures Tally("abbb") == HistAbbb
  {
    hide Tally;
    assert Bag("ab"[..1], [1, 3][..1]) == multiset{'a'};
    assert BagOf(HistAbbb) == multiset("abbb");
    TallyIs("abbb", HistAbbb);
  }

  lemma TallyBbb()
    ensures Tally("bbb") == HistBbb
  {
    hide Tally;
    TallyIs("bbb", HistBbb);
  }

  /** A valid histogram holding no letters has a total of 0. */
  lemma NoneLeft(h: HistView)
    requires ValidView(h) && BagOf(h) == multiset{}
    ensures h.ntotal == 0
  {
    BagSize(h.bins, h.freq);
  }

  // The early return: word list "ab", "a", "b", letters of "ab".

  /** "ab" fits the histogram of "ab", and subtracting it succeeds and leaves nothing. */
  lemma AbGone()
    ensures Canonical(HistAb) && ValidView(HistAb) && ExactMax(HistAb)
    ensures Shaped(Tally("ab")) && |"ab"| <= HistAb.ntotal && |HistAb.bins| > 0 && Fits(Tally("ab"), HistAb)
    ensures var r := Subtraction(HistAb, Tally("ab")); r.ok && r.ntotal == 0
  {
    TallyAb();
    TallyFacts("ab");
    hide Tally, Subtraction, Walk, Fits, Contained, Bag, BagOf, Canonical, Sum, MaxOf, StrictlySorted;
    FitsIffSubBag(HistAb, HistAb);
    Chosen(HistAb, "ab");
    var r := Subtraction(HistAb, Tally("ab"));
    NoneLeft(HistView(HistAb.bins, r.freq, r.maxfreq, r.ntotal));
  }

  lemma WordsAbFacts()
    ensures WordsAb == ["ab", "a", "b"] && NonEmpty(WordsAb) && |WordsAb| == 3 && WordsAb[0] == "ab"
  {
  }

  lemma TallyB()
    ensures Tally("b") == HistB
  {
    hide Tally;
    TallyIs("b", HistB);
  }

  /** What the code leaves after taking "b" away from "ab": `maxfreq` stays exact. */
  lemma LeftOfAbB()
    ensures Subtracted(HistAb, HistB) == AbLessB
  {
    var t, f := HistAb, HistB;
    assert BagOf(f) == multiset{'b'};
    assert IndexOf(t.bins, 'b') == 1 by {
      assert t.bins[1..] == "b";
      assert IndexOf("b", 'b') == 0;
    }
    assert Reach(t.bins, f.bins) == 2;
    var nf := Minus(t.bins, t.freq, BagOf(f));
    assert nf == [1, 0];
    assert nf[..2] == nf;
    assert [1, 0][..1] == [1];
    assert MaxOf(nf) == 1;
    assert Sum(nf) == Sum([1]) + 0;
  }

  lemma AbLessBFacts()
    ensures HistAb.bins == "ab" && AbLessB == AbbbLessBbb && AbLessB.maxfreq == 1
  {
  }

  /** "b" fits "ab"; the code's subtraction succeeds and leaves `AbLessB`. */
  lemma BFitsAb()
    ensures Fits(HistB, HistAb) && Contained(HistB, HistAb)
    ensures var r := Subtraction(HistAb, HistB);
      r.ok && HistView(HistAb.bins, r.freq, r.maxfreq, r.ntotal) == AbLessB
  {
    assert BagOf(HistAb)['b'] == 1 by {
      assert Bag("ab"[..1], [1, 1][..1]) == multiset{'a'};
    }
    assert Contained(HistB, HistAb);
    SubtractionMeaning(HistAb, HistB);
    LeftOfAbB();
  }

  /**
   * The code's own subtraction does not stand in the way of "a b": "b" fits
   * the letters of "ab", taking it away leaves one "a" with an exact
   * `maxfreq`, and "a" then fits and exhausts the letters.
   */
  lemma CodeReachesAb()
    ensures var r := Subtraction(Tally("ab"), Tally("b"));
      var rest := HistView("ab", r.freq, r.maxfreq, r.ntotal);
      && Fits(Tally("b"), Tally("ab")) && r.ok && r.maxfreq == 1
      && Fits(Tally("a"), rest) && Subtraction(rest, Tally("a")).ok && Subtraction(rest, Tally("a")).ntotal == 0
  {
    hide *;
    TallyA();
    TallyB();
    TallyAb();
    BFitsAb();
    AFinishes();
    AbLessBFacts();
  }

  /** words_find past its pruning test is its loop from the first word. */
  lemma FindIsScan(ws: seq<seq<char>>, h: HistView, prev: Line, hl: nat, sat: bool)
    requires ValidView(h) && NonEmpty(ws) && (sat || h.ntotal >= hl)
    ensures Find(ws, h, prev, hl, sat) == Scan(ws, 0, h, prev, hl, sat)
  {
  }

  /** The first word "ab" exhausts the letters, and the search as written stops there. */
  lemma ExhaustedAtOnce()
    ensures ValidView(HistAb) && NonEmpty(WordsAb) && Find(WordsAb, HistAb, [], 1, false) == [["ab"]]
  {
    hide *;
    AbGone();
    WordsAbFacts();
    FindIsScan(WordsAb, HistAb, [], 1, false);
    ScanDone(WordsAb, 0, HistAb, [], 1, false);
    assert ["ab"] + [] == ["ab"];
  }

  /** A line of two listed words whose letters are those of `h` completes the search from `h`. */
  lemma TwoWords(u: seq<char>, v: seq<char>, h: HistView, ws: seq<seq<char>>)
    requires Shaped(h) && BagOf(h) == multiset(u) + multiset(v) && u in ws && v in ws && |u| >= 1
    ensures Completes([u, v], [], h, ws, 1, false)
  {
    var line: Line := [u, v];
    assert line[..|line|] == line && line[|line|..] == [];
    assert line[1..] == [v] && line[1..][1..] == [];
    assert Letters([v]) == multiset(v) + Letters([]);
    assert Letters(line) == multiset(u) + Letters([v]);
    assert |line[0]| >= 1;
  }

  /** The line "a b" completes the search over the letters of "ab". */
  lemma AbCompletes()
    ensures Shaped(HistAb) && Completes(["a", "b"], [], HistAb, WordsAb, 1, false)
  {
    hide *;
    TallyAb();
    TallyFacts("ab");
    AbGone();
    WordsAbFacts();
    assert multiset("a") + multiset("b") == multiset("ab");
    TwoWords("a", "b", HistAb, WordsAb);
  }

  /** The corrected search prints "a b" for the letters of "ab". */
  lemma TwoWordLine()
    ensures ValidView(HistAb) && ExactMax(HistAb) && NonEmpty(WordsAb) && ["a", "b"] in FindAll(WordsAb, HistAb, [], 1, false)
  {
    hide *;
    AbGone();
    WordsAbFacts();
    AbCompletes();
    FindAllComplete(WordsAb, HistAb, [], 1, false, ["a", "b"]);
  }

  /**
   * words_find as written returns once a word exhausts the letters: with the
   * word list "ab", "a", "b" and the letters of "ab" it prints the one line
   * "ab", never trying "a" and "b"; the corrected search also prints "a b".
   * Only the return loses that line: along "b" then "a" the code's own
   * subtraction keeps `maxfreq` exact, so both words fit and the letters run out.
   */
  lemma EarlyReturnLosesLines()
    ensures var ws, h := ["ab", "a", "b"], Tally("ab");
      && Canonical(h) && NonEmpty(ws)
      && Find(ws, h, [], 1, false) == [["ab"]]
      && ["a", "b"] in FindAll(ws, h, [], 1, false)
    ensures var r := Subtraction(Tally("ab"), Tally("b"));
      var rest := HistView("ab", r.freq, r.maxfreq, r.ntotal);
      && Fits(Tally("b"), Tally("ab")) && r.ok && r.maxfreq == 1
      && Fits(Tally("a"), rest) && Subtraction(rest, Tally("a")).ok && Subtraction(rest, Tally("a")).ntotal == 0
  {
    hide *;
    TallyAb();
    WordsAbFacts();
    AbGone();
    ExhaustedAtOnce();
    TwoWordLine();
    CodeReachesAb();
  }

  // The under-reported maxfreq: word list "a", "bbb", letters of "abbb".

  lemma WordsAbbbFacts()
    ensures WordsAbbb == ["a", "bbb"] && NonEmpty(WordsAbbb) && |WordsAbbb| == 2
    ensures WordsAbbb[0] == "a" && WordsAbbb[1] == "bbb"
  {
  }

  /** The histograms of the example as literals. */
  lemma AbbbValues()
    ensures Canonical(HistAbbb) && ValidView(HistAbbb) && ExactMax(HistAbbb) && HistAbbb.ntotal == 4 && |HistAbbb.bins| == 2
    ensures Shaped(HistAbbb) && ValidView(HistA) && ValidView(HistBbb) && Shaped(HistA) && Shaped(HistBbb)
    ensures ValidView(AbbbLessA) && ValidView(AbbbLessBbb) && AbbbLessA.ntotal == 3 && AbbbLessBbb.ntotal == 1
    ensures |AbbbLessBbb.bins| == 2 && HistA.ntotal == 1 && |HistA.bins| == 1
  {
  }

  /** What the code and the corrected subtraction leave after taking "a" away from "abbb". */
  lemma LeftOfAbbb()
    ensures Subtracted(HistAbbb, HistA) == AbbbLessA
    ensures SubtractedExact(HistAbbb, HistA) == AbbbLessAExact
  {
    var t, f := HistAbbb, HistA;
    assert BagOf(f) == multiset{'a'};
    assert Reach(t.bins, f.bins) == 1;
    var nf := Minus(t.bins, t.freq, BagOf(f));
    assert nf == [0, 3];
    assert nf[..1] == [0];
    assert [0, 3][..1] == [0];
  }

  /** What the code leaves after taking "bbb" away from "abbb". */
  lemma LeftOfAbbbB()
    ensures Subtracted(HistAbbb, HistBbb) == AbbbLessBbb
  {
    var t, f := HistAbbb, HistBbb;
    assert BagOf(f) == multiset{'b', 'b', 'b'};
    assert IndexOf(t.bins, 'b') == 1 by {
      assert t.bins[1..] == "b";
      assert IndexOf("b", 'b') == 0;
    }
    assert Reach(t.bins, f.bins) == 2;
    var nf := Minus(t.bins, t.freq, BagOf(f));
    assert nf == [1, 0];
    assert nf[..2] == nf;
    assert [1, 0][..1] == [1];
    assert MaxOf(nf) == 1;
    assert Sum(nf) == Sum([1]) + 0;
  }

  /** "a" fits "abbb"; the code's subtraction succeeds and leaves `AbbbLessA`. */
  lemma AFitsAbbb()
    ensures Fits(HistA, HistAbbb) && Contained(HistA, HistAbbb)
    ensures var r := Subtraction(HistAbbb, HistA);
      r.ok && HistView(HistAbbb.bins, r.freq, r.maxfreq, r.ntotal) == AbbbLessA
  {
    assert BagOf(HistAbbb)['a'] == 1 by {
      assert Bag("ab"[..1], [1, 3][..1]) == multiset{'a'};
    }
    assert Contained(HistA, HistAbbb);
    SubtractionMeaning(HistAbbb, HistA);
    LeftOfAbbb();
  }

  /** "bbb" fits "abbb"; the code's subtraction succeeds and leaves `AbbbLessBbb`. */
  lemma BbbFitsAbbb()
    ensures Fits(HistBbb, HistAbbb) && Contained(HistBbb, HistAbbb)
    ensures var r := Subtraction(HistAbbb, HistBbb);
      r.ok && HistView(HistAbbb.bins, r.freq, r.maxfreq, r.ntotal) == AbbbLessBbb
  {
    assert BagOf(HistAbbb)['b'] == 3 by {
      assert Bag("ab"[..1], [1, 3][..1]) == multiset{'a'};
    }
    assert Contained(HistBbb, HistAbbb);
    SubtractionMeaning(HistAbbb, HistBbb);
    LeftOfAbbbB();
  }

  /**
   * The three b's are left after the code takes "a" away, but neither "a"
   * nor "bbb" fits any more; after the corrected subtraction "bbb" fits.
   */
  lemma NothingFitsLeft()
    ensures multiset("bbb") <= BagOf(AbbbLessA)
    ensures !Fits(HistA, AbbbLessA) && !Fits(HistBbb, AbbbLessA)
    ensures Fits(HistBbb, AbbbLessAExact)
  {
    assert BagOf(AbbbLessA) == multiset("bbb") by {
      assert Bag("ab"[..1], [0, 3][..1]) == multiset{};
    }
    assert BagOf(AbbbLessAExact)['b'] == 3;
    assert Contained(HistBbb, AbbbLessAExact);
  }

  /** After "bbb", one "a" is left, and "a" fits it. */
  lemma ALeft()
    ensures BagOf(AbbbLessBbb) == multiset{'a'}
    ensures Fits(HistA, AbbbLessBbb) && Contained(HistA, AbbbLessBbb)
  {
    assert Bag("ab"[..1], [1, 0][..1]) == multiset{'a'};
  }

  /** After "bbb", the last "a" fits and exhausts the letters. */
  lemma AFinishes()
    ensures Fits(HistA, AbbbLessBbb)
    ensures var r := Subtraction(AbbbLessBbb, HistA); r.ok && r.ntotal == 0
  {
    hide *;
    AbbbValues();
    ALeft();
    SubtractionMeaning(AbbbLessBbb, HistA);
    SubtractedFacts(AbbbLessBbb, HistA);
  }

  /**
   * histogram_subtract as written under-reports `maxfreq`: taking "a" away
   * from the histogram of "abbb" leaves the three b's with a cached
   * `maxfreq` of 0, so histogram_fits rejects "bbb" although its letters are
   * all there; after the corrected subtraction it fits.
   */
  lemma UnderReported()
    ensures var t, f := Tally("abbb"), Tally("a");
      && Subtraction(t, f).ok
      && multiset("bbb") <= BagOf(Subtracted(t, f))
      && !Fits(Tally("bbb"), Subtracted(t, f))
      && Fits(Tally("bbb"), SubtractedExact(t, f))
  {
    hide *;
    TallyAbbb();
    TallyA();
    TallyBbb();
    AbbbValues();
    AFitsAbbb();
    LeftOfAbbb();
    NothingFitsLeft();
  }

  /** After the code takes "a" away, the branch prints nothing. */
  lemma LostBranch()
    ensures ValidView(AbbbLessA) && NonEmpty(WordsAbbb) && Find(WordsAbbb, AbbbLessA, ["a"], 1, true) == []
  {
    hide *;
    TallyA();
    TallyBbb();
    AbbbValues();
    WordsAbbbFacts();
    NothingFitsLeft();
    FindIsScan(WordsAbbb, AbbbLessA, ["a"], 1, true);
    ScanSkip(WordsAbbb, 0, AbbbLessA, ["a"], 1, true);
    ScanSkip(WordsAbbb, 1, AbbbLessA, ["a"], 1, true);
    ScanEnd(WordsAbbb, AbbbLessA, ["a"], 1, true);
  }

  /** After the code takes "bbb" away, the branch prints "a bbb". */
  lemma FoundBranch()
    ensures ValidView(AbbbLessBbb) && NonEmpty(WordsAbbb) && Find(WordsAbbb, AbbbLessBbb, ["bbb"], 1, true) == [["a", "bbb"]]
  {
    hide *;
    TallyA();
    AbbbValues();
    WordsAbbbFacts();
    AFinishes();
    FindIsScan(WordsAbbb, AbbbLessBbb, ["bbb"], 1, true);
    ScanDone(WordsAbbb, 0, AbbbLessBbb, ["bbb"], 1, true);
    assert ["a"] + ["bbb"] == ["a", "bbb"];
  }

  /** The search as written over "abbb" prints "a bbb" only. */
  lemma AsWrittenAbbb()
    ensures ValidView(HistAbbb) && NonEmpty(WordsAbbb) && Find(WordsAbbb, HistAbbb, [], 1, false) == [["a", "bbb"]]
  {
    hide *;
    TallyA();
    TallyBbb();
    AbbbValues();
    WordsAbbbFacts();
    AFitsAbbb();
    BbbFitsAbbb();
    LostBranch();
    FoundBranch();
    FindIsScan(WordsAbbb, HistAbbb, [], 1, false);
    ScanDeeper(WordsAbbb, 0, HistAbbb, [], 1, false);
    ScanDeeper(WordsAbbb, 1, HistAbbb, [], 1, false);
    ScanEnd(WordsAbbb, HistAbbb, [], 1, false);
    assert ["a"] + [] == ["a"] && ["bbb"] + [] == ["bbb"];
  }

  /** The line "bbb a" completes the search over the letters of "abbb". */
  lemma BbbACompletes()
    ensures Shaped(HistAbbb) && Completes(["bbb", "a"], [], HistAbbb, WordsAbbb, 1, false)
  {
    hide *;
    TallyAbbb();
    TallyFacts("abbb");
    AbbbValues();
    WordsAbbbFacts();
    assert multiset("bbb") + multiset("a") == multiset("abbb");
    TwoWords("bbb", "a", HistAbbb, WordsAbbb);
  }

  /**
   * Through the under-reported `maxfreq`, words_find as written loses a
   * line: with the word list "a", "bbb" and the letters of "abbb" it prints
   * "a bbb" but not "bbb a", which the corrected search prints.
   */
  lemma MaxfreqLosesLine()
    ensures var ws, h := ["a", "bbb"], Tally("abbb");
      && Canonical(h) && NonEmpty(ws)
      && Find(ws, h, [], 1, false) == [["a", "bbb"]]
      && ["bbb", "a"] in FindAll(ws, h, [], 1, false)
  {
    hide *;
    TallyAbbb();
    AbbbValues();
    WordsAbbbFacts();
    AsWrittenAbbb();
    BbbACompletes();
    FindAllComplete(WordsAbbb, HistAbbb, [], 1, false, ["bbb", "a"]);
  }
}
