/**
 * words_find as the recursive method of src/main.c and anagram.c, over the
 * word list of a `WordStore`, and the part of `main` that builds the input
 * histogram, reads the dictionary and decides whether to search.
 *
 * The printed lines are returned as a sequence instead of being written to
 * standard output.
 */
module Search {
  import opened HistogramSpec
  import opened SubtractSpec
  import opened Histograms
  import opened Words
  import opened SearchSpec

  /**
   * words_find(h, prev, len_satisfied): the lines printed by this call, in
   * the order printed.  `h` is only read: the method modifies nothing that
   * existed before it was called.  The branch is abandoned when it still
   * lacks a word of length `hl` and fewer letters than `hl` are left.
   */
  method WordsFind(store: WordStore, h: Histogram, prev: Line, hl: nat, sat: bool) returns (out: seq<Line>)
    requires store.Valid() && h.Valid() && NonEmpty(store.texts)
    ensures out == Find(store.texts, h.View(), prev, hl, sat)
    decreases h.ntotal, 2
  {
    if !sat && h.ntotal < hl {
      return [];
    }
    out := TryAll(store, h, prev, hl, sat);
  }

  /** The loop of words_find over the whole word list, in list order. */
  method TryAll(store: WordStore, h: Histogram, prev: Line, hl: nat, sat: bool) returns (out: seq<Line>)
    requires store.Valid() && h.Valid() && NonEmpty(store.texts)
    ensures out == Scan(store.texts, 0, h.View(), prev, hl, sat)
    decreases h.ntotal, 1
  {
    hide Scan, Find, Tally, Subtraction, Fits, Listed;
    ghost var ws, hv := store.texts, h.View();
    ghost var all := Scan(ws, 0, hv, prev, hl, sat);
    out := [];
    var i := 0;
    while i < |store.words|
      invariant i <= |ws| && all == out + Scan(ws, i, hv, prev, hl, sat)
    {
      var lines, stop := Try(store, h, i, prev, hl, sat, ws, hv);
      Resume(ws, i, hv, prev, hl, sat, all, out, lines, stop);
      out := out + lines;
      if stop {
        return;
      }
      i := i + 1;
    }
    ScanEnd(ws, hv, prev, hl, sat);
  }

  /** The loop invariant of `WordsFind` across one turn of `Try`. */
  lemma Resume(ws: seq<seq<char>>, i: nat, hv: HistView, prev: Line, hl: nat, sat: bool,
               all: seq<Line>, out: seq<Line>, lines: seq<Line>, stop: bool)
    requires ValidView(hv) && NonEmpty(ws) && i < |ws|
    requires all == out + Scan(ws, i, hv, prev, hl, sat)
    requires stop ==> Scan(ws, i, hv, prev, hl, sat) == lines
    requires !stop ==> Scan(ws, i, hv, prev, hl, sat) == lines + Scan(ws, i + 1, hv, prev, hl, sat)
    ensures stop ==> all == out + lines
    ensures !stop ==> all == (out + lines) + Scan(ws, i + 1, hv, prev, hl, sat)
  {
  }

  /**
   * One turn of the loop of words_find, for word `i` of the list: skipped
   * (nothing printed, go on), or subtracted from a fresh copy of `h`, then
   * either the line printed on exhaustion and the call over (`stop`), or
   * the lines of the recursive call on the copy.  `stop` is also set when
   * the subtraction fails.
   */
  method Try(store: WordStore, h: Histogram, i: nat, prev: Line, hl: nat, sat: bool,
             ghost ws: seq<seq<char>>, ghost hv: HistView) returns (lines: seq<Line>, stop: bool)
    requires store.Valid() && h.Valid() && ws == store.texts && hv == h.View() && NonEmpty(ws) && i < |ws|
    ensures stop ==> Scan(ws, i, hv, prev, hl, sat) == lines
    ensures !stop ==> Scan(ws, i, hv, prev, hl, sat) == lines + Scan(ws, i + 1, hv, prev, hl, sat)
    decreases h.ntotal, 0
  {
    hide Scan, Find, Subtraction, Fits;
    var w := store.words[i];
    assert Listed(w) && w.text == ws[i];
    lines, stop := [], false;
    var fits := false;
    if |w.text| <= h.ntotal {
      fits := w.hist.Fits(h);
    }
    if !fits {
      ScanSkip(ws, i, hv, prev, hl, sat);
    } else {
      var ok, copy := Branch(h, w);
      stop := !ok || copy.ntotal == 0;
      if !stop {
        lines := WordsFind(store, copy, [w.text] + prev, hl, sat || |w.text| >= hl);
        ScanDeeper(ws, i, hv, prev, hl, sat);
      } else {
        if ok && (sat || |w.text| >= hl) {
          lines := [[w.text] + prev];
        }
        ScanDone(ws, i, hv, prev, hl, sat);
      }
    }
  }

  /**
   * histogram_copy of `h`, then histogram_subtract of the word's histogram
   * from the copy; `h` and everything else that existed before is left
   * as it was.
   */
  method Branch(h: Histogram, w: Word) returns (ok: bool, copy: Histogram)
    requires h.Valid() && Listed(w) && |w.text| <= h.ntotal && Fits(Tally(w.text), h.View())
    ensures fresh(copy) && copy.Valid()
    ensures var r := Subtraction(h.View(), Tally(w.text));
      ok == r.ok && r.ntotal >= 0 && copy.View() == HistView(h.View().bins, r.freq, r.maxfreq, r.ntotal)
    ensures 0 <= copy.ntotal < h.ntotal
  {
    Chosen(h.View(), w.text);
    copy := new Histogram.Copy(h);
    ok := copy.Subtract(w.hist);
  }

  /**
   * The search `main` runs for the input string `input`, the dictionary
   * lines `lines` and the options minlength and haslength: words_find over
   * the words parse_dictfile keeps, from the input's histogram, with no
   * breadcrumbs and the length requirement not yet met.
   */
  function Anagrams(input: seq<char>, lines: seq<seq<char>>, minlength: nat, haslength: nat): seq<Line> {
    var ws := Dict(lines, Tally(input), minlength);
    TallyFacts(input);
    DictSound(lines, input, minlength);
    Find(ws, Tally(input), [], haslength, false)
  }

  /**
   * main from the input string on: histogram_create of the input,
   * parse_dictfile, and words_find only when some word was kept and the
   * longest one reaches haslength.
   */
  method Run(input: seq<char>, lines: seq<seq<char>>, minlength: nat, haslength: nat) returns (out: seq<Line>)
    ensures out == Anagrams(input, lines, minlength, haslength)
  {
    var inhist := new Histogram.Create(input);
    ghost var ws := Dict(lines, inhist.View(), minlength);
    var store := new WordStore();
    var maxFoundLen, nwords := ParseDictfile(store, lines, inhist, minlength);
    assert store.texts == ws && nwords == |ws| && maxFoundLen == MaxLen(ws);
    TallyFacts(input);
    DictSound(lines, input, minlength);
    if maxFoundLen >= haslength && nwords > 0 {
      out := WordsFind(store, inhist, [], haslength, false);
    } else {
      out := [];
      GateHarmless(input, lines, minlength, haslength);
    }
  }

  /**
   * The test in `main` only skips searches that would print nothing: a line
   * needs a word of the list of length at least haslength.
   */
  lemma GateHarmless(input: seq<char>, lines: seq<seq<char>>, minlength: nat, haslength: nat)
    requires MaxLen(Dict(lines, Tally(input), minlength)) < haslength || |Dict(lines, Tally(input), minlength)| == 0
    ensures Anagrams(input, lines, minlength, haslength) == []
  {
    var out := Anagrams(input, lines, minlength, haslength);
    if out != [] {
      LineSound(input, lines, minlength, haslength, out[0]);
      assert false;
    }
  }

  /**
   * Every line `main` prints is an anagram of the input: its words' letters
   * are exactly the input's, each word is a dictionary line at least
   * minlength long, and one word is at least haslength long.
   */
  lemma RunSound(input: seq<char>, lines: seq<seq<char>>, minlength: nat, haslength: nat)
    ensures forall line :: line in Anagrams(input, lines, minlength, haslength) ==>
      && Letters(line) == multiset(input)
      && (forall k :: 0 <= k < |line| ==> line[k] in lines && |line[k]| >= minlength)
      && Reaches(line, haslength)
  {
    forall line | line in Anagrams(input, lines, minlength, haslength)
      ensures Letters(line) == multiset(input)
      ensures forall k :: 0 <= k < |line| ==> line[k] in lines && |line[k]| >= minlength
      ensures Reaches(line, haslength)
    {
      LineSound(input, lines, minlength, haslength, line);
    }
  }

  /** One line of `Anagrams`: what `RunSound` states, and its words are words of the list. */
  lemma LineSound(input: seq<char>, lines: seq<seq<char>>, minlength: nat, haslength: nat, line: Line)
    requires line in Anagrams(input, lines, minlength, haslength)
    ensures Letters(line) == multiset(input)
    ensures forall k :: 0 <= k < |line| ==> line[k] in lines && |line[k]| >= minlength
    ensures forall k :: 0 <= k < |line| ==>
      line[k] in Dict(lines, Tally(input), minlength) && |line[k]| <= MaxLen(Dict(lines, Tally(input), minlength))
    ensures Reaches(line, haslength)
  {
    var ws := Dict(lines, Tally(input), minlength);
    TallyFacts(input);
    DictSound(lines, input, minlength);
    FindSound(ws, Tally(input), [], haslength, false);
    assert Completes(line, [], Tally(input), ws, haslength, false);
    assert line[..|line|] == line;
  }
}
