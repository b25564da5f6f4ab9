/**
 * The word list of src/main.c and anagram.c: word_add, which filters a
 * dictionary word against the input histogram and appends it at the tail of
 * the global list, and the per-line acceptance rule of parse_dictfile.
 *
 * The global `word_head`/`word_tail` list is the field `words` of a
 * `WordStore` object; appending at the tail is `words + [w]`.
 */
module Words {
  import opened HistogramSpec
  import opened Histograms

  /** A listed word: its text and the histogram word_add built for it. */
  datatype Word = Word(text: seq<char>, hist: Histogram)

  /**
   * The tests word_add applies, in its order: the word is not empty, not
   * longer than the input, its largest count is not above the input's
   * (the cheap check), and its histogram fits the input's.
   */
  predicate Accepted(word: seq<char>, iv: HistView)
    requires Shaped(iv)
  {
    && |word| != 0
    && |word| <= iv.ntotal
    && Tally(word).maxfreq <= iv.maxfreq
    && Fits(Tally(word), iv)
  }

  /**
   * Against the histogram of an input string, word_add accepts exactly the
   * non-empty words whose letters the input holds; the length test and the
   * cheap maxfreq test never reject such a word, so `Fits` alone decides.
   */
  lemma AcceptedIff(word: seq<char>, input: seq<char>)
    ensures Accepted(word, Tally(input)) <==> |word| != 0 && multiset(word) <= multiset(input)
    ensures Accepted(word, Tally(input)) <==> |word| != 0 && Fits(Tally(word), Tally(input))
  {
    hide *;
    TallyFits(word, input);
    AcceptedUnfold(word, Tally(input));
    if multiset(word) <= multiset(input) {
      assert |multiset(word)| <= |multiset(input)| by {
        assert multiset(input) == multiset(word) + (multiset(input) - multiset(word));
      }
    }
  }

  /** The tests of `Accepted`, one by one. */
  lemma AcceptedUnfold(word: seq<char>, iv: HistView)
    requires Shaped(iv)
    ensures Accepted(word, iv) <==>
      |word| != 0 && |word| <= iv.ntotal && Tally(word).maxfreq <= iv.maxfreq && Fits(Tally(word), iv)
  {
  }

  /** Every character of `line` is one of `bins` (the bsearch test of parse_dictfile). */
  predicate InBins(line: seq<char>, bins: seq<char>) {
    forall i :: 0 <= i < |line| ==> line[i] in bins
  }

  /**
   * parse_dictfile's rule for one line: all of its characters occur in the
   * input, it is at least `minlength` long, and word_add accepts it.
   */
  predicate LineAccepted(line: seq<char>, iv: HistView, minlength: nat)
    requires Shaped(iv)
  {
    InBins(line, iv.bins) && |line| >= minlength && Accepted(line, iv)
  }

  /** The words parse_dictfile adds, in file order, for the dictionary lines `lines`. */
  function Dict(lines: seq<seq<char>>, iv: HistView, minlength: nat): seq<seq<char>>
    requires Shaped(iv)
  {
    if |lines| == 0 then []
    else
      var n := |lines| - 1;
      Dict(lines[..n], iv, minlength) + (if LineAccepted(lines[n], iv, minlength) then [lines[n]] else [])
  }

  /** One more dictionary line: `Dict` of the longer prefix. */
  lemma DictNext(lines: seq<seq<char>>, i: nat, iv: HistView, minlength: nat)
    requires i < |lines| && Shaped(iv)
    ensures Dict(lines[..i + 1], iv, minlength)
         == Dict(lines[..i], iv, minlength) + (if LineAccepted(lines[i], iv, minlength) then [lines[i]] else [])
  {
    assert lines[..i + 1][..i] == lines[..i];
  }

  /** The largest length in `ws`, 0 when there is none (the final `max_found_len`). */
  function MaxLen(ws: seq<seq<char>>): nat {
    if |ws| == 0 then 0 else Max(MaxLen(ws[..|ws| - 1]), |ws[|ws| - 1]|)
  }

  /**
   * The bsearch test is only a shortcut: against the histogram of the input
   * a line is accepted exactly when it is non-empty, at least `minlength`
   * long and made of letters the input holds.
   */
  lemma LineAcceptedIff(line: seq<char>, input: seq<char>, minlength: nat)
    ensures LineAccepted(line, Tally(input), minlength)
        <==> |line| != 0 && |line| >= minlength && multiset(line) <= multiset(input)
  {
    AcceptedIff(line, input);
    TallyFacts(input);
    if multiset(line) <= multiset(input) {
      forall i | 0 <= i < |line| ensures line[i] in Tally(input).bins {
        assert line[i] in multiset(line);
      }
    }
  }

  /**
   * Every word parse_dictfile keeps is one of the dictionary lines, is at
   * least `minlength` long, is not empty, and is made of letters of the
   * input; `max_found_len` bounds all of their lengths.
   */
  lemma {:induction false} DictSound(lines: seq<seq<char>>, input: seq<char>, minlength: nat)
    ensures forall w :: w in Dict(lines, Tally(input), minlength) ==>
      && w in lines && |w| != 0 && |w| >= minlength && multiset(w) <= multiset(input)
      && |w| <= MaxLen(Dict(lines, Tally(input), minlength))
  {
    var iv := Tally(input);
    if |lines| > 0 {
      var n := |lines| - 1;
      var d := Dict(lines[..n], iv, minlength);
      var e := if LineAccepted(lines[n], iv, minlength) then [lines[n]] else [];
      var all := Dict(lines, iv, minlength);
      assert all == d + e;
      DictSound(lines[..n], input, minlength);
      MaxLenAppend(d, e);
      forall w | w in all
        ensures w in lines && |w| != 0 && |w| >= minlength && multiset(w) <= multiset(input)
        ensures |w| <= MaxLen(all)
      {
        if w in d {
          assert w in lines[..n];
        } else {
          assert w == lines[n];
          LineAcceptedIff(lines[n], input, minlength);
        }
      }
    }
  }

  /** `MaxLen` of a list extended by at most one word. */
  lemma MaxLenAppend(d: seq<seq<char>>, e: seq<seq<char>>)
    requires |e| <= 1
    ensures MaxLen(d + e) == if |e| == 0 then MaxLen(d) else Max(MaxLen(d), |e[0]|)
  {
    if |e| == 1 {
      assert (d + e)[..|d|] == d;
    } else {
      assert d + e == d;
    }
  }

  /**
   * What word_add stores: a non-empty word with a valid histogram equal to
   * the histogram of its text, built by histogram_create.
   */
  ghost predicate Listed(w: Word)
    reads w.hist, w.hist.bins, w.hist.freq
  {
    |w.text| != 0 && w.hist.Valid() && w.hist.View() == Tally(w.text)
  }

  /**
   * The tests of word_add before the list is touched: the length checks, then
   * histogram_create, the maxfreq check and histogram_fits.  The new
   * histogram is returned when all of them pass, `null` (the early
   * `return`) otherwise.
   */
  method Admit(word: seq<char>, inhist: Histogram) returns (h: Histogram?)
    requires inhist.Valid()
    ensures (h != null) == Accepted(word, inhist.View())
    ensures h != null ==> Listed(Word(word, h)) && fresh(h) && fresh(h.bins) && fresh(h.freq)
  {
    if |word| == 0 || |word| > inhist.ntotal {
      return null;
    }
    h := new Histogram.Create(word);
    if h.maxfreq > inhist.maxfreq {
      return null;
    }
    var fits := h.Fits(inhist);
    if !fits {
      return null;
    }
  }

  /**
   * The word list.  `words` is the list from `word_head` to `word_tail`;
   * `Repr` holds the histograms of the listed words and their arrays.
   */
  class WordStore {
    var words: seq<Word>
    /** The texts of `words`, in list order. */
    ghost var texts: seq<seq<char>>
    ghost var Repr: set<object>

    /** Every listed word is `Listed`, its histogram and arrays in `Repr`. */
    ghost predicate Valid()
      reads this, Repr
    {
      && |texts| == |words|
      && forall i :: 0 <= i < |words| ==>
        && texts[i] == words[i].text
        && words[i].hist in Repr && words[i].hist.bins in Repr && words[i].hist.freq in Repr
        && Listed(words[i])
    }

    /** The empty list (`word_head == NULL`). */
    constructor ()
      ensures Valid() && words == [] && texts == [] && Repr == {}
    {
      words := [];
      texts := [];
      Repr := {};
    }

    /**
     * word_add: the tests of `Accepted`, in the code's order, then the new
     * word at the tail of the list.
     */
    method Add(word: seq<char>, inhist: Histogram) returns (ok: bool)
      requires Valid() && inhist.Valid()
      modifies this
      ensures Valid()
      ensures ok == Accepted(word, inhist.View())
      ensures texts == old(texts) + (if ok then [word] else [])
    {
      var h := Admit(word, inhist);
      ok := h != null;
      if ok {
        Push(Word(word, h));
      }
    }

    /** The tail insertion of word_add: `word_tail->next = w`, or `word_head = w` on an empty list. */
    method Push(w: Word)
      requires Valid() && Listed(w)
      modifies this
      ensures Valid() && words == old(words) + [w] && texts == old(texts) + [w.text]
    {
      ghost var ws := words;
      words := words + [w];
      texts := texts + [w.text];
      Repr := Repr + {w.hist, w.hist.bins, w.hist.freq};
      forall i | 0 <= i < |words|
        ensures texts[i] == words[i].text
        ensures words[i].hist in Repr && words[i].hist.bins in Repr && words[i].hist.freq in Repr && Listed(words[i])
      {
        if i < |ws| {
          assert words[i] == ws[i];
        }
      }
    }
  }

  /**
   * The character loop of parse_dictfile for one line: `len` counts the
   * characters found in the input's bins until one is not, which sets
   * `skip_word`.
   */
  method Measure(line: seq<char>, inhist: Histogram) returns (len: nat, skip: bool)
    requires inhist.Valid()
    ensures skip <==> !InBins(line, inhist.View().bins)
    ensures !skip ==> len == |line|
  {
    len, skip := 0, false;
    for c := 0 to |line|
      invariant skip <==> !InBins(line[..c], inhist.View().bins)
      invariant !skip ==> len == c
    {
      if skip {
        continue;
      }
      if line[c] in inhist.bins[..inhist.len] {
        len := len + 1;
      } else {
        skip := true;
      }
    }
    assert line[..|line|] == line;
  }

  /**
   * One line of parse_dictfile: the character loop, the `minlength` test and
   * word_add.  `ok` says the line was added; `len` is its length then.
   */
  method AddLine(store: WordStore, line: seq<char>, inhist: Histogram, minlength: nat) returns (ok: bool, len: nat)
    requires store.Valid() && inhist.Valid()
    modifies store
    ensures store.Valid()
    ensures ok == LineAccepted(line, inhist.View(), minlength)
    ensures ok ==> len == |line|
    ensures store.texts == old(store.texts) + (if ok then [line] else [])
  {
    var skip;
    len, skip := Measure(line, inhist);
    ok := false;
    if !skip && len >= minlength {
      ok := store.Add(line, inhist);
    }
  }

  /**
   * The per-line part of parse_dictfile over the dictionary lines `lines`
   * (each without its newline): a line's characters are counted while they
   * are in the input's bins, a character that is not sets `skip_word`, and a
   * line not skipped and at least `minlength` long goes to word_add.
   * `maxFoundLen` and `nwords` follow the words word_add accepts.
   */
  method ParseDictfile(store: WordStore, lines: seq<seq<char>>, inhist: Histogram, minlength: nat)
    returns (maxFoundLen: nat, nwords: nat)
    requires store.Valid() && inhist.Valid()
    modifies store
    ensures store.Valid()
    ensures store.texts == old(store.texts) + Dict(lines, inhist.View(), minlength)
    ensures nwords == |Dict(lines, inhist.View(), minlength)|
    ensures maxFoundLen == MaxLen(Dict(lines, inhist.View(), minlength))
  {
    ghost var iv := inhist.View();
    assert Dict(lines[..0], iv, minlength) == [] && MaxLen([]) == 0;
    hide Dict, MaxLen, LineAccepted, Tally, Fits;
    maxFoundLen, nwords := 0, 0;
    var i := 0;
    while i < |lines|
      invariant i <= |lines| && store.Valid()
      invariant store.texts == old(store.texts) + Dict(lines[..i], iv, minlength)
      invariant nwords == |Dict(lines[..i], iv, minlength)|
      invariant maxFoundLen == MaxLen(Dict(lines[..i], iv, minlength))
    {
      var ok, len := AddLine(store, lines[i], inhist, minlength);
      DictNext(lines, i, iv, minlength);
      ghost var d, e := Dict(lines[..i], iv, minlength), if ok then [lines[i]] else [];
      MaxLenAppend(d, e);
      assert store.texts == old(store.texts) + d + e;
      if ok {
        if len > maxFoundLen {
          maxFoundLen := len;
        }
        nwords := nwords + 1;
      }
      i := i + 1;
    }
    assert lines[..i] == lines;
  }
}
