/**
 * The merge walk of histogram_subtract as a function of the two
 * histograms, and what its outcome means.
 *
 * `Walk` takes the steps of the C loop one at a time: the target cursor `t`
 * passes smaller bins (folding their counts into `maxfreq`), stops on a
 * larger one or at the end (failure), and on a match with no underflow
 * decrements the slot and moves on to the next slot `f` of the subtrahend.
 * The methods of `Histograms` are proved to compute it; the lemmas here
 * state what its result is in terms of the two multisets.
 */
module SubtractSpec {
  import opened HistogramSpec

  /**
   * Where a walk ends: whether it succeeded, how many subtrahend slots it
   * took away (`done`), the target's counts, the two statistics, and how
   * many target slots went into `maxfreq` (`seen`).
   */
  datatype Walked = Walked(ok: bool, done: nat, freq: seq<nat>, maxfreq: nat, ntotal: int, seen: nat)

  /**
   * The loop of histogram_subtract from the state: subtrahend slot `f`,
   * target cursor `t`, target counts `cur`, the running `maxfreq` `mf`, the
   * running `ntotal` `nt`, and `seen` target slots folded into `mf`.
   */
  function Walk(hb: seq<char>, fb: seq<char>, ff: seq<nat>,
                f: nat, t: nat, cur: seq<nat>, mf: nat, nt: int, seen: nat): (r: Walked)
    requires |cur| == |hb| && |ff| == |fb| && f <= |fb| && (f < |fb| ==> t < |hb|)
    ensures |r.freq| == |cur| && f <= r.done <= |fb|
    ensures r.ok ==> r.done == |fb|
    decreases |fb| - f, |hb| - t
  {
    if f == |fb| then Walked(true, f, cur, mf, nt, seen)
    else if hb[t] < fb[f] then
      var m := Max(mf, cur[t]);
      if t + 1 == |hb| then Walked(false, f, cur, m, nt, t + 1)
      else Walk(hb, fb, ff, f, t + 1, cur, m, nt, t + 1)
    else if hb[t] != fb[f] || ff[f] > cur[t] then Walked(false, f, cur, mf, nt, seen)
    else
      var c := cur[t := cur[t] - ff[f]];
      Walk(hb, fb, ff, f + 1, t, c, Max(mf, c[t]), nt - ff[f], t + 1)
  }

  /** histogram_subtract(target, from) from its start: `maxfreq` reset to 0, both cursors at slot 0. */
  function Subtraction(target: HistView, from: HistView): Walked
    requires Shaped(target) && Shaped(from) && (|from.bins| > 0 ==> |target.bins| > 0)
  {
    Walk(target.bins, from.bins, from.freq, 0, 0, target.freq, 0, target.ntotal, 0)
  }

  /**
   * What histogram_subtract does to valid histograms: it succeeds exactly
   * when `from` is contained in `target`, and then leaves the histogram
   * `Subtracted` describes.  Wherever it stops, the target is a valid
   * histogram (`maxfreq` the largest of the counts it looked at) from which
   * the first `done` slots of `from` have been taken away.
   */
  lemma SubtractionMeaning(target: HistView, from: HistView)
    requires ValidView(target) && ValidView(from) && (|from.bins| > 0 ==> |target.bins| > 0)
    ensures var r := Subtraction(target, from);
      && WalkState(target, from, r.done, r.freq, r.ntotal)
      && r.seen <= |r.freq| && r.maxfreq == MaxOf(r.freq[..r.seen])
      && ValidView(HistView(target.bins, r.freq, r.maxfreq, r.ntotal))
      && (r.ok <==> Contained(from, target))
      && (r.ok ==> HistView(target.bins, r.freq, r.maxfreq, r.ntotal) == Subtracted(target, from))
  {
    WalkStart(target, from);
    var r := Subtraction(target, from);
    WalkMeaning(target, from, 0, 0, target.freq, 0, target.ntotal, 0, r);
    WalkExit(target, from, r.done, r.freq, r.ntotal, r.seen, r.maxfreq);
  }

  /**
   * What a walk of `fv` over `h0` ends in: a walk state (the first `done`
   * slots of `fv` taken away), `maxfreq` the largest of the first `seen`
   * counts; success exactly when `fv` is contained in `h0`, and then the
   * histogram `Subtracted` describes.
   */
  ghost predicate Outcome(h0: HistView, fv: HistView, r: Walked) {
    && WalkState(h0, fv, r.done, r.freq, r.ntotal)
    && r.seen <= |r.freq| && r.maxfreq == MaxOf(r.freq[..r.seen])
    && (r.ok <==> Contained(fv, h0))
    && (r.ok ==> HistView(h0.bins, r.freq, r.maxfreq, r.ntotal) == Subtracted(h0, fv))
  }

  /**
   * The invariant of the walk, from any state the loop passes through:
   * before the subtrahend's slot `f` every target bin left of the cursor is
   * smaller, and `seen` is `t + 1` only right after a match at `t`.
   */
  ghost predicate Cursor(h0: HistView, fv: HistView, f: nat, t: nat, cur: seq<nat>, mf: nat, nt: int, seen: nat) {
    && WalkState(h0, fv, f, cur, nt)
    && (f < |fv.bins| ==> t < |h0.bins|)
    && t <= seen <= t + 1 && seen <= |cur| && mf == MaxOf(cur[..seen])
    && (f < |fv.bins| ==> forall k :: 0 <= k < t ==> h0.bins[k] < fv.bins[f])
    && (seen == t + 1 ==> 0 < f && t < |h0.bins| && h0.bins[t] == fv.bins[f - 1])
    && (f == |fv.bins| ==> (f == 0 ==> seen == 0) && (0 < f ==> seen == t + 1))
  }

  /**
   * The walk `r` from a cursor state ends in the outcome that state
   * promises.  Each case of the loop is a lemma of its own.
   */
  lemma {:induction false} WalkMeaning(h0: HistView, fv: HistView, f: nat, t: nat,
                                       cur: seq<nat>, mf: nat, nt: int, seen: nat, r: Walked)
    requires Cursor(h0, fv, f, t, cur, mf, nt, seen)
    requires r == Walk(h0.bins, fv.bins, fv.freq, f, t, cur, mf, nt, seen)
    ensures Outcome(h0, fv, r)
    decreases |fv.bins| - f, |h0.bins| - t, 1
  {
    if f == |fv.bins| {
      Finish(h0, fv, f, t, cur, mf, nt, seen);
    } else if h0.bins[t] < fv.bins[f] {
      if t + 1 == |h0.bins| {
        RanOff(h0, fv, f, t, cur, mf, nt, seen);
      } else {
        SkipMeaning(h0, fv, f, t, cur, mf, nt, seen, r);
      }
    } else if h0.bins[t] != fv.bins[f] || fv.freq[f] > cur[t] {
      Mismatched(h0, fv, f, t, cur, mf, nt, seen);
    } else {
      var c := cur[t := cur[t] - fv.freq[f]];
      MatchStep(h0.bins, fv.bins, fv.freq, f, t, cur, mf, nt, seen, c);
      MatchMeaning(h0, fv, f, t, cur, mf, nt, seen, c, Max(mf, c[t]), nt - fv.freq[f], r);
    }
  }

  /** The walk after passing a smaller bin. */
  lemma {:induction false} SkipMeaning(h0: HistView, fv: HistView, f: nat, t: nat,
                                       cur: seq<nat>, mf: nat, nt: int, seen: nat, r: Walked)
    requires Cursor(h0, fv, f, t, cur, mf, nt, seen) && f < |fv.bins|
    requires h0.bins[t] < fv.bins[f] && t + 1 < |h0.bins|
    requires r == Walk(h0.bins, fv.bins, fv.freq, f, t, cur, mf, nt, seen)
    ensures Outcome(h0, fv, r)
    decreases |fv.bins| - f, |h0.bins| - t, 0
  {
    Skipped(h0, fv, f, t, cur, mf, nt, seen);
    var m := Max(mf, cur[t]);
    SkipStep(h0.bins, fv.bins, fv.freq, f, t, cur, mf, nt, seen);
    WalkMeaning(h0, fv, f, t + 1, cur, m, nt, t + 1, r);
  }

  /** The walk from the state after decrementing a matched slot to the counts `c`. */
  lemma {:induction false} MatchMeaning(h0: HistView, fv: HistView, f: nat, t: nat,
                                        cur: seq<nat>, mf: nat, nt: int, seen: nat,
                                        c: seq<nat>, m: nat, nt2: int, r: Walked)
    requires Cursor(h0, fv, f, t, cur, mf, nt, seen) && f < |fv.bins|
    requires h0.bins[t] == fv.bins[f] && fv.freq[f] <= cur[t] && c == cur[t := cur[t] - fv.freq[f]]
    requires m == Max(mf, c[t]) && nt2 == nt - fv.freq[f]
    requires r == Walk(h0.bins, fv.bins, fv.freq, f + 1, t, c, m, nt2, t + 1)
    ensures Outcome(h0, fv, r)
    decreases |fv.bins| - f, |h0.bins| - t, 0
  {
    Matched(h0, fv, f, t, cur, mf, nt, seen, c);
    WalkMeaning(h0, fv, f + 1, t, c, m, nt2, t + 1, r);
  }

  /** Passing a smaller bin is one step of the walk. */
  lemma SkipStep(hb: seq<char>, fb: seq<char>, ff: seq<nat>, f: nat, t: nat, cur: seq<nat>, mf: nat, nt: int, seen: nat)
    requires |cur| == |hb| && |ff| == |fb| && f < |fb| && t + 1 < |hb| && hb[t] < fb[f]
    ensures Walk(hb, fb, ff, f, t, cur, mf, nt, seen) == Walk(hb, fb, ff, f, t + 1, cur, Max(mf, cur[t]), nt, t + 1)
  {
  }

  /** Decrementing a matched slot to the counts `c` is one step of the walk. */
  lemma MatchStep(hb: seq<char>, fb: seq<char>, ff: seq<nat>, f: nat, t: nat, cur: seq<nat>, mf: nat, nt: int, seen: nat,
                  c: seq<nat>)
    requires |cur| == |hb| && |ff| == |fb| && f < |fb| && t < |hb|
    requires hb[t] == fb[f] && ff[f] <= cur[t] && c == cur[t := cur[t] - ff[f]]
    ensures Walk(hb, fb, ff, f, t, cur, mf, nt, seen) == Walk(hb, fb, ff, f + 1, t, c, Max(mf, c[t]), nt - ff[f], t + 1)
  {
  }

  /** The subtrahend is used up: the walk succeeds. */
  lemma Finish(h0: HistView, fv: HistView, f: nat, t: nat, cur: seq<nat>, mf: nat, nt: int, seen: nat)
    requires Cursor(h0, fv, f, t, cur, mf, nt, seen) && f == |fv.bins|
    ensures Outcome(h0, fv, Walk(h0.bins, fv.bins, fv.freq, f, t, cur, mf, nt, seen))
  {
    WalkDone(h0, fv, f, t, cur, nt, seen, mf);
  }

  /** The cursor passes a smaller bin that is not the last one. */
  lemma Skipped(h0: HistView, fv: HistView, f: nat, t: nat, cur: seq<nat>, mf: nat, nt: int, seen: nat)
    requires Cursor(h0, fv, f, t, cur, mf, nt, seen) && f < |fv.bins|
    requires h0.bins[t] < fv.bins[f] && t + 1 < |h0.bins|
    ensures Cursor(h0, fv, f, t + 1, cur, Max(mf, cur[t]), nt, t + 1)
  {
    MaxOfNext(cur, t);
    if seen == t + 1 {
      MaxOfUpper(cur[..t + 1], t);
    }
  }

  /** The cursor passes the last bin: the subtrahend's character is missing. */
  lemma RanOff(h0: HistView, fv: HistView, f: nat, t: nat, cur: seq<nat>, mf: nat, nt: int, seen: nat)
    requires Cursor(h0, fv, f, t, cur, mf, nt, seen) && f < |fv.bins|
    requires h0.bins[t] < fv.bins[f] && t + 1 == |h0.bins|
    ensures Outcome(h0, fv, Walk(h0.bins, fv.bins, fv.freq, f, t, cur, mf, nt, seen))
  {
    MaxOfNext(cur, t);
    if seen == t + 1 {
      MaxOfUpper(cur[..t + 1], t);
    }
    AbsentAt(h0.bins, fv.bins[f], |h0.bins|);
    NotContainedAt(fv, h0, f);
  }

  /** The cursor stops on a larger bin, or on the bin with too small a count. */
  lemma Mismatched(h0: HistView, fv: HistView, f: nat, t: nat, cur: seq<nat>, mf: nat, nt: int, seen: nat)
    requires Cursor(h0, fv, f, t, cur, mf, nt, seen) && f < |fv.bins|
    requires !(h0.bins[t] < fv.bins[f])
    requires h0.bins[t] != fv.bins[f] || fv.freq[f] > cur[t]
    ensures Outcome(h0, fv, Walk(h0.bins, fv.bins, fv.freq, f, t, cur, mf, nt, seen))
  {
    if h0.bins[t] != fv.bins[f] {
      AbsentAt(h0.bins, fv.bins[f], t);
    } else {
      DecrementStep(h0, fv, f, t, cur, nt);
    }
    NotContainedAt(fv, h0, f);
  }

  /** The cursor stops on the bin with a large enough count, which is decremented to `c`. */
  lemma Matched(h0: HistView, fv: HistView, f: nat, t: nat, cur: seq<nat>, mf: nat, nt: int, seen: nat, c: seq<nat>)
    requires Cursor(h0, fv, f, t, cur, mf, nt, seen) && f < |fv.bins|
    requires h0.bins[t] == fv.bins[f] && fv.freq[f] <= cur[t] && c == cur[t := cur[t] - fv.freq[f]]
    ensures Cursor(h0, fv, f + 1, t, c, Max(mf, c[t]), nt - fv.freq[f], t + 1)
  {
    DecrementStep(h0, fv, f, t, cur, nt);
    if 0 < f {
      assert fv.bins[f - 1] < fv.bins[f];
      assert seen == t;
    }
    MaxStep(cur, t, c[t], mf);
    if f + 1 < |fv.bins| {
      assert fv.bins[f] < fv.bins[f + 1];
    }
  }

  /**
   * The state of the merge walk of histogram_subtract after `f` of `from`'s
   * slots: those slots were all contained in the original and have been
   * decremented away, and `nt` is the new sum of the counts.
   */
  ghost predicate WalkState(h0: HistView, fv: HistView, f: nat, cur: seq<nat>, nt: int)
  {
    && ValidView(h0) && ValidView(fv) && f <= |fv.bins|
    && ContainedUpTo(fv, h0, f)
    && cur == Minus(h0.bins, h0.freq, Bag(fv.bins[..f], fv.freq[..f]))
    && nt + Sum(fv.freq[..f]) == h0.ntotal
    && nt == Sum(cur)
  }

  lemma WalkStart(h0: HistView, fv: HistView)
    requires ValidView(h0) && ValidView(fv)
    ensures WalkState(h0, fv, 0, h0.freq, h0.ntotal)
  {
    assert Bag(fv.bins[..0], fv.freq[..0]) == multiset{};
    assert Minus(h0.bins, h0.freq, multiset{}) == h0.freq;
  }

  /** Wherever the walk stops, the counts and statistics form a valid histogram. */
  lemma WalkExit(h0: HistView, fv: HistView, f: nat, cur: seq<nat>, nt: int, seen: nat, mf: nat)
    requires WalkState(h0, fv, f, cur, nt) && seen <= |cur|
    requires mf == MaxOf(cur[..seen])
    ensures ValidView(HistView(h0.bins, cur, mf, nt))
  {
    MaxOfPrefix(cur, seen);
  }

  /** A walk over all of `from`'s slots ends in the histogram `Subtracted` describes. */
  lemma WalkDone(h0: HistView, fv: HistView, f: nat, t: nat, cur: seq<nat>, nt: int, seen: nat, mf: nat)
    requires WalkState(h0, fv, f, cur, nt) && f == |fv.bins| && seen <= |cur|
    requires mf == MaxOf(cur[..seen])
    requires f == 0 ==> seen == 0
    requires f > 0 ==> seen == t + 1 && t < |h0.bins| && h0.bins[t] == fv.bins[f - 1]
    ensures Contained(fv, h0) && HistView(h0.bins, cur, mf, nt) == Subtracted(h0, fv)
  {
    assert fv.bins[..f] == fv.bins && fv.freq[..f] == fv.freq;
    if f > 0 {
      IndexOfStrict(h0.bins, t);
    }
  }

  lemma IndexOfStrict(s: seq<char>, t: nat)
    requires StrictlySorted(s) && t < |s|
    ensures IndexOf(s, s[t]) == t
  {
    var k := IndexOf(s, s[t]);
    assert k <= t;
  }

  /** Extending a prefix by one slot extends its largest count by that slot. */
  lemma MaxOfNext(s: seq<nat>, t: nat)
    requires t < |s|
    ensures MaxOf(s[..t + 1]) == Max(MaxOf(s[..t]), s[t])
  {
    assert s[..t + 1][..t] == s[..t];
  }

  /** Storing `v` at `t` and folding it into the largest count of the slots before `t`. */
  lemma MaxStep(s: seq<nat>, t: nat, v: nat, mf: nat)
    requires t < |s| && mf == MaxOf(s[..t])
    ensures MaxOf(s[t := v][..t + 1]) == Max(mf, v)
  {
    assert s[t := v][..t + 1] == s[..t] + [v];
    assert (s[..t] + [v])[..t] == s[..t];
  }

  /** Slot `f` of `fv` names a character missing from `h0`, or one `h0` has fewer of. */
  ghost predicate Missing(fv: HistView, h0: HistView, f: nat)
    requires Shaped(h0) && f < |fv.bins| && f < |fv.freq|
  {
    fv.bins[f] !in h0.bins || fv.freq[f] > BagOf(h0)[fv.bins[f]]
  }

  /** A `from` slot that is missing from the target, or too large, refutes containment. */
  lemma NotContainedAt(fv: HistView, h0: HistView, f: nat)
    requires Shaped(h0) && Shaped(fv) && f < |fv.bins| && Missing(fv, h0, f)
    ensures !Contained(fv, h0)
  {
  }

  /**
   * One step of the merge walk: the target slot matched by `from`'s slot
   * `f` still holds its original count, and taking `from`'s count away
   * there (when it is not too large) moves the walk on by one slot.
   */
  lemma DecrementStep(h0: HistView, fv: HistView, f: nat, t: nat, cur: seq<nat>, nt: int)
    requires WalkState(h0, fv, f, cur, nt) && f < |fv.bins| && t < |h0.bins|
    requires h0.bins[t] == fv.bins[f]
    ensures cur[t] == h0.freq[t] == BagOf(h0)[fv.bins[f]]
    ensures fv.freq[f] <= cur[t] ==>
      fv.freq[f] <= nt && WalkState(h0, fv, f + 1, cur[t := cur[t] - fv.freq[f]], nt - fv.freq[f])
  {
    var c, k := fv.bins[f], fv.freq[f];
    var b := Bag(fv.bins[..f], fv.freq[..f]);
    assert ValidView(h0) && ValidView(fv) && StrictlySorted(h0.bins) && |h0.bins| == |h0.freq|;
    assert BagOf(h0) == Bag(h0.bins, h0.freq);
    hide Minus, Bag, Sum, BagOf, ContainedUpTo;
    SubtractStep(h0, fv, f);
    BagAt(h0.bins, h0.freq, t);
    MinusAt(h0.bins, h0.freq, b, t);
    if k <= cur[t] {
      ElemLeSum(cur, t);
      SumUpdate(cur, t, cur[t] - k);
      SumPrefixNext(fv.freq, f);
      MinusStep(h0.bins, h0.freq, b, t, k);
      ContainedUpToNext(fv, h0, f, t);
    }
  }

  /** Slot `t` of `Minus`. */
  lemma MinusAt(bins: seq<char>, freq: seq<nat>, m: multiset<char>, t: nat)
    requires |bins| == |freq| && t < |bins|
    ensures Minus(bins, freq, m)[t] == if freq[t] >= m[bins[t]] then freq[t] - m[bins[t]] else 0
  {
  }

  /** Containment up to slot `f` extends by one slot that is within the base. */
  lemma ContainedUpToNext(h: HistView, base: HistView, f: nat, t: nat)
    requires Shaped(base) && ContainedUpTo(h, base, f) && f < |h.bins| && f < |h.freq| && t < |base.bins|
    requires base.bins[t] == h.bins[f] && h.freq[f] <= BagOf(base)[h.bins[f]]
    ensures ContainedUpTo(h, base, f + 1)
  {
  }

  /** Taking `k` more of slot `t`'s character away lowers that slot only. */
  lemma MinusStep(bins: seq<char>, freq: seq<nat>, b: multiset<char>, t: nat, k: nat)
    requires |bins| == |freq| && StrictlySorted(bins) && t < |bins|
    requires b[bins[t]] + k <= freq[t]
    ensures Minus(bins, freq, b + multiset{}[bins[t] := k])
         == Minus(bins, freq, b)[t := Minus(bins, freq, b)[t] - k]
  {
    var m, m' := Minus(bins, freq, b), Minus(bins, freq, b + multiset{}[bins[t] := k]);
    forall j | 0 <= j < |bins|
      ensures m'[j] == m[t := m[t] - k][j]
    {
      if j < t {
        assert bins[j] < bins[t];
      } else if j > t {
        assert bins[t] < bins[j];
      }
    }
  }

  lemma SumPrefixNext(s: seq<nat>, f: nat)
    requires f < |s|
    ensures Sum(s[..f + 1]) == Sum(s[..f]) + s[f]
  {
    assert s[..f + 1][..f] == s[..f];
  }

  /**
   * One step of the merge walk: the target slot holding `f`'s bin number
   * `i` has not been touched by the earlier steps, and taking that step's
   * count away changes only that slot.
   */
  lemma SubtractStep(h0: HistView, fv: HistView, i: nat)
    requires ValidView(h0) && ValidView(fv) && i < |fv.bins|
    ensures Bag(fv.bins[..i], fv.freq[..i])[fv.bins[i]] == 0
    ensures Bag(fv.bins[..i + 1], fv.freq[..i + 1])
         == Bag(fv.bins[..i], fv.freq[..i]) + multiset{}[fv.bins[i] := fv.freq[i]]
  {
    assert forall k :: 0 <= k < i ==> fv.bins[k] < fv.bins[i];
    BagOut(fv.bins[..i], fv.freq[..i], fv.bins[i]);
    assert fv.bins[..i + 1][..i] == fv.bins[..i];
    assert fv.freq[..i + 1][..i] == fv.freq[..i];
  }
}
