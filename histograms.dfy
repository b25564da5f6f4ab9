/**
 * The histogram object of src/histogram.c and histogram.c: two parallel
 * arrays `bins` and `freq` of which the first `len` slots are in use, and the
 * statistics `maxfreq` and `ntotal`, all updated in place.
 */
module Histograms {
  import opened HistogramSpec
  import opened SubtractSpec

  datatype Option<T> = None | Some(value: T)

  class Histogram {
    var bins: array<char>
    var freq: array<nat>
    var len: nat
    var maxfreq: nat
    var ntotal: nat

    /** The value currently held by the used slots and the two statistics. */
    ghost function View(): HistView
      reads this, bins, freq
      requires len <= bins.Length && len <= freq.Length
    {
      HistView(bins[..len], freq[..len], maxfreq, ntotal)
    }

    ghost predicate Valid()
      reads this, bins, freq
    {
      len <= bins.Length && len <= freq.Length && ValidView(View())
    }

    /**
     * histogram_create: the characters of `s` are sorted into the bins
     * buffer (qsort), then run-length encoded in place: the read cursor `c`
     * walks each run, the write cursor `len` receives one slot per run.
     */
    constructor Create(s: seq<char>)
      ensures Valid() && View() == Tally(s)
      ensures fresh(bins) && fresh(freq)
    {
      hide Tally, MaxOf, Sum, Bag, BagOf, RunsInvariant, StrictlySorted, ValidView, ExactMax;
      var b := new char[|s|];
      var fr := new nat[|s|];
      var sorted := SortChars(s);
      for i := 0 to |s|
        invariant forall k :: 0 <= k < i ==> b[k] == sorted[k]
      {
        b[i] := sorted[i];
      }
      var l, mf := EncodeRuns(b, fr, sorted);
      RunsTally(s, sorted, b[..l], fr[..l], mf);
      bins, freq, len, maxfreq, ntotal := b, fr, l, mf, |s|;
    }

    /** histogram_copy: fresh arrays holding the used slots of `orig`. */
    constructor Copy(orig: Histogram)
      requires orig.Valid()
      ensures Valid() && View() == orig.View()
      ensures fresh(bins) && fresh(freq)
    {
      var b := new char[orig.len];
      var f := new nat[orig.len];
      for i := 0 to orig.len
        invariant forall k :: 0 <= k < i ==> b[k] == orig.bins[k]
      {
        b[i] := orig.bins[i];
      }
      for i := 0 to orig.len
        invariant b[..] == orig.bins[..orig.len]
        invariant forall k :: 0 <= k < i ==> f[k] == orig.freq[k]
      {
        f[i] := orig.freq[i];
      }
      assert b[..] == orig.bins[..orig.len];
      assert f[..] == orig.freq[..orig.len];
      bins, freq, len, maxfreq, ntotal := b, f, orig.len, orig.maxfreq, orig.ntotal;
      new;
      assert View() == orig.View();
    }

    /**
     * find_character: the slot holding `c`, or none; the scan gives up at
     * the first bin greater than `c`.
     */
    method FindCharacter(c: char) returns (r: Option<nat>)
      requires Valid()
      ensures r.Some? ==> r.value < len && bins[r.value] == c
      ensures r.None? <==> c !in bins[..len]
    {
      for b := 0 to len
        invariant forall k :: 0 <= k < b ==> bins[k] < c
      {
        if bins[b] > c {
          assert forall k :: b <= k < len ==> bins[k] > c;
          return None;
        }
        if bins[b] == c {
          return Some(b);
        }
      }
      return None;
    }

    /** histogram_fits of src/histogram.c, searching with FindCharacter. */
    method Fits(base: Histogram) returns (r: bool)
      requires Valid() && base.Valid()
      ensures r == HistogramSpec.Fits(View(), base.View())
    {
      ghost var hv, bv := View(), base.View();
      if len > base.len {
        return false;
      }
      if maxfreq > base.maxfreq {
        return false;
      }
      for t := 0 to len
        invariant ContainedUpTo(hv, bv, t)
      {
        var b := base.FindCharacter(bins[t]);
        if b.None? {
          return false;
        }
        BagAt(bv.bins, bv.freq, b.value);
        if freq[t] > base.freq[b.value] {
          return false;
        }
      }
      return true;
    }

    /** histogram_fits of histogram.c: one base cursor that only moves forward. */
    method FitsMerge(base: Histogram) returns (r: bool)
      requires Valid() && base.Valid()
      ensures r == HistogramSpec.Fits(View(), base.View())
    {
      ghost var hv, bv := View(), base.View();
      if len > base.len {
        return false;
      }
      if maxfreq > base.maxfreq {
        return false;
      }
      var b := 0;
      var t := 0;
      while t < len
        invariant 0 <= t <= len
        invariant len > 0 ==> b < base.len
        invariant t < len ==> forall k :: 0 <= k < b ==> bv.bins[k] < hv.bins[t]
        invariant ContainedUpTo(hv, bv, t)
      {
        var found;
        b, found := base.Seek(b, bins[t]);
        if !found {
          AbsentAt(bv.bins, hv.bins[t], b);
          return false;
        }
        BagAt(bv.bins, bv.freq, b);
        if freq[t] > base.freq[b] {
          return false;
        }
        t := t + 1;
      }
      return true;
    }

    /**
     * The cursor loop of histogram_fits in histogram.c: move from slot `b0`
     * past the bins smaller than `c`; `found` says whether it then stands
     * on `c`.
     */
    method Seek(b0: nat, c: char) returns (b: nat, found: bool)
      requires Valid() && b0 < len
      ensures b0 <= b <= len && forall k :: b0 <= k < b ==> bins[k] < c
      ensures found ==> b < len && bins[b] == c
      ensures !found ==> b == len || bins[b] > c
    {
      b := b0;
      while bins[b] < c
        invariant b0 <= b < len
        invariant forall k :: b0 <= k < b ==> bins[k] < c
      {
        b := b + 1;
        if b == len {
          return b, false;
        }
      }
      found := bins[b] == c;
    }

    /**
     * histogram_subtract: a merge walk over both bin arrays that decrements
     * each matched slot of this histogram in place, with `maxfreq` reset to
     * 0 and rebuilt from the slots the walk passes.  On failure (a character
     * of `from` missing here, or an underflow) the slots and `ntotal`
     * already decremented stay decremented.  The new state is the one
     * `SubtractSpec.Subtraction` describes step by step; by
     * `SubtractionMeaning` it is a valid histogram, the walk succeeds
     * exactly when `from` is contained in this histogram, and then it holds
     * the difference of the two multisets.
     */
    method Subtract(from: Histogram) returns (ok: bool)
      requires Valid() && from.Valid()
      requires freq != from.freq
      requires from.len > 0 ==> len > 0
      modifies this, freq
      ensures bins == old(bins) && freq == old(freq) && len == old(len)
      ensures var r := Subtraction(old(View()), from.View());
        ok == r.ok && freq[..len] == r.freq && maxfreq == r.maxfreq && ntotal == r.ntotal
      ensures Valid()
      ensures ok <==> Contained(from.View(), old(View()))
      ensures ok ==> View() == Subtracted(old(View()), from.View())
    {
      hide Subtracted, Contained, MaxOf, Bag, BagOf, Minus, Tally;
      ghost var h0, fv := View(), from.View();
      ghost var r := Subtraction(h0, fv);
      maxfreq := 0;
      ok := true;
      var f, t := 0, 0;
      ghost var seen := 0;
      label walk:
      while f < from.len
        invariant bins == old(bins) && freq == old(freq) && len == old(len) && from.View() == fv
        invariant f <= from.len && (f < from.len ==> t < len)
        invariant ntotal == Sum(freq[..len])
        invariant Walk(h0.bins, fv.bins, fv.freq, f, t, freq[..len], maxfreq, ntotal, seen) == r
      {
        var found;
        t, found, seen := Locate(from.bins[f], t, seen, h0.bins, fv.bins, fv.freq, f, r);
        if !found {
          ok := false;
          break walk;
        }
        if bins[t] != from.bins[f] || from.freq[f] > freq[t] {
          ok := false;
          break walk;
        }
        TakeAway(t, from.freq[f], h0.bins, fv.bins, fv.freq, f, seen, r);
        seen := t + 1;
        f := f + 1;
      }
      SubtractionMeaning(h0, fv);
    }
    /**
     * The inner loop of histogram_subtract: move the target cursor `t` past
     * the bins smaller than `c`, folding each passed count into `maxfreq`;
     * `found` is false when the cursor runs off the end.  Each pass is a
     * step of the walk `r` of `SubtractSpec.Walk`.
     */
    method Locate(c: char, t0: nat, ghost seen0: nat, ghost hb: seq<char>, ghost fb: seq<char>, ghost ff: seq<nat>,
                  ghost f: nat, ghost r: Walked)
      returns (t: nat, found: bool, ghost seen: nat)
      requires len <= bins.Length && len <= freq.Length && bins[..len] == hb
      requires |ff| == |fb| && f < |fb| && fb[f] == c && t0 < len
      requires Walk(hb, fb, ff, f, t0, freq[..len], maxfreq, ntotal, seen0) == r
      modifies this
      ensures bins == old(bins) && freq == old(freq) && len == old(len) && ntotal == old(ntotal)
      ensures t0 <= t <= len && forall j {:trigger bins[j]} :: t0 <= j < t ==> bins[j] < c
      ensures maxfreq == Max(old(maxfreq), MaxOf(freq[t0..t]))
      ensures found ==> t < len && bins[t] >= c && Walk(hb, fb, ff, f, t, freq[..len], maxfreq, ntotal, seen) == r
      ensures !found ==> r == Walked(false, f, freq[..len], maxfreq, ntotal, seen)
    {
      t, seen := t0, seen0;
      while bins[t] < c
        invariant bins == old(bins) && freq == old(freq) && len == old(len) && ntotal == old(ntotal)
        invariant t < len && Walk(hb, fb, ff, f, t, freq[..len], maxfreq, ntotal, seen) == r
        invariant t0 <= t && forall j {:trigger bins[j]} :: t0 <= j < t ==> bins[j] < c
        invariant maxfreq == Max(old(maxfreq), MaxOf(freq[t0..t]))
        decreases len - t
      {
        assert freq[t0..t + 1][..t - t0] == freq[t0..t];
        if t + 1 < len {
          SkipStep(hb, fb, ff, f, t, freq[..len], maxfreq, ntotal, seen);
        }
        if freq[t] > maxfreq {
          maxfreq := freq[t];
        }
        seen := t + 1;
        t := t + 1;
        if t == len {
          return t, false, seen;
        }
      }
      found := true;
    }
    /**
     * The matched slot `t` of histogram_subtract: its count and `ntotal`
     * lowered by the subtrahend's count `k`, `maxfreq` raised to the new
     * count if that is larger.  This is a step of the walk `r`.
     */
    method TakeAway(t: nat, k: nat, ghost hb: seq<char>, ghost fb: seq<char>, ghost ff: seq<nat>,
                    ghost f: nat, ghost seen: nat, ghost r: Walked)
      requires len <= bins.Length && len <= freq.Length && bins[..len] == hb
      requires |ff| == |fb| && f < |fb| && t < len && hb[t] == fb[f] && ff[f] == k && k <= freq[t]
      requires ntotal == Sum(freq[..len])
      requires Walk(hb, fb, ff, f, t, freq[..len], maxfreq, ntotal, seen) == r
      modifies this, freq
      ensures bins == old(bins) && freq == old(freq) && len == old(len)
      ensures freq[..len] == old(freq[..len])[t := old(freq[t]) - k]
      ensures ntotal == old(ntotal) - k && ntotal == Sum(freq[..len])
      ensures maxfreq == Max(old(maxfreq), freq[t])
      ensures Walk(hb, fb, ff, f + 1, t, freq[..len], maxfreq, ntotal, t + 1) == r
    {
      ghost var cur := freq[..len];
      ghost var c, mf, nt := cur[t := cur[t] - k], maxfreq, ntotal;
      MatchStep(hb, fb, ff, f, t, cur, maxfreq, ntotal, seen, c);
      ElemLeSum(cur, t);
      SumUpdate(cur, t, cur[t] - k);
      freq[t] := freq[t] - k;
      ntotal := ntotal - k;
      if freq[t] > maxfreq {
        maxfreq := freq[t];
      }
      assert freq[..len] == c && maxfreq == Max(mf, c[t]) && ntotal == nt - k;
    }
  }

  /** The first |s| slots of `a` hold `s`. */
  ghost predicate Holds<T>(a: array<T>, s: seq<T>)
    reads a
  {
    |s| <= a.Length && forall k {:trigger a[k]} :: 0 <= k < |s| ==> a[k] == s[k]
  }

  /**
   * The run-length loop of histogram_create over the sorted buffer `b`: the
   * read cursor `c` walks each run, the write cursor `l` receives one slot
   * per run in `b` and its length in `fr`; `mf` tracks the longest run.
   */
  method EncodeRuns(b: array<char>, fr: array<nat>, ghost sorted: seq<char>) returns (l: nat, mf: nat)
    requires b.Length == fr.Length == |sorted| && Holds(b, sorted) && Sorted(sorted)
    modifies b, fr
    ensures l <= b.Length && RunsInvariant(b[..l], fr[..l], sorted, |sorted|)
    ensures mf == MaxOf(fr[..l])
  {
    l, mf := 0, 0;
    var c := 0;
    ghost var gb: seq<char>, gf: seq<nat> := [], [];
    while c < b.Length
      invariant 0 <= l <= c <= b.Length
      invariant forall k {:trigger b[k]} :: c <= k < b.Length ==> b[k] == sorted[k]
      invariant Holds(b, gb) && Holds(fr, gf) && |gb| == l
      invariant RunsInvariant(gb, gf, sorted, c)
      invariant mf == MaxOf(gf)
    {
      var q, f;
      q, f, c := EncodeRun(b, fr, l, c, gb, gf, sorted);
      gb, gf := gb + [q], gf + [f];
      l := l + 1;
      if f > mf {
        mf := f;
      }
    }
    assert b[..l] == gb && fr[..l] == gf;
  }

  /**
   * One run of the encoding: measure the run starting at `c0` and write its
   * character and length to slot `l`.
   */
  method EncodeRun(b: array<char>, fr: array<nat>, l: nat, c0: nat,
                   ghost gb: seq<char>, ghost gf: seq<nat>, ghost sorted: seq<char>)
    returns (q: char, f: nat, c: nat)
    requires b.Length == fr.Length == |sorted| && Sorted(sorted) && l <= c0 < b.Length
    requires forall k {:trigger b[k]} :: c0 <= k < b.Length ==> b[k] == sorted[k]
    requires Holds(b, gb) && Holds(fr, gf) && |gb| == l
    requires RunsInvariant(gb, gf, sorted, c0)
    modifies b, fr
    ensures c0 < c <= b.Length
    ensures forall k {:trigger b[k]} :: c <= k < b.Length ==> b[k] == sorted[k]
    ensures Holds(b, gb + [q]) && Holds(fr, gf + [f])
    ensures RunsInvariant(gb + [q], gf + [f], sorted, c)
    ensures MaxOf(gf + [f]) == Max(MaxOf(gf), f)
  {
    q := b[c0];
    c, f := RunEnd(b, c0, sorted);
    RunStep(gb, gf, sorted, c0, c, q);
    Emit(b, fr, l, q, f, gb, gf, c0, sorted);
  }

  /** The inner loop of the run-length encoding: the end of the run starting at `c0`. */
  method RunEnd(b: array<char>, c0: nat, ghost sorted: seq<char>) returns (c: nat, f: nat)
    requires c0 < b.Length == |sorted|
    requires forall k {:trigger b[k]} :: c0 <= k < b.Length ==> b[k] == sorted[k]
    ensures c0 < c <= b.Length && f == c - c0
    ensures forall k :: c0 <= k < c ==> sorted[k] == sorted[c0]
    ensures c < b.Length ==> sorted[c] != sorted[c0]
  {
    var q := b[c0];
    c, f := c0, 0;
    while c < b.Length && b[c] == q
      invariant c0 <= c <= b.Length && f == c - c0
      invariant forall k :: c0 <= k < c ==> sorted[k] == q
      invariant c == c0 ==> c < b.Length
    {
      f := f + 1;
      c := c + 1;
    }
  }

  /** Writing one run's slot at `l`, which lies before the unread part of the buffer. */
  method Emit(b: array<char>, fr: array<nat>, l: nat, q: char, f: nat,
              ghost gb: seq<char>, ghost gf: seq<nat>, ghost c: nat, ghost sorted: seq<char>)
    requires b.Length == fr.Length == |sorted| && l <= c
    requires Holds(b, gb) && Holds(fr, gf) && |gb| == |gf| == l < b.Length
    modifies b, fr
    ensures Holds(b, gb + [q]) && Holds(fr, gf + [f])
    ensures forall k {:trigger b[k]} :: l < k < b.Length ==> b[k] == old(b[k])
  {
    b[l] := q;
    fr[l] := f;
  }

  /** A run of equal characters is that character with the run's length as multiplicity. */
  lemma {:induction false} RunMultiset(r: seq<char>, q: char)
    requires forall k :: 0 <= k < |r| ==> r[k] == q
    ensures multiset(r) == multiset{}[q := |r|]
  {
    if |r| > 0 {
      var n := |r| - 1;
      RunMultiset(r[..n], q);
      assert r == r[..n] + [q];
    }
  }

  /**
   * What the encoding loop keeps once it has consumed `sorted[..c]`: one
   * slot per run so far with that run's length, in strictly ascending
   * order, the last run ending at `c`.
   */
  ghost predicate RunsInvariant(gb: seq<char>, gf: seq<nat>, sorted: seq<char>, c: nat)
  {
    && |gb| == |gf| && c <= |sorted|
    && StrictlySorted(gb)
    && (|gb| == 0 <==> c == 0)
    && (|gb| > 0 ==> gb[|gb| - 1] == sorted[c - 1])
    && (0 < c < |sorted| ==> sorted[c - 1] < sorted[c])
    && (forall k :: 0 <= k < |gf| ==> gf[k] > 0)
    && Bag(gb, gf) == multiset(sorted[..c])
  }

  /** Runs covering all of the sorted characters of `s` are `Tally(s)`. */
  lemma RunsTally(s: seq<char>, sorted: seq<char>, gb: seq<char>, gf: seq<nat>, mf: nat)
    requires multiset(sorted) == multiset(s) && |sorted| == |s|
    requires RunsInvariant(gb, gf, sorted, |sorted|) && mf == MaxOf(gf)
    ensures Tally(s) == HistView(gb, gf, mf, |s|) && Canonical(Tally(s))
  {
    assert sorted[..|sorted|] == sorted;
    BagSize(gb, gf);
    TallyIs(s, HistView(gb, gf, mf, |s|));
  }

  /**
   * One run of the encoding loop: appending the run's character with the
   * run's length keeps the invariant and extends the largest count.
   */
  lemma RunStep(gb: seq<char>, gf: seq<nat>, sorted: seq<char>, c0: nat, c: nat, q: char)
    requires Sorted(sorted) && RunsInvariant(gb, gf, sorted, c0)
    requires c0 < c <= |sorted| && sorted[c0] == q
    requires forall k :: c0 <= k < c ==> sorted[k] == q
    requires c < |sorted| ==> sorted[c] != q
    ensures RunsInvariant(gb + [q], gf + [c - c0], sorted, c)
    ensures MaxOf(gf + [c - c0]) == Max(MaxOf(gf), c - c0)
  {
    RunMultiset(sorted[c0..c], q);
    assert sorted[..c] == sorted[..c0] + sorted[c0..c];
    assert (gb + [q])[..|gb|] == gb;
    assert (gf + [c - c0])[..|gf|] == gf;
    if c < |sorted| {
      assert sorted[c - 1] <= sorted[c];
    }
  }
}
