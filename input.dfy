/**
 * Reading the input string: the words given on the command line with all
 * whitespace dropped (input_from_args in src/input.c, get_instr_from_args
 * in anagram.c), or else what standard input delivers, compacted in place
 * (input_from_stdin), and the order in which input_get tries the two.
 *
 * A command-line word is a C string; it is given here as the sequence of
 * its characters before the terminating NUL.  What `read` delivers from
 * standard input is the parameter `data`.
 */
module Input {

  /** STDIN_SIZE: the most characters taken from standard input. */
  const STDIN_SIZE: nat := 100

  /** `isspace` in the "C" locale: space, \t, \n, \v, \f and \r. */
  predicate IsSpace(c: char) {
    c == ' ' || c == '\t' || c == '\n' || c == '\U{000B}' || c == '\U{000C}' || c == '\r'
  }

  /** The characters of `s` that are not whitespace, in order. */
  function Squeeze(s: seq<char>): seq<char> {
    if |s| == 0 then []
    else Squeeze(s[..|s| - 1]) + (if IsSpace(s[|s| - 1]) then [] else [s[|s| - 1]])
  }

  /** The words one after the other. */
  function Flatten(av: seq<seq<char>>): seq<char> {
    if |av| == 0 then [] else Flatten(av[..|av| - 1]) + av[|av| - 1]
  }

  // ---------------------------------------------------------------------
  // What Squeeze keeps

  lemma SqueezeNext(s: seq<char>, h: nat)
    requires h < |s|
    ensures Squeeze(s[..h + 1]) == Squeeze(s[..h]) + (if IsSpace(s[h]) then [] else [s[h]])
  {
    assert s[..h + 1][..h] == s[..h];
  }

  /** Squeezing distributes over concatenation. */
  lemma {:induction false} SqueezeAppend(a: seq<char>, b: seq<char>)
    ensures Squeeze(a + b) == Squeeze(a) + Squeeze(b)
    decreases |b|
  {
    if |b| == 0 {
      assert a + b == a;
    } else {
      var b' := b[..|b| - 1];
      assert (a + b)[..|a + b| - 1] == a + b';
      SqueezeAppend(a, b');
    }
  }

  /** A character is kept exactly when it occurs in `s` and is not whitespace. */
  lemma {:induction false} SqueezeMembers(s: seq<char>)
    ensures forall c :: c in Squeeze(s) <==> c in s && !IsSpace(c)
  {
    if |s| > 0 {
      var s' := s[..|s| - 1];
      SqueezeMembers(s');
      assert s == s' + [s[|s| - 1]];
    }
  }

  /** Nothing is dropped from a string without whitespace. */
  lemma {:induction false} SqueezeKeeps(s: seq<char>)
    requires forall k :: 0 <= k < |s| ==> !IsSpace(s[k])
    ensures Squeeze(s) == s
  {
    if |s| > 0 {
      var s' := s[..|s| - 1];
      SqueezeKeeps(s');
      assert s == s' + [s[|s| - 1]];
    }
  }

  /** Squeezing twice is squeezing once. */
  lemma SqueezeIdempotent(s: seq<char>)
    ensures Squeeze(Squeeze(s)) == Squeeze(s)
  {
    SqueezeMembers(s);
    var r := Squeeze(s);
    forall k | 0 <= k < |r|
      ensures !IsSpace(r[k])
    {
      assert r[k] in r;
    }
    SqueezeKeeps(r);
  }

  /** The kept characters of a prefix are a prefix of the kept characters. */
  lemma SqueezePrefix(a: seq<char>, b: seq<char>)
    ensures |Squeeze(a)| <= |Squeeze(a + b)|
  {
    SqueezeAppend(a, b);
  }

  lemma FlattenNext(av: seq<seq<char>>, from: nat, i: nat)
    requires from <= i < |av|
    ensures Flatten(av[from..i + 1]) == Flatten(av[from..i]) + av[i]
  {
    assert av[from..i + 1][..i - from] == av[from..i];
  }

  /** Flattening distributes over concatenation. */
  lemma {:induction false} FlattenAppend(a: seq<seq<char>>, b: seq<seq<char>>)
    ensures Flatten(a + b) == Flatten(a) + Flatten(b)
    decreases |b|
  {
    if |b| == 0 {
      assert a + b == a;
    } else {
      var b' := b[..|b| - 1];
      assert (a + b)[..|a + b| - 1] == a + b';
      FlattenAppend(a, b');
    }
  }

  /** The characters kept from words `from` to `i` are no more than all of them. */
  lemma KeptBound(av: seq<seq<char>>, from: nat, i: nat)
    requires from <= i < |av|
    ensures |Squeeze(Flatten(av[from..i + 1]))| <= |Squeeze(Flatten(av[from..]))|
  {
    assert av[from..] == av[from..i + 1] + av[i + 1..];
    FlattenAppend(av[from..i + 1], av[i + 1..]);
    SqueezePrefix(Flatten(av[from..i + 1]), Flatten(av[i + 1..]));
  }

  /** Word `i` extends what was kept from the words before it. */
  lemma KeptNext(av: seq<seq<char>>, from: nat, i: nat)
    requires from <= i < |av|
    ensures Squeeze(Flatten(av[from..i + 1])) == Squeeze(Flatten(av[from..i])) + Squeeze(av[i])
  {
    FlattenNext(av, from, i);
    SqueezeAppend(Flatten(av[from..i]), av[i]);
  }

  // ---------------------------------------------------------------------
  // The two loops over the command-line words

  /** The inner counting loop, over the characters of one word. */
  method CountWord(w: seq<char>) returns (n: nat)
    ensures n == |Squeeze(w)|
  {
    n := 0;
    var c := 0;
    while c < |w|
      invariant c <= |w| && n == |Squeeze(w[..c])|
    {
      SqueezeNext(w, c);
      if !IsSpace(w[c]) {
        n := n + 1;
      }
      c := c + 1;
    }
    assert w[..c] == w;
  }

  /**
   * The counting loop of input_from_args and get_instr_from_args over the
   * words `av[from..]`: the number of characters that are not whitespace.
   */
  method CountKept(av: seq<seq<char>>, from: nat) returns (len: nat)
    requires from <= |av|
    ensures len == |Squeeze(Flatten(av[from..]))|
  {
    len := 0;
    var i := from;
    while i < |av|
      invariant from <= i <= |av|
      invariant len == |Squeeze(Flatten(av[from..i]))|
    {
      var n := CountWord(av[i]);
      KeptNext(av, from, i);
      len := len + n;
      i := i + 1;
    }
    assert av[from..i] == av[from..];
  }

  /**
   * The inner copying loop: the characters of `w` that are not whitespace
   * are written from the cursor `p0` on; what is before it stays.
   */
  method CopyWord(str: array<char>, p0: nat, w: seq<char>) returns (p: nat)
    requires p0 + |Squeeze(w)| <= str.Length
    modifies str
    ensures p == p0 + |Squeeze(w)| && str[..p] == old(str[..p0]) + Squeeze(w)
  {
    p := p0;
    var c := 0;
    while c < |w|
      invariant c <= |w| && p == p0 + |Squeeze(w[..c])| && |Squeeze(w[..c])| <= |Squeeze(w)|
      invariant str[..p] == old(str[..p0]) + Squeeze(w[..c])
    {
      SqueezeNext(w, c);
      assert w[..c + 1] + w[c + 1..] == w;
      SqueezePrefix(w[..c + 1], w[c + 1..]);
      if !IsSpace(w[c]) {
        str[p] := w[c];
        p := p + 1;
      }
      c := c + 1;
    }
    assert w[..c] == w;
  }

  /**
   * The copying loop of input_from_args and get_instr_from_args: a buffer
   * of `len` characters receives the characters of `av[from..]` that are
   * not whitespace, in order, through the write cursor `p`.
   */
  method CopyKept(av: seq<seq<char>>, from: nat, len: nat) returns (str: array<char>)
    requires from <= |av| && len == |Squeeze(Flatten(av[from..]))|
    ensures fresh(str) && str[..] == Squeeze(Flatten(av[from..]))
  {
    str := new char[len];
    var p := 0;
    var i := from;
    while i < |av|
      invariant from <= i <= |av|
      invariant p == |Squeeze(Flatten(av[from..i]))| <= len
      invariant str[..p] == Squeeze(Flatten(av[from..i]))
    {
      KeptNext(av, from, i);
      KeptBound(av, from, i);
      p := CopyWord(str, p, av[i]);
      i := i + 1;
    }
    assert av[from..i] == av[from..];
    assert str[..] == str[..p];
  }

  /**
   * input_from_args: false when no word was given or when every character
   * is whitespace (the string stays NULL, the length 0); otherwise a fresh
   * string of exactly the characters of the words that are not whitespace,
   * in order, and its length.
   */
  method InputFromArgs(av: seq<seq<char>>) returns (ok: bool, str: array?<char>, len: nat)
    ensures ok <==> |av| != 0 && |Squeeze(Flatten(av))| != 0
    ensures ok ==> str != null && fresh(str) && str[..] == Squeeze(Flatten(av)) && len == str.Length
    ensures !ok ==> str == null && len == 0
  {
    str, len := null, 0;
    if |av| == 0 {
      return false, str, len;
    }
    len := CountKept(av, 0);
    assert av[0..] == av;
    if len == 0 {
      return false, str, len;
    }
    str := CopyKept(av, 0, len);
    ok := true;
  }

  /**
   * get_instr_from_args of anagram.c over `argv` from `optind` on: NULL
   * when no argument is left or all of them are whitespace (then `*inlen`
   * is not written: `inlen0` comes back), else the fresh string of the
   * characters that are not whitespace, with `*inlen` its length.
   */
  method GetInstrFromArgs(argv: seq<seq<char>>, optind: nat, inlen0: nat) returns (instr: array?<char>, inlen: nat)
    ensures instr == null <==> optind >= |argv| || |Squeeze(Flatten(argv[optind..]))| == 0
    ensures instr != null ==> fresh(instr) && instr[..] == Squeeze(Flatten(argv[optind..])) && inlen == instr.Length
    ensures instr == null ==> inlen == inlen0
  {
    instr, inlen := null, inlen0;
    if optind >= |argv| {
      return;
    }
    var len := CountKept(argv, optind);
    if len == 0 {
      return;
    }
    inlen := len;
    instr := CopyKept(argv, optind, len);
  }

  // ---------------------------------------------------------------------
  // Standard input

  /** What the read loop leaves in the buffer: at most STDIN_SIZE characters. */
  function Received(data: seq<char>): (r: seq<char>)
    ensures |r| <= STDIN_SIZE && r <= data
    ensures |data| <= STDIN_SIZE ==> r == data
    ensures |data| > STDIN_SIZE ==> |r| == STDIN_SIZE
  {
    if |data| <= STDIN_SIZE then data else data[..STDIN_SIZE]
  }

  /**
   * The compaction loop of input_from_stdin: the read cursor `h` walks the
   * first `len` characters of `buf`, the write cursor `t` receives those
   * that are not whitespace.  The rest of the buffer is left alone.
   */
  method Compact(buf: array<char>, len: nat) returns (t: nat)
    requires len <= buf.Length
    modifies buf
    ensures t <= len && buf[..t] == Squeeze(old(buf[..len]))
    ensures buf[len..] == old(buf[len..])
  {
    ghost var s := buf[..len];
    t := 0;
    var h := 0;
    while h < len
      invariant t <= h <= len
      invariant buf[..t] == Squeeze(s[..h])
      invariant buf[h..] == old(buf[h..])
    {
      SqueezeNext(s, h);
      assert buf[h] == s[h];
      if !IsSpace(buf[h]) {
        buf[t] := buf[h];
        t := t + 1;
      }
      h := h + 1;
    }
    assert s[..h] == s;
  }

  /**
   * input_from_stdin, with a buffer one character longer than STDIN_SIZE
   * so that the terminating NUL always has a place (see `TerminatorFits`):
   * the characters received are compacted; false when nothing was received
   * or all of it is whitespace (the string is NULL, the length still that
   * of what was received), else the kept characters followed by a NUL.
   */
  method InputFromStdin(data: seq<char>) returns (ok: bool, str: array?<char>, len: nat)
    ensures ok <==> |Squeeze(Received(data))| != 0
    ensures ok ==> str != null && fresh(str) && len <= STDIN_SIZE < str.Length
    ensures ok ==> str[..len] == Squeeze(Received(data)) && str[len] == '\0'
    ensures !ok ==> str == null && len == |Received(data)|
  {
    var buf := new char[STDIN_SIZE + 1];
    var got := Received(data);
    len := |got|;
    forall k | 0 <= k < len {
      buf[k] := got[k];
    }
    assert buf[..len] == got;
    var t := Compact(buf, len);
    if len == 0 || t == 0 {
      assert len == 0 ==> got == [];
      return false, null, len;
    }
    buf[t] := '\0';
    ok, str, len := true, buf, t;
  }

  /**
   * As written, input_from_stdin allocates STDIN_SIZE characters and
   * writes the NUL at the index of the write cursor: inside the buffer only
   * when fewer than STDIN_SIZE characters were kept.
   */
  predicate TerminatorFits(data: seq<char>) {
    |Squeeze(Received(data))| < STDIN_SIZE
  }

  /** A hundred letters on standard input put the NUL one past the buffer. */
  lemma TerminatorOverrun()
    ensures !TerminatorFits(seq(STDIN_SIZE, k => 'a'))
  {
    var s := seq(STDIN_SIZE, k => 'a');
    SqueezeKeeps(s);
  }

  /** With the extra character the NUL always fits. */
  lemma TerminatorFitsCorrected(data: seq<char>)
    ensures |Squeeze(Received(data))| < STDIN_SIZE + 1
  {
    SqueezePrefix(Received(data), []);
    assert Received(data) + [] == Received(data);
    SqueezeLength(Received(data));
  }

  lemma {:induction false} SqueezeLength(s: seq<char>)
    ensures |Squeeze(s)| <= |s|
  {
    if |s| > 0 {
      SqueezeLength(s[..|s| - 1]);
    }
  }

  /**
   * input_get: the command-line words when they hold a character that is
   * not whitespace; only otherwise standard input.
   */
  method InputGet(av: seq<seq<char>>, data: seq<char>) returns (ok: bool, str: array?<char>, len: nat)
    ensures ok <==> (|av| != 0 && |Squeeze(Flatten(av))| != 0) || |Squeeze(Received(data))| != 0
    ensures |av| != 0 && |Squeeze(Flatten(av))| != 0 ==>
      str != null && len <= str.Length && str[..len] == Squeeze(Flatten(av))
    ensures !(|av| != 0 && |Squeeze(Flatten(av))| != 0) && ok ==>
      str != null && len <= str.Length && str[..len] == Squeeze(Received(data))
  {
    ok, str, len := InputFromArgs(av);
    if ok {
      assert str[..len] == str[..];
      return;
    }
    ok, str, len := InputFromStdin(data);
  }
}
