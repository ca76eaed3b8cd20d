/**
 The three Python `str` operations that `BluetoothManager.read_line` applies to a
 sensor line: `strip()` with no argument, `startswith(prefix)` and
 `split(sep, 1)`.  Strings are sequences of Unicode scalar values.
 */
module PyStr {

  /** A character Python's `str.isspace()` accepts, and so one that `strip()`
      removes.  (`int()` skips a smaller set; see `PyInt.IsIntSpace`.) */
  predicate IsSpace(c: char) {
    || c == '\t' || c == '\n' || c == '\U{B}' || c == '\U{C}' || c == '\r'   // TAB, LF, VT, FF, CR
    || c == '\U{1C}' || c == '\U{1D}' || c == '\U{1E}' || c == '\U{1F}'      // file, group, record, unit separators
    || c == ' ' || c == '\U{85}' || c == '\U{A0}' || c == '\U{1680}'
    || c == '\U{2000}' || c == '\U{2001}' || c == '\U{2002}' || c == '\U{2003}' || c == '\U{2004}' || c == '\U{2005}'
    || c == '\U{2006}' || c == '\U{2007}' || c == '\U{2008}' || c == '\U{2009}' || c == '\U{200A}'
    || c == '\U{2028}' || c == '\U{2029}' || c == '\U{202F}' || c == '\U{205F}' || c == '\U{3000}'
  }

  predicate AllSpace(s: string) {
    forall i | 0 <= i < |s| :: IsSpace(s[i])
  }

  /** `s.lstrip()`: the longest suffix of `s` that does not start with whitespace,
      everything cut off in front of it being whitespace. */
  function StripLeft(s: string): (r: string)
    ensures |r| <= |s| && r == s[|s| - |r|..]
    ensures AllSpace(s[..|s| - |r|])
    ensures r == [] || !IsSpace(r[0])
    decreases |s|
  {
    if |s| > 0 && IsSpace(s[0]) then
      var r := StripLeft(s[1..]);
      assert s[..|s| - |r|] == [s[0]] + s[1..][..|s| - 1 - |r|];
      r
    else
      s
  }

  /** `s.rstrip()`: the longest prefix of `s` that does not end with whitespace,
      everything cut off behind it being whitespace. */
  function StripRight(s: string): (r: string)
    ensures |r| <= |s| && r == s[..|r|]
    ensures AllSpace(s[|r|..])
    ensures r == [] || !IsSpace(r[|r| - 1])
    decreases |s|
  {
    if |s| > 0 && IsSpace(s[|s| - 1]) then
      var r := StripRight(s[..|s| - 1]);
      assert s[|r|..] == s[..|s| - 1][|r|..] + [s[|s| - 1]];
      r
    else
      s
  }

  /** `s.strip()`: `s` with its leading and trailing whitespace removed. */
  function Strip(s: string): (r: string)
    ensures |r| <= |s|
    ensures r == [] || (!IsSpace(r[0]) && !IsSpace(r[|r| - 1]))
  {
    StripRight(StripLeft(s))
  }

  lemma AllSpaceAppend(a: string, b: string)
    requires AllSpace(a) && AllSpace(b)
    ensures AllSpace(a + b)
  {
    forall i | 0 <= i < |a + b| ensures IsSpace((a + b)[i]) {
      if i >= |a| { assert (a + b)[i] == b[i - |a|]; }
    }
  }

  /** The whitespace `strip()` removes in front of the text. */
  function Leading(s: string): (r: string)
    ensures AllSpace(r) && s == r + StripLeft(s)
  {
    var u := StripLeft(s);
    SplitAt(s, |s| - |u|);
    s[..|s| - |u|]
  }

  /** The whitespace `strip()` removes behind the text. */
  function Trailing(s: string): (r: string)
    ensures AllSpace(r) && StripLeft(s) == Strip(s) + r
  {
    var u := StripLeft(s);
    var v := StripRight(u);
    SplitAt(u, |v|);
    u[|v|..]
  }

  /** `s.startswith(p)`. */
  predicate StartsWith(s: string, p: string) {
    |p| <= |s| && s[..|p|] == p
  }

  /** `s` starts with `p` exactly when it is `p` followed by some text. */
  lemma StartsWithConcat(s: string, p: string)
    ensures StartsWith(s, p) <==> exists u :: s == p + u
  {
    if StartsWith(s, p) {
      assert s == p + s[|p|..];
    }
    if exists u :: s == p + u {
      var u :| s == p + u;
      assert s[..|p|] == p;
    }
  }

  /** `s.split(sep, 1)`: `[s]` when `sep` does not occur in `s`, otherwise the
      text before the first `sep` and the text after it. */
  function SplitOnce(s: string, sep: char): (r: seq<string>)
    ensures sep !in s ==> r == [s]
    ensures sep in s ==> |r| == 2 && r[0] + [sep] + r[1] == s && sep !in r[0]
    decreases |s|
  {
    if |s| == 0 then [s]
    else if s[0] == sep then ["", s[1..]]
    else
      var rest := SplitOnce(s[1..], sep);
      assert s == [s[0]] + s[1..];
      if |rest| == 1 then [s] else [[s[0]] + rest[0], rest[1]]
  }

  // ---------------------------------------------------------------------------
  // Properties of Strip and SplitOnce
  // ---------------------------------------------------------------------------

  /** Nothing is stripped from a string that neither starts nor ends with whitespace. */
  lemma StripBare(t: string)
    requires t == [] || (!IsSpace(t[0]) && !IsSpace(t[|t| - 1]))
    ensures Strip(t) == t
  {
  }

  /** A string that does not start with whitespace strips to one of its prefixes. */
  lemma StripFront(s: string)
    requires |s| > 0 && !IsSpace(s[0])
    ensures Strip(s) == s[..|Strip(s)|]
  {
    assert StripLeft(s) == s;
  }

  /** Text that ends in something other than whitespace shields everything
      in front of it from `rstrip()`. */
  lemma {:induction false} StripRightAfter(p: string, y: string)
    requires p != [] && !IsSpace(p[|p| - 1])
    ensures StripRight(p + y) == p + StripRight(y)
    decreases |y|
  {
    var s := p + y;
    if |y| == 0 {
      assert s == p;
    } else {
      assert s[|s| - 1] == y[|y| - 1];
      if IsSpace(y[|y| - 1]) {
        assert s[..|s| - 1] == p + y[..|y| - 1];
        StripRightAfter(p, y[..|y| - 1]);
      }
    }
  }

  /** Whitespace around a text with no whitespace at its ends is exactly what
      `strip()` cuts, on each side. */
  lemma SplitBare(a: string, t: string, b: string)
    requires AllSpace(a) && AllSpace(b)
    requires t != [] && !IsSpace(t[0]) && !IsSpace(t[|t| - 1])
    ensures Leading(a + t + b) == a && Strip(a + t + b) == t && Trailing(a + t + b) == b
  {
    var s := a + t + b;
    assert s == a + (t + b);
    assert StripLeft(s) == t + b by {
      StripLeftPadded(a, t + b);
      assert (t + b)[0] == t[0];
    }
    assert StripRight(t + b) == t by {
      StripRightPadded(t, b);
    }
    assert s[..|a|] == a;
  }

  /** Stripping twice strips nothing more. */
  lemma StripIdempotent(s: string)
    ensures Strip(Strip(s)) == Strip(s)
  {
    StripBare(Strip(s));
  }

  /** `strip()` only cuts whitespace: `s` is the stripped text with whitespace on both sides. */
  lemma StripSplit(s: string)
    ensures s == Leading(s) + Strip(s) + Trailing(s)
    ensures AllSpace(Leading(s)) && AllSpace(Trailing(s))
  {
    Concat3(Leading(s), Strip(s), Trailing(s));
  }

  lemma SplitAt(s: string, k: nat)
    requires k <= |s|
    ensures s == s[..k] + s[k..]
  {
  }

  lemma Concat3(a: string, t: string, b: string)
    ensures a + (t + b) == a + t + b
  {
  }

  lemma {:induction false} StripLeftPadded(a: string, t: string)
    requires AllSpace(a)
    ensures StripLeft(a + t) == StripLeft(t)
    decreases |a|
  {
    if |a| == 0 {
      assert a + t == t;
    } else {
      assert (a + t)[1..] == a[1..] + t;
      assert IsSpace((a + t)[0]);
      StripLeftPadded(a[1..], t);
    }
  }

  lemma {:induction false} StripRightPadded(t: string, b: string)
    requires AllSpace(b)
    ensures StripRight(t + b) == StripRight(t)
    decreases |b|
  {
    if |b| == 0 {
      assert t + b == t;
    } else {
      var n := |t + b|;
      assert (t + b)[..n - 1] == t + b[..|b| - 1];
      assert IsSpace((t + b)[n - 1]);
      StripRightPadded(t, b[..|b| - 1]);
    }
  }

  /** Left-stripping a concatenation: whitespace-only `t` disappears entirely,
      otherwise `b` is untouched. */
  lemma {:induction false} StripLeftAppend(t: string, b: string)
    ensures StripLeft(t + b) == if AllSpace(t) then StripLeft(b) else StripLeft(t) + b
    decreases |t|
  {
    if |t| == 0 {
      assert t + b == b;
    } else if IsSpace(t[0]) {
      assert (t + b)[1..] == t[1..] + b;
      assert AllSpace(t) <==> AllSpace(t[1..]);
      StripLeftAppend(t[1..], b);
    } else {
      assert !AllSpace(t);
    }
  }

  /** A whitespace-only string strips to nothing. */
  lemma StripLeftBlank(s: string)
    requires AllSpace(s)
    ensures StripLeft(s) == []
  {
  }

  /** Whitespace around a string does not change what it strips to. */
  lemma StripPadded(a: string, t: string, b: string)
    requires AllSpace(a) && AllSpace(b)
    ensures Strip(a + t + b) == Strip(t)
  {
    assert a + t + b == a + (t + b);
    StripLeftPadded(a, t + b);
    StripLeftAppend(t, b);
    if AllSpace(t) {
      StripLeftBlank(b);
      StripLeftBlank(t);
    } else {
      StripRightPadded(StripLeft(t), b);
    }
  }

  /** Splitting at the first `sep` when the text in front of it is known. */
  lemma {:induction false} SplitOnceAfter(p: string, s: string, sep: char)
    requires sep !in p
    ensures SplitOnce(p + [sep] + s, sep) == [p, s]
    decreases |p|
  {
    var x := p + [sep] + s;
    if |p| == 0 {
      assert x == [sep] + s;
      assert x[1..] == s;
    } else {
      assert x[0] == p[0] && x[1..] == p[1..] + [sep] + s;
      assert [p[0]] + p[1..] == p;
      SplitOnceAfter(p[1..], s, sep);
    }
  }
}
