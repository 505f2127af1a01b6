/** Whitespace trimming of the text read from the control-interface entries.

    Rust's `str::trim_end` and `str::trim` strip characters with the Unicode
    White_Space property; this model keeps only its ASCII members. */
module Text {

  /** Tab, line feed, vertical tab, form feed, carriage return and space. */
  predicate IsWhitespace(c: char) {
    c == ' ' || c == '\t' || c == '\n' || c == '\r' || c == '\U{0B}' || c == '\U{0C}'
  }

  predicate AllWhitespace(s: string) {
    forall i :: 0 <= i < |s| ==> IsWhitespace(s[i])
  }

  /** Neither the first nor the last character of `s` is whitespace. */
  predicate Unpadded(s: string) {
    |s| == 0 || (!IsWhitespace(s[0]) && !IsWhitespace(s[|s| - 1]))
  }

  /** `s` is `t`, starting at index `i`, with whitespace-only text before and after it. */
  predicate PaddedAt(s: string, t: string, i: int) {
    0 <= i && i + |t| <= |s| && AllWhitespace(s[..i]) && s[i..i + |t|] == t && AllWhitespace(s[i + |t|..])
  }

  /** `s` is `t` with whitespace-only text before and after it. */
  ghost predicate PaddedBy(s: string, t: string) {
    exists i :: PaddedAt(s, t, i)
  }

  /** Drops trailing whitespace (`str::trim_end`). */
  function TrimEnd(s: string): (r: string)
    ensures r <= s
    ensures AllWhitespace(s[|r|..])
    ensures |r| == 0 || !IsWhitespace(r[|r| - 1])
    decreases |s|
  {
    if |s| > 0 && IsWhitespace(s[|s| - 1]) then TrimEnd(s[..|s| - 1]) else s
  }

  /** Drops leading whitespace (`str::trim_start`). */
  function TrimStart(s: string): (r: string)
    ensures |r| <= |s| && r == s[|s| - |r|..]
    ensures AllWhitespace(s[..|s| - |r|])
    ensures |r| == 0 || !IsWhitespace(r[0])
    decreases |s|
  {
    if |s| > 0 && IsWhitespace(s[0]) then
      var r := TrimStart(s[1..]);
      assert s[1..][|s| - 1 - |r|..] == s[|s| - |r|..];
      assert s[..|s| - |r|] == [s[0]] + s[1..][..|s| - 1 - |r|];
      r
    else
      s
  }

  /** Drops whitespace at both ends (`str::trim`). */
  function Trim(s: string): (r: string)
    ensures Unpadded(r)
    ensures PaddedBy(s, r)
  {
    TrimBothPadded(s);
    TrimStart(TrimEnd(s))
  }

  /** What trimming both ends keeps sits in the input between two runs of
      whitespace. */
  lemma TrimBothPadded(s: string)
    ensures PaddedAt(s, TrimStart(TrimEnd(s)), |TrimEnd(s)| - |TrimStart(TrimEnd(s))|)
  {
    var e := TrimEnd(s);
    var r := TrimStart(e);
    var i := |e| - |r|;
    assert s[..i] == e[..i];
    assert s[i..i + |r|] == r;
    assert s[i + |r|..] == s[|e|..];
  }

  lemma {:induction false} TrimEndOfPadded(x: string, post: string)
    requires |x| == 0 || !IsWhitespace(x[|x| - 1])
    requires AllWhitespace(post)
    ensures TrimEnd(x + post) == x
    decreases |post|
  {
    if |post| > 0 {
      var p := post[..|post| - 1];
      assert (x + post)[..|x + post| - 1] == x + p;
      TrimEndOfPadded(x, p);
    } else {
      assert x + post == x;
    }
  }

  lemma {:induction false} TrimStartOfPadded(pre: string, y: string)
    requires AllWhitespace(pre)
    requires |y| == 0 || !IsWhitespace(y[0])
    ensures TrimStart(pre + y) == y
    decreases |pre|
  {
    if |pre| > 0 {
      assert (pre + y)[1..] == pre[1..] + y;
      TrimStartOfPadded(pre[1..], y);
    } else {
      assert pre + y == y;
    }
  }

  /** Surrounding whitespace is exactly what `Trim` removes. */
  lemma TrimOfPadded(pre: string, t: string, post: string)
    requires AllWhitespace(pre) && AllWhitespace(post)
    requires Unpadded(t)
    ensures Trim(pre + t + post) == t
  {
    if |t| == 0 {
      assert pre + t + post == [] + (pre + post);
      TrimEndOfPadded([], pre + post);
      assert TrimStart([]) == [];
    } else {
      assert pre + t + post == (pre + t) + post;
      TrimEndOfPadded(pre + t, post);
      TrimStartOfPadded(pre, t);
    }
  }

  /** `Trim(s) == t` exactly when `t` has no outer whitespace and `s` is `t`
      padded with whitespace. */
  lemma TrimCharacterisation(s: string, t: string)
    ensures Trim(s) == t <==> Unpadded(t) && PaddedBy(s, t)
  {
    if Unpadded(t) && PaddedBy(s, t) {
      var i :| PaddedAt(s, t, i);
      assert s == s[..i] + t + s[i + |t|..];
      TrimOfPadded(s[..i], t, s[i + |t|..]);
    }
  }

  /** Trimming twice is trimming once. */
  lemma TrimIdempotent(s: string)
    ensures Trim(Trim(s)) == Trim(s)
  {
    var t := Trim(s);
    var empty: string := [];
    assert AllWhitespace(empty);
    assert empty + t + empty == t;
    TrimOfPadded(empty, t, empty);
  }
}
