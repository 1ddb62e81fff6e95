/** The string operations the parser builds on: `split` on one character,
    `trim`, and `split` on runs of comma, space or tab. */
module Text {

  /** `s.split(c)`: the pieces of s between occurrences of c (empty pieces kept). */
  function SplitOn(s: string, c: char): (r: seq<string>)
    ensures |r| >= 1
    ensures forall k :: 0 <= k < |r| ==> c !in r[k]
    decreases |s|
  {
    if s == [] then [""]
    else
      var rest := SplitOn(s[1..], c);
      if s[0] == c then [""] + rest
      else [[s[0]] + rest[0]] + rest[1..]
  }

  /** The pieces glued back together with c between them. */
  function Join(ls: seq<string>, c: char): string
    requires |ls| >= 1
    decreases |ls|
  {
    if |ls| == 1 then ls[0] else ls[0] + [c] + Join(ls[1..], c)
  }

  /** Splitting loses nothing: joining the pieces gives the text back. */
  lemma {:induction false} JoinSplitOn(s: string, c: char)
    ensures Join(SplitOn(s, c), c) == s
    decreases |s|
  {
    if s != [] {
      var rest := SplitOn(s[1..], c);
      JoinSplitOn(s[1..], c);
      if s[0] == c {
        assert ([""] + rest)[1..] == rest;
      } else if |rest| > 1 {
        var r := SplitOn(s, c);
        assert r[1..] == rest[1..];
        assert Join(rest, c) == rest[0] + [c] + Join(rest[1..], c);
      }
    }
  }

  /** A prefix without the separator extends the first piece. */
  lemma {:induction false} SplitOnPrefix(w: string, t: string, c: char)
    requires c !in w
    ensures SplitOn(w + t, c) == [w + SplitOn(t, c)[0]] + SplitOn(t, c)[1..]
    decreases |w|
  {
    if w == [] {
      var r := SplitOn(t, c);
      assert w + t == t && "" + r[0] == r[0] && [r[0]] + r[1..] == r;
    } else {
      assert (w + t)[1..] == w[1..] + t;
      SplitOnPrefix(w[1..], t, c);
      assert [w[0]] + (w[1..] + SplitOn(t, c)[0]) == w + SplitOn(t, c)[0];
    }
  }

  /** Joining pieces free of c and splitting again gives the pieces back. */
  lemma {:induction false} SplitOnJoin(ls: seq<string>, c: char)
    requires |ls| >= 1
    requires forall k :: 0 <= k < |ls| ==> c !in ls[k]
    ensures SplitOn(Join(ls, c), c) == ls
    decreases |ls|
  {
    if |ls| == 1 {
      SplitOnPrefix(ls[0], "", c);
      assert ls[0] + "" == ls[0];
    } else {
      SplitOnJoin(ls[1..], c);
      var u := Join(ls[1..], c);
      assert ([c] + u)[1..] == u;
      assert SplitOn([c] + u, c) == [""] + ls[1..];
      SplitOnPrefix(ls[0], [c] + u, c);
      assert ls[0] + "" == ls[0];
      assert ls[0] + [c] + u == ls[0] + ([c] + u);
      assert [ls[0]] + ls[1..] == ls;
    }
  }

  /** JavaScript WhiteSpace and LineTerminator code points, removed by `trim`. */
  predicate IsWhite(ch: char) {
    ch == '\t' || ch == '\n' || ch == '\U{000B}' || ch == '\U{000C}' || ch == '\r' ||
    ch == ' ' || ch == '\U{00A0}' || ch == '\U{1680}' ||
    ('\U{2000}' <= ch <= '\U{200A}') ||
    ch == '\U{2028}' || ch == '\U{2029}' || ch == '\U{202F}' || ch == '\U{205F}' ||
    ch == '\U{3000}' || ch == '\U{FEFF}'
  }

  predicate AllWhite(s: string) {
    forall i :: 0 <= i < |s| ==> IsWhite(s[i])
  }

  /** s without its leading whitespace. */
  function TrimStart(s: string): (r: string)
    ensures |r| <= |s|
    decreases |s|
  {
    if s != [] && IsWhite(s[0]) then TrimStart(s[1..]) else s
  }

  /** TrimStart cuts a white prefix, and what it keeps starts with non-white. */
  lemma {:induction false} TrimStartShape(s: string)
    ensures var r := TrimStart(s);
            r == s[|s| - |r|..] && AllWhite(s[..|s| - |r|]) && (r == [] || !IsWhite(r[0]))
    decreases |s|
  {
    if s != [] && IsWhite(s[0]) {
      TrimStartShape(s[1..]);
      var r := TrimStart(s);
      var w := s[..|s| - |r|];
      forall k | 0 <= k < |w| ensures IsWhite(w[k]) {
        if k > 0 {
          assert w[k] == s[1..][..|s| - 1 - |r|][k - 1];
        }
      }
    }
  }

  lemma TrimStartKeeps(s: string)
    requires s != [] && !IsWhite(s[0])
    ensures TrimStart(s) == s
  {
  }

  /** s without its trailing whitespace. */
  function TrimEnd(s: string): (r: string)
    ensures |r| <= |s|
    decreases |s|
  {
    if s != [] && IsWhite(s[|s| - 1]) then TrimEnd(s[..|s| - 1]) else s
  }

  /** TrimEnd cuts a white suffix, and what it keeps ends with non-white. */
  lemma {:induction false} TrimEndShape(s: string)
    ensures var r := TrimEnd(s);
            r == s[..|r|] && AllWhite(s[|r|..]) && (r == [] || !IsWhite(r[|r| - 1]))
    decreases |s|
  {
    if s != [] && IsWhite(s[|s| - 1]) {
      var n := |s| - 1;
      TrimEndShape(s[..n]);
      var r := TrimEnd(s);
      var w := s[|r|..];
      forall k | 0 <= k < |w| ensures IsWhite(w[k]) {
        if k < |w| - 1 {
          assert w[k] == s[..n][|r|..][k];
        }
      }
    }
  }

  /** s[i..j] is what remains of s once white margins s[..i] and s[j..] are cut. */
  predicate WhiteMargins(s: string, i: nat, j: nat) {
    i <= j <= |s| && AllWhite(s[..i]) && AllWhite(s[j..])
  }

  /** `s.trim()`: the slice of s between its white margins. */
  function Trim(s: string): (r: string)
    ensures exists i: nat, j: nat :: WhiteMargins(s, i, j) && r == s[i..j]
    ensures r == [] || (!IsWhite(r[0]) && !IsWhite(r[|r| - 1]))
  {
    var t := TrimStart(s);
    TrimStartShape(s);
    var r := TrimEnd(t);
    TrimEndShape(t);
    var i := |s| - |t|;
    assert r == s[i..i + |r|];
    assert AllWhite(s[i + |r|..]) by {
      assert s[i + |r|..] == t[|r|..];
    }
    assert WhiteMargins(s, i, i + |r|);
    r
  }

  /** A line trims to nothing exactly when it is all whitespace. */
  lemma TrimEmptyIffWhite(s: string)
    ensures Trim(s) == [] <==> AllWhite(s)
  {
    var r := Trim(s);
    var i: nat, j: nat :| WhiteMargins(s, i, j) && r == s[i..j];
    if r != [] {
      assert r[0] == s[i];
    }
    if r == [] {
      assert i == j;
      forall k | 0 <= k < |s| ensures IsWhite(s[k]) {
        if k < i { assert s[..i][k] == s[k]; } else { assert s[j..][k - j] == s[k]; }
      }
    }
  }

  /** The characters of the regular expression `[, \t]`. */
  predicate IsSeparator(ch: char) {
    ch == ',' || ch == ' ' || ch == '\t'
  }

  predicate NoSeparator(s: string) {
    forall i :: 0 <= i < |s| ==> !IsSeparator(s[i])
  }

  predicate AllSeparators(s: string) {
    forall i :: 0 <= i < |s| ==> IsSeparator(s[i])
  }

  /** `s.split(/[, \t]+/)`: the pieces between maximal runs of separators. */
  function SplitFields(s: string): (r: seq<string>)
    ensures |r| >= 1
    ensures forall k :: 0 <= k < |r| ==> NoSeparator(r[k])
    ensures s != [] && IsSeparator(s[0]) ==> r[0] == ""
    decreases |s|
  {
    if s == [] then [""]
    else
      var rest := SplitFields(s[1..]);
      if IsSeparator(s[0]) then
        if |s| > 1 && IsSeparator(s[1]) then rest else [""] + rest
      else [[s[0]] + rest[0]] + rest[1..]
  }

  /** Fields f0, f1, ... glued with separator runs m0, m1, ... between them. */
  function Interleave(fs: seq<string>, ms: seq<string>): string
    requires |fs| >= 1 && |ms| == |fs| - 1
    decreases |fs|
  {
    if |fs| == 1 then fs[0] else fs[0] + ms[0] + Interleave(fs[1..], ms[1..])
  }

  /** A separator-free prefix extends the first field. */
  lemma {:induction false} SplitFieldsPrefix(w: string, t: string)
    requires NoSeparator(w)
    ensures SplitFields(w + t) == [w + SplitFields(t)[0]] + SplitFields(t)[1..]
    decreases |w|
  {
    if w == [] {
      var r := SplitFields(t);
      assert w + t == t && "" + r[0] == r[0] && [r[0]] + r[1..] == r;
    } else {
      assert (w + t)[1..] == w[1..] + t;
      SplitFieldsPrefix(w[1..], t);
      assert [w[0]] + (w[1..] + SplitFields(t)[0]) == w + SplitFields(t)[0];
    }
  }

  /** A run of separators before text that does not start with one closes a field. */
  lemma {:induction false} SplitFieldsRun(m: string, t: string)
    requires m != [] && AllSeparators(m)
    requires t == [] || !IsSeparator(t[0])
    ensures SplitFields(m + t) == [""] + SplitFields(t)
    decreases |m|
  {
    assert (m + t)[1..] == m[1..] + t;
    if |m| > 1 {
      SplitFieldsRun(m[1..], t);
    } else {
      assert m[1..] + t == t;
    }
  }

  /** Glued fields start with a character of the first field, unless the
      first field is empty and there is nothing after it. */
  lemma InterleaveStart(fs: seq<string>, ms: seq<string>)
    requires |fs| >= 1 && |ms| == |fs| - 1
    requires NoSeparator(fs[0]) && (|fs| == 1 || fs[0] != "")
    ensures var u := Interleave(fs, ms); u == [] || !IsSeparator(u[0])
  {
    if |fs| > 1 {
      var u := Interleave(fs, ms);
      assert u == fs[0] + (ms[0] + Interleave(fs[1..], ms[1..]));
      assert u[0] == fs[0][0];
    }
  }

  /** The first run of separators follows the first field. */
  lemma InterleaveSeparator(fs: seq<string>, ms: seq<string>)
    requires |fs| >= 2 && |ms| == |fs| - 1
    requires ms[0] != [] && AllSeparators(ms[0])
    ensures Interleave(fs, ms) == fs[0] + ms[0] + Interleave(fs[1..], ms[1..])
    ensures |fs[0]| < |Interleave(fs, ms)| && IsSeparator(Interleave(fs, ms)[|fs[0]|])
  {
    var line := Interleave(fs, ms);
    assert line[|fs[0]|] == ms[0][0];
  }

  /** Splitting fields glued with separator runs gives the fields back, provided
      no inner field is empty (an empty inner field would merge two runs). */
  lemma {:induction false} SplitFieldsInterleave(fs: seq<string>, ms: seq<string>)
    requires |fs| >= 1 && |ms| == |fs| - 1
    requires forall k :: 0 <= k < |fs| ==> NoSeparator(fs[k])
    requires forall k :: 0 < k < |fs| - 1 ==> fs[k] != ""
    requires forall k :: 0 <= k < |ms| ==> ms[k] != [] && AllSeparators(ms[k])
    ensures SplitFields(Interleave(fs, ms)) == fs
    decreases |fs|
  {
    if |fs| == 1 {
      SplitFieldsPrefix(fs[0], "");
      assert fs[0] + "" == fs[0];
    } else {
      var u := Interleave(fs[1..], ms[1..]);
      SplitFieldsInterleave(fs[1..], ms[1..]);
      InterleaveStart(fs[1..], ms[1..]);
      SplitFieldsRun(ms[0], u);
      SplitFieldsPrefix(fs[0], ms[0] + u);
      assert Interleave(fs, ms) == fs[0] + (ms[0] + u);
      assert SplitFields(ms[0] + u) == [""] + fs[1..];
      assert fs[0] + "" == fs[0];
      assert [fs[0]] + fs[1..] == fs;
    }
  }
}
