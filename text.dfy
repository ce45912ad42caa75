/**
  The Python string methods the program relies on, on `string` (a sequence of
  Unicode scalar values): `str.strip()`, `str.splitlines()`, the substring test
  `key in text`, and `str.replace(key, val)` for a non-empty key.
*/
module Text {

  /** Python's `str.isspace()` on one character: the set `str.strip()` removes. */
  predicate IsSpace(c: char) {
    var n := c as int;
    (0x09 <= n <= 0x0D) || (0x1C <= n <= 0x20) || n == 0x85 || n == 0xA0 || n == 0x1680
    || (0x2000 <= n <= 0x200A) || n == 0x2028 || n == 0x2029 || n == 0x202F
    || n == 0x205F || n == 0x3000
  }

  /** The characters at which `str.splitlines()` ends a line ("\r\n" counts once). */
  predicate IsLineBreak(c: char) {
    var n := c as int;
    (0x0A <= n <= 0x0D) || (0x1C <= n <= 0x1E) || n == 0x85 || n == 0x2028 || n == 0x2029
  }

  predicate AllSpace(s: string) {
    forall i :: 0 <= i < |s| ==> IsSpace(s[i])
  }

  predicate NoBreak(s: string) {
    forall i :: 0 <= i < |s| ==> !IsLineBreak(s[i])
  }

  // ---------------------------------------------------------------------------
  // str.strip()

  /** `s` without its leading whitespace. */
  function TrimStart(s: string): string
  {
    if s != [] && IsSpace(s[0]) then TrimStart(s[1..]) else s
  }

  /** `s` without its trailing whitespace. */
  function TrimEnd(s: string): string
  {
    if s != [] && IsSpace(s[|s| - 1]) then TrimEnd(s[..|s| - 1]) else s
  }

  /** Python's `s.strip()`: leading and trailing whitespace removed. */
  function Strip(s: string): string
  {
    TrimEnd(TrimStart(s))
  }

  /** `TrimStart` cuts off a prefix that is all whitespace, and no more. */
  lemma {:induction false} TrimStartSpec(s: string)
    ensures var r := TrimStart(s);
      |r| <= |s| && r == s[|s| - |r|..] && AllSpace(s[..|s| - |r|])
      && (r == [] || !IsSpace(r[0]))
    decreases |s|
  {
    if s != [] && IsSpace(s[0]) {
      TrimStartSpec(s[1..]);
      var r := TrimStart(s[1..]);
      assert s[..|s| - |r|] == [s[0]] + s[1..][..|s| - 1 - |r|];
    }
  }

  /** `TrimEnd` cuts off a suffix that is all whitespace, and no more. */
  lemma {:induction false} TrimEndSpec(s: string)
    ensures var r := TrimEnd(s);
      |r| <= |s| && r == s[..|r|] && AllSpace(s[|r|..])
      && (r == [] || !IsSpace(r[|r| - 1]))
    decreases |s|
  {
    if s != [] && IsSpace(s[|s| - 1]) {
      var p := s[..|s| - 1];
      TrimEndSpec(p);
      var r := TrimEnd(p);
      assert s[|r|..] == p[|r|..] + [s[|s| - 1]];
      assert p[..|r|] == s[..|r|];
    }
  }

  /** The result of `Strip` is a slice of the input with only whitespace cut
      off on either side, and it neither starts nor ends with whitespace. */
  lemma StripSlice(s: string)
    ensures var i, r := |s| - |TrimStart(s)|, Strip(s);
      0 <= i && i + |r| <= |s| && r == s[i..i + |r|]
      && AllSpace(s[..i]) && AllSpace(s[i + |r|..])
      && (r == [] || (!IsSpace(r[0]) && !IsSpace(r[|r| - 1])))
  {
    var t := TrimStart(s);
    TrimStartSpec(s);
    TrimEndSpec(t);
    var i, r := |s| - |t|, Strip(s);
    assert t == s[i..];
    assert r == t[..|r|];
    assert t[|r|..] == s[i + |r|..];
    if r != [] {
      assert r[0] == t[0];
    }
  }

  /** A string without outer whitespace is left alone by `Strip`. */
  lemma StripUnchanged(s: string)
    requires s == [] || (!IsSpace(s[0]) && !IsSpace(s[|s| - 1]))
    ensures Strip(s) == s
  {
  }

  lemma StripIdempotent(s: string)
    ensures Strip(Strip(s)) == Strip(s)
  {
    StripSlice(s);
    StripUnchanged(Strip(s));
  }

  /** `Strip` yields the empty string exactly when the input is all whitespace. */
  lemma StripEmptyIff(s: string)
    ensures Strip(s) == [] <==> AllSpace(s)
  {
    StripSlice(s);
    var t := TrimStart(s);
    TrimStartSpec(s);
    TrimEndSpec(t);
    var i := |s| - |t|;
    if Strip(s) == [] {
      assert t[0..] == t;
      assert s[..i] == s;
    } else {
      var r := Strip(s);
      assert s[i] == r[0];
    }
  }

  // ---------------------------------------------------------------------------
  // str.splitlines()

  /** The line terminators `str.splitlines()` recognises. */
  predicate IsTerminator(t: string) {
    (|t| == 1 && IsLineBreak(t[0])) || t == "\r\n"
  }

  /** Splits `s` at its first line terminator: the line, the terminator
      (empty when the text ends without one) and what follows it. */
  function LineEnd(s: string): (r: (string, string, string))
    requires s != []
    ensures s == r.0 + r.1 + r.2 && |r.2| < |s|
    ensures NoBreak(r.0)
    ensures if r.1 == [] then r.2 == [] else IsTerminator(r.1)
  {
    if IsLineBreak(s[0]) then
      if s[0] == '\r' && |s| > 1 && s[1] == '\n' then
        assert s == s[..2] + s[2..];
        ([], s[..2], s[2..])
      else
        assert s == [s[0]] + s[1..];
        ([], [s[0]], s[1..])
    else if |s| == 1 then
      (s, [], [])
    else
      var (l, t, rest) := LineEnd(s[1..]);
      var line := [s[0]] + l;
      assert s == [s[0]] + s[1..];
      assert NoBreak(line) by {
        assert forall i :: 1 <= i < |line| ==> line[i] == l[i - 1];
      }
      (line, t, rest)
  }

  /** Python's `s.splitlines()`: the lines of `s` without their terminators;
      a final terminator does not start an empty last line. */
  function SplitLines(s: string): (lines: seq<string>)
    ensures forall i :: 0 <= i < |lines| ==> NoBreak(lines[i])
    decreases |s|
  {
    if s == [] then [] else
      var (l, _, rest) := LineEnd(s);
      [l] + SplitLines(rest)
  }

  /** `"\n".join(lines)`. */
  function JoinLines(lines: seq<string>): string
  {
    if lines == [] then "" else if |lines| == 1 then lines[0] else lines[0] + "\n" + JoinLines(lines[1..])
  }

  lemma {:induction false} LineEndOfLine(l: string, rest: string, last: bool)
    requires NoBreak(l)
    requires last ==> l != [] && rest == []
    ensures var s := if last then l else l + "\n" + rest;
      s != [] && LineEnd(s) == (l, if last then "" else "\n", rest)
  {
    var s := if last then l else l + "\n" + rest;
    if l == [] {
      assert s == "\n" + rest;
    } else if last && |l| == 1 {
    } else {
      assert s[0] == l[0] && l == [l[0]] + l[1..];
      assert s[1..] == if last then l[1..] else l[1..] + "\n" + rest;
      LineEndOfLine(l[1..], rest, last);
    }
  }

  /** Joining keeps the first character of the first line and the last
      character of the last line at the two ends. */
  lemma {:induction false} JoinLinesEnds(lines: seq<string>)
    requires lines != [] && lines[|lines| - 1] != []
    ensures var s := JoinLines(lines);
      s != [] && s[|s| - 1] == lines[|lines| - 1][|lines[|lines| - 1]| - 1]
      && (lines[0] != [] ==> s[0] == lines[0][0])
  {
    if |lines| > 1 {
      JoinLinesEnds(lines[1..]);
    }
  }

  /** Round trip: splitting lines joined with "\n" gives the lines back, as
      long as they hold no line break and the last one is not empty. */
  lemma {:induction false} SplitJoinLines(lines: seq<string>)
    requires forall i :: 0 <= i < |lines| ==> NoBreak(lines[i])
    requires lines == [] || lines[|lines| - 1] != []
    ensures SplitLines(JoinLines(lines)) == lines
  {
    if |lines| == 1 {
      LineEndOfLine(lines[0], [], true);
    } else if |lines| > 1 {
      var rest := JoinLines(lines[1..]);
      LineEndOfLine(lines[0], rest, false);
      SplitJoinLines(lines[1..]);
    }
  }

  // ---------------------------------------------------------------------------
  // `key in text` and str.replace(key, val)

  /** Python's `k in s`: `k` occurs in `s` as a substring. */
  predicate Contains(s: string, k: string)
    decreases |s|
  {
    |k| <= |s| && (s[..|k|] == k || (|s| > 0 && Contains(s[1..], k)))
  }

  /** `Contains` finds an actual occurrence: a position where `k` starts. */
  lemma {:induction false} ContainsWitness(s: string, k: string) returns (w: nat)
    requires Contains(s, k)
    ensures w + |k| <= |s| && s[w..w + |k|] == k
    decreases |s|
  {
    if s[..|k|] == k {
      w := 0;
    } else {
      var w' := ContainsWitness(s[1..], k);
      w := w' + 1;
      assert s[1..][w'..w' + |k|] == s[w..w + |k|];
    }
  }

  /** Conversely, an occurrence at any position makes `Contains` true. */
  lemma {:induction false} ContainsAt(s: string, k: string, w: nat)
    requires w + |k| <= |s| && s[w..w + |k|] == k
    ensures Contains(s, k)
    decreases w
  {
    if w > 0 {
      assert s[1..][w - 1..w - 1 + |k|] == s[w..w + |k|];
      ContainsAt(s[1..], k, w - 1);
    }
  }

  /** Python's `s.replace(k, v)` for a non-empty `k`: a left-to-right scan that
      replaces every non-overlapping occurrence of `k` by `v`. */
  function ReplaceAll(s: string, k: string, v: string): string
    requires |k| > 0
    decreases |s|
  {
    if |s| < |k| then s
    else if s[..|k|] == k then v + ReplaceAll(s[|k|..], k, v)
    else [s[0]] + ReplaceAll(s[1..], k, v)
  }

  /** Python's `s.split(k)` for a non-empty `k`: the pieces between the
      occurrences `ReplaceAll` finds. No piece contains `k`. */
  function Split(s: string, k: string): (parts: seq<string>)
    requires |k| > 0
    ensures |parts| >= 1 && |parts[0]| <= |s| && parts[0] == s[..|parts[0]|]
    ensures forall i :: 0 <= i < |parts| ==> !Contains(parts[i], k)
    decreases |s|
  {
    if |s| < |k| then [s]
    else if s[..|k|] == k then [""] + Split(s[|k|..], k)
    else
      var p := Split(s[1..], k);
      var head := [s[0]] + p[0];
      assert head == s[..|head|];
      assert !Contains(head, k) by {
        if |k| <= |head| { assert head[..|k|] == s[..|k|]; }
      }
      [head] + p[1..]
  }

  /** `sep.join(parts)`. */
  function Join(parts: seq<string>, sep: string): string
    requires |parts| >= 1
  {
    if |parts| == 1 then parts[0] else parts[0] + sep + Join(parts[1..], sep)
  }

  /** `s.replace(k, v) == v.join(s.split(k))`: replacing is splitting at the
      occurrences of `k` and gluing the pieces back together with `v`. */
  lemma {:induction false} ReplaceAllIsJoinOfSplit(s: string, k: string, v: string)
    requires |k| > 0
    ensures ReplaceAll(s, k, v) == Join(Split(s, k), v)
    decreases |s|
  {
    if |s| < |k| {
    } else if s[..|k|] == k {
      ReplaceAllIsJoinOfSplit(s[|k|..], k, v);
    } else {
      ReplaceAllIsJoinOfSplit(s[1..], k, v);
      var p := Split(s[1..], k);
      assert Split(s, k) == [[s[0]] + p[0]] + p[1..];
      JoinConsHead(s[0], p, v);
    }
  }

  lemma JoinConsHead(c: char, p: seq<string>, v: string)
    requires |p| >= 1
    ensures Join([[c] + p[0]] + p[1..], v) == [c] + Join(p, v)
  {
    var q := [[c] + p[0]] + p[1..];
    if |p| > 1 {
      assert q[1..] == p[1..];
    }
  }

  /** Replacing `k` by itself changes nothing. */
  lemma {:induction false} ReplaceAllSelf(s: string, k: string)
    requires |k| > 0
    ensures ReplaceAll(s, k, k) == s
    decreases |s|
  {
    if |s| < |k| {
    } else if s[..|k|] == k {
      ReplaceAllSelf(s[|k|..], k);
      assert s == s[..|k|] + s[|k|..];
    } else {
      ReplaceAllSelf(s[1..], k);
      assert s == [s[0]] + s[1..];
    }
  }

  /** Round trip: `k.join(s.split(k)) == s`. */
  lemma SplitJoinRoundTrip(s: string, k: string)
    requires |k| > 0
    ensures Join(Split(s, k), k) == s
  {
    ReplaceAllIsJoinOfSplit(s, k, k);
    ReplaceAllSelf(s, k);
  }

  /** A text that does not contain the key is returned unchanged. */
  lemma {:induction false} ReplaceAllAbsent(s: string, k: string, v: string)
    requires |k| > 0 && !Contains(s, k)
    ensures ReplaceAll(s, k, v) == s
    decreases |s|
  {
    if |s| >= |k| {
      ReplaceAllAbsent(s[1..], k, v);
      assert s == [s[0]] + s[1..];
    }
  }

  /** Replacing a one-character key by a one-character value substitutes that
      character position by position and keeps the length. */
  lemma {:induction false} ReplaceAllChar(s: string, c: char, d: char)
    ensures var r := ReplaceAll(s, [c], [d]);
      |r| == |s| && forall i :: 0 <= i < |s| ==> r[i] == (if s[i] == c then d else s[i])
    decreases |s|
  {
    if s != [] {
      ReplaceAllChar(s[1..], c, d);
      var r, t := ReplaceAll(s, [c], [d]), ReplaceAll(s[1..], [c], [d]);
      assert s[..1] == [s[0]];
      assert r == [if s[0] == c then d else s[0]] + t;
    }
  }
}
