/**
 * The ECMAScript string and array primitives that `src/utils/csvUtils.ts`
 * builds on: `String.prototype.split` with a one-character separator,
 * `String.prototype.trim`, `String.prototype.toLowerCase` (ASCII only),
 * `Array.prototype.indexOf`, and the regular-expression classes `\s`
 * and `\w`.
 */
module JsString {

  /** The code points ECMAScript counts as WhiteSpace or LineTerminator:
      exactly what `trim` strips and what the regex class `\s` matches. */
  const SpaceChars: set<char> := {
    '\t', '\n', '\U{000B}', '\U{000C}', '\r', ' ', '\U{00A0}', '\U{1680}',
    '\U{2000}', '\U{2001}', '\U{2002}', '\U{2003}', '\U{2004}', '\U{2005}',
    '\U{2006}', '\U{2007}', '\U{2008}', '\U{2009}', '\U{200A}',
    '\U{2028}', '\U{2029}', '\U{202F}', '\U{205F}', '\U{3000}', '\U{FEFF}'
  }

  predicate IsSpace(c: char) {
    c in SpaceChars
  }

  /** The regex class `\w` of a pattern without the `u` flag: ASCII letters,
      digits and the underscore, even under the `i` flag. */
  predicate IsWordChar(c: char) {
    ('a' <= c <= 'z') || ('A' <= c <= 'Z') || ('0' <= c <= '9') || c == '_'
  }

  predicate IsUpper(c: char) {
    'A' <= c <= 'Z'
  }

  predicate AllSpace(s: string) {
    forall k :: 0 <= k < |s| ==> IsSpace(s[k])
  }

  lemma AllSpaceConcat(a: string, b: string)
    requires AllSpace(a) && AllSpace(b)
    ensures AllSpace(a + b)
  {
    forall k | 0 <= k < |a + b| ensures IsSpace((a + b)[k]) {
      if k < |a| { assert (a + b)[k] == a[k]; } else { assert (a + b)[k] == b[k - |a|]; }
    }
  }

  /** Number of occurrences of `c` in `s`. */
  function Count(s: string, c: char): nat {
    if s == [] then 0 else (if s[0] == c then 1 else 0) + Count(s[1..], c)
  }

  // ---------------------------------------------------------------------
  // split
  // ---------------------------------------------------------------------

  /** `s.split(sep)` for a one-character separator: the maximal runs between
      separators, including empty ones; the empty string splits into `[""]`. */
  function Split(s: string, sep: char): (parts: seq<string>)
    ensures |parts| >= 1
    ensures forall k :: 0 <= k < |parts| ==> sep !in parts[k]
  {
    if s == [] then [""]
    else
      var rest := Split(s[1..], sep);
      if s[0] == sep then [""] + rest
      else [[s[0]] + rest[0]] + rest[1..]
  }

  /** `parts.join(sep)`: the inverse of `Split`. */
  function Join(parts: seq<string>, sep: char): string
    requires |parts| >= 1
  {
    if |parts| == 1 then parts[0] else parts[0] + [sep] + Join(parts[1..], sep)
  }

  /** Splitting yields one more piece than there are separators. */
  lemma {:induction false} SplitLength(s: string, sep: char)
    ensures |Split(s, sep)| == Count(s, sep) + 1
  {
    if s != [] {
      SplitLength(s[1..], sep);
    }
  }

  /** Joining the pieces back with the separator gives the input back. */
  lemma {:induction false} JoinSplit(s: string, sep: char)
    ensures Join(Split(s, sep), sep) == s
  {
    if s != [] {
      var rest := Split(s[1..], sep);
      JoinSplit(s[1..], sep);
      if s[0] == sep {
        assert Split(s, sep) == [""] + rest;
        assert ([""] + rest)[1..] == rest;
      } else {
        var parts := Split(s, sep);
        assert parts[1..] == rest[1..];
        if |rest| == 1 {
          assert Join(parts, sep) == [s[0]] + rest[0];
        } else {
          assert Join(parts, sep) == [s[0]] + rest[0] + [sep] + Join(rest[1..], sep);
          assert Join(rest, sep) == rest[0] + [sep] + Join(rest[1..], sep);
        }
      }
    }
  }

  /** A separator-free prefix glues onto the first piece. */
  lemma {:induction false} SplitFreePrefix(p: string, t: string, sep: char)
    requires sep !in p
    ensures Split(p + t, sep) == [p + Split(t, sep)[0]] + Split(t, sep)[1..]
  {
    if p != [] {
      assert (p + t)[1..] == p[1..] + t;
      SplitFreePrefix(p[1..], t, sep);
      assert [p[0]] + (p[1..] + Split(t, sep)[0]) == p + Split(t, sep)[0];
    } else {
      assert p + t == t;
      assert p + Split(t, sep)[0] == Split(t, sep)[0];
      assert [Split(t, sep)[0]] + Split(t, sep)[1..] == Split(t, sep);
    }
  }

  /** Splitting a join of separator-free pieces gives the pieces back. */
  lemma {:induction false} SplitJoin(parts: seq<string>, sep: char)
    requires |parts| >= 1
    requires forall k :: 0 <= k < |parts| ==> sep !in parts[k]
    ensures Split(Join(parts, sep), sep) == parts
  {
    if |parts| == 1 {
      SplitFreePrefix(parts[0], "", sep);
      assert parts[0] + "" == parts[0];
    } else {
      var tail := Join(parts[1..], sep);
      SplitJoin(parts[1..], sep);
      assert Split([sep] + tail, sep) == [""] + parts[1..];
      assert parts[0] + [sep] + tail == parts[0] + ([sep] + tail);
      SplitFreePrefix(parts[0], [sep] + tail, sep);
      assert parts[0] + "" == parts[0];
      assert [parts[0]] + parts[1..] == parts;
    }
  }

  // ---------------------------------------------------------------------
  // trim
  // ---------------------------------------------------------------------

  /** Length of the whitespace run at the start of `s`. */
  function LeadingSpaces(s: string): (n: nat)
    ensures n <= |s|
    ensures n < |s| ==> !IsSpace(s[n])
  {
    if s != [] && IsSpace(s[0]) then 1 + LeadingSpaces(s[1..]) else 0
  }

  /** Length of the whitespace run at the end of `s`. */
  function TrailingSpaces(s: string): (n: nat)
    ensures n <= |s|
    ensures n < |s| ==> !IsSpace(s[|s| - n - 1])
  {
    if s != [] && IsSpace(s[|s| - 1]) then 1 + TrailingSpaces(s[..|s| - 1]) else 0
  }

  /** The run `LeadingSpaces` measures is all whitespace. */
  lemma {:induction false} LeadingRun(s: string)
    ensures AllSpace(s[..LeadingSpaces(s)])
  {
    if s != [] && IsSpace(s[0]) {
      LeadingRun(s[1..]);
      assert s[..LeadingSpaces(s)] == [s[0]] + s[1..][..LeadingSpaces(s[1..])];
      AllSpaceConcat([s[0]], s[1..][..LeadingSpaces(s[1..])]);
    }
  }

  /** The run `TrailingSpaces` measures is all whitespace. */
  lemma {:induction false} TrailingRun(s: string)
    ensures AllSpace(s[|s| - TrailingSpaces(s)..])
  {
    if s != [] && IsSpace(s[|s| - 1]) {
      var u := s[..|s| - 1];
      TrailingRun(u);
      assert s[|s| - TrailingSpaces(s)..] == u[|u| - TrailingSpaces(u)..] + [s[|s| - 1]];
      AllSpaceConcat(u[|u| - TrailingSpaces(u)..], [s[|s| - 1]]);
    }
  }

  /** `s.trim()`: `s` without its leading and trailing whitespace. */
  function Trim(s: string): (r: string)
    ensures |r| <= |s|
    ensures r == [] || (!IsSpace(r[0]) && !IsSpace(r[|r| - 1]))
    ensures r == [] <==> AllSpace(s)
  {
    TrimCut(s);
    var rest := s[LeadingSpaces(s)..];
    rest[..|rest| - TrailingSpaces(rest)]
  }

  /** Cutting both whitespace runs leaves text with non-space ends, and
      leaves nothing exactly when the text is all whitespace. */
  lemma TrimCut(s: string)
    ensures var rest := s[LeadingSpaces(s)..];
            var r := rest[..|rest| - TrailingSpaces(rest)];
            && (r == [] || (!IsSpace(r[0]) && !IsSpace(r[|r| - 1])))
            && (r == [] <==> AllSpace(s))
  {
    var i := LeadingSpaces(s);
    var rest := s[i..];
    var t := TrailingSpaces(rest);
    CutEnds(s, i, rest, t);
    if t == |rest| {
      CutAll(s, i, rest);
    }
  }

  /** What is left between a cut of `i` characters at the front and `t` at
      the back, when neither cut can stop at a space. */
  lemma CutEnds(s: string, i: nat, rest: string, t: nat)
    requires i <= |s| && rest == s[i..] && t <= |rest|
    requires i < |s| ==> !IsSpace(s[i])
    requires t < |rest| ==> !IsSpace(rest[|rest| - t - 1])
    ensures var r := rest[..|rest| - t];
            && (r == [] || (!IsSpace(r[0]) && !IsSpace(r[|r| - 1])))
            && (r != [] ==> !AllSpace(s))
  {
    var r := rest[..|rest| - t];
    if r != [] {
      assert r[0] == s[i];
      assert r[|r| - 1] == rest[|rest| - t - 1];
    }
  }

  /** When both runs together cover the text, the text is all whitespace. */
  lemma CutAll(s: string, i: nat, rest: string)
    requires i == LeadingSpaces(s) && rest == s[i..] && TrailingSpaces(rest) == |rest|
    ensures AllSpace(s)
  {
    LeadingRun(s);
    TrailingRun(rest);
    assert rest[|rest| - TrailingSpaces(rest)..] == rest;
    assert s == s[..i] + rest;
    AllSpaceConcat(s[..i], rest);
  }

  /** `trim` removes whitespace only, and only at the two ends: the input is
      the result with a run of whitespace on each side. */
  lemma TrimIsSlice(s: string)
    ensures var i := LeadingSpaces(s);
            var r := Trim(s);
            && i + |r| <= |s|
            && s == s[..i] + r + s[i + |r|..]
            && AllSpace(s[..i]) && AllSpace(s[i + |r|..])
  {
    var i := LeadingSpaces(s);
    var rest := s[i..];
    var t := TrailingSpaces(rest);
    var r := Trim(s);
    assert r == rest[..|rest| - t];
    LeadingRun(s);
    TrailingRun(rest);
    SliceParts(s, i, rest, t, r);
  }

  /** Cutting `t` characters off the back of `s[i..]` splits `s` in three,
      and the part cut off is the tail of `s`. */
  lemma SliceParts(s: string, i: nat, rest: string, t: nat, r: string)
    requires i <= |s| && rest == s[i..] && t <= |rest| && r == rest[..|rest| - t]
    requires AllSpace(rest[|rest| - t..])
    ensures i + |r| <= |s|
    ensures s == s[..i] + r + s[i + |r|..]
    ensures AllSpace(s[i + |r|..])
  {
    assert s[i..][..|r|] == r;
    assert s[..i + |r|] == s[..i] + r;
    assert s == s[..i + |r|] + s[i + |r|..];
    assert s[i + |r|..] == rest[|rest| - t..];
  }

  /** Trimming twice is trimming once. */
  lemma TrimIdempotent(s: string)
    ensures Trim(Trim(s)) == Trim(s)
  {
    var r := Trim(s);
    if r != [] {
      assert LeadingSpaces(r) == 0;
      assert r[0..] == r;
      assert TrailingSpaces(r) == 0;
      assert r[..|r|] == r;
    }
  }

  // ---------------------------------------------------------------------
  // toLowerCase
  // ---------------------------------------------------------------------

  function LowerChar(c: char): char {
    if IsUpper(c) then (c as int + 32) as char else c
  }

  /** `s.toLowerCase()` on ASCII letters; other code points are kept. */
  function ToLowerCase(s: string): (r: string)
    ensures |r| == |s|
    ensures forall k :: 0 <= k < |r| ==> !IsUpper(r[k])
    ensures forall k :: 0 <= k < |s| && !IsUpper(s[k]) ==> r[k] == s[k]
    ensures forall k :: 0 <= k < |s| && IsUpper(s[k]) ==> r[k] == (s[k] as int + 32) as char
  {
    seq(|s|, k requires 0 <= k < |s| => LowerChar(s[k]))
  }

  // ---------------------------------------------------------------------
  // indexOf
  // ---------------------------------------------------------------------

  /** `s.indexOf(x)`: the first position holding `x`, or -1. */
  function IndexOf<T(==)>(s: seq<T>, x: T): (r: int)
    ensures -1 <= r < |s|
    ensures r == -1 <==> x !in s
    ensures 0 <= r ==> s[r] == x && forall k :: 0 <= k < r ==> s[k] != x
  {
    if s == [] then -1
    else if s[0] == x then 0
    else
      var t := IndexOf(s[1..], x);
      if t == -1 then -1 else t + 1
  }
}
