/** The few operations of Python's `str` that the crawler relies on: `strip()`,
    `replace(old, new)`, `split(sep)`, `sep.join(parts)`, `str(n)` and `int(s)`. */
module Text {

  import opened Wrappers

  /** The characters Python's `str.isspace()` accepts. */
  const Whitespace: set<char> := {
    ' ', '\t', '\n', '\U{0b}', '\U{0c}', '\r', '\U{1c}', '\U{1d}', '\U{1e}', '\U{1f}', '\U{85}', '\U{a0}',
    '\U{1680}', '\U{2000}', '\U{2001}', '\U{2002}', '\U{2003}', '\U{2004}', '\U{2005}', '\U{2006}',
    '\U{2007}', '\U{2008}', '\U{2009}', '\U{200a}', '\U{2028}', '\U{2029}', '\U{202f}', '\U{205f}', '\U{3000}'}

  /** Python's `str.isspace()` for a single character. */
  predicate IsSpace(c: char) {
    c in Whitespace
  }

  predicate IsDigit(c: char) {
    '0' <= c <= '9'
  }

  predicate AllDigits(s: string) {
    forall i :: 0 <= i < |s| ==> IsDigit(s[i])
  }

  // ---------------------------------------------------------------------------
  // strip()

  /** `s` with its leading whitespace removed. */
  function TrimLeft(s: string): (r: string)
    ensures |r| <= |s| && r == s[|s| - |r|..]
    ensures r == [] || !IsSpace(r[0])
  {
    if s != [] && IsSpace(s[0]) then TrimLeft(s[1..]) else s
  }

  /** `s` with its trailing whitespace removed. */
  function TrimRight(s: string): (r: string)
    ensures |r| <= |s| && r == s[..|r|]
    ensures r == [] || !IsSpace(r[|r| - 1])
  {
    if s != [] && IsSpace(s[|s| - 1]) then TrimRight(s[..|s| - 1]) else s
  }

  /** Python's `s.strip()`: what remains of `s` once its leading and trailing
      whitespace is removed. */
  function Strip(s: string): (r: string)
    ensures |r| <= |s|
    ensures r == [] || (!IsSpace(r[0]) && !IsSpace(r[|r| - 1]))
  {
    TrimRight(TrimLeft(s))
  }

  /** What `lstrip()` removes is whitespace. */
  lemma {:induction false} TrimLeftRemovesSpace(s: string)
    ensures forall i :: 0 <= i < |s| - |TrimLeft(s)| ==> IsSpace(s[i])
    decreases |s|
  {
    if s != [] && IsSpace(s[0]) {
      TrimLeftRemovesSpace(s[1..]);
      forall i | 1 <= i < |s| - |TrimLeft(s)| ensures IsSpace(s[i]) {
        assert s[i] == s[1..][i - 1];
      }
    }
  }

  /** What `rstrip()` removes is whitespace. */
  lemma {:induction false} TrimRightRemovesSpace(s: string)
    ensures forall i :: |TrimRight(s)| <= i < |s| ==> IsSpace(s[i])
    decreases |s|
  {
    if s != [] && IsSpace(s[|s| - 1]) {
      TrimRightRemovesSpace(s[..|s| - 1]);
      forall i | |TrimRight(s)| <= i < |s| - 1 ensures IsSpace(s[i]) {
        assert s[i] == s[..|s| - 1][i];
      }
    }
  }

  /** `strip()` is empty exactly when the whole string is whitespace. */
  lemma StripEmpty(s: string)
    ensures Strip(s) == [] <==> forall i :: 0 <= i < |s| ==> IsSpace(s[i])
  {
    var t := TrimLeft(s);
    TrimLeftRemovesSpace(s);
    TrimRightRemovesSpace(t);
    if Strip(s) == [] {
      forall i | 0 <= i < |s| ensures IsSpace(s[i]) {
        if i >= |s| - |t| {
          assert s[i] == t[i - (|s| - |t|)];
        }
      }
    } else if forall i :: 0 <= i < |s| ==> IsSpace(s[i]) {
      if t != [] {
        assert t[0] == s[|s| - |t|];
      }
    }
  }

  /** `strip()` returns a contiguous piece of its argument. */
  lemma StripIsSlice(s: string) returns (k: nat)
    ensures k + |Strip(s)| <= |s| && Strip(s) == s[k..k + |Strip(s)|]
  {
    var t := TrimLeft(s);
    k := |s| - |t|;
    assert Strip(s) == t[..|Strip(s)|];
  }

  /** A string that neither starts nor ends with whitespace is its own `strip()`. */
  lemma StripOfStripped(s: string)
    requires s == [] || (!IsSpace(s[0]) && !IsSpace(s[|s| - 1]))
    ensures Strip(s) == s
  {
  }

  /** A leading whitespace character does not change what `strip()` returns. */
  lemma StripLeadingSpace(c: char, s: string)
    requires IsSpace(c)
    ensures Strip([c] + s) == Strip(s)
  {
    assert ([c] + s)[1..] == s;
    assert TrimLeft([c] + s) == TrimLeft(s);
  }

  // ---------------------------------------------------------------------------
  // Occurrences of a pattern

  predicate OccursAt(s: string, pat: string, i: int) {
    0 <= i && i + |pat| <= |s| && s[i..i + |pat|] == pat
  }

  predicate Contains(s: string, pat: string) {
    exists i :: 0 <= i <= |s| - |pat| && OccursAt(s, pat, i)
  }

  /** A slice of a slice is a slice of the original. */
  lemma SliceOfSlice(s: string, a: int, b: int, i: int, n: nat)
    requires 0 <= a <= b <= |s|
    requires 0 <= i && i + n <= b - a
    ensures s[a..b][i..i + n] == s[a + i..a + i + n]
  {
    var x, y := s[a..b][i..i + n], s[a + i..a + i + n];
    forall k | 0 <= k < n ensures x[k] == y[k] {
      assert x[k] == s[a..b][i + k];
    }
  }

  /** A piece of a string has no occurrence that the whole string lacks. */
  lemma SliceKeepsAbsence(s: string, pat: string, a: int, b: int)
    requires 0 <= a <= b <= |s|
    requires !Contains(s, pat)
    ensures !Contains(s[a..b], pat)
  {
    forall i | 0 <= i && i + |pat| <= b - a ensures !OccursAt(s[a..b], pat, i) {
      SliceOfSlice(s, a, b, i, |pat|);
      assert !OccursAt(s, pat, a + i);
    }
  }

  /** A string equal to a piece of `s` has no occurrence that `s` lacks. */
  lemma PieceKeepsAbsence(s: string, pat: string, k: nat, v: string)
    requires k + |v| <= |s| && v == s[k..k + |v|]
    requires !Contains(s, pat)
    ensures !Contains(v, pat)
  {
    SliceKeepsAbsence(s, pat, k, k + |v|);
  }

  /** `strip()` brings in no occurrence of a pattern that its argument lacks. */
  lemma StripKeepsAbsence(s: string, pat: string)
    requires !Contains(s, pat)
    ensures !Contains(Strip(s), pat)
  {
    var k := StripIsSlice(s);
    PieceKeepsAbsence(s, pat, k, Strip(s));
  }

  /** A pattern occurs only where its first character does. */
  lemma AbsentFirstChar(s: string, pat: string)
    requires |pat| > 0
    requires forall i :: 0 <= i < |s| ==> s[i] != pat[0]
    ensures !Contains(s, pat)
  {
    forall i | 0 <= i <= |s| - |pat| ensures !OccursAt(s, pat, i) {
      assert s[i..i + |pat|][0] == s[i];
    }
  }

  /** A one-character pattern that does not occur is a character that does not appear. */
  lemma AbsentChar(s: string, c: char)
    requires !Contains(s, [c])
    ensures forall i :: 0 <= i < |s| ==> s[i] != c
  {
    forall i | 0 <= i < |s| ensures s[i] != c {
      assert !OccursAt(s, [c], i);
      assert s[i..i + 1] == [s[i]];
    }
  }

  /** The first occurrence of `pat` in `s`, if any. */
  function IndexOf(s: string, pat: string): (r: Option<nat>)
    requires |pat| > 0
    ensures r.Some? ==> OccursAt(s, pat, r.value)
    ensures r.Some? ==> forall j :: 0 <= j < r.value ==> !OccursAt(s, pat, j)
    ensures r.None? <==> !Contains(s, pat)
    decreases |s|
  {
    if |s| < |pat| then None
    else if s[..|pat|] == pat then
      assert OccursAt(s, pat, 0);
      Some(0)
    else
      var rest := IndexOf(s[1..], pat);
      forall j | 1 <= j ensures OccursAt(s, pat, j) <==> OccursAt(s[1..], pat, j - 1) {
        ShiftOccurrence(s, pat, j);
      }
      match rest
      case None => None
      case Some(k) => Some(k + 1)
  }

  lemma ShiftOccurrence(s: string, pat: string, j: int)
    requires 1 <= j && |s| > 0
    ensures OccursAt(s, pat, j) <==> OccursAt(s[1..], pat, j - 1)
  {
    if j + |pat| <= |s| {
      assert s[1..][j - 1..j - 1 + |pat|] == s[j..j + |pat|];
    }
  }

  /** Proof step for `split`: the first occurrence is where the pattern occurs with
      no earlier occurrence. */
  lemma IndexOfIsFirst(s: string, pat: string, i: nat)
    requires |pat| > 0
    requires OccursAt(s, pat, i)
    requires forall j :: 0 <= j < i ==> !OccursAt(s, pat, j)
    ensures IndexOf(s, pat) == Some(i)
  {
  }

  // ---------------------------------------------------------------------------
  // replace()

  /** Python's `s.replace(pat, rep)`: every occurrence found scanning from the left,
      without overlaps, is replaced. */
  function ReplaceAll(s: string, pat: string, rep: string): string
    requires |pat| > 0
    decreases |s|
  {
    if |s| < |pat| then s
    else if s[..|pat|] == pat then rep + ReplaceAll(s[|pat|..], pat, rep)
    else [s[0]] + ReplaceAll(s[1..], pat, rep)
  }

  /** When `pat` does not occur in `s`, replacing it changes nothing. */
  lemma {:induction false} ReplaceAbsent(s: string, pat: string, rep: string)
    requires |pat| > 0
    requires !Contains(s, pat)
    ensures ReplaceAll(s, pat, rep) == s
    decreases |s|
  {
    if |s| >= |pat| {
      assert !OccursAt(s, pat, 0);
      SliceKeepsAbsence(s, pat, 1, |s|);
      assert s[1..|s|] == s[1..];
      ReplaceAbsent(s[1..], pat, rep);
    }
  }

  /** Replacement text whose characters are foreign to the pattern, and a pattern whose
      first character does not recur in it: the conditions under which one pass of
      `replace` leaves no occurrence behind. */
  predicate CleanReplacement(pat: string, rep: string) {
    && |pat| > 0
    && |rep| > 0
    && (forall i, j :: 0 <= i < |rep| && 0 <= j < |pat| ==> rep[i] != pat[j])
    && (forall j :: 1 <= j < |pat| ==> pat[j] != pat[0])
  }

  /** A prefix made of characters that neither start the pattern nor appear in the
      replacement is copied unchanged from the input. */
  lemma {:induction false} ReplaceKeepsPlainPrefix(t: string, pat: string, rep: string, p: string)
    requires CleanReplacement(pat, rep)
    requires forall k :: 0 <= k < |p| ==> p[k] != pat[0]
    requires forall k, i :: 0 <= k < |p| && 0 <= i < |rep| ==> p[k] != rep[i]
    ensures |p| <= |ReplaceAll(t, pat, rep)| && ReplaceAll(t, pat, rep)[..|p|] == p
            ==> |p| <= |t| && t[..|p|] == p
    decreases |t|
  {
    var r := ReplaceAll(t, pat, rep);
    if p == [] {
    } else if |t| < |pat| {
      assert r == t;
    } else if t[..|pat|] == pat {
      assert r == rep + ReplaceAll(t[|pat|..], pat, rep);
      assert r[0] == rep[0] != p[0];
    } else {
      var r' := ReplaceAll(t[1..], pat, rep);
      assert r == [t[0]] + r';
      if |p| <= |r| && r[..|p|] == p {
        ConsPrefix(r, t[0], r', p);
      }
      ReplaceKeepsPlainPrefix(t[1..], pat, rep, p[1..]);
      if |p| <= |t| && t[1..][..|p| - 1] == p[1..] && t[0] == p[0] {
        PrefixOfCons(t, p);
      }
    }
  }

  /** A prefix of `[x] + b` is `x` followed by a prefix of `b`. */
  lemma ConsPrefix<T>(a: seq<T>, x: T, b: seq<T>, p: seq<T>)
    requires a == [x] + b && 0 < |p| <= |a| && a[..|p|] == p
    ensures x == p[0] && |p| - 1 <= |b| && b[..|p| - 1] == p[1..]
  {
    assert a[0] == p[0];
    forall k | 0 <= k < |p| - 1 ensures b[k] == p[1..][k] {
      assert b[k] == a[k + 1] == a[..|p|][k + 1];
    }
  }

  /** `p` is a prefix of `t` when their first elements agree and the rest of `p` is a
      prefix of the rest of `t`. */
  lemma PrefixOfCons<T>(t: seq<T>, p: seq<T>)
    requires 0 < |p| <= |t| && t[0] == p[0] && t[1..][..|p| - 1] == p[1..]
    ensures t[..|p|] == p
  {
    forall k | 0 <= k < |p| ensures t[..|p|][k] == p[k] {
      if k > 0 {
        assert t[k] == t[1..][..|p| - 1][k - 1];
        assert p[k] == p[1..][k - 1];
      }
    }
  }

  /** One pass of `replace` leaves no occurrence of the pattern. */
  lemma {:induction false} ReplaceRemovesPattern(s: string, pat: string, rep: string)
    requires CleanReplacement(pat, rep)
    ensures !Contains(ReplaceAll(s, pat, rep), pat)
    decreases |s|
  {
    var r := ReplaceAll(s, pat, rep);
    if |s| < |pat| {
    } else if s[..|pat|] == pat {
      var rest := ReplaceAll(s[|pat|..], pat, rep);
      ReplaceRemovesPattern(s[|pat|..], pat, rep);
      assert r == rep + rest;
      forall i | 0 <= i <= |r| - |pat| ensures !OccursAt(r, pat, i) {
        if i < |rep| {
          assert r[i] == rep[i];
        } else {
          assert rest[i - |rep|..i - |rep| + |pat|] == r[i..i + |pat|];
          assert !OccursAt(rest, pat, i - |rep|);
        }
      }
    } else {
      var rest := ReplaceAll(s[1..], pat, rep);
      ReplaceRemovesPattern(s[1..], pat, rep);
      assert r == [s[0]] + rest;
      forall i | 0 <= i <= |r| - |pat| ensures !OccursAt(r, pat, i) {
        if i == 0 {
          if OccursAt(r, pat, 0) {
            var p := pat[1..];
            assert rest[..|p|] == p;
            ReplaceKeepsPlainPrefix(s[1..], pat, rep, p);
            assert false;
          }
        } else {
          assert rest[i - 1..i - 1 + |pat|] == r[i..i + |pat|];
          assert !OccursAt(rest, pat, i - 1);
        }
      }
    }
  }

  /** Replacing one character by another is a character-wise map. */
  lemma {:induction false} ReplaceCharAt(s: string, c: char, d: char)
    ensures |ReplaceAll(s, [c], [d])| == |s|
    ensures forall i :: 0 <= i < |s| ==> ReplaceAll(s, [c], [d])[i] == if s[i] == c then d else s[i]
    decreases |s|
  {
    if s != [] {
      ReplaceCharAt(s[1..], c, d);
      if s[..1] == [c] {
        assert s[0] == c;
      } else {
        assert s[0] != c;
      }
    }
  }

  /** Replacing a character by one foreign to `pat` creates no occurrence of `pat`. */
  lemma ReplaceCharKeepsAbsence(s: string, c: char, d: char, pat: string)
    requires forall j :: 0 <= j < |pat| ==> pat[j] != d
    requires !Contains(s, pat)
    ensures !Contains(ReplaceAll(s, [c], [d]), pat)
  {
    var r := ReplaceAll(s, [c], [d]);
    ReplaceCharAt(s, c, d);
    forall i | OccursAt(r, pat, i) ensures false {
      forall k | 0 <= k < |pat| ensures s[i + k] == pat[k] {
        assert r[i + k] == r[i..i + |pat|][k];
      }
      assert s[i..i + |pat|] == pat;
      assert OccursAt(s, pat, i);
    }
  }

  // ---------------------------------------------------------------------------
  // split() and join()

  /** Python's `s.split(sep)` for a non-empty separator: the pieces between the
      occurrences found scanning from the left. */
  function SplitOn(s: string, sep: string): (parts: seq<string>)
    requires |sep| > 0
    ensures |parts| > 0
    decreases |s|
  {
    match IndexOf(s, sep)
    case None => [s]
    case Some(i) => [s[..i]] + SplitOn(s[i + |sep|..], sep)
  }

  /** No piece of a split contains the separator. */
  lemma {:induction false} SplitOnPieces(s: string, sep: string)
    requires |sep| > 0
    ensures forall k :: 0 <= k < |SplitOn(s, sep)| ==> !Contains(SplitOn(s, sep)[k], sep)
    decreases |s|
  {
    match IndexOf(s, sep)
    case None =>
    case Some(i) =>
      var rest := s[i + |sep|..];
      SplitOnPieces(rest, sep);
      BeforeFirstOccurrence(s, sep, i);
      ConsPieces(s[..i], SplitOn(rest, sep), sep);
      SplitOnFound(s, sep, i);
  }

  /** Nothing before the first occurrence of `sep` contains it. */
  lemma BeforeFirstOccurrence(s: string, sep: string, i: nat)
    requires |sep| > 0 && IndexOf(s, sep) == Some(i)
    ensures !Contains(s[..i], sep)
  {
    forall j | 0 <= j <= i - |sep| ensures !OccursAt(s[..i], sep, j) {
      assert s[..i][j..j + |sep|] == s[j..j + |sep|];
      assert !OccursAt(s, sep, j);
    }
  }

  /** Pieces free of `sep` stay free of it with one more in front. */
  lemma ConsPieces(x: string, tail: seq<string>, sep: string)
    requires !Contains(x, sep)
    requires forall k :: 0 <= k < |tail| ==> !Contains(tail[k], sep)
    ensures forall k :: 0 <= k < |[x] + tail| ==> !Contains(([x] + tail)[k], sep)
  {
    forall k | 0 <= k < |[x] + tail| ensures !Contains(([x] + tail)[k], sep) {
      if k > 0 {
        assert ([x] + tail)[k] == tail[k - 1];
      }
    }
  }


  /** Python's `sep.join(parts)`. */
  function JoinWith(sep: string, parts: seq<string>): string
    decreases |parts|
  {
    if |parts| == 0 then ""
    else if |parts| == 1 then parts[0]
    else parts[0] + sep + JoinWith(sep, parts[1..])
  }

  lemma SplitOnFound(s: string, sep: string, i: nat)
    requires |sep| > 0 && IndexOf(s, sep) == Some(i)
    ensures SplitOn(s, sep) == [s[..i]] + SplitOn(s[i + |sep|..], sep)
  {
  }

  lemma JoinCons(sep: string, x: string, parts: seq<string>)
    requires |parts| > 0
    ensures JoinWith(sep, [x] + parts) == x + sep + JoinWith(sep, parts)
  {
    assert ([x] + parts)[1..] == parts;
  }

  /** Joining the pieces of a split with the same separator gives back the string. */
  lemma {:induction false} JoinSplit(s: string, sep: string)
    requires |sep| > 0
    ensures JoinWith(sep, SplitOn(s, sep)) == s
    decreases |s|
  {
    var idx := IndexOf(s, sep);
    if idx.Some? {
      var i := idx.value;
      var rest := s[i + |sep|..];
      JoinSplit(rest, sep);
      calc {
        JoinWith(sep, SplitOn(s, sep));
        == { SplitOnFound(s, sep, i); }
        JoinWith(sep, [s[..i]] + SplitOn(rest, sep));
        == { JoinCons(sep, s[..i], SplitOn(rest, sep)); }
        s[..i] + sep + rest;
        == { SliceAround(s, i, |sep|); }
        s;
      }
    }
  }

  /** Proof step for `split`: a string is the slice before a window, the window and
      the slice after it. */
  lemma SliceAround(s: string, i: nat, n: nat)
    requires i + n <= |s|
    ensures s[..i] + s[i..i + n] + s[i + n..] == s
  {
  }

  /** Splitting a join on a one-character separator that no piece contains gives the
      pieces back. */
  lemma {:induction false} SplitJoin(parts: seq<string>, c: char)
    requires |parts| > 0
    requires forall k :: 0 <= k < |parts| ==> !Contains(parts[k], [c])
    ensures SplitOn(JoinWith([c], parts), [c]) == parts
    decreases |parts|
  {
    if |parts| > 1 {
      var p0, rest := parts[0], JoinWith([c], parts[1..]);
      var s := p0 + [c] + rest;
      calc {
        SplitOn(JoinWith([c], parts), [c]);
        SplitOn(s, [c]);
        == { SplitAtFirst(p0, c, rest); }
        [p0] + SplitOn(rest, [c]);
        == { SplitJoin(parts[1..], c); }
        [p0] + parts[1..];
        parts;
      }
    } else {
      assert JoinWith([c], parts) == parts[0];
    }
  }

  /** A string whose first separator follows `p0` splits into `p0` and the pieces
      of what follows that separator. */
  lemma SplitAtFirst(p0: string, c: char, rest: string)
    requires !Contains(p0, [c])
    ensures SplitOn(p0 + [c] + rest, [c]) == [p0] + SplitOn(rest, [c])
  {
    var s := p0 + [c] + rest;
    assert s[|p0|..|p0| + 1] == [c];
    forall j | 0 <= j < |p0| ensures !OccursAt(s, [c], j) {
      assert s[j..j + 1] == p0[j..j + 1];
      assert !OccursAt(p0, [c], j);
    }
    IndexOfIsFirst(s, [c], |p0|);
    assert s[..|p0|] == p0 && s[|p0| + 1..] == rest;
    SplitOnFound(s, [c], |p0|);
  }

  /** `a + sep + b` splits into exactly `a` and `b` when the only occurrence of `sep`
      is the one between them. */
  lemma SplitAroundOnly(a: string, sep: string, b: string)
    requires |sep| > 0
    requires forall j :: 0 <= j < |a| ==> !OccursAt(a + sep + b, sep, j)
    requires !Contains(b, sep)
    ensures SplitOn(a + sep + b, sep) == [a, b]
  {
    var s := a + sep + b;
    assert s[|a|..|a| + |sep|] == sep;
    IndexOfIsFirst(s, sep, |a|);
    assert s[..|a|] == a && s[|a| + |sep|..] == b;
    assert SplitOn(b, sep) == [b];
  }

  // ---------------------------------------------------------------------------
  // str(n) and int(s)

  function DigitChar(d: int): (c: char)
    requires 0 <= d < 10
    ensures IsDigit(c) && c as int - 48 == d
  {
    (48 + d) as char
  }

  function DigitValue(c: char): (d: nat)
    requires IsDigit(c)
    ensures d < 10 && DigitChar(d) == c
  {
    c as int - 48
  }

  /** Python's `str(n)` for a natural number: its decimal digits, no leading zeros. */
  function NatToString(n: nat): string
  {
    if n < 10 then [DigitChar(n)] else NatToString(n / 10) + [DigitChar(n % 10)]
  }

  /** `str(n)` of a natural number is a non-empty run of digits whose first digit is
      not `0` unless `n` is. */
  lemma {:induction false} NatToStringDigits(n: nat)
    ensures var r := NatToString(n); |r| > 0 && AllDigits(r) && (r[0] != '0' || n == 0)
  {
    if n >= 10 {
      NatToStringDigits(n / 10);
    }
  }

  /** Python's `str(n)`. */
  function IntToString(n: int): string
  {
    if n < 0 then "-" + NatToString(-n) else NatToString(n)
  }

  /** `str(n)` ends in a digit, and is all digits when `n` is not negative. */
  lemma IntToStringDigits(n: int)
    ensures var r := IntToString(n); |r| > 0 && IsDigit(r[|r| - 1]) && (n >= 0 ==> AllDigits(r))
  {
    NatToStringDigits(if n < 0 then -n else n);
  }

  /** The number a string of decimal digits denotes. */
  function DigitsValue(s: string): nat
    requires AllDigits(s)
  {
    if s == [] then 0 else DigitsValue(s[..|s| - 1]) * 10 + DigitValue(s[|s| - 1])
  }

  /** Python's `int(s)` on a string: surrounding whitespace is ignored, then an
      optional sign and at least one decimal digit. */
  function ParseInt(s: string): Option<int> {
    var t := Strip(s);
    if t == [] then None
    else if t[0] == '-' || t[0] == '+' then
      var digits := t[1..];
      if digits != [] && AllDigits(digits) then
        var v: int := DigitsValue(digits);
        Some(if t[0] == '-' then -v else v)
      else None
    else if AllDigits(t) then Some(DigitsValue(t))
    else None
  }

  lemma {:induction false} DigitsOfNat(n: nat)
    ensures AllDigits(NatToString(n))
    ensures DigitsValue(NatToString(n)) == n
  {
    NatToStringDigits(n);
    if n >= 10 {
      DigitsOfNat(n / 10);
      var s := NatToString(n);
      assert s[..|s| - 1] == NatToString(n / 10);
    }
  }

  /** A digit or a sign is not whitespace. */
  lemma NotSpace(c: char)
    requires IsDigit(c) || c == '-'
    ensures !IsSpace(c)
  {
  }

  /** `int(str(n)) == n`. */
  lemma ParseIntToString(n: int)
    ensures ParseInt(IntToString(n)) == Some(n)
  {
    if n < 0 {
      ParseNegativeString(n);
    } else {
      ParseNatString(n);
    }
  }

  /** `int(str(n))` gives back a natural number. */
  lemma ParseNatString(n: int)
    requires n >= 0
    ensures ParseInt(IntToString(n)) == Some(n)
  {
    NatToStringDigits(n);
    DigitsOfNat(n);
    ParseDigits(NatToString(n), n);
  }

  /** The digits of `v`, unsigned, parse as `v`. */
  lemma ParseDigits(d: string, v: nat)
    requires d != [] && AllDigits(d) && DigitsValue(d) == v
    ensures ParseInt(d) == Some(v)
  {
    NotSpace(d[0]);
    NotSpace(d[|d| - 1]);
    StripOfStripped(d);
    assert d[0] != '-' && d[0] != '+';
  }

  /** `int(str(n))` gives back a negative number. */
  lemma ParseNegativeString(n: int)
    requires n < 0
    ensures ParseInt(IntToString(n)) == Some(n)
  {
    NatToStringDigits(-n);
    DigitsOfNat(-n);
    ParseMinus(NatToString(-n), -n);
  }

  /** A minus sign followed by the digits of `v` parses as `-v`. */
  lemma ParseMinus(d: string, v: nat)
    requires d != [] && AllDigits(d) && DigitsValue(d) == v
    ensures ParseInt("-" + d) == Some(-(v as int))
  {
    var s := "-" + d;
    assert s[1..] == d && s[0] == '-';
    NotSpace(s[0]);
    assert s[|s| - 1] == d[|d| - 1];
    NotSpace(d[|d| - 1]);
    StripOfStripped(s);
    ParseNegativeDigits(s);
  }

  /** A stripped minus sign followed by digits parses as the negated digits. */
  lemma ParseNegativeDigits(s: string)
    requires |s| > 1 && s[0] == '-' && AllDigits(s[1..]) && Strip(s) == s
    ensures ParseInt(s) == Some(-(DigitsValue(s[1..]) as int))
  {
  }



  /** `str` is injective: distinct numbers print differently. */
  lemma IntToStringInjective(m: int, n: int)
    requires IntToString(m) == IntToString(n)
    ensures m == n
  {
    ParseIntToString(m);
    ParseIntToString(n);
  }
}
