/**
  The three Python string operations the trainer relies on, with Python's meaning:
  `str.strip()` with no argument, `str.split(sep)` with a one-character separator,
  and the substring test `pat in s`.
 */
module Text {

  /** Python's `str.isspace()` for a single character. */
  predicate IsSpace(c: char) {
    ('\t' <= c <= '\r') || ('\U{1c}' <= c <= '\U{1f}') || c == ' ' || c == '\U{85}' || c == '\U{a0}'
    || c == '\U{1680}' || ('\U{2000}' <= c <= '\U{200a}') || c == '\U{2028}' || c == '\U{2029}'
    || c == '\U{202f}' || c == '\U{205f}' || c == '\U{3000}'
  }

  predicate AllSpace(s: string) {
    forall i | 0 <= i < |s| :: IsSpace(s[i])
  }

  /** Neither empty nor padded: what `strip()` leaves of a string that is not blank. */
  predicate IsStripped(s: string) {
    s != [] && !IsSpace(s[0]) && !IsSpace(s[|s| - 1])
  }

  /** `str.lstrip()`: the suffix left after the leading whitespace. */
  function TrimStart(s: string): string {
    if s != [] && IsSpace(s[0]) then TrimStart(s[1..]) else s
  }

  /** `lstrip()` cuts off a whitespace prefix and stops at the first other character. */
  lemma {:induction false} TrimStartSpec(s: string)
    ensures |TrimStart(s)| <= |s| && TrimStart(s) == s[|s| - |TrimStart(s)|..]
    ensures AllSpace(s[..|s| - |TrimStart(s)|])
    ensures TrimStart(s) == [] || !IsSpace(TrimStart(s)[0])
  {
    if s != [] && IsSpace(s[0]) {
      TrimStartSpec(s[1..]);
      var r := TrimStart(s[1..]);
      assert s[..|s| - |r|] == [s[0]] + s[1..][..|s| - 1 - |r|];
      AllSpaceConcat([s[0]], s[1..][..|s| - 1 - |r|]);
    } else {
      assert s[..0] == [];
    }
  }

  /** `str.rstrip()`: the prefix left before the trailing whitespace. */
  function TrimEnd(s: string): string {
    if s != [] && IsSpace(s[|s| - 1]) then TrimEnd(s[..|s| - 1]) else s
  }

  /** `rstrip()` cuts off a whitespace suffix and stops at the last other character. */
  lemma {:induction false} TrimEndSpec(s: string)
    ensures |TrimEnd(s)| <= |s| && TrimEnd(s) == s[..|TrimEnd(s)|]
    ensures AllSpace(s[|TrimEnd(s)|..])
    ensures TrimEnd(s) == [] || !IsSpace(TrimEnd(s)[|TrimEnd(s)| - 1])
  {
    if s != [] && IsSpace(s[|s| - 1]) {
      var s' := s[..|s| - 1];
      TrimEndSpec(s');
      var r := TrimEnd(s');
      assert s[|r|..] == s'[|r|..] + [s[|s| - 1]];
      AllSpaceConcat(s'[|r|..], [s[|s| - 1]]);
    } else {
      assert s[|s|..] == [];
    }
  }

  lemma AllSpaceConcat(x: string, y: string)
    ensures AllSpace(x + y) <==> AllSpace(x) && AllSpace(y)
  {
    if AllSpace(x) && AllSpace(y) {
      forall i | 0 <= i < |x + y| ensures IsSpace((x + y)[i]) {
        if i >= |x| { assert (x + y)[i] == y[i - |x|]; }
      }
    }
    if AllSpace(x + y) {
      forall i | 0 <= i < |x| ensures IsSpace(x[i]) { assert (x + y)[i] == x[i]; }
      forall i | 0 <= i < |y| ensures IsSpace(y[i]) { assert (x + y)[|x| + i] == y[i]; }
    }
  }

  /** `str.strip()`: empty exactly for a blank string, otherwise stripped on both ends. */
  function Strip(s: string): (r: string)
    ensures r == [] <==> AllSpace(s)
    ensures r == [] || IsStripped(r)
  {
    var t := TrimStart(s);
    var r := TrimEnd(t);
    StripCore(s, t, r);
    r
  }

  lemma StripCore(s: string, t: string, r: string)
    requires t == TrimStart(s) && r == TrimEnd(t)
    ensures r == [] <==> AllSpace(s)
    ensures r == [] || IsStripped(r)
  {
    TrimStartSpec(s);
    TrimEndSpec(t);
    var k := |s| - |t|;
    if r == [] {
      assert t == t[|r|..];
      assert s == s[..k] + t;
      AllSpaceConcat(s[..k], t);
    } else {
      assert r[0] == t[0];
      assert s[k + |r| - 1] == r[|r| - 1];
    }
  }

  /** `strip()` removes whitespace only, and only at the two ends. */
  lemma StripSlice(s: string) returns (i: nat, j: nat)
    ensures i <= j <= |s| && Strip(s) == s[i..j]
    ensures AllSpace(s[..i]) && AllSpace(s[j..])
  {
    var t := TrimStart(s);
    var r := TrimEnd(t);
    TrimStartSpec(s);
    TrimEndSpec(t);
    i, j := |s| - |t|, |s| - |t| + |r|;
    assert Strip(s) == r;
    assert s[i..] == t;
    assert s[i..j] == t[..|r|];
    assert s[j..] == t[|r|..];
  }

  lemma {:induction false} TrimStartPadded(a: string, x: string)
    requires AllSpace(a)
    ensures TrimStart(a + x) == TrimStart(x)
  {
    if a != [] {
      assert (a + x)[0] == a[0] && IsSpace(a[0]);
      assert (a + x)[1..] == a[1..] + x;
      assert AllSpace(a[1..]) by {
        forall i | 0 <= i < |a[1..]| ensures IsSpace(a[1..][i]) { assert a[1..][i] == a[i + 1]; }
      }
      TrimStartPadded(a[1..], x);
      assert TrimStart(a + x) == TrimStart((a + x)[1..]);
    } else {
      assert a + x == x;
    }
  }

  lemma {:induction false} TrimEndPadded(x: string, b: string)
    requires AllSpace(b)
    ensures TrimEnd(x + b) == TrimEnd(x)
  {
    if b != [] {
      var b' := b[..|b| - 1];
      assert (x + b)[|x + b| - 1] == b[|b| - 1] && IsSpace(b[|b| - 1]);
      assert (x + b)[..|x + b| - 1] == x + b';
      assert AllSpace(b') by {
        forall i | 0 <= i < |b'| ensures IsSpace(b'[i]) { assert b'[i] == b[i]; }
      }
      TrimEndPadded(x, b');
      assert TrimEnd(x + b) == TrimEnd((x + b)[..|x + b| - 1]);
    } else {
      assert x + b == x;
    }
  }

  /** `strip()` is determined by its result: whatever surrounds a stripped core by whitespace strips to it. */
  lemma StripUnique(a: string, m: string, b: string)
    requires AllSpace(a) && AllSpace(b)
    requires m == [] || IsStripped(m)
    ensures Strip(a + m + b) == m
  {
    assert a + m + b == a + (m + b);
    TrimStartPadded(a, m + b);
    if m == [] {
      var none: string := [];
      assert m + b == b + none;
      TrimStartPadded(b, none);
    } else {
      assert TrimStart(m + b) == m + b;
      TrimEndPadded(m, b);
    }
  }

  /** Whitespace added on either side does not change what `strip()` returns. */
  lemma StripPadded(w: string, p: string, v: string)
    requires AllSpace(w) && AllSpace(v)
    ensures Strip(w + p + v) == Strip(p)
  {
    var i, j := StripSlice(p);
    Regroup(w, p, v, i, j);
    AllSpaceConcat(w, p[..i]);
    AllSpaceConcat(p[j..], v);
    StripUnique(w + p[..i], p[i..j], p[j..] + v);
  }

  lemma SliceParts(s: string, i: nat, j: nat)
    requires i <= j <= |s|
    ensures s == s[..i] + (s[i..j] + s[j..])
  {
    assert s == s[..i] + s[i..j] + s[j..];
  }

  lemma Regroup(w: string, p: string, v: string, i: nat, j: nat)
    requires i <= j <= |p|
    ensures w + p + v == (w + p[..i]) + p[i..j] + (p[j..] + v)
  {
    assert p == p[..i] + p[i..j] + p[j..];
  }

  /** One blank before a stripped text is all `strip()` removes. */
  lemma StripOneSpace(m: string)
    requires IsStripped(m)
    ensures Strip([' '] + m) == m
  {
    StripUnique([' '], m, []);
    assert [' '] + m + [] == [' '] + m;
  }

  lemma StripIdempotent(s: string)
    ensures Strip(Strip(s)) == Strip(s)
  {
    var m, none: string := Strip(s), [];
    assert none + m + none == m;
    StripUnique(none, m, none);
  }

  /** Every character `strip()` keeps was in its argument. */
  lemma StripKeeps(s: string, c: char)
    requires c in Strip(s)
    ensures c in s
  {
    var i, j := StripSlice(s);
    var k :| 0 <= k < |Strip(s)| && Strip(s)[k] == c;
    assert s[i + k] == c;
  }

  /** Python's `s.split(sep)` for a one-character separator; there is always at least one piece. */
  function Split(s: string, sep: char): (r: seq<string>)
    ensures |r| >= 1
  {
    if s == [] then [[]]
    else
      var rest := Split(s[1..], sep);
      if s[0] == sep then [[]] + rest
      else [[s[0]] + rest[0]] + rest[1..]
  }

  /** No piece of a split holds the separator. */
  lemma {:induction false} SplitPieces(s: string, sep: char)
    ensures forall k | 0 <= k < |Split(s, sep)| :: sep !in Split(s, sep)[k]
  {
    if s != [] {
      SplitPieces(s[1..], sep);
      var rest := Split(s[1..], sep);
      if s[0] != sep {
        assert sep !in [s[0]] + rest[0];
      }
    }
  }

  /** Python's `sep.join(parts)`, the inverse of `Split`. */
  function Join(parts: seq<string>, sep: char): string
    requires |parts| >= 1
  {
    if |parts| == 1 then parts[0] else parts[0] + [sep] + Join(parts[1..], sep)
  }

  lemma {:induction false} JoinSplit(s: string, sep: char)
    ensures Join(Split(s, sep), sep) == s
  {
    if s != [] {
      JoinSplit(s[1..], sep);
      var rest := Split(s[1..], sep);
      if s[0] == sep {
        assert Split(s, sep)[1..] == rest;
      } else if |rest| == 1 {
        assert Split(s, sep) == [[s[0]] + rest[0]];
      } else {
        assert Split(s, sep)[1..] == rest[1..];
        assert Join(rest, sep) == rest[0] + [sep] + Join(rest[1..], sep);
      }
    }
  }

  lemma SplitCons(c: char, t: string, sep: char)
    ensures Split([c] + t, sep) ==
      if c == sep then [[]] + Split(t, sep) else [[c] + Split(t, sep)[0]] + Split(t, sep)[1..]
  {
    assert ([c] + t)[1..] == t;
  }

  /** Splitting a concatenation glues the last piece of the left part to the first piece of the right part. */
  lemma {:induction false} SplitConcat(x: string, y: string, sep: char)
    ensures var X, Y := Split(x, sep), Split(y, sep);
      Split(x + y, sep) == X[..|X| - 1] + [X[|X| - 1] + Y[0]] + Y[1..]
  {
    var X, Y := Split(x, sep), Split(y, sep);
    if x == [] {
      assert x + y == y;
      assert X == [[]];
      assert X[0] + Y[0] == Y[0];
      FirstSplit(Y);
    } else {
      var c, x' := x[0], x[1..];
      assert x == [c] + x';
      assert x + y == [c] + (x' + y);
      SplitConcat(x', y, sep);
      SplitCons(c, x', sep);
      SplitCons(c, x' + y, sep);
      var X', rest := Split(x', sep), Split(x' + y, sep);
      if c == sep {
        assert X == [[]] + X';
        assert Split(x + y, sep) == [[]] + rest;
        SplitConcatSeparator(X', Y);
      } else {
        assert X == [[c] + X'[0]] + X'[1..];
        assert Split(x + y, sep) == [[c] + rest[0]] + rest[1..];
        SplitConcatGlue(c, X', Y);
      }
    }
  }

  /** The sequence step of `SplitConcat` when the first character is the separator. */
  lemma SplitConcatSeparator(X': seq<string>, Y: seq<string>)
    requires |X'| >= 1 && |Y| >= 1
    ensures var X := [[]] + X';
      var rest := X'[..|X'| - 1] + [X'[|X'| - 1] + Y[0]] + Y[1..];
      [[]] + rest == X[..|X| - 1] + [X[|X| - 1] + Y[0]] + Y[1..]
  {
    var X := [[]] + X';
    assert X[..|X| - 1] == [[]] + X'[..|X'| - 1];
  }

  /** The sequence step of `SplitConcat` when the first character is not the separator. */
  lemma SplitConcatGlue(c: char, X': seq<string>, Y: seq<string>)
    requires |X'| >= 1 && |Y| >= 1
    ensures var X := [[c] + X'[0]] + X'[1..];
      var rest := X'[..|X'| - 1] + [X'[|X'| - 1] + Y[0]] + Y[1..];
      [[c] + rest[0]] + rest[1..] == X[..|X| - 1] + [X[|X| - 1] + Y[0]] + Y[1..]
  {
    var X := [[c] + X'[0]] + X'[1..];
    var rest := X'[..|X'| - 1] + [X'[|X'| - 1] + Y[0]] + Y[1..];
    if |X'| > 1 {
      assert X[..|X| - 1] == [[c] + X'[0]] + X'[1..|X'| - 1];
      assert X[|X| - 1] == X'[|X'| - 1];
      assert rest[0] == X'[0];
      assert rest[1..] == X'[1..|X'| - 1] + [X'[|X'| - 1] + Y[0]] + Y[1..];
    } else {
      assert X[..|X| - 1] == [];
      assert rest == [X'[0] + Y[0]] + Y[1..];
      assert [c] + rest[0] == X[0] + Y[0];
    }
  }

  lemma {:induction false} SplitNoSeparator(s: string, sep: char)
    requires sep !in s
    ensures Split(s, sep) == [s]
  {
    if s != [] {
      assert s == [s[0]] + s[1..];
      SplitNoSeparator(s[1..], sep);
    }
  }

  /** Splitting undoes joining pieces that do not contain the separator. */
  lemma {:induction false} SplitJoin(parts: seq<string>, sep: char)
    requires |parts| >= 1
    requires forall k | 0 <= k < |parts| :: sep !in parts[k]
    ensures Split(Join(parts, sep), sep) == parts
  {
    SplitNoSeparator(parts[0], sep);
    if |parts| > 1 {
      var tail := Join(parts[1..], sep);
      SplitJoin(parts[1..], sep);
      SplitAtFirst(parts[0], tail, sep);
      assert [parts[0]] + parts[1..] == parts;
      assert parts[0] + [sep] + tail == parts[0] + ([sep] + tail);
    }
  }

  /** The pieces of a split hold only characters of the split string. */
  lemma {:induction false} SplitKeeps(s: string, sep: char, k: nat, c: char)
    requires k < |Split(s, sep)| && c in Split(s, sep)[k]
    ensures c in s
  {
    assert s != [];
    assert s == [s[0]] + s[1..];
    var rest := Split(s[1..], sep);
    if s[0] == sep {
      SplitKeeps(s[1..], sep, k - 1, c);
    } else if k == 0 {
      if c != s[0] {
        assert c in rest[0];
        SplitKeeps(s[1..], sep, 0, c);
      }
    } else {
      SplitKeeps(s[1..], sep, k, c);
    }
  }

  /** A string holding the separator splits into at least two pieces. */
  lemma {:induction false} SplitHasSecond(s: string, sep: char)
    requires sep in s
    ensures |Split(s, sep)| >= 2
  {
    assert s == [s[0]] + s[1..];
    if s[0] != sep {
      SplitHasSecond(s[1..], sep);
    }
  }

  /** The piece between the first and the second separator is `s.split(sep)[1]`. */
  lemma SplitSecond(a: string, f: string, rest: string, sep: char)
    requires sep !in a && sep !in f
    requires rest == [] || rest[0] == sep
    ensures |Split(a + [sep] + f + rest, sep)| >= 2
    ensures Split(a + [sep] + f + rest, sep)[1] == f
  {
    var tail := f + rest;
    Regroup4(a, [sep], f, rest);
    SplitAtFirst(a, tail, sep);
    SplitFirst(f, rest, sep);
    var pieces := Split(a + ([sep] + tail), sep);
    assert pieces == [a] + Split(tail, sep);
    assert pieces[1] == Split(tail, sep)[0];
  }

  /** A non-empty sequence is its first element followed by the rest. */
  lemma FirstSplit<T>(xs: seq<T>)
    requires |xs| >= 1
    ensures [xs[0]] + xs[1..] == xs
  {
  }

  /** A non-empty sequence is the rest followed by its last element. */
  lemma LastSplit<T>(xs: seq<T>)
    requires |xs| >= 1
    ensures xs[..|xs| - 1] + [xs[|xs| - 1]] == xs
  {
  }

  lemma Regroup4(a: string, b: string, c: string, d: string)
    ensures a + b + c + d == a + (b + (c + d))
  {
  }

  /** The text before the first separator is the first piece; the rest splits on its own. */
  lemma SplitAtFirst(a: string, tail: string, sep: char)
    requires sep !in a
    ensures Split(a + ([sep] + tail), sep) == [a] + Split(tail, sep)
  {
    SplitCons(sep, tail, sep);
    SplitNoSeparator(a, sep);
    SplitConcat(a, [sep] + tail, sep);
    var Y := Split([sep] + tail, sep);
    assert Y[0] == [] && Y[1..] == Split(tail, sep);
    assert a + [] == a;
  }

  /** The first piece of a split ends at the first separator. */
  lemma SplitFirst(f: string, rest: string, sep: char)
    requires sep !in f
    requires rest == [] || rest[0] == sep
    ensures Split(f + rest, sep)[0] == f
  {
    if rest == [] {
      assert f + rest == f;
      SplitNoSeparator(f, sep);
    } else {
      FirstSplit(rest);
      SplitAtFirst(f, rest[1..], sep);
    }
  }

  /** Python's `pat in s`. */
  predicate Contains(s: string, pat: string): (b: bool)
    ensures b ==> |pat| <= |s|
  {
    (|pat| <= |s| && s[..|pat|] == pat) || (s != [] && Contains(s[1..], pat))
  }

  /** Conversely, a contained pattern occurs at some offset. */
  lemma {:induction false} ContainsFound(s: string, pat: string) returns (i: nat)
    requires Contains(s, pat)
    ensures i + |pat| <= |s| && s[i..i + |pat|] == pat
  {
    if |pat| <= |s| && s[..|pat|] == pat {
      i := 0;
    } else {
      var j := ContainsFound(s[1..], pat);
      i := j + 1;
      assert s[i..i + |pat|] == s[1..][j..j + |pat|];
    }
  }

  /** A pattern found at any offset is contained. */
  lemma {:induction false} ContainsAt(s: string, pat: string, i: nat)
    requires i + |pat| <= |s| && s[i..i + |pat|] == pat
    ensures Contains(s, pat)
  {
    if i > 0 {
      assert s[1..][i - 1..i - 1 + |pat|] == s[i..i + |pat|];
      ContainsAt(s[1..], pat, i - 1);
    }
  }

  /** A string contains every character of a pattern it contains. */
  lemma {:induction false} ContainsChar(s: string, pat: string, k: nat)
    requires Contains(s, pat) && k < |pat|
    ensures pat[k] in s
  {
    if |pat| <= |s| && s[..|pat|] == pat {
      assert s[k] == pat[k];
    } else {
      ContainsChar(s[1..], pat, k);
      var m :| 0 <= m < |s[1..]| && s[1..][m] == pat[k];
      assert s[m + 1] == pat[k];
    }
  }
}
