/**
 * The two Python string operations the endgame normaliser relies on:
 * `str.split(";")` and `str.strip()`, on strings as sequences of code points.
 */
module PyStrings {

  /** Python's `str.isspace()` for one code point: the ASCII whitespace and
      separator controls, NEL, NBSP and the Unicode space separators. */
  predicate IsSpace(c: char) {
    var n := c as int;
    (9 <= n <= 13) || (28 <= n <= 32) || n == 0x85 || n == 0xA0 || n == 0x1680
    || (0x2000 <= n <= 0x200A) || n == 0x2028 || n == 0x2029 || n == 0x202F
    || n == 0x205F || n == 0x3000
  }

  /** `s.split(sep)` for a one-character separator: the maximal runs between
      separators, so there is always one more part than there are separators. */
  function Split(s: string, sep: char): (parts: seq<string>)
    ensures |parts| >= 1
    ensures forall k :: 0 <= k < |parts| ==> sep !in parts[k]
    decreases |s|
  {
    if |s| == 0 then [""]
    else
      var rest := Split(s[1..], sep);
      if s[0] == sep then [""] + rest
      else [[s[0]] + rest[0]] + rest[1..]
  }

  /** `sep.join(parts)`. */
  function Join(parts: seq<string>, sep: char): string
    requires |parts| >= 1
    decreases |parts|
  {
    if |parts| == 1 then parts[0] else parts[0] + [sep] + Join(parts[1..], sep)
  }

  /** Splitting loses nothing: joining the parts back gives the original text. */
  lemma {:induction false} SplitJoin(s: string, sep: char)
    ensures Join(Split(s, sep), sep) == s
    decreases |s|
  {
    if |s| > 0 {
      SplitJoin(s[1..], sep);
      var rest := Split(s[1..], sep);
      if s[0] != sep && |rest| > 1 {
        assert Split(s, sep)[1..] == rest[1..];
        assert [s[0]] + rest[0] + [sep] + Join(rest[1..], sep) == [s[0]] + (rest[0] + [sep] + Join(rest[1..], sep));
      }
    }
  }

  /** Text without the separator is one part, itself. */
  lemma {:induction false} SplitWithoutSep(s: string, sep: char)
    requires sep !in s
    ensures Split(s, sep) == [s]
    decreases |s|
  {
    if |s| > 0 {
      assert s[1..] + [] == s[1..];
      assert sep !in s[1..] by { assert forall k :: 0 <= k < |s| - 1 ==> s[1..][k] == s[k + 1]; }
      SplitWithoutSep(s[1..], sep);
      assert [s[0]] + s[1..] == s;
    }
  }

  /** The first part of `a + [sep] + b` is `a` when `a` holds no separator. */
  lemma {:induction false} SplitFirst(a: string, b: string, sep: char)
    requires sep !in a
    ensures Split(a + [sep] + b, sep)[0] == a
    decreases |a|
  {
    if |a| == 0 {
      assert a + [sep] + b == [sep] + b;
      assert ([sep] + b)[1..] == b;
    } else {
      assert (a + [sep] + b)[1..] == a[1..] + [sep] + b;
      assert sep !in a[1..] by { assert forall k :: 0 <= k < |a| - 1 ==> a[1..][k] == a[k + 1]; }
      SplitFirst(a[1..], b, sep);
      assert [a[0]] + a[1..] == a;
    }
  }

  /** Every character of `t` is whitespace. */
  predicate AllSpace(t: string) {
    forall k :: 0 <= k < |t| ==> IsSpace(t[k])
  }

  /** `t` neither starts nor ends with whitespace. */
  predicate Trimmed(t: string) {
    t == [] || (!IsSpace(t[0]) && !IsSpace(t[|t| - 1]))
  }

  /** `s.strip()`: whitespace removed from both ends, one character at a
      time, until neither end is whitespace. */
  function Strip(s: string): (r: string)
    ensures |r| <= |s|
    ensures Trimmed(r)
    decreases |s|
  {
    if |s| > 0 && IsSpace(s[0]) then Strip(s[1..])
    else if |s| > 0 && IsSpace(s[|s| - 1]) then Strip(s[..|s| - 1])
    else s
  }

  /** `s` is `r` at offset `i`, with only whitespace before and after it. */
  ghost predicate PaddedAt(s: string, i: int, r: string) {
    && 0 <= i <= |s| - |r|
    && s == s[..i] + r + s[i + |r|..]
    && AllSpace(s[..i])
    && AllSpace(s[i + |r|..])
  }

  /** A whitespace character in front keeps the padding. */
  lemma PaddedAfterSpace(s: string, i: int, r: string)
    requires |s| > 0 && IsSpace(s[0]) && PaddedAt(s[1..], i, r)
    ensures PaddedAt(s, i + 1, r)
  {
    assert s[..i + 1] == [s[0]] + s[1..][..i];
    assert s[i + 1 + |r|..] == s[1..][i + |r|..];
    assert s == [s[0]] + s[1..];
  }

  /** A whitespace character behind keeps the padding. */
  lemma PaddedBeforeSpace(s: string, i: int, r: string)
    requires |s| > 0 && IsSpace(s[|s| - 1]) && PaddedAt(s[..|s| - 1], i, r)
    ensures PaddedAt(s, i, r)
  {
    var t := s[..|s| - 1];
    assert s[..i] == t[..i];
    assert s[i + |r|..] == t[i + |r|..] + [s[|s| - 1]];
    assert s == t + [s[|s| - 1]];
  }

  /** What `strip` removes is whitespace at both ends and nothing else:
      the result sits inside `s` with only whitespace around it. */
  lemma {:induction false} StripPadded(s: string)
    ensures exists i :: PaddedAt(s, i, Strip(s))
    decreases |s|
  {
    var r := Strip(s);
    if |s| > 0 && IsSpace(s[0]) {
      StripPadded(s[1..]);
      var i :| PaddedAt(s[1..], i, r);
      PaddedAfterSpace(s, i, r);
    } else if |s| > 0 && IsSpace(s[|s| - 1]) {
      StripPadded(s[..|s| - 1]);
      var i :| PaddedAt(s[..|s| - 1], i, r);
      PaddedBeforeSpace(s, i, r);
    } else {
      assert s == s[..0] + r + s[|r|..];
      assert PaddedAt(s, 0, r);
    }
  }

  /** A stripped text holds only characters of the text. */
  lemma StripKeepsOut(s: string, c: char)
    requires c !in s
    ensures c !in Strip(s)
  {
    StripPadded(s);
    var r := Strip(s);
    var i :| PaddedAt(s, i, r);
    forall k | 0 <= k < |r| ensures r[k] != c {
      assert r[k] == s[i + k];
    }
  }

  /** Text that neither starts nor ends with whitespace is its own strip. */
  lemma {:induction false} StripTrimmed(s: string)
    requires Trimmed(s)
    ensures Strip(s) == s
  {
  }

  /** Stripping twice is stripping once. */
  lemma StripIdempotent(s: string)
    ensures Strip(Strip(s)) == Strip(s)
  {
    StripTrimmed(Strip(s));
  }
}
