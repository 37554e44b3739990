/** The few Python string operations the core relies on: `str.strip()`,
    `str.lower()`, the `in` substring test and `str.split(sep)`. */
module Text {

  /** A byte of a PDF, image or digest. */
  type byte = x: int | 0 <= x < 256

  /** Python's `str.isspace()`: the characters `str.strip()` removes. */
  predicate IsSpace(c: char) {
    || ('\t' <= c <= '\r')
    || ('\U{1C}' <= c <= ' ')
    || c == '\U{85}' || c == '\U{A0}' || c == '\U{1680}'
    || ('\U{2000}' <= c <= '\U{200A}')
    || c == '\U{2028}' || c == '\U{2029}' || c == '\U{202F}' || c == '\U{205F}' || c == '\U{3000}'
  }

  /** True when every character is white space (in particular for ""). */
  predicate IsBlank(s: string) {
    forall i :: 0 <= i < |s| ==> IsSpace(s[i])
  }

  /** A prefix of white space is blank. */
  lemma PrefixBlank(s: string, i: int)
    requires 0 <= i <= |s|
    requires forall k :: 0 <= k < i ==> IsSpace(s[k])
    ensures IsBlank(s[..i])
  {
    assert forall k :: 0 <= k < i ==> s[..i][k] == s[k];
  }

  /** A suffix of white space is blank. */
  lemma SuffixBlank(s: string, j: int)
    requires 0 <= j <= |s|
    requires forall k :: j <= k < |s| ==> IsSpace(s[k])
    ensures IsBlank(s[j..])
  {
    assert forall k :: 0 <= k < |s| - j ==> s[j..][k] == s[j + k];
  }

  /** `s[..i]` is blank and `s[j..]` is blank: `s[i..j]` is `s` with only
      white space cut off on either side. */
  predicate StrippedAt(s: string, i: int, j: int) {
    && 0 <= i <= j <= |s|
    && IsBlank(s[..i]) && IsBlank(s[j..])
  }

  /** The index of the first non-space of `s` at or after `i` (`|s|` when
      there is none): where `str.strip()` starts cutting from the left. */
  function SpanStart(s: string, i: nat): (k: nat)
    requires i <= |s|
    ensures i <= k <= |s|
    ensures forall m :: i <= m < k ==> IsSpace(s[m])
    ensures k < |s| ==> !IsSpace(s[k])
    decreases |s| - i
  {
    if i < |s| && IsSpace(s[i]) then SpanStart(s, i + 1) else i
  }

  /** The end of the last non-space of `s` before `j`, not going below `lo`:
      where `str.strip()` stops cutting from the right. */
  function SpanEnd(s: string, lo: nat, j: nat): (k: nat)
    requires lo <= j <= |s|
    ensures lo <= k <= j
    ensures forall m :: k <= m < j ==> IsSpace(s[m])
    ensures k > lo ==> !IsSpace(s[k - 1])
  {
    if j > lo && IsSpace(s[j - 1]) then SpanEnd(s, lo, j - 1) else j
  }

  /** Python's `str.strip()`: the part of `s` between its leading and its
      trailing white space — a slice with only white space cut off on either
      side, which begins and ends with a non-space. */
  function Strip(s: string): (r: string)
    ensures |r| <= |s|
    ensures exists i, j :: StrippedAt(s, i, j) && r == s[i..j]
    ensures |r| > 0 ==> !IsSpace(r[0]) && !IsSpace(r[|r| - 1])
  {
    var i := SpanStart(s, 0);
    var j := SpanEnd(s, i, |s|);
    PrefixBlank(s, i);
    SuffixBlank(s, j);
    assert StrippedAt(s, i, j);
    s[i..j]
  }

  /** A stripped string is empty exactly when the original is blank: the
      truth value of `s.strip()` is "s has a non-space character". */
  lemma StripEmptyIffBlank(s: string)
    ensures |Strip(s)| == 0 <==> IsBlank(s)
  {
    var i := SpanStart(s, 0);
    var j := SpanEnd(s, i, |s|);
    if |Strip(s)| == 0 {
      assert forall m :: 0 <= m < |s| ==> IsSpace(s[m]);
    } else {
      assert !IsSpace(s[i]);
    }
  }

  /** `str.lower()` on one character; only A–Z are folded. */
  function LowerChar(c: char): char {
    if 'A' <= c <= 'Z' then (c as int - 'A' as int + 'a' as int) as char else c
  }

  /** `str.lower()` (ASCII case folding). */
  function Lower(s: string): (r: string)
    ensures |r| == |s|
    ensures forall i :: 0 <= i < |s| ==> !('A' <= r[i] <= 'Z')
  {
    seq(|s|, i requires 0 <= i < |s| => LowerChar(s[i]))
  }

  /** Python's `t in s` for strings: `t` occurs as a contiguous part of `s`. */
  predicate Contains(s: string, t: string) {
    if |t| <= |s| && s[..|t|] == t then true
    else if |s| == 0 then false
    else Contains(s[1..], t)
  }

  /** `Contains` agrees with the positional definition of a substring. */
  lemma {:induction false} ContainsIff(s: string, t: string)
    ensures Contains(s, t) <==> exists i :: 0 <= i <= |s| - |t| && s[i..][..|t|] == t
  {
    if |t| <= |s| && s[..|t|] == t {
      assert s[0..][..|t|] == t;
    } else if |s| == 0 {
    } else {
      ContainsIff(s[1..], t);
      if Contains(s[1..], t) {
        var i :| 0 <= i <= |s[1..]| - |t| && s[1..][i..][..|t|] == t;
        assert s[i + 1..] == s[1..][i..];
      } else {
        forall i | 0 < i <= |s| - |t|
          ensures s[i..][..|t|] != t
        {
          assert s[1..][i - 1..] == s[i..];
        }
      }
    }
  }

  /** The inverse of `Split`: the parts separated by `sep`. */
  function Join(parts: seq<string>, sep: char): string {
    if |parts| == 0 then ""
    else if |parts| == 1 then parts[0]
    else parts[0] + [sep] + Join(parts[1..], sep)
  }

  /** Python's `s.split(sep)` for a one-character separator: the maximal runs
      between separators, so there is always at least one (possibly empty) part. */
  function Split(s: string, sep: char): (parts: seq<string>)
    ensures |parts| >= 1
    ensures forall i :: 0 <= i < |parts| ==> sep !in parts[i]
    ensures Join(parts, sep) == s
  {
    if |s| == 0 then [""]
    else
      var rest := Split(s[1..], sep);
      if s[0] == sep then
        assert ([""] + rest)[1..] == rest;
        [""] + rest
      else
        var parts := [[s[0]] + rest[0]] + rest[1..];
        assert parts[1..] == rest[1..];
        assert Join(parts, sep) == s by {
          if |rest| > 1 {
            assert Join(rest, sep) == rest[0] + [sep] + Join(rest[1..], sep);
          }
        }
        parts
  }

  /** Splitting a string with no separator gives the string itself. */
  lemma {:induction false} SplitNoSeparator(s: string, sep: char)
    requires sep !in s
    ensures Split(s, sep) == [s]
  {
    if |s| > 0 {
      SplitNoSeparator(s[1..], sep);
    }
  }

  /** Splitting `a + [sep] + b` peels off `a` when `a` has no separator. */
  lemma {:induction false} SplitFirst(a: string, sep: char, b: string)
    requires sep !in a
    ensures Split(a + [sep] + b, sep) == [a] + Split(b, sep)
  {
    if |a| == 0 {
      assert a + [sep] + b == [sep] + b;
      assert ([sep] + b)[1..] == b;
    } else {
      assert (a + [sep] + b)[1..] == a[1..] + [sep] + b;
      SplitFirst(a[1..], sep, b);
      assert [a[0]] + a[1..] == a;
    }
  }

  /** `Split` inverts `Join` for parts free of the separator. */
  lemma {:induction false} SplitJoin(parts: seq<string>, sep: char)
    requires |parts| >= 1
    requires forall i :: 0 <= i < |parts| ==> sep !in parts[i]
    ensures Split(Join(parts, sep), sep) == parts
  {
    if |parts| == 1 {
      SplitNoSeparator(parts[0], sep);
    } else {
      SplitJoin(parts[1..], sep);
      SplitFirst(parts[0], sep, Join(parts[1..], sep));
      assert [parts[0]] + parts[1..] == parts;
    }
  }
}
