/** The handful of Python string operations the scripts rely on, stated over
    `string` (a sequence of Unicode code points): `str.strip()`, an ASCII
    `str.lower()`, the `in` substring test, `str.split(sep)`, `str.join`,
    `str(int)` and `text[:n]`. */
module Text {
  import opened Results

  // ---------------------------------------------------------------------------
  // Whitespace and str.strip()
  // ---------------------------------------------------------------------------

  /** The code points for which Python's `str.isspace()` is true; these are the
      characters `str.strip()` removes when called without an argument. */
  predicate IsSpace(c: char) {
    || ('\U{9}' <= c <= '\U{D}')
    || ('\U{1C}' <= c <= '\U{20}')
    || c == '\U{85}' || c == '\U{A0}' || c == '\U{1680}'
    || ('\U{2000}' <= c <= '\U{200A}')
    || c == '\U{2028}' || c == '\U{2029}' || c == '\U{202F}'
    || c == '\U{205F}' || c == '\U{3000}'
  }

  predicate AllSpace(s: string) {
    forall i :: 0 <= i < |s| ==> IsSpace(s[i])
  }

  /** Neither end of `s` is whitespace: what `strip()` leaves behind. */
  predicate Trimmed(s: string) {
    |s| == 0 || (!IsSpace(s[0]) && !IsSpace(s[|s| - 1]))
  }

  /** The number of whitespace characters `s` starts with. */
  function LeadingSpace(s: string): (n: nat)
    ensures n <= |s|
    ensures forall i :: 0 <= i < n ==> IsSpace(s[i])
    ensures n < |s| ==> !IsSpace(s[n])
    decreases |s|
  {
    if |s| > 0 && IsSpace(s[0]) then
      var m := LeadingSpace(s[1..]);
      assert forall i :: 1 <= i <= m ==> s[i] == s[1..][i - 1];
      m + 1
    else 0
  }

  /** The number of whitespace characters `s` ends with. */
  function TrailingSpace(s: string): (n: nat)
    ensures n <= |s|
    ensures forall i :: |s| - n <= i < |s| ==> IsSpace(s[i])
    ensures n < |s| ==> !IsSpace(s[|s| - n - 1])
    decreases |s|
  {
    if |s| > 0 && IsSpace(s[|s| - 1]) then
      var m := TrailingSpace(s[..|s| - 1]);
      assert forall i :: |s| - 1 - m <= i < |s| - 1 ==> s[i] == s[..|s| - 1][i];
      m + 1
    else 0
  }

  /** `r` sits in `s` at offset `k` with only whitespace before and after it. */
  predicate PaddedAt(s: string, r: string, k: int) {
    && 0 <= k <= |s| - |r|
    && (forall i :: 0 <= i < |r| ==> r[i] == s[k + i])
    && (forall i :: 0 <= i < k ==> IsSpace(s[i]))
    && (forall i :: k + |r| <= i < |s| ==> IsSpace(s[i]))
  }

  /** `s.strip()`: `s.lstrip()` followed by `rstrip()`. */
  function Strip(s: string): (r: string)
    ensures Trimmed(r)
  {
    var k := LeadingSpace(s);
    if k == |s| then ""
    else
      var n := TrailingSpace(s);
      assert !IsSpace(s[k]);
      assert k < |s| - n;
      s[k..|s| - n]
  }

  /** `s.strip()` is what `s` holds after its leading whitespace, up to its
      trailing whitespace. */
  lemma StripWindow(s: string)
    ensures PaddedAt(s, Strip(s), LeadingSpace(s))
  {
    var k := LeadingSpace(s);
    if k < |s| {
      var n := TrailingSpace(s);
      assert !IsSpace(s[k]);
      assert k < |s| - n;
      assert PaddedAt(s, s[k..|s| - n], k);
    }
  }

  /** Two trimmed strings that `s` holds between runs of whitespace start at
      the same offset and have the same length. */
  lemma PaddedWindowsAgree(s: string, a: string, ka: int, b: string, kb: int)
    requires Trimmed(a) && PaddedAt(s, a, ka)
    requires Trimmed(b) && PaddedAt(s, b, kb)
    ensures |a| > 0 ==> |b| > 0 && ka == kb && |a| == |b|
  {
    if |a| > 0 {
      assert s[ka] == a[0] && s[ka + |a| - 1] == a[|a| - 1];
      assert kb <= ka < kb + |b|;
      assert s[kb] == b[0] && s[kb + |b| - 1] == b[|b| - 1];
      assert ka <= kb;
      assert ka + |a| <= kb + |b|;
      assert kb + |b| <= ka + |a|;
    }
  }

  /** `s.strip()` is the only trimmed string `s` holds between runs of
      whitespace. */
  lemma StripUnique(s: string, r: string, k: int)
    requires Trimmed(r) && PaddedAt(s, r, k)
    ensures Strip(s) == r
  {
    var t := Strip(s);
    StripWindow(s);
    if |r| > 0 {
      PaddedWindowsAgree(s, r, k, t, LeadingSpace(s));
      assert forall i :: 0 <= i < |r| ==> r[i] == s[k + i] == t[i];
    } else {
      PaddedWindowsAgree(s, t, LeadingSpace(s), r, k);
    }
  }

  lemma StripOfTrimmed(s: string)
    requires Trimmed(s)
    ensures Strip(s) == s
  {
    assert PaddedAt(s, s, 0);
    StripUnique(s, s, 0);
  }

  /** `strip()` is idempotent. */
  lemma StripIdempotent(s: string)
    ensures Strip(Strip(s)) == Strip(s)
  {
    StripOfTrimmed(Strip(s));
  }

  /** A string of whitespace strips to the empty string. */
  lemma StripBlank(s: string)
    requires AllSpace(s)
    ensures Strip(s) == ""
  {
    assert PaddedAt(s, "", 0);
    StripUnique(s, "", 0);
  }

  /** Whitespace added around a string does not change what `strip()` returns. */
  lemma StripPadded(w1: string, s: string, w2: string)
    requires AllSpace(w1) && AllSpace(w2)
    ensures Strip(w1 + s + w2) == Strip(s)
  {
    var r := Strip(s);
    var k := LeadingSpace(s);
    StripWindow(s);
    var p := w1 + s + w2;
    var m := |w1| + k;
    assert |p| == |w1| + |s| + |w2|;
    forall i | 0 <= i < |p|
      ensures i < |w1| ==> p[i] == w1[i]
      ensures |w1| <= i < |w1| + |s| ==> p[i] == s[i - |w1|]
      ensures |w1| + |s| <= i ==> p[i] == w2[i - |w1| - |s|]
    {
    }
    forall i | 0 <= i < |r|
      ensures r[i] == p[m + i]
    {
      assert r[i] == s[k + i];
    }
    forall i | 0 <= i < m
      ensures IsSpace(p[i])
    {
      if i >= |w1| {
        assert IsSpace(s[i - |w1|]);
      }
    }
    forall i | m + |r| <= i < |p|
      ensures IsSpace(p[i])
    {
      if i < |w1| + |s| {
        assert IsSpace(s[i - |w1|]);
      }
    }
    assert PaddedAt(p, r, m);
    StripUnique(p, r, m);
  }

  // ---------------------------------------------------------------------------
  // Letter case
  // ---------------------------------------------------------------------------

  function LowerChar(c: char): char {
    if 'A' <= c <= 'Z' then (c as int + 32) as char else c
  }

  function UpperChar(c: char): char {
    if 'a' <= c <= 'z' then (c as int - 32) as char else c
  }

  /** `s.lower()` restricted to the ASCII letters. */
  function Lower(s: string): (r: string)
    ensures |r| == |s|
    ensures forall i :: 0 <= i < |s| ==> r[i] == LowerChar(s[i])
  {
    seq(|s|, i requires 0 <= i < |s| => LowerChar(s[i]))
  }

  /** `s.upper()` restricted to the ASCII letters. */
  function Upper(s: string): (r: string)
    ensures |r| == |s|
    ensures forall i :: 0 <= i < |s| ==> r[i] == UpperChar(s[i])
  {
    seq(|s|, i requires 0 <= i < |s| => UpperChar(s[i]))
  }

  /** Lower-casing leaves no upper-case ASCII letter, and changing the case of a
      string first makes no difference to it. */
  lemma LowerForgetsCase(s: string)
    ensures forall i :: 0 <= i < |Lower(s)| ==> !('A' <= Lower(s)[i] <= 'Z')
    ensures Lower(Upper(s)) == Lower(s)
    ensures Lower(Lower(s)) == Lower(s)
  {
  }

  /** Lower-casing maps whitespace to whitespace and nothing else to it. */
  lemma LowerKeepsSpace(s: string)
    ensures forall i :: 0 <= i < |s| ==> (IsSpace(Lower(s)[i]) <==> IsSpace(s[i]))
    ensures AllSpace(s) ==> AllSpace(Lower(s))
  {
  }

  lemma LowerConcat(a: string, b: string)
    ensures Lower(a + b) == Lower(a) + Lower(b)
  {
  }

  // ---------------------------------------------------------------------------
  // Substrings, prefixes
  // ---------------------------------------------------------------------------

  /** `needle` occurs in `hay` starting at index `i`. */
  predicate OccursAt(hay: string, needle: string, i: int) {
    0 <= i <= |hay| - |needle| && hay[i..i + |needle|] == needle
  }

  /** Python's `needle in hay` for strings. */
  predicate Contains(hay: string, needle: string)
    ensures Contains(hay, needle) ==> |needle| <= |hay|
    ensures needle <= hay ==> Contains(hay, needle)
  {
    assert needle <= hay ==> OccursAt(hay, needle, 0);
    exists i | 0 <= i <= |hay| - |needle| :: OccursAt(hay, needle, i)
  }

  /** Every string contains the empty string and itself. */
  lemma ContainsTrivial(s: string)
    ensures Contains(s, "")
    ensures Contains(s, s)
  {
    assert OccursAt(s, "", 0);
    assert OccursAt(s, s, 0);
  }

  /** The middle of a concatenation is one of its substrings. */
  lemma ContainsMiddle(a: string, b: string, c: string)
    ensures Contains(a + b + c, b)
  {
    var s := a + b + c;
    assert s[|a|..|a| + |b|] == b;
    assert OccursAt(s, b, |a|);
  }

  /** Containment is transitive. */
  lemma ContainsTransitive(a: string, b: string, c: string)
    requires Contains(a, b) && Contains(b, c)
    ensures Contains(a, c)
  {
    var i :| 0 <= i <= |a| - |b| && OccursAt(a, b, i);
    var j :| 0 <= j <= |b| - |c| && OccursAt(b, c, j);
    assert a[i..i + |b|] == b && b[j..j + |c|] == c;
    forall k | 0 <= k < |c|
      ensures a[i + j + k] == c[k]
    {
      assert c[k] == b[j + k];
      assert b[j + k] == a[i + (j + k)];
    }
    assert a[i + j..i + j + |c|] == c;
    assert OccursAt(a, c, i + j);
  }

  /** `s.startswith(p)`, and the remainder after `p`. */
  function DropPrefix(s: string, p: string): (r: Option<string>)
    ensures r.Some? <==> p <= s
    ensures r.Some? ==> s == p + r.value
  {
    if p <= s then Some(s[|p|..]) else None
  }

  /** `s.endswith(p)`, and what precedes `p`. */
  function DropSuffix(s: string, p: string): (r: Option<string>)
    ensures r.Some? <==> (|p| <= |s| && s[|s| - |p|..] == p)
    ensures r.Some? ==> s == r.value + p
  {
    if |p| <= |s| && s[|s| - |p|..] == p then Some(s[..|s| - |p|]) else None
  }

  /** Python's `text[:n]` for an integer `n` of either sign: a negative bound
      counts from the end of the sequence. */
  function SliceTo<T>(s: seq<T>, n: int): (r: seq<T>)
    ensures r <= s
    ensures n >= 0 ==> |r| == (if n <= |s| then n else |s|)
    ensures n < 0 ==> |r| == (if |s| + n >= 0 then |s| + n else 0)
  {
    if n >= 0 then
      if n <= |s| then s[..n] else s
    else if |s| + n >= 0 then s[..|s| + n]
    else []
  }

  // ---------------------------------------------------------------------------
  // str.split(sep) and str.join
  // ---------------------------------------------------------------------------

  /** `sep.join(parts)`. */
  function Join(parts: seq<string>, sep: string): string
    decreases |parts|
  {
    if |parts| == 0 then ""
    else if |parts| == 1 then parts[0]
    else parts[0] + sep + Join(parts[1..], sep)
  }

  /** `s.split(sep)` for a one-character separator: the maximal runs of
      characters other than `sep`, empty runs included. */
  function Split(s: string, sep: char): (parts: seq<string>)
    ensures |parts| >= 1
    ensures forall i :: 0 <= i < |parts| ==> sep !in parts[i]
    ensures Join(parts, [sep]) == s
    decreases |s|
  {
    if |s| == 0 then [""]
    else
      var rest := Split(s[1..], sep);
      if s[0] == sep then
        assert Join([""] + rest, [sep]) == [sep] + Join(rest, [sep]) by {
          assert ([""] + rest)[1..] == rest;
        }
        [""] + rest
      else
        var parts := [[s[0]] + rest[0]] + rest[1..];
        assert Join(parts, [sep]) == [s[0]] + Join(rest, [sep]) by {
          if |rest| > 1 {
            assert parts[1..] == rest[1..];
          }
        }
        parts
  }

  /** A join of two or more parts ends with the separator and the last part. */
  lemma {:induction false} JoinLast(parts: seq<string>, sep: string)
    requires |parts| >= 1
    ensures |parts| == 1 ==> Join(parts, sep) == parts[0]
    ensures |parts| > 1 ==>
      Join(parts, sep) == Join(parts[..|parts| - 1], sep) + sep + parts[|parts| - 1]
    decreases |parts|
  {
    if |parts| > 2 {
      var tail := parts[1..];
      JoinLast(tail, sep);
      assert tail[..|tail| - 1] == parts[..|parts| - 1][1..];
      assert Join(parts[..|parts| - 1], sep)
          == parts[0] + sep + Join(parts[..|parts| - 1][1..], sep);
    } else if |parts| == 2 {
      assert parts[..1] == [parts[0]];
      assert parts[1..] == [parts[1]];
    }
  }

  /** Index of the first occurrence of `c` in `s`. */
  function IndexOf(s: string, c: char): (r: Option<nat>)
    ensures r.None? <==> c !in s
    ensures r.Some? ==> r.value < |s| && s[r.value] == c && c !in s[..r.value]
  {
    if |s| == 0 then None
    else if s[0] == c then Some(0)
    else match IndexOf(s[1..], c)
      case None => None
      case Some(k) =>
        assert s[..k + 1] == [s[0]] + s[1..][..k];
        Some(k + 1)
  }

  /** Index of the last occurrence of `c` in `s`. */
  function LastIndexOf(s: string, c: char): (r: Option<nat>)
    ensures r.None? <==> c !in s
    ensures r.Some? ==> r.value < |s| && s[r.value] == c && c !in s[r.value + 1..]
    decreases |s|
  {
    if |s| == 0 then None
    else if s[|s| - 1] == c then Some(|s| - 1)
    else
      var r := LastIndexOf(s[..|s| - 1], c);
      if r.Some? then
        assert s[r.value + 1..] == s[..|s| - 1][r.value + 1..] + [s[|s| - 1]];
        r
      else
        assert s == s[..|s| - 1] + [s[|s| - 1]];
        r
  }

  /** The position of a `c` that no later `c` follows is the last index. */
  lemma LastIndexOfUnique(s: string, c: char, k: int)
    requires 0 <= k < |s| && s[k] == c && c !in s[k + 1..]
    ensures LastIndexOf(s, c) == Some(k)
  {
    var d := LastIndexOf(s, c).value;
    assert forall i :: d < i < |s| ==> s[i] == s[d + 1..][i - d - 1];
    assert forall i :: k < i < |s| ==> s[i] == s[k + 1..][i - k - 1];
  }

  /** `s.split(sep)[-1]`: the text after the last `sep`, or all of `s`
      (`LastSegmentIsLastPart` ties it to `Split`). */
  function LastSegment(s: string, sep: char): (r: string)
    ensures sep !in r
    ensures |r| <= |s| && r == s[|s| - |r|..]
    ensures sep !in s ==> r == s
    ensures sep in s ==> |r| < |s| && s[|s| - |r| - 1] == sep
  {
    match LastIndexOf(s, sep)
    case None => s
    case Some(k) => s[k + 1..]
  }

  /** The text after a separator that no later separator follows is the last
      segment. */
  lemma LastSegmentUnique(s: string, sep: char, k: int)
    requires 0 <= k < |s| && s[k] == sep && sep !in s[k + 1..]
    ensures LastSegment(s, sep) == s[k + 1..]
  {
    LastIndexOfUnique(s, sep, k);
  }

  /** The last segment after a separator that does not occur later. */
  lemma LastSegmentAfter(a: string, sep: char, b: string)
    requires sep !in b
    ensures LastSegment(a + [sep] + b, sep) == b
  {
    var s := a + [sep] + b;
    assert s[|a| + 1..] == b;
    LastSegmentUnique(s, sep, |a|);
  }

  /** The last segment is the last part `Split` produces. */
  lemma LastSegmentIsLastPart(s: string, sep: char)
    ensures LastSegment(s, sep) == Split(s, sep)[|Split(s, sep)| - 1]
  {
    var parts := Split(s, sep);
    var last := parts[|parts| - 1];
    if |parts| > 1 {
      var head := Join(parts[..|parts| - 1], [sep]);
      assert s == head + [sep] + last by {
        JoinLast(parts, [sep]);
      }
      assert sep !in last;
      LastSegmentAfter(head, sep, last);
    } else {
      assert s == last by {
        JoinLast(parts, [sep]);
      }
    }
  }

  // ---------------------------------------------------------------------------
  // str(int) and its inverse
  // ---------------------------------------------------------------------------

  predicate IsDigit(c: char) {
    '0' <= c <= '9'
  }

  predicate AllDigits(s: string) {
    forall i :: 0 <= i < |s| ==> IsDigit(s[i])
  }

  function DigitChar(d: nat): (c: char)
    requires d < 10
    ensures IsDigit(c)
  {
    ('0' as int + d) as char
  }

  function DigitValue(c: char): (d: nat)
    requires IsDigit(c)
    ensures d < 10
    ensures DigitChar(d) == c
  {
    c as int - '0' as int
  }

  /** The number a string of decimal digits denotes. */
  function DigitsValue(s: string): nat
    requires AllDigits(s)
    decreases |s|
  {
    if |s| == 0 then 0
    else DigitsValue(s[..|s| - 1]) * 10 + DigitValue(s[|s| - 1])
  }

  /** `str(n)` for a natural number: its shortest decimal numeral. */
  function NatToString(n: nat): (s: string)
    ensures |s| >= 1 && AllDigits(s)
    ensures |s| > 1 ==> s[0] != '0'
    ensures n < 10 <==> |s| == 1
    decreases n
  {
    if n < 10 then [DigitChar(n)]
    else NatToString(n / 10) + [DigitChar(n % 10)]
  }

  /** `str(i)`: a minus sign in front of the numeral of a negative integer. */
  function IntToString(i: int): (s: string)
    ensures |s| >= 1
    ensures forall k :: 0 <= k < |s| ==> s[k] == '-' || IsDigit(s[k])
    ensures ' ' !in s && '+' !in s
  {
    if i < 0 then "-" + NatToString(-i) else NatToString(i)
  }

  /** Reads back an optionally signed decimal numeral (no other characters). */
  function ParseInt(s: string): (r: Option<int>)
    ensures r.Some? ==> |s| >= 1
  {
    if |s| >= 2 && s[0] == '-' && AllDigits(s[1..]) then Some(-(DigitsValue(s[1..]) as int))
    else if |s| >= 1 && AllDigits(s) then Some(DigitsValue(s))
    else None
  }

  lemma {:induction false} NatToStringValue(n: nat)
    ensures DigitsValue(NatToString(n)) == n
    decreases n
  {
    if n >= 10 {
      NatToStringValue(n / 10);
      var s := NatToString(n);
      assert s[..|s| - 1] == NatToString(n / 10);
    }
  }

  /** Reading back `str(i)` gives `i`. */
  lemma IntToStringRoundTrip(i: int)
    ensures ParseInt(IntToString(i)) == Some(i)
  {
    var s := IntToString(i);
    if i < 0 {
      var n := NatToString(-i);
      assert s == "-" + n;
      assert s[1..] == n;
      NatToStringValue(-i);
      assert ParseInt(s) == Some(-(DigitsValue(n) as int));
    } else {
      assert s == NatToString(i);
      assert IsDigit(s[0]);
      NatToStringValue(i);
      assert ParseInt(s) == Some(DigitsValue(s));
    }
  }
}
