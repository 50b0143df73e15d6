/** The parts of java.lang.String that the advisory pipeline relies on: trim, isBlank,
    toLowerCase, equalsIgnoreCase and contains, over ASCII case mapping. */
module JavaText {

  /** The characters String.trim strips: every code point up to U+0020. */
  predicate IsTrimmable(c: char) {
    c <= ' '
  }

  predicate AllTrimmable(s: string) {
    forall i :: 0 <= i < |s| ==> IsTrimmable(s[i])
  }

  /** Character.isWhitespace: the Unicode space, line and paragraph separators except the
      no-break spaces U+00A0, U+2007 and U+202F, plus U+0009..U+000D and U+001C..U+001F. */
  predicate IsWhitespace(c: char) {
    || c == ' '
    || ('\t' <= c <= '\r')
    || ('\U{001C}' <= c <= '\U{001F}')
    || c == '\U{1680}'
    || ('\U{2000}' <= c <= '\U{2006}')
    || ('\U{2008}' <= c <= '\U{200A}')
    || c == '\U{2028}' || c == '\U{2029}' || c == '\U{205F}' || c == '\U{3000}'
  }

  /** String.isBlank: empty, or only whitespace code points. */
  predicate IsBlank(s: string) {
    forall i :: 0 <= i < |s| ==> IsWhitespace(s[i])
  }

  /** The first loop of String.trim: from i, skips trimmable characters. */
  function FirstKept(s: string, i: nat): (r: nat)
    requires i <= |s|
    ensures i <= r <= |s|
    ensures forall k :: i <= k < r ==> IsTrimmable(s[k])
    ensures r == |s| || !IsTrimmable(s[r])
    decreases |s| - i
  {
    if i < |s| && IsTrimmable(s[i]) then FirstKept(s, i + 1) else i
  }

  /** The second loop of String.trim: from len, steps back over trimmable characters, never
      below st. */
  function LastKept(s: string, st: nat, len: nat): (r: nat)
    requires st <= len <= |s|
    ensures st <= r <= len
    ensures forall k :: r <= k < len ==> IsTrimmable(s[k])
    ensures r == st || !IsTrimmable(s[r - 1])
    decreases len
  {
    if st < len && IsTrimmable(s[len - 1]) then LastKept(s, st, len - 1) else len
  }

  /** String.trim: the substring between the first and the last character above U+0020. */
  function Trim(s: string): (r: string)
    ensures |r| <= |s|
    ensures r == [] || (!IsTrimmable(r[0]) && !IsTrimmable(r[|r| - 1]))
  {
    var st := FirstKept(s, 0);
    s[st..LastKept(s, st, |s|)]
  }

  /** Trim is determined by the split: whatever trimmable padding surrounds a core with
      non-trimmable ends, Trim returns exactly that core. */
  lemma TrimOfPadded(p: string, m: string, q: string)
    requires AllTrimmable(p) && AllTrimmable(q)
    requires m == [] || (!IsTrimmable(m[0]) && !IsTrimmable(m[|m| - 1]))
    ensures Trim(p + m + q) == m
  {
    var s := p + m + q;
    var st := FirstKept(s, 0);
    var e := LastKept(s, st, |s|);
    if m == [] {
      assert forall k :: 0 <= k < |s| ==> IsTrimmable(s[k]) by {
        forall k | 0 <= k < |s| ensures IsTrimmable(s[k]) {
          if k < |p| { assert s[k] == p[k]; } else { assert s[k] == q[k - |p|]; }
        }
      }
      assert st == |s|;
    } else {
      assert s[|p|] == m[0];
      assert forall k :: 0 <= k < |p| ==> s[k] == p[k];
      assert st == |p|;
      var j := |p| + |m|;
      assert s[j - 1] == m[|m| - 1];
      assert forall k :: j <= k < |s| ==> s[k] == q[k - j];
      assert e == j;
      assert s[st..e] == m;
    }
  }

  /** Trimming text that ends in a single space, with nothing trimmable at its visible ends,
      drops exactly that space. */
  lemma TrimDropsFinalSpace(m: string)
    requires |m| > 0 && !IsTrimmable(m[0]) && !IsTrimmable(m[|m| - 1])
    ensures Trim(m + " ") == m
  {
    assert m + " " == [] + m + " ";
    TrimOfPadded([], m, " ");
  }

  /** Trim is idempotent. */
  lemma TrimIdempotent(s: string)
    ensures Trim(Trim(s)) == Trim(s)
  {
    var m := Trim(s);
    TrimOfPadded([], m, []);
    assert [] + m + [] == m;
  }

  lemma AllTrimmableConcat(a: string, b: string)
    requires AllTrimmable(a) && AllTrimmable(b)
    ensures AllTrimmable(a + b)
  {
    assert forall k :: |a| <= k < |a + b| ==> (a + b)[k] == b[k - |a|];
  }

  /** Trim cuts s into leading padding, the result, and trailing padding. */
  lemma TrimSplit(s: string) returns (lead: string, tail: string)
    ensures s == lead + Trim(s) + tail
    ensures AllTrimmable(lead) && AllTrimmable(tail)
  {
    var st := FirstKept(s, 0);
    var e := LastKept(s, st, |s|);
    lead, tail := s[..st], s[e..];
    assert forall k :: 0 <= k < |lead| ==> lead[k] == s[k];
    assert forall k :: 0 <= k < |tail| ==> tail[k] == s[e + k];
    assert s == lead + s[st..e] + tail;
  }

  /** Extra trimmable padding around a string does not change its trim. */
  lemma TrimIgnoresPadding(ws1: string, s: string, ws2: string)
    requires AllTrimmable(ws1) && AllTrimmable(ws2)
    ensures Trim(ws1 + s + ws2) == Trim(s)
  {
    var lead, tail := TrimSplit(s);
    var m := Trim(s);
    AllTrimmableConcat(ws1, lead);
    AllTrimmableConcat(tail, ws2);
    Regroup(ws1, lead, m, tail, ws2);
    TrimOfPadded(ws1 + lead, m, tail + ws2);
  }

  lemma Regroup(a: string, b: string, c: string, d: string, e: string)
    ensures a + (b + c + d) + e == (a + b) + c + (d + e)
  {
  }

  /** A character outside the Basic Multilingual Plane, which a Java String holds as a
      surrogate pair of two UTF-16 code units. */
  predicate IsSupplementary(c: char) {
    c as int >= 0x1_0000
  }

  /** String.length(): the number of UTF-16 code units, two for each supplementary character. */
  function Utf16Length(s: string): (n: nat)
    ensures |s| <= n <= 2 * |s|
    ensures (forall i :: 0 <= i < |s| ==> !IsSupplementary(s[i])) ==> n == |s|
  {
    if s == [] then 0
    else Utf16Length(s[..|s| - 1]) + (if IsSupplementary(s[|s| - 1]) then 2 else 1)
  }

  /** Code units add up over concatenation. */
  lemma {:induction false} Utf16LengthConcat(a: string, b: string)
    ensures Utf16Length(a + b) == Utf16Length(a) + Utf16Length(b)
    decreases |b|
  {
    if b == [] {
      assert a + b == a;
    } else {
      var b' := b[..|b| - 1];
      assert (a + b)[..|a + b| - 1] == a + b';
      assert (a + b)[|a + b| - 1] == b[|b| - 1];
      Utf16LengthConcat(a, b');
    }
  }

  predicate IsUpper(c: char) { 'A' <= c <= 'Z' }
  predicate IsLower(c: char) { 'a' <= c <= 'z' }
  predicate IsLetter(c: char) { IsUpper(c) || IsLower(c) }
  predicate IsDigit(c: char) { '0' <= c <= '9' }

  /** Character.toLowerCase restricted to ASCII. */
  function LowerChar(c: char): (r: char)
    ensures IsUpper(c) ==> IsLower(r) && r as int - c as int == 'a' as int - 'A' as int
    ensures !IsUpper(c) ==> r == c
  {
    if IsUpper(c) then (c as int - 'A' as int + 'a' as int) as char else c
  }

  /** String.toLowerCase over ASCII. */
  function ToLower(s: string): (r: string)
    ensures |r| == |s|
    ensures forall i :: 0 <= i < |s| ==> r[i] == LowerChar(s[i])
  {
    if s == [] then [] else [LowerChar(s[0])] + ToLower(s[1..])
  }

  /** Lower-casing leaves no upper-case letter, keeps letters letters, and does not touch what
      trim strips. */
  lemma ToLowerChars(s: string)
    ensures forall i :: 0 <= i < |s| ==> !IsUpper(ToLower(s)[i])
    ensures forall i :: 0 <= i < |s| ==> (IsLetter(ToLower(s)[i]) <==> IsLetter(s[i]))
    ensures forall i :: 0 <= i < |s| ==> (IsTrimmable(ToLower(s)[i]) <==> IsTrimmable(s[i]))
    ensures forall i :: 0 <= i < |s| ==> (ToLower(s)[i] == ' ' <==> s[i] == ' ')
  {
  }

  lemma ToLowerIdempotent(s: string)
    ensures ToLower(ToLower(s)) == ToLower(s)
  {
  }

  /** Lower-casing respects a split into padding and core. */
  lemma ToLowerSplit(p: string, m: string, q: string)
    ensures ToLower(p + m + q) == ToLower(p) + ToLower(m) + ToLower(q)
  {
    var s := p + m + q;
    assert forall k :: 0 <= k < |s| ==> ToLower(s)[k] == (ToLower(p) + ToLower(m) + ToLower(q))[k];
  }

  /** A string with no capital letter is its own lower-case form. */
  lemma NoCapitals(s: string)
    requires forall i :: 0 <= i < |s| ==> !IsUpper(s[i])
    ensures ToLower(s) == s
  {
  }

  /** Lower-casing does not touch what trim strips, so the two commute. */
  lemma TrimToLower(s: string)
    ensures Trim(ToLower(s)) == ToLower(Trim(s))
  {
    var lead, tail := TrimSplit(s);
    var m := Trim(s);
    ToLowerSplit(lead, m, tail);
    ToLowerChars(lead);
    ToLowerChars(m);
    ToLowerChars(tail);
    assert s == lead + m + tail;
    TrimOfPadded(ToLower(lead), ToLower(m), ToLower(tail));
  }

  /** String.equalsIgnoreCase over ASCII: same length, equal characters after case mapping. */
  predicate EqualsIgnoreCase(a: string, b: string) {
    |a| == |b| && forall i :: 0 <= i < |a| ==> LowerChar(a[i]) == LowerChar(b[i])
  }

  lemma EqualsIgnoreCaseIsLowerEquality(a: string, b: string)
    ensures EqualsIgnoreCase(a, b) <==> ToLower(a) == ToLower(b)
  {
    if ToLower(a) == ToLower(b) {
      forall i | 0 <= i < |a| ensures LowerChar(a[i]) == LowerChar(b[i]) {
        assert ToLower(a)[i] == ToLower(b)[i];
      }
    }
    if EqualsIgnoreCase(a, b) {
      assert forall i :: 0 <= i < |a| ==> ToLower(a)[i] == ToLower(b)[i];
    }
  }

  /** A match ignoring case does not depend on the case of either side. */
  lemma EqualsIgnoreCaseOfLower(a: string, b: string)
    ensures EqualsIgnoreCase(a, ToLower(b)) <==> EqualsIgnoreCase(a, b)
  {
    EqualsIgnoreCaseIsLowerEquality(a, b);
    EqualsIgnoreCaseIsLowerEquality(a, ToLower(b));
    ToLowerIdempotent(b);
  }

  /** t occurs in s starting at offset k. */
  predicate OccursAt(s: string, t: string, k: int) {
    0 <= k && k + |t| <= |s| && s[k..k + |t|] == t
  }

  /** String.indexOf's scan: t occurs in s at offset k or later. */
  predicate OccursFrom(s: string, t: string, k: nat)
    decreases |s| - k
  {
    k + |t| <= |s| && (s[k..k + |t|] == t || OccursFrom(s, t, k + 1))
  }

  /** String.contains. */
  predicate Contains(s: string, t: string) {
    OccursFrom(s, t, 0)
  }

  lemma {:induction false} OccursFromIff(s: string, t: string, k: nat)
    ensures OccursFrom(s, t, k) <==> exists j :: k <= j && OccursAt(s, t, j)
    decreases |s| - k
  {
    if k + |t| <= |s| {
      OccursFromIff(s, t, k + 1);
      assert OccursAt(s, t, k) <==> s[k..k + |t|] == t;
      forall j | k <= j && OccursAt(s, t, j) ensures j == k || k + 1 <= j {
      }
    } else {
      forall j | k <= j ensures !OccursAt(s, t, j) {
      }
    }
  }

  /** The scan finds t exactly when t occurs at some offset. */
  lemma ContainsIsOccurrence(s: string, t: string)
    ensures Contains(s, t) <==> exists k :: 0 <= k && OccursAt(s, t, k)
  {
    OccursFromIff(s, t, 0);
  }

  /** An occurrence at any offset makes the scan succeed. */
  lemma OccurrenceContains(s: string, t: string, k: nat)
    requires OccursAt(s, t, k)
    ensures Contains(s, t)
  {
    ContainsIsOccurrence(s, t);
  }

  /** One mismatched character rules out an occurrence at that offset. */
  lemma MismatchBlocksOccurrence(s: string, t: string, k: nat, i: nat)
    requires i < |t| && k + |t| <= |s| && s[k + i] != t[i]
    ensures !OccursAt(s, t, k)
  {
    assert s[k..k + |t|][i] == s[k + i];
  }

  /** A string lacking one of t's letters does not contain t. */
  lemma LetterAbsent(s: string, t: string, i: nat)
    requires i < |t|
    requires t[i] !in s
    ensures !Contains(s, t)
  {
    forall j | 0 <= j ensures !OccursAt(s, t, j) {
      if j + |t| <= |s| {
        assert s[j + i] in s;
        MismatchBlocksOccurrence(s, t, j, i);
      }
    }
    ContainsIsOccurrence(s, t);
  }

  function DigitChar(d: nat): (c: char)
    requires d < 10
    ensures IsDigit(c)
  {
    ('0' as int + d) as char
  }

  function DigitValue(c: char): (d: nat)
    requires IsDigit(c)
    ensures d < 10 && DigitChar(d) == c
  {
    c as int - '0' as int
  }

  /** Two-digit zero-padded decimal text, as a DateTimeFormatter field of width 2 prints it. */
  function Pad2(n: nat): (r: string)
    requires n < 100
    ensures |r| == 2 && IsDigit(r[0]) && IsDigit(r[1])
    ensures DigitValue(r[0]) * 10 + DigitValue(r[1]) == n
  {
    [DigitChar(n / 10), DigitChar(n % 10)]
  }

  /** Decimal text of n without padding. */
  function Decimal(n: nat): (r: string)
    ensures 0 < |r| && forall i :: 0 <= i < |r| ==> IsDigit(r[i])
  {
    if n < 10 then [DigitChar(n)] else Decimal(n / 10) + [DigitChar(n % 10)]
  }
}
