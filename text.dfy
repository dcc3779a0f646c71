/**
 * Character-level helpers shared by the backend and the frontend:
 * digit filtering, whitespace trimming, prefix and substring tests and
 * case folding. Digits, whitespace and case are the ASCII notions
 * (plus the two non-ASCII spaces a Japanese keyboard produces).
 */
module Text {
  import opened Wrappers

  predicate IsDigit(c: char) { '0' <= c <= '9' }

  predicate AllDigits(s: string) {
    forall i :: 0 <= i < |s| ==> IsDigit(s[i])
  }

  /** How many digit characters `s` holds. */
  function DigitCount(s: string): nat {
    if s == [] then 0 else (if IsDigit(s[0]) then 1 else 0) + DigitCount(s[1..])
  }

  /**
   * `s.replace(/[^0-9]/g, '')`: every character that is not a decimal
   * digit is dropped, the digits keep their order.
   */
  function KeepDigits(s: string): (r: string)
    ensures AllDigits(r)
    ensures |r| == DigitCount(s) <= |s|
    ensures AllDigits(s) ==> r == s
  {
    if s == [] then []
    else if IsDigit(s[0]) then [s[0]] + KeepDigits(s[1..]) else KeepDigits(s[1..])
  }

  /** Filtering digits distributes over concatenation, so the digits keep their relative order. */
  lemma {:induction false} KeepDigitsAppend(a: string, b: string)
    ensures KeepDigits(a + b) == KeepDigits(a) + KeepDigits(b)
  {
    if a != [] {
      assert (a + b)[0] == a[0];
      assert (a + b)[1..] == a[1..] + b;
      KeepDigitsAppend(a[1..], b);
    } else {
      assert a + b == b;
    }
  }

  /** Whitespace removed by Python's `str.strip()` and JavaScript's `String.prototype.trim()`. */
  predicate IsSpace(c: char) {
    c == ' ' || c == '\t' || c == '\n' || c == '\r' || c == '\U{000B}' || c == '\U{000C}'
    || c == '\U{00A0}' || c == '\U{3000}'
  }

  predicate IsBlank(s: string) {
    forall i :: 0 <= i < |s| ==> IsSpace(s[i])
  }

  /** Leading whitespace removed: a suffix of `s` whose dropped prefix is blank. */
  function TrimStart(s: string): (r: string)
    ensures |r| <= |s| && r == s[|s| - |r|..]
    ensures IsBlank(s[..|s| - |r|])
    ensures r == [] || !IsSpace(r[0])
  {
    if s != [] && IsSpace(s[0]) then TrimStart(s[1..]) else s
  }

  /** Trailing whitespace removed: a prefix of `s` whose dropped suffix is blank. */
  function TrimEnd(s: string): (r: string)
    ensures |r| <= |s| && r == s[..|r|]
    ensures IsBlank(s[|r|..])
    ensures r == [] || !IsSpace(r[|r| - 1])
  {
    if s != [] && IsSpace(s[|s| - 1]) then TrimEnd(s[..|s| - 1]) else s
  }

  /** `strip()` / `trim()`: neither starts nor ends with whitespace. */
  function Trim(s: string): (r: string)
    ensures |r| <= |s|
    ensures |r| <= |TrimStart(s)| && r == TrimStart(s)[..|r|] && IsBlank(TrimStart(s)[|r|..])
    ensures r == [] || (!IsSpace(r[0]) && !IsSpace(r[|r| - 1]))
  {
    TrimEnd(TrimStart(s))
  }

  lemma {:induction false} BlankTrimsToEmpty(s: string)
    requires IsBlank(s)
    ensures TrimStart(s) == []
  {
    if s != [] {
      BlankTrimsToEmpty(s[1..]);
    }
  }

  /** A string trims to nothing exactly when it is all whitespace. */
  lemma TrimEmptyIffBlank(s: string)
    ensures Trim(s) == [] <==> IsBlank(s)
  {
    if IsBlank(s) {
      BlankTrimsToEmpty(s);
    }
    var t := TrimStart(s);
    var k := |s| - |t|;
    if Trim(s) == [] {
      assert IsBlank(t[0..]);
      assert s == s[..k] + t;
    }
  }

  /** A string that neither starts nor ends with whitespace trims to itself, so trimming twice is trimming once. */
  lemma TrimKeepsTrimmed(s: string)
    requires s == [] || (!IsSpace(s[0]) && !IsSpace(s[|s| - 1]))
    ensures Trim(s) == s
  {
    if s != [] {
      assert TrimStart(s) == s;
    }
  }

  predicate StartsWith(s: string, prefix: string) {
    |prefix| <= |s| && s[..|prefix|] == prefix
  }

  /** `pattern` occurs in `s` starting at index `i`. */
  predicate OccursAt(s: string, pattern: string, i: int) {
    0 <= i && i + |pattern| <= |s| && s[i..i + |pattern|] == pattern
  }

  /** Substring test, scanning `s` from the left (`pattern in s` / `s.includes(pattern)`). */
  predicate Contains(s: string, pattern: string) {
    StartsWith(s, pattern) || (s != [] && Contains(s[1..], pattern))
  }

  lemma {:induction false} ContainsHasOccurrence(s: string, pattern: string)
    requires Contains(s, pattern)
    ensures exists i :: OccursAt(s, pattern, i)
  {
    if StartsWith(s, pattern) {
      assert OccursAt(s, pattern, 0);
    } else {
      ContainsHasOccurrence(s[1..], pattern);
      var i :| OccursAt(s[1..], pattern, i);
      assert s[1..][i..i + |pattern|] == s[i + 1..i + 1 + |pattern|];
      assert OccursAt(s, pattern, i + 1);
    }
  }

  lemma {:induction false} OccurrenceIsContained(s: string, pattern: string, i: int)
    requires OccursAt(s, pattern, i)
    ensures Contains(s, pattern)
    decreases i
  {
    if i > 0 {
      assert s[1..][i - 1..i - 1 + |pattern|] == s[i..i + |pattern|];
      OccurrenceIsContained(s[1..], pattern, i - 1);
    }
  }

  /** The scan agrees with the positional definition of "occurs somewhere in". */
  lemma ContainsIffOccurs(s: string, pattern: string)
    ensures Contains(s, pattern) <==> exists i :: OccursAt(s, pattern, i)
  {
    if Contains(s, pattern) {
      ContainsHasOccurrence(s, pattern);
    }
    if exists i :: OccursAt(s, pattern, i) {
      var i :| OccursAt(s, pattern, i);
      OccurrenceIsContained(s, pattern, i);
    }
  }

  /** ASCII lower-casing, the case fold of a case-insensitive match. */
  function Fold(c: char): char {
    if 'A' <= c <= 'Z' then (c as int + 32) as char else c
  }

  function FoldAll(s: string): (r: string)
    ensures |r| == |s| && forall i :: 0 <= i < |s| ==> r[i] == Fold(s[i])
  {
    if s == [] then [] else [Fold(s[0])] + FoldAll(s[1..])
  }

  /** Case-insensitive substring test (`icontains`). */
  predicate ContainsIgnoringCase(s: string, pattern: string) {
    Contains(FoldAll(s), FoldAll(pattern))
  }

  /** Python and JavaScript truthiness of an optional string: present and non-empty. */
  predicate Truthy(o: Option<string>) {
    o.Some? && o.value != ""
  }
}
