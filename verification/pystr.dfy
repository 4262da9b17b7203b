/** The pieces of Python's text handling that the routes rely on: `str.isspace`,
    `str.strip()` and the truthiness test `field and field.strip()` on an optional
    form field. */
module PyStr {
  import opened Wrappers

  /** The characters for which Python's `str.isspace` holds: the Unicode
      White_Space characters plus the ASCII separators U+001C..U+001F. */
  predicate IsSpace(c: char)
  {
    || c == ' '
    || '\t' <= c <= '\r'
    || '\U{1C}' <= c <= '\U{1F}'
    || c == '\U{85}' || c == '\U{A0}' || c == '\U{1680}'
    || '\U{2000}' <= c <= '\U{200A}'
    || c == '\U{2028}' || c == '\U{2029}' || c == '\U{202F}' || c == '\U{205F}' || c == '\U{3000}'
  }

  /** Every character of `s` is whitespace (true of the empty string). */
  predicate AllSpace(s: string)
  {
    forall i :: 0 <= i < |s| ==> IsSpace(s[i])
  }

  /** Neither end of `s` is whitespace: `s` is its own `strip()`. */
  predicate Trimmed(s: string)
  {
    s == [] || (!IsSpace(s[0]) && !IsSpace(s[|s| - 1]))
  }

  /** How many whitespace characters `s` starts with. */
  function LeadingSpace(s: string): (n: nat)
    ensures n <= |s|
    ensures forall i :: 0 <= i < n ==> IsSpace(s[i])
    ensures n < |s| ==> !IsSpace(s[n])
  {
    if s == [] || !IsSpace(s[0]) then 0 else 1 + LeadingSpace(s[1..])
  }

  /** How many whitespace characters `s` ends with. */
  function TrailingSpace(s: string): (n: nat)
    ensures n <= |s|
    ensures forall i :: |s| - n <= i < |s| ==> IsSpace(s[i])
    ensures n < |s| ==> !IsSpace(s[|s| - n - 1])
  {
    if s == [] || !IsSpace(s[|s| - 1]) then 0 else 1 + TrailingSpace(s[..|s| - 1])
  }

  /** `s.strip()`: `s` without its leading and trailing whitespace. Neither end
      of the result is whitespace, and it is empty exactly when `s` is all
      whitespace; StripSplit and StripUnique pin it down completely. */
  function Strip(s: string): (r: string)
    ensures Trimmed(r)
    ensures |r| <= |s|
    ensures r == [] <==> AllSpace(s)
  {
    var i := LeadingSpace(s);
    if i == |s| then []
    else
      var j := |s| - TrailingSpace(s);
      assert i < j;
      s[i..j]
  }

  /** `s` is `Strip(s)` with whitespace before and after it. */
  lemma StripSplit(s: string) returns (a: string, b: string)
    ensures AllSpace(a) && AllSpace(b)
    ensures s == a + Strip(s) + b
  {
    var i := LeadingSpace(s);
    if i == |s| {
      a, b := s, [];
      assert s == a + [] + b;
    } else {
      var j := |s| - TrailingSpace(s);
      assert i < j;
      a, b := s[..i], s[j..];
      assert s == a + s[i..j] + b;
    }
  }

  /** `strip()` returns the one trimmed slice that only whitespace surrounds:
      an independent characterisation of what it computes. */
  lemma StripUnique(a: string, m: string, b: string)
    requires AllSpace(a) && AllSpace(b) && Trimmed(m)
    ensures Strip(a + m + b) == m
  {
    var s := a + m + b;
    if m == [] {
      assert s == a + b;
      forall k | 0 <= k < |s| ensures IsSpace(s[k]) {
        if k < |a| { assert s[k] == a[k]; } else { assert s[k] == b[k - |a|]; }
      }
    } else {
      var i := LeadingSpace(s);
      assert s[|a|] == m[0];
      assert i == |a|;
      var n := TrailingSpace(s);
      assert s[|a| + |m| - 1] == m[|m| - 1];
      assert n == |b|;
      assert s[i..|s| - n] == m;
    }
  }

  /** Stripping twice gives what stripping once gives. */
  lemma StripIdempotent(s: string)
    ensures Strip(Strip(s)) == Strip(s)
  {
  }

  /** The text a route stores for an optional form field: the stripped text
      when the field is present and not blank, `None` otherwise (the test
      `field and field.strip()`). */
  function StrippedField(field: Option<string>): (r: Option<string>)
    ensures r.None? <==> field.None? || AllSpace(field.value)
    ensures r.Some? ==> r.value == Strip(field.value) && r.value != [] && Trimmed(r.value)
  {
    match field
    case None => None
    case Some(s) => if s != [] && Strip(s) != [] then Some(Strip(s)) else None
  }
}
