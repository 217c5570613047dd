/** The string operations of Python that the collector relies on:
    `str.isspace` (which is also the set the regular-expression class `\s`
    matches in a str pattern), `str.strip`, the `in` operator on strings,
    `str.startswith` and `str(int)`. */
module Text {

  /** Python's `str.isspace`: the Unicode whitespace characters. */
  predicate IsSpace(c: char)
  {
    || ('\t' <= c <= '\r')
    || ('\U{1C}' <= c <= '\U{1F}')
    || c == ' ' || c == '\U{85}' || c == '\U{A0}' || c == '\U{1680}'
    || ('\U{2000}' <= c <= '\U{200A}')
    || c == '\U{2028}' || c == '\U{2029}' || c == '\U{202F}' || c == '\U{205F}'
    || c == '\U{3000}'
  }

  predicate AllSpace(s: string)
  {
    forall i :: 0 <= i < |s| ==> IsSpace(s[i])
  }

  /** Neither end of `s` is whitespace. */
  predicate IsStripped(s: string)
  {
    s == [] || (!IsSpace(s[0]) && !IsSpace(s[|s| - 1]))
  }

  /** The first index at or after `i` that is not whitespace, or `|s|`. */
  function SkipSpace(s: string, i: nat): (k: nat)
    requires i <= |s|
    ensures i <= k <= |s| && (k < |s| ==> !IsSpace(s[k]))
    decreases |s| - i
  {
    if i == |s| || !IsSpace(s[i]) then i else SkipSpace(s, i + 1)
  }

  /** Everything skipped is whitespace. */
  lemma {:induction false} SkipSpaceAll(s: string, i: nat)
    requires i <= |s|
    ensures forall k :: i <= k < SkipSpace(s, i) ==> IsSpace(s[k])
    decreases |s| - i
  {
    if i < |s| && IsSpace(s[i]) {
      SkipSpaceAll(s, i + 1);
    }
  }

  /** A whitespace run ending at a non-whitespace character (or the end) is what is skipped. */
  lemma {:induction false} SkipSpaceTo(s: string, i: nat, k: nat)
    requires i <= k <= |s| && (forall q :: i <= q < k ==> IsSpace(s[q])) && (k < |s| ==> !IsSpace(s[k]))
    ensures SkipSpace(s, i) == k
    decreases k - i
  {
    if i < k {
      SkipSpaceTo(s, i + 1, k);
    }
  }

  /** The end of `s[..j]` once its trailing whitespace is dropped. */
  function SkipSpaceBack(s: string, j: nat): (k: nat)
    requires j <= |s|
    ensures k <= j && (k > 0 ==> !IsSpace(s[k - 1]))
  {
    if j == 0 || !IsSpace(s[j - 1]) then j else SkipSpaceBack(s, j - 1)
  }

  lemma {:induction false} SkipSpaceBackAll(s: string, j: nat)
    requires j <= |s|
    ensures forall k :: SkipSpaceBack(s, j) <= k < j ==> IsSpace(s[k])
  {
    if j > 0 && IsSpace(s[j - 1]) {
      SkipSpaceBackAll(s, j - 1);
    }
  }

  lemma {:induction false} SkipSpaceBackTo(s: string, j: nat, k: nat)
    requires k <= j <= |s| && (forall q :: k <= q < j ==> IsSpace(s[q])) && (k > 0 ==> !IsSpace(s[k - 1]))
    ensures SkipSpaceBack(s, j) == k
  {
    if k < j {
      SkipSpaceBackTo(s, j - 1, k);
    }
  }

  /** `s.strip()`: what lies between the leading and the trailing whitespace. */
  function Strip(s: string): (r: string)
    ensures IsStripped(r)
    ensures |r| <= |s|
  {
    var i, j := SkipSpace(s, 0), SkipSpaceBack(s, |s|);
    if i < j then
      assert s[i..j][0] == s[i] && s[i..j][j - i - 1] == s[j - 1];
      s[i..j]
    else []
  }

  /** Only whitespace lies before the first non-whitespace character. */
  lemma StripBounds(s: string)
    ensures SkipSpace(s, 0) < |s| ==> SkipSpace(s, 0) < SkipSpaceBack(s, |s|)
    ensures SkipSpace(s, 0) == |s| ==> AllSpace(s)
  {
    SkipSpaceAll(s, 0);
    SkipSpaceBackAll(s, |s|);
  }

  /** `s.strip()` removes exactly a whitespace run on each side: the result is
      the infix of `s` between two all-whitespace ends. */
  lemma StripInfix(s: string)
    ensures exists i :: OccursAt(s, Strip(s), i) && AllSpace(s[..i]) && AllSpace(s[i + |Strip(s)|..])
  {
    var i, j := SkipSpace(s, 0), SkipSpaceBack(s, |s|);
    if i < j {
      StripInner(s);
      assert OccursAt(s, Strip(s), i) && AllSpace(s[..i]) && AllSpace(s[i + |Strip(s)|..]);
    } else {
      StripBounds(s);
      assert s[..0] == [] && s[0..] == s;
      assert OccursAt(s, Strip(s), 0) && AllSpace(s[..0]) && AllSpace(s[0 + |Strip(s)|..]);
    }
  }

  lemma StripInner(s: string)
    requires SkipSpace(s, 0) < SkipSpaceBack(s, |s|)
    ensures var i, j := SkipSpace(s, 0), SkipSpaceBack(s, |s|);
      Strip(s) == s[i..j] && AllSpace(s[..i]) && AllSpace(s[j..])
  {
    LeadingSpace(s);
    TrailingSpace(s);
  }

  lemma LeadingSpace(s: string)
    ensures AllSpace(s[..SkipSpace(s, 0)])
  {
    var i := SkipSpace(s, 0);
    SkipSpaceAll(s, 0);
    assert forall k :: 0 <= k < i ==> s[..i][k] == s[k];
  }

  lemma TrailingSpace(s: string)
    ensures AllSpace(s[SkipSpaceBack(s, |s|)..])
  {
    var j := SkipSpaceBack(s, |s|);
    SkipSpaceBackAll(s, |s|);
    assert forall k :: 0 <= k < |s| - j ==> s[j..][k] == s[j + k];
  }

  /** The whitespace run on each side is the only thing `strip` removes:
      any split into space, a stripped middle and space strips to the middle. */
  lemma StripUnique(a: string, m: string, b: string)
    requires AllSpace(a) && AllSpace(b) && IsStripped(m)
    ensures Strip(a + m + b) == m
  {
    var s := a + m + b;
    assert forall q :: 0 <= q < |a| ==> s[q] == a[q];
    assert forall q :: 0 <= q < |b| ==> s[|a| + |m| + q] == b[q];
    if m == [] {
      SkipSpaceTo(s, 0, |s|);
    } else {
      assert s[|a|] == m[0] && s[|a| + |m| - 1] == m[|m| - 1];
      SkipSpaceTo(s, 0, |a|);
      SkipSpaceBackTo(s, |s|, |a| + |m|);
      assert s[|a|..|a| + |m|] == m;
    }
  }

  /** `s.strip()` is empty exactly when `s` is all whitespace. */
  lemma StripEmpty(s: string)
    ensures Strip(s) == [] <==> AllSpace(s)
  {
    StripBounds(s);
    if AllSpace(s) {
      SkipSpaceTo(s, 0, |s|);
    }
  }

  /** Stripping twice is stripping once. */
  lemma StripIdempotent(s: string)
    ensures Strip(Strip(s)) == Strip(s)
  {
    StripUnique([], Strip(s), []);
    assert [] + Strip(s) + [] == Strip(s);
  }

  /** `s.startswith(p)`. */
  predicate StartsWith(s: string, p: string)
  {
    |p| <= |s| && s[..|p|] == p
  }

  /** `sub` occurs in `s` starting at index `i`. */
  predicate OccursAt(s: string, sub: string, i: int)
  {
    0 <= i <= |s| - |sub| && s[i..i + |sub|] == sub
  }

  /** `sub in s`, Python's substring test, as a left-to-right search. */
  predicate Contains(s: string, sub: string)
  {
    OccursFrom(s, sub, 0)
  }

  /** `sub` occurs in `s` at index `i` or later. */
  predicate OccursFrom(s: string, sub: string, i: nat)
    decreases |s| - i
  {
    OccursAt(s, sub, i) || (i < |s| && OccursFrom(s, sub, i + 1))
  }

  lemma {:induction false} OccursFromIff(s: string, sub: string, i: nat)
    ensures OccursFrom(s, sub, i) <==> exists k :: i <= k && OccursAt(s, sub, k)
    decreases |s| - i
  {
    if i < |s| {
      OccursFromIff(s, sub, i + 1);
      if k :| i <= k && OccursAt(s, sub, k) {
        if k > i {
          assert i + 1 <= k && OccursAt(s, sub, k);
        }
      }
    } else if k :| i <= k && OccursAt(s, sub, k) {
      assert k == i;
    }
  }

  /** The search agrees with the declarative meaning: `sub` occurs at some index. */
  lemma ContainsIff(s: string, sub: string)
    ensures Contains(s, sub) <==> exists i :: OccursAt(s, sub, i)
  {
    OccursFromIff(s, sub, 0);
  }

  /** A string contains every one of its infixes. */
  lemma ContainsInfix(p: string, sub: string, q: string)
    ensures Contains(p + sub + q, sub)
  {
    var s := p + sub + q;
    assert s[|p|..|p| + |sub|] == sub;
    assert OccursAt(s, sub, |p|);
    ContainsIff(s, sub);
  }

  /** A string that lacks the first character of `sub` does not contain `sub`. */
  lemma NotContainsFirst(s: string, sub: string)
    requires sub != [] && sub[0] !in s
    ensures !Contains(s, sub)
  {
    forall i | 0 <= i
      ensures !OccursAt(s, sub, i)
    {
      if i <= |s| - |sub| {
        assert s[i..i + |sub|][0] == s[i];
        assert s[i] in s;
      }
    }
    ContainsIff(s, sub);
  }

  /** `str(n)` for a natural number: its decimal digits, most significant first. */
  function NatToDecimal(n: nat): (r: string)
    ensures r != [] && forall i :: 0 <= i < |r| ==> '0' <= r[i] <= '9'
  {
    var d := ['0' + (n % 10) as char];
    if n < 10 then d else NatToDecimal(n / 10) + d
  }

  /** `str(i)` for any integer, with a leading minus sign when negative. */
  function IntToDecimal(i: int): (r: string)
    ensures r != []
  {
    if i < 0 then "-" + NatToDecimal(-i) else NatToDecimal(i)
  }

  /** The value a string of decimal digits denotes. */
  function DecimalValue(s: string): nat
    requires forall i :: 0 <= i < |s| ==> '0' <= s[i] <= '9'
  {
    if s == [] then 0 else 10 * DecimalValue(s[..|s| - 1]) + (s[|s| - 1] - '0') as nat
  }

  /** `str(n)` denotes `n`. */
  lemma {:induction false} DecimalRoundTrip(n: nat)
    ensures DecimalValue(NatToDecimal(n)) == n
  {
    var r := NatToDecimal(n);
    if n >= 10 {
      DecimalRoundTrip(n / 10);
      assert r[..|r| - 1] == NatToDecimal(n / 10);
    }
  }
}
