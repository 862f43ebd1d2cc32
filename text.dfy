/** String facts used throughout: prefixes, occurrences, `indexOf`, and the
    decimal rendering of integers that template literals perform. */
module Text {
  import opened Wrappers

  /** JavaScript `s.startsWith(prefix)`. */
  predicate StartsWith(s: string, prefix: string) {
    |prefix| <= |s| && s[..|prefix|] == prefix
  }

  /** `s` starts with `prefix` exactly when it is `prefix` followed by more text. */
  lemma StartsWithIff(s: string, prefix: string)
    ensures StartsWith(s, prefix) <==> exists rest :: s == prefix + rest
  {
    if StartsWith(s, prefix) {
      assert s == prefix + s[|prefix|..];
    }
    if exists rest :: s == prefix + rest {
      var rest :| s == prefix + rest;
      assert s[..|prefix|] == prefix;
    }
  }

  /** `u` occurs in `s` at index `i`. */
  predicate OccursAt(s: string, u: string, i: int) {
    0 <= i && i + |u| <= |s| && s[i..i + |u|] == u
  }

  /** `u` is a substring of `s` (JavaScript `s.includes(u)`). */
  predicate Contains(s: string, u: string) {
    exists i :: 0 <= i <= |s| && OccursAt(s, u, i)
  }

  /** Gluing `r` next to text cannot complete an occurrence of `u`: neither
      contains the other, and no non-empty proper end of one of them is a
      beginning of the other. */
  predicate Separated(u: string, r: string) {
    && !Contains(r, u)
    && !Contains(u, r)
    && (forall k :: 0 < k < |u| && k < |r| ==> u[|u| - k..] != r[..k])
    && (forall k :: 0 < k < |u| && k < |r| ==> u[..k] != r[|r| - k..])
  }

  /** An easy way to be separated: `r` begins and ends with characters that
      `u` lacks, and `u` has a character that `r` lacks. */
  lemma SeparatedWhen(u: string, r: string, j: nat)
    requires u != [] && r != [] && r[0] !in u && r[|r| - 1] !in u
    requires j < |u| && u[j] !in r
    ensures Separated(u, r)
  {
    forall i | 0 <= i <= |r|
      ensures !OccursAt(r, u, i)
    {
      if i + |u| <= |r| {
        assert r[i..i + |u|][j] == r[i + j];
      }
    }
    forall i | 0 <= i <= |u|
      ensures !OccursAt(u, r, i)
    {
      if i + |r| <= |u| {
        assert u[i..i + |r|][0] == u[i];
      }
    }
    forall k | 0 < k < |u| && k < |r|
      ensures u[|u| - k..] != r[..k] && u[..k] != r[|r| - k..]
    {
      assert u[|u| - k..][0] == u[|u| - k] && r[..k][0] == r[0];
      assert u[..k][k - 1] == u[k - 1] && r[|r| - k..][k - 1] == r[|r| - 1];
    }
  }

  /** The StringIndexOf abstract operation of ECMA-262, the search that
      `String.prototype.replaceAll` uses: the least index at or after
      `from` where `u` occurs, or None where the operation answers -1.
      Unlike `s.indexOf(u, from)` it does not clamp `from` to `|s|`. */
  function IndexOf(s: string, u: string, from: nat): (r: Option<nat>)
    ensures r.Some? ==> from <= r.value && r.value + |u| <= |s|
    decreases |s| - from
  {
    if from + |u| > |s| then None
    else if s[from..from + |u|] == u then Some(from)
    else IndexOf(s, u, from + 1)
  }

  /** `IndexOf` finds the leftmost occurrence at or after `from`, and answers
      None exactly when there is none. */
  lemma {:induction false} IndexOfLeftmost(s: string, u: string, from: nat)
    ensures IndexOf(s, u, from).Some? ==> OccursAt(s, u, IndexOf(s, u, from).value)
    ensures IndexOf(s, u, from).Some? ==>
      forall j :: from <= j < IndexOf(s, u, from).value ==> !OccursAt(s, u, j)
    ensures IndexOf(s, u, from).None? ==> forall j :: from <= j ==> !OccursAt(s, u, j)
    decreases |s| - from
  {
    if from + |u| <= |s| && s[from..from + |u|] != u {
      IndexOfLeftmost(s, u, from + 1);
    }
  }

  lemma SliceOfSlice(s: string, lo: nat, hi: nat, i: nat, j: nat)
    requires lo <= hi <= |s| && i <= j <= hi - lo
    ensures s[lo..hi][i..j] == s[lo + i..lo + j]
  {
    forall k | 0 <= k < j - i
      ensures s[lo..hi][i..j][k] == s[lo + i..lo + j][k]
    {
      assert s[lo..hi][i..j][k] == s[lo..hi][i + k] == s[lo + i + k];
    }
  }

  /** An occurrence inside a slice is an occurrence in the whole string. */
  lemma ContainsInSlice(s: string, lo: nat, hi: nat, u: string)
    requires lo <= hi <= |s|
    requires Contains(s[lo..hi], u)
    ensures Contains(s, u)
  {
    var i :| 0 <= i <= hi - lo && OccursAt(s[lo..hi], u, i);
    forall k | 0 <= k < |u|
      ensures s[lo + i + k] == u[k]
    {
      assert s[lo..hi][i..i + |u|][k] == s[lo..hi][i + k];
    }
    assert s[lo + i..lo + i + |u|] == u;
    assert OccursAt(s, u, lo + i);
  }

  /** A window of `s` that covers `s[lo..hi]` is not `u` when `u` does not
      contain that slice. */
  lemma WindowCovering(s: string, lo: nat, hi: nat, u: string, i: nat)
    requires i <= lo <= hi <= i + |u| <= |s| && !Contains(u, s[lo..hi])
    ensures s[i..i + |u|] != u
  {
    SliceOfSlice(s, i, i + |u|, lo - i, hi - i);
    assert !OccursAt(u, s[lo..hi], lo - i);
  }

  /** A window of `s` inside `s[lo..hi]` is not `u` when that slice does
      not contain `u`. */
  lemma WindowInside(s: string, lo: nat, hi: nat, u: string, i: nat)
    requires lo <= i && i + |u| <= hi <= |s| && !Contains(s[lo..hi], u)
    ensures s[i..i + |u|] != u
  {
    SliceOfSlice(s, lo, hi, i - lo, i - lo + |u|);
    assert !OccursAt(s[lo..hi], u, i - lo);
  }

  /** A window of `s` that runs into the start of `s[lo..hi]` and ends inside
      it is not `u` when no proper end of `u` begins that slice. */
  lemma WindowIntoStart(s: string, lo: nat, hi: nat, u: string, i: nat)
    requires i < lo < i + |u| < hi <= |s|
    requires forall k :: 0 < k < |u| && k < hi - lo ==> u[|u| - k..] != s[lo..hi][..k]
    ensures s[i..i + |u|] != u
  {
    var n := |u|;
    var k := i + n - lo;
    SliceOfSlice(s, i, i + n, n - k, n);
    SliceOfSlice(s, lo, hi, 0, k);
    assert u[n - k..] != s[lo..hi][..k];
  }

  /** A window of `s` that starts inside `s[lo..hi]` and runs past its end
      is not `u` when no proper beginning of `u` ends that slice. */
  lemma WindowPastEnd(s: string, lo: nat, hi: nat, u: string, i: nat)
    requires lo < i < hi < i + |u| <= |s|
    requires forall k :: 0 < k < |u| && k < hi - lo ==> u[..k] != s[lo..hi][hi - lo - k..]
    ensures s[i..i + |u|] != u
  {
    var k := hi - i;
    SliceOfSlice(s, i, i + |u|, 0, k);
    SliceOfSlice(s, lo, hi, hi - lo - k, hi - lo);
    assert u[..k] != s[lo..hi][hi - lo - k..];
  }

  /** Gluing two strings free of `u` around a non-empty `r` separated from
      `u` creates no occurrence of `u`. */
  lemma NoOccurrenceAcross(a: string, r: string, b: string, u: string)
    requires !Contains(a, u) && !Contains(b, u)
    requires u != [] && r != [] && Separated(u, r)
    ensures !Contains(a + r + b, u)
  {
    var s := a + r + b;
    var lo, hi, n := |a|, |a| + |r|, |u|;
    assert s[lo..hi] == r;
    forall i | 0 <= i <= |s|
      ensures !OccursAt(s, u, i)
    {
      if i + n > |s| {
      } else if i + n <= lo {
        assert s[i..i + n] == a[i..i + n];
        assert !OccursAt(a, u, i);
      } else if i >= hi {
        var j := i - hi;
        assert s[hi..] == b;
        assert s[i..i + n] == b[j..j + n];
        assert !OccursAt(b, u, j);
      } else if i <= lo && hi <= i + n {
        WindowCovering(s, lo, hi, u, i);
      } else if lo <= i && i + n <= hi {
        WindowInside(s, lo, hi, u, i);
      } else if i < lo {
        WindowIntoStart(s, lo, hi, u, i);
      } else {
        WindowPastEnd(s, lo, hi, u, i);
      }
    }
  }

  /** The character for a decimal digit. */
  function Digit(d: nat): (c: char)
    requires d < 10
    ensures '0' <= c <= '9'
  {
    (48 + d) as char
  }

  predicate AllDigits(s: string) {
    forall i :: 0 <= i < |s| ==> '0' <= s[i] <= '9'
  }

  /** The decimal digits of `n`, most significant first, without leading zeros. */
  function NatDigits(n: nat): (r: string)
    ensures r != [] && AllDigits(r)
    ensures r[0] == '0' <==> n == 0
  {
    if n < 10 then [Digit(n)] else NatDigits(n / 10) + [Digit(n % 10)]
  }

  /** How a template literal renders an integer: a minus sign exactly for a
      negative number, followed by the decimal digits, with no leading zero
      and no `-0`. */
  function DecimalString(n: int): (r: string)
    ensures r != []
    ensures forall i :: 0 <= i < |r| ==> r[i] == '-' || '0' <= r[i] <= '9'
    ensures forall i :: 0 < i < |r| ==> '0' <= r[i] <= '9'
    ensures r[0] == '-' <==> n < 0
    ensures r[0] == '0' ==> r == "0"
    ensures n < 0 ==> |r| >= 2 && r[1] != '0'
  {
    if n < 0 then "-" + NatDigits(-n) else NatDigits(n)
  }

  /** The value of a string of decimal digits. */
  function DigitsValue(s: string): nat
    requires AllDigits(s)
  {
    if s == [] then 0
    else DigitsValue(s[..|s| - 1]) * 10 + (s[|s| - 1] as int - 48)
  }

  /** Reads back an integer as `DecimalString` writes it. */
  function ParseDecimal(s: string): Option<int> {
    if s != [] && s[0] == '-' then
      (if |s| >= 2 && AllDigits(s[1..]) then var v: int := DigitsValue(s[1..]); Some(-v) else None)
    else if s != [] && AllDigits(s) then Some(DigitsValue(s))
    else None
  }

  lemma {:induction false} DigitsValueOfNatDigits(n: nat)
    ensures DigitsValue(NatDigits(n)) == n
  {
    if n >= 10 {
      var d := NatDigits(n / 10) + [Digit(n % 10)];
      assert d[..|d| - 1] == NatDigits(n / 10);
      DigitsValueOfNatDigits(n / 10);
    }
  }

  /** Decimal rendering and parsing are inverse: two different integers
      never render to the same text. */
  lemma DecimalRoundTrip(n: int)
    ensures ParseDecimal(DecimalString(n)) == Some(n)
  {
    if n < 0 {
      assert DecimalString(n)[1..] == NatDigits(-n);
      DigitsValueOfNatDigits(-n);
    } else {
      DigitsValueOfNatDigits(n);
    }
  }
}
