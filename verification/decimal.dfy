/**
 * `strconv.ParseUint(s, 10, 32)`, the parse `setUser` applies to the uid
 * and gid strings of the looked-up user: a non-empty run of ASCII digits
 * whose value fits in 32 bits. No sign, no underscores, no base prefix;
 * leading zeros are allowed.
 */
module Decimal {
  import opened Wrappers
  import opened Words

  /** `strconv.ErrSyntax` and `strconv.ErrRange`. */
  datatype ParseError = ErrSyntax | ErrRange

  predicate IsDigit(c: char) {
    '0' <= c <= '9'
  }

  predicate AllDigits(s: string) {
    forall i :: 0 <= i < |s| ==> IsDigit(s[i])
  }

  /** The number a string of digits denotes, most significant digit first. */
  function DecimalValue(s: string): nat
    requires AllDigits(s)
    decreases |s|
  {
    if |s| == 0 then 0
    else DecimalValue(s[..|s| - 1]) * 10 + (s[|s| - 1] as nat - '0' as nat)
  }

  /** Scanning left to right, the first non-digit is at `k` and nothing before it overflowed. */
  predicate StopsAt(s: string, k: nat) {
    k < |s| && !IsDigit(s[k]) && AllDigits(s[..k]) && DecimalValue(s[..k]) <= MaxUint32
  }

  /** The first `k` characters are digits whose value passes 2^32 - 1. */
  predicate OverflowsAt(s: string, k: nat) {
    0 < k <= |s| && AllDigits(s[..k]) && DecimalValue(s[..k]) > MaxUint32
  }

  /** The strings `ParseUint(_, 10, 32)` accepts. */
  predicate IsUint32Decimal(s: string) {
    |s| > 0 && AllDigits(s) && DecimalValue(s) <= MaxUint32
  }

  /**
   * `strconv.ParseUint(s, 10, 32)`: empty input is a syntax error; digits
   * are consumed left to right, a non-digit is a syntax error, and the
   * first step whose value would pass 2^32 - 1 is a range error.
   */
  function ParseUint32(s: string): (r: Result<Uint32, ParseError>)
    ensures r.Success? <==> IsUint32Decimal(s)
    ensures r.Success? ==> r.value == DecimalValue(s)
    ensures |s| == 0 ==> r == Failure(ErrSyntax)
    ensures AllDigits(s) && |s| > 0 && !IsUint32Decimal(s) ==> r == Failure(ErrRange)
    ensures forall k :: StopsAt(s, k) ==> r == Failure(ErrSyntax)
    ensures forall k :: OverflowsAt(s, k) ==> r == Failure(ErrRange)
  {
    if |s| == 0 then Failure(ErrSyntax)
    else
      assert s[..0] == [];
      ParseDigits(s, 0, 0)
  }

  /** The digit loop, from position `i` with `acc` the value of `s[..i]`. */
  function ParseDigits(s: string, i: nat, acc: Uint32): (r: Result<Uint32, ParseError>)
    requires i <= |s| && AllDigits(s[..i]) && acc == DecimalValue(s[..i])
    ensures r.Success? <==> AllDigits(s) && DecimalValue(s) <= MaxUint32
    ensures r.Success? ==> AllDigits(s) && r.value == DecimalValue(s)
    ensures AllDigits(s) && DecimalValue(s) > MaxUint32 ==> r == Failure(ErrRange)
    ensures forall k :: StopsAt(s, k) ==> r == Failure(ErrSyntax)
    ensures forall k :: OverflowsAt(s, k) ==> r == Failure(ErrRange)
    decreases |s| - i
  {
    if i == |s| then
      assert s[..i] == s;
      NoOverflowBefore(s, i);
      Success(acc)
    else if !IsDigit(s[i]) then
      NoOverflowBefore(s, i);
      Failure(ErrSyntax)
    else
      assert s[..i + 1][..i] == s[..i];
      var next := acc * 10 + (s[i] as nat - '0' as nat);
      assert AllDigits(s[..i + 1]) && next == DecimalValue(s[..i + 1]);
      if next > MaxUint32 then
        PrefixBound(s, i + 1);
        NoStopBefore(s, i + 1);
        Failure(ErrRange)
      else
        ParseDigits(s, i + 1, next)
  }

  /** The value of a digit prefix grows with the prefix. */
  lemma PrefixMonotone(s: string, j: nat, k: nat)
    requires j <= k <= |s| && AllDigits(s[..k])
    ensures AllDigits(s[..j]) && DecimalValue(s[..j]) <= DecimalValue(s[..k])
  {
    assert s[..k][..j] == s[..j];
    PrefixBound(s[..k], j);
  }

  /**
   * When the scan stops at position `i` (the end, or a non-digit) without
   * having overflowed, no digit prefix of `s` overflows.
   */
  lemma NoOverflowBefore(s: string, i: nat)
    requires i <= |s| && AllDigits(s[..i]) && DecimalValue(s[..i]) <= MaxUint32
    requires i == |s| || !IsDigit(s[i])
    ensures forall k :: !OverflowsAt(s, k)
  {
    forall k: nat | 0 < k <= |s| && AllDigits(s[..k])
      ensures DecimalValue(s[..k]) <= MaxUint32
    {
      if k > i {
        assert false;
      }
      PrefixMonotone(s, k, i);
    }
  }

  /**
   * Once the digit prefix `s[..i]` has overflowed, no non-digit of `s` is
   * reached before an overflow.
   */
  lemma NoStopBefore(s: string, i: nat)
    requires 0 < i <= |s| && AllDigits(s[..i]) && DecimalValue(s[..i]) > MaxUint32
    ensures forall k :: !StopsAt(s, k)
  {
    forall k: nat | k < |s| && !IsDigit(s[k]) && AllDigits(s[..k])
      ensures DecimalValue(s[..k]) > MaxUint32
    {
      if k < i {
        assert false;
      }
      PrefixMonotone(s, i, k);
    }
  }

  /** A prefix of a digit string never denotes more than the whole string. */
  lemma {:induction false} PrefixBound(s: string, k: nat)
    requires k <= |s| && AllDigits(s[..k])
    ensures AllDigits(s) ==> DecimalValue(s[..k]) <= DecimalValue(s)
    decreases |s| - k
  {
    if AllDigits(s) && k < |s| {
      assert s[..k + 1][..k] == s[..k];
      PrefixBound(s, k + 1);
    } else if k == |s| {
      assert s[..k] == s;
    }
  }

  // ---------------------------------------------------------------------
  // Formatting, the inverse of a successful parse.

  function DecimalDigit(d: nat): (c: char)
    requires d < 10
    ensures IsDigit(c)
  {
    ('0' as nat + d) as char
  }

  /** The shortest decimal text of `n`. */
  function FormatDecimal(n: nat): (s: string)
    ensures |s| > 0 && AllDigits(s)
    decreases n
  {
    if n < 10 then [DecimalDigit(n)]
    else FormatDecimal(n / 10) + [DecimalDigit(n % 10)]
  }

  /** Parsing the decimal text of a 32-bit value gives the value back. */
  lemma ParseFormat(n: Uint32)
    ensures ParseUint32(FormatDecimal(n)) == Success(n)
  {
    FormatValue(n);
  }

  lemma {:induction false} FormatValue(n: nat)
    ensures DecimalValue(FormatDecimal(n)) == n
    decreases n
  {
    var s := FormatDecimal(n);
    if n >= 10 {
      FormatValue(n / 10);
      assert s[..|s| - 1] == FormatDecimal(n / 10);
    }
  }
}
