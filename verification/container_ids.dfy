/**
 * Container handle generation (backend.go `generateContainerID`).
 *
 * Every call bumps a 32-bit counter with wrap-around and writes the new
 * counter value as eleven base-32 digits, most significant 5-bit group first,
 * using strconv's digit alphabet. The shifts run 50, 45, ..., 0, so the first
 * four digits always read `0`.
 */
module ContainerIds {
  import opened Wrappers
  import opened Words

  /** The digits `strconv.AppendUint(_, _, 32)` writes for the values 0..31. */
  const Alphabet: string := "0123456789abcdefghijklmnopqrstuv"

  /** Number of digits in every generated id. */
  const IdLength: nat := 11

  /** `atomic.AddUint32(&n, 1)`: the next counter value, wrapping at 2^32. */
  function Inc(n: Uint32): (r: Uint32)
    ensures r != n
    ensures n < MaxUint32 ==> r == n + 1
    ensures n == MaxUint32 ==> r == 0
  {
    (n + 1) % Uint32Modulus
  }

  function Pow2(k: nat): (r: nat)
    ensures r >= 1
  {
    if k == 0 then 1 else 2 * Pow2(k - 1)
  }

  /** The right-shift applied before extracting digit `i`: `55 - (i+1)*5`. */
  function Shift(i: nat): nat
    requires i < IdLength
  {
    55 - (i + 1) * 5
  }

  /** `(uint64(n) >> Shift(i)) & 31`, written with division and remainder. */
  function Digit(n: Uint32, i: nat): (d: nat)
    requires i < IdLength
    ensures d < 32
  {
    (n / Pow2(Shift(i))) % 32
  }

  /** `Alphabet[d]`, computed from the character codes. */
  function DigitChar(d: nat): char
    requires d < 32
  {
    if d < 10 then ('0' as nat + d) as char else ('a' as nat + d - 10) as char
  }

  /** The value of one base-32 digit, or `None` for a character outside the alphabet. */
  function DigitValue(c: char): (r: Option<nat>)
    ensures r.Some? ==> r.value < 32 && DigitChar(r.value) == c
  {
    if '0' <= c <= '9' then Some(c as nat - '0' as nat)
    else if 'a' <= c <= 'v' then Some(c as nat - 'a' as nat + 10)
    else None
  }

  /** The eleven digits the generation loop appends for counter value `n`. */
  function EncodeId(n: Uint32): (id: string)
    ensures |id| == IdLength
  {
    seq(IdLength, i requires 0 <= i < IdLength => DigitChar(Digit(n, i)))
  }

  /** Every character is one of the 32 digits. */
  predicate IsDigitString(s: string) {
    forall i :: 0 <= i < |s| ==> DigitValue(s[i]).Some?
  }

  /** The value of a string of base-32 digits, most significant first. */
  function DigitsValue(s: string): nat
    requires IsDigitString(s)
    decreases |s|
  {
    if |s| == 0 then 0
    else DigitsValue(s[..|s| - 1]) * 32 + DigitValue(s[|s| - 1]).value
  }

  /** Reads a handle back as a number; `None` when a character is not a digit. */
  function DecodeId(s: string): Option<nat> {
    if IsDigitString(s) then Some(DigitsValue(s)) else None
  }

  /** The counter value and the id one call of `generateContainerID` leaves behind. */
  datatype IdStep = IdStep(counter: Uint32, id: string)

  /** One call of `generateContainerID`: bump the counter, then encode the bumped value. */
  function GenerateContainerId(counter: Uint32): (r: IdStep)
    ensures r.counter == Inc(counter)
    ensures |r.id| == IdLength
  {
    var next := Inc(counter);
    IdStep(next, EncodeId(next))
  }

  /**
   * The id of one call decodes to the counter advanced by one modulo 2^32,
   * never to the counter it started from; it is eleven alphabet digits, the
   * first four of them `0`.
   */
  lemma GeneratedIdEncodesNewCounter(counter: Uint32)
    ensures var r := GenerateContainerId(counter);
      && DecodeId(r.id) == Some(Inc(counter) as nat)
      && DecodeId(r.id) != Some(counter as nat)
      && r.id[..4] == "0000"
      && forall i :: 0 <= i < |r.id| ==> r.id[i] in Alphabet
  {
    DecodeEncode(Inc(counter));
    EncodeIdShape(Inc(counter));
  }

  // ---------------------------------------------------------------------
  // Arithmetic facts about powers of two and nested division.

  lemma {:induction false} Pow2Add(a: nat, b: nat)
    ensures Pow2(a + b) == Pow2(a) * Pow2(b)
    decreases a
  {
    if a > 0 {
      Pow2Add(a - 1, b);
    }
  }

  lemma {:induction false} Pow2Monotone(a: nat, b: nat)
    requires a <= b
    ensures Pow2(a) <= Pow2(b)
    decreases b
  {
    if a < b {
      Pow2Monotone(a, b - 1);
    }
  }

  lemma Pow2Of32()
    ensures Pow2(32) == Uint32Modulus
  {
    assert Pow2(4) == 16;
    Pow2Add(4, 4);
    Pow2Add(8, 8);
    Pow2Add(16, 16);
  }

  lemma Pow2Of5()
    ensures Pow2(5) == 32
  {
    assert Pow2(5) == 2 * Pow2(4);
  }

  lemma MulAtLeast(x: int, d: nat)
    requires x >= 1
    ensures x * d >= d
  {
  }

  lemma DivUnique(n: nat, d: nat, q: nat, r: nat)
    requires d > 0 && r < d && n == q * d + r
    ensures n / d == q && n % d == r
  {
    var q', r' := n / d, n % d;
    assert n == q' * d + r';
    assert (q - q') * d == r' - r;
    if q > q' {
      MulAtLeast(q - q', d);
    } else if q' > q {
      MulAtLeast(q' - q, d);
    }
  }

  lemma DivDiv(n: nat, a: nat, b: nat)
    requires a > 0 && b > 0
    ensures n / (a * b) == (n / a) / b
  {
    var q := n / a;
    var q2 := q / b;
    var rest := (q % b) * a + n % a;
    assert q % b <= b - 1;
    assert (q % b) * a <= (b - 1) * a;
    assert rest < a * b;
    assert n == q2 * (a * b) + rest by {
      assert n == q * a + n % a;
      assert q == q2 * b + q % b;
    }
    DivUnique(n, a * b, q2, rest);
  }

  /** Appending the digit below shift `k + 5` yields the value shifted by `k`. */
  lemma NextDigit(n: nat, k: nat)
    ensures (n / Pow2(k + 5)) * 32 + (n / Pow2(k)) % 32 == n / Pow2(k)
  {
    var p := Pow2(k);
    Pow2Add(k, 5);
    Pow2Of5();
    DivDiv(n, p, 32);
  }

  /** A counter value is below every power of two from 2^32 on. */
  lemma BelowPow2(n: Uint32, k: nat)
    requires k >= 32
    ensures n / Pow2(k) == 0
  {
    Pow2Of32();
    Pow2Monotone(32, k);
    DivUnique(n, Pow2(k), 0, n);
  }

  lemma LeadingDigitsZero(n: Uint32)
    ensures forall i :: 0 <= i < 4 ==> Digit(n, i) == 0
  {
    forall i | 0 <= i < 4
      ensures Digit(n, i) == 0
    {
      BelowPow2(n, Shift(i));
    }
  }

  // ---------------------------------------------------------------------
  // Round trip.

  lemma DigitValueOfAlphabet(d: nat)
    requires d < 32
    ensures DigitValue(DigitChar(d)) == Some(d)
  {
  }

  /** `DigitChar` agrees with the alphabet table. */
  lemma DigitCharInAlphabet(d: nat)
    requires d < 32
    ensures Alphabet[d] == DigitChar(d)
  {
  }

  lemma EncodeIsDigitString(n: Uint32)
    ensures IsDigitString(EncodeId(n))
  {
    var id := EncodeId(n);
    forall i | 0 <= i < |id|
      ensures DigitValue(id[i]).Some?
    {
      DigitValueOfAlphabet(Digit(n, i));
    }
  }

  /** The first `k` digits of an id read back as the counter shifted right by `55 - 5k`. */
  lemma {:induction false} DecodePrefix(n: Uint32, k: nat)
    requires k <= IdLength
    ensures IsDigitString(EncodeId(n)[..k])
    ensures DigitsValue(EncodeId(n)[..k]) == n / Pow2(55 - 5 * k)
  {
    EncodeIsDigitString(n);
    if k == 0 {
      BelowPow2(n, 55);
    } else {
      DecodePrefix(n, k - 1);
      DecodeOneMoreDigit(n, k - 1);
    }
  }

  lemma DecodeOneMoreDigit(n: Uint32, k: nat)
    requires k < IdLength
    requires IsDigitString(EncodeId(n)[..k])
    requires DigitsValue(EncodeId(n)[..k]) == n / Pow2(55 - 5 * k)
    ensures IsDigitString(EncodeId(n)[..k + 1])
    ensures DigitsValue(EncodeId(n)[..k + 1]) == n / Pow2(55 - 5 * (k + 1))
  {
    EncodePrefixStep(n, k);
    PrefixArith(n, k, DigitsValue(EncodeId(n)[..k]), DigitsValue(EncodeId(n)[..k + 1]));
  }

  lemma PrefixArith(n: Uint32, k: nat, high: nat, next: nat)
    requires k < IdLength
    requires high == n / Pow2(55 - 5 * k) && next == high * 32 + Digit(n, k)
    ensures next == n / Pow2(55 - 5 * (k + 1))
  {
    var shift := Shift(k);
    var lo := n / Pow2(shift);
    assert next == high * 32 + lo % 32 && high == n / Pow2(shift + 5) by {
      assert 55 - 5 * k == shift + 5;
    }
    assert high * 32 + lo % 32 == lo by {
      NextDigit(n, shift);
    }
    assert 55 - 5 * (k + 1) == shift;
  }

  /** One more digit of an id: the prefix value times 32 plus that digit. */
  lemma EncodePrefixStep(n: Uint32, k: nat)
    requires k < IdLength
    ensures IsDigitString(EncodeId(n)[..k]) && IsDigitString(EncodeId(n)[..k + 1])
    ensures DigitsValue(EncodeId(n)[..k + 1]) == DigitsValue(EncodeId(n)[..k]) * 32 + Digit(n, k)
  {
    var id := EncodeId(n);
    var s := id[..k + 1];
    EncodeIsDigitString(n);
    assert s[..k] == id[..k];
    assert s[k] == DigitChar(Digit(n, k));
    DigitValueOfAlphabet(Digit(n, k));
  }

  /** Every digit comes from the alphabet and the four leading digits read `0`. */
  lemma EncodeIdShape(n: Uint32)
    ensures forall i :: 0 <= i < |EncodeId(n)| ==> EncodeId(n)[i] in Alphabet
    ensures EncodeId(n)[..4] == "0000"
  {
    var id := EncodeId(n);
    forall i | 0 <= i < |id|
      ensures id[i] in Alphabet
    {
      DigitCharInAlphabet(Digit(n, i));
      assert id[i] == Alphabet[Digit(n, i)];
    }
    LeadingDigitsZero(n);
    assert id[..4] == [DigitChar(0), DigitChar(0), DigitChar(0), DigitChar(0)];
  }

  /** Decoding an id gives back exactly the counter value it was made from. */
  lemma DecodeEncode(n: Uint32)
    ensures DecodeId(EncodeId(n)) == Some(n as nat)
  {
    var id := EncodeId(n);
    DecodePrefix(n, IdLength);
    assert id[..IdLength] == id;
    assert Pow2(55 - 5 * IdLength) == 1;
  }

  /** Distinct counter values never share an id. */
  lemma EncodeInjective(a: Uint32, b: Uint32)
    ensures EncodeId(a) == EncodeId(b) <==> a == b
  {
    if EncodeId(a) == EncodeId(b) {
      DecodeEncode(a);
      DecodeEncode(b);
    }
  }

  // ---------------------------------------------------------------------
  // Every well-formed eleven-digit handle of a 32-bit value is that value's id.

  lemma {:induction false} DigitsValueBound(s: string)
    requires IsDigitString(s)
    ensures DigitsValue(s) < Pow2(5 * |s|)
    decreases |s|
  {
    if |s| > 0 {
      var init := s[..|s| - 1];
      DigitsValueBound(init);
      var high := DigitsValue(init);
      var d := DigitValue(s[|s| - 1]).value;
      assert DigitsValue(s) == high * 32 + d;
      Pow2Add(5 * |init|, 5);
      Pow2Of5();
      assert 5 * |s| == 5 * |init| + 5;
      LastDigitBound(high, d, Pow2(5 * |init|));
    }
  }

  lemma LastDigitBound(high: nat, d: nat, p: nat)
    requires high < p && d < 32
    ensures high * 32 + d < p * 32
  {
  }

  lemma {:induction false} DigitsValueAppend(a: string, b: string)
    requires IsDigitString(a) && IsDigitString(b)
    ensures IsDigitString(a + b)
    ensures DigitsValue(a + b) == DigitsValue(a) * Pow2(5 * |b|) + DigitsValue(b)
    decreases |b|
  {
    if |b| == 0 {
      assert a + b == a;
    } else {
      var b' := b[..|b| - 1];
      assert (a + b)[..|a + b| - 1] == a + b';
      DigitsValueAppend(a, b');
      var x, y := DigitsValue(a), DigitsValue(b');
      var d := DigitValue(b[|b| - 1]).value;
      var p := Pow2(5 * |b'|);
      assert DigitsValue(b) == y * 32 + d;
      assert DigitsValue(a + b) == (x * p + y) * 32 + d;
      Pow2Add(5 * |b'|, 5);
      Pow2Of5();
      assert 5 * |b| == 5 * |b'| + 5;
      AppendArith(x, p, y, d);
    }
  }

  lemma AppendArith(x: nat, p: nat, y: nat, d: nat)
    ensures (x * p + y) * 32 + d == x * (p * 32) + (y * 32 + d)
  {
  }

  /** The first `k` digits of a well-formed handle are its value shifted right by `55 - 5k`. */
  lemma HandlePrefix(s: string, k: nat)
    requires |s| == IdLength && IsDigitString(s)
    requires k <= IdLength
    ensures IsDigitString(s[..k])
    ensures DigitsValue(s[..k]) == DigitsValue(s) / Pow2(55 - 5 * k)
  {
    var a, b := s[..k], s[k..];
    assert a + b == s;
    DigitsValueAppend(a, b);
    DigitsValueBound(b);
    assert 5 * |b| == 55 - 5 * k;
    DivUnique(DigitsValue(s), Pow2(5 * |b|), DigitsValue(a), DigitsValue(b));
  }

  /** Digit `i` of a well-formed handle is digit `i` of its value. */
  lemma HandleDigit(s: string, v: Uint32, i: nat)
    requires |s| == IdLength && IsDigitString(s) && DigitsValue(s) == v
    requires i < IdLength
    ensures DigitValue(s[i]) == Some(Digit(v, i))
  {
    var init := s[..i + 1];
    var high := DigitsValue(s[..i]);
    var d := DigitValue(s[i]).value;
    var q := v / Pow2(Shift(i));
    assert q == high * 32 + d by {
      HandlePrefix(s, i + 1);
      assert init[..i] == s[..i];
    }
    LowDigit(q, high, d);
    assert Digit(v, i) == q % 32;
  }

  lemma LowDigit(q: nat, high: nat, d: nat)
    requires d < 32 && q == high * 32 + d
    ensures q % 32 == d
  {
    DivUnique(q, 32, high, d);
  }

  /** Encoding the value of a well-formed eleven-digit handle gives back that handle. */
  lemma EncodeDecode(s: string, v: Uint32)
    requires |s| == IdLength && DecodeId(s) == Some(v as nat)
    ensures EncodeId(v) == s
  {
    var id := EncodeId(v);
    forall i | 0 <= i < IdLength
      ensures id[i] == s[i]
    {
      HandleDigit(s, v, i);
      assert id[i] == DigitChar(Digit(v, i));
    }
  }

  // ---------------------------------------------------------------------
  // Successive generations.

  /** The ids produced by `count` successive calls starting from `counter`. */
  function GenerateIds(counter: Uint32, count: nat): (ids: seq<string>)
    ensures |ids| == count
    decreases count
  {
    if count == 0 then []
    else
      var step := GenerateContainerId(counter);
      [step.id] + GenerateIds(step.counter, count - 1)
  }

  /** The counter after `k` increments from `c`. */
  function Advance(c: Uint32, k: nat): Uint32 {
    (c + k) % Uint32Modulus
  }

  /** The `i`-th of successive ids encodes the counter advanced `i + 1` times. */
  lemma {:induction false} GenerateIdsAt(counter: Uint32, count: nat, i: nat)
    requires i < count
    ensures GenerateIds(counter, count)[i] == EncodeId(Advance(counter, i + 1))
    decreases count
  {
    var step := GenerateContainerId(counter);
    var rest := GenerateIds(step.counter, count - 1);
    assert GenerateIds(counter, count) == [step.id] + rest;
    if i > 0 {
      GenerateIdsAt(step.counter, count - 1, i - 1);
      assert Advance(step.counter, i) == Advance(counter, i + 1) by {
        ModShift(counter + 1, i);
      }
    }
  }

  /**
   * No two of up to 2^32 successive calls return the same id: generated
   * handles only repeat once the counter has wrapped all the way round.
   */
  lemma GeneratedIdsUnique(counter: Uint32, count: nat)
    requires count <= Uint32Modulus
    ensures forall i, j :: 0 <= i < j < count ==>
              GenerateIds(counter, count)[i] != GenerateIds(counter, count)[j]
  {
    var ids := GenerateIds(counter, count);
    forall i, j | 0 <= i < j < count
      ensures ids[i] != ids[j]
    {
      GenerateIdsAt(counter, count, i);
      GenerateIdsAt(counter, count, j);
      var a := Advance(counter, i + 1);
      var b := Advance(counter, j + 1);
      if a == b {
        ModDistinct(counter + i + 1, j - i);
      }
      EncodeInjective(a, b);
    }
  }

  lemma ModShift(x: nat, k: nat)
    ensures (x % Uint32Modulus + k) % Uint32Modulus == (x + k) % Uint32Modulus
  {
    var q, r := x / Uint32Modulus, x % Uint32Modulus;
    var q2, r2 := (r + k) / Uint32Modulus, (r + k) % Uint32Modulus;
    assert x + k == (q + q2) * Uint32Modulus + r2;
    DivUnique(x + k, Uint32Modulus, q + q2, r2);
  }

  lemma ModDistinct(x: nat, k: nat)
    requires 0 < k < Uint32Modulus
    ensures x % Uint32Modulus != (x + k) % Uint32Modulus
  {
    var q, r := x / Uint32Modulus, x % Uint32Modulus;
    if r + k < Uint32Modulus {
      DivUnique(x + k, Uint32Modulus, q, r + k);
    } else {
      DivUnique(x + k, Uint32Modulus, q + 1, r + k - Uint32Modulus);
    }
  }
}
