/**
  rhino's FastUtil: `fastStoiNotSafely`, a decimal parse with no validation,
  and `fastCopy`, a copy in 16-byte blocks followed by a tail.

  A C string is a sequence of `SChar` (a signed 8-bit `char`) that contains
  a terminating NUL. The parse accumulates into an `Int32`: every
  intermediate sum of the C++ expression is checked by Dafny to stay in
  range, because signed overflow in C++ is undefined. The shifts
  `n << 3` and `n << 1` are written as `n * 8` and `n * 2`.
*/
module FastUtil {

  /** A C `char` on the platforms the code targets (signed). */
  newtype SChar = x: int | -128 <= x < 128

  /** `int32_t`. */
  newtype Int32 = x: int | -0x8000_0000 <= x < 0x8000_0000

  /** One byte of memory, as `memcpy` and the SSE loads see it. */
  newtype Byte = x: int | 0 <= x < 256

  /** The code of the character '0'. */
  const CharZero: int := 48

  const Int32Max: int := 0x7FFF_FFFF

  predicate InInt32(x: int) {
    -0x8000_0000 <= x <= Int32Max
  }

  predicate IsDigit(c: SChar) {
    CharZero <= c as int <= CharZero + 9
  }

  predicate AllDigits(cs: seq<SChar>) {
    forall i :: 0 <= i < |cs| ==> IsDigit(cs[i])
  }

  // ---------------------------------------------------------------------
  // The decimal fold and its reference
  // ---------------------------------------------------------------------

  /** The value the loop accumulates, on unbounded integers: each character
      in turn is folded in as `n := 10 * n + (c - '0')`, digit or not. */
  function Fold(cs: seq<SChar>): int {
    if |cs| == 0 then 0
    else 10 * Fold(cs[..|cs| - 1]) + (cs[|cs| - 1] as int - CharZero)
  }

  function Pow10(n: nat): (r: nat)
    ensures r >= 1
  {
    if n == 0 then 1 else 10 * Pow10(n - 1)
  }

  /** Positional decimal value, most significant character first. */
  function DecimalValue(cs: seq<SChar>): int {
    if |cs| == 0 then 0
    else (cs[0] as int - CharZero) * Pow10(|cs| - 1) + DecimalValue(cs[1..])
  }

  /** Folding in one more character multiplies by ten and adds its digit
      value; the empty string folds to 0. */
  lemma FoldAppend(cs: seq<SChar>, c: SChar)
    ensures Fold([]) == 0
    ensures Fold(cs + [c]) == 10 * Fold(cs) + (c as int - CharZero)
  {
    assert (cs + [c])[..|cs|] == cs;
  }

  lemma {:induction false} DecimalValueAppend(cs: seq<SChar>, c: SChar)
    ensures DecimalValue(cs + [c]) == 10 * DecimalValue(cs) + (c as int - CharZero)
    decreases |cs|
  {
    if |cs| == 0 {
      assert [c][1..] == [];
    } else {
      var d := cs[0] as int - CharZero;
      assert (cs + [c])[1..] == cs[1..] + [c];
      DecimalValueAppend(cs[1..], c);
      assert d * Pow10(|cs|) == 10 * (d * Pow10(|cs| - 1));
    }
  }

  /** The fold computes the positional decimal value of the string. */
  lemma {:induction false} FoldIsDecimalValue(cs: seq<SChar>)
    ensures Fold(cs) == DecimalValue(cs)
    decreases |cs|
  {
    if |cs| > 0 {
      var n := |cs| - 1;
      FoldIsDecimalValue(cs[..n]);
      DecimalValueAppend(cs[..n], cs[n]);
      assert cs[..n] + [cs[n]] == cs;
    }
  }

  /** An all-digit string folds to a value in `[0, 10^|cs|)`. */
  lemma {:induction false} DigitsFoldBounds(cs: seq<SChar>)
    requires AllDigits(cs)
    ensures 0 <= Fold(cs) < Pow10(|cs|)
    decreases |cs|
  {
    if |cs| > 0 {
      DigitsFoldBounds(cs[..|cs| - 1]);
    }
  }

  // ---------------------------------------------------------------------
  // fastStoiNotSafely, as written
  // ---------------------------------------------------------------------

  /** Every partial sum of `(n << 3) + (n << 1) + c - '0'`, evaluated left
      to right, is a valid `int32_t`. */
  predicate StepFitsAsWritten(n: int, c: SChar) {
    && InInt32(8 * n) && InInt32(2 * n) && InInt32(10 * n)
    && InInt32(10 * n + c as int) && InInt32(10 * n + c as int - CharZero)
  }

  /** Folding `cs` as written never overflows: no step does, the last one
      included. */
  predicate FitsAsWritten(cs: seq<SChar>)
    decreases |cs|
  {
    |cs| == 0
    || (FitsAsWritten(cs[..|cs| - 1]) && StepFitsAsWritten(Fold(cs[..|cs| - 1]), cs[|cs| - 1]))
  }

  /** Every step of a fold that fits, fits. */
  lemma {:induction false} FitsAsWrittenStep(cs: seq<SChar>, k: nat)
    requires FitsAsWritten(cs) && k < |cs|
    ensures StepFitsAsWritten(Fold(cs[..k]), cs[k])
    decreases |cs|
  {
    var n := |cs| - 1;
    if k < n {
      assert cs[..n][..k] == cs[..k];
      FitsAsWrittenStep(cs[..n], k);
    }
  }

  /** Length of the C string in `buf`: the index of its first NUL. */
  function CLength(buf: seq<SChar>): (n: nat)
    requires 0 in buf
    ensures n < |buf| && buf[n] == 0
    ensures forall j :: 0 <= j < n ==> buf[j] != 0
  {
    if buf[0] == 0 then 0 else 1 + CLength(buf[1..])
  }

  /** `fastStoiNotSafely(const char *)`: folds every character before the
      NUL, with no validation, in the source's evaluation order; the result
      is the positional decimal value of those characters. */
  method FastStoiNotSafely(buf: seq<SChar>) returns (number: Int32)
    requires 0 in buf
    requires FitsAsWritten(buf[..CLength(buf)])
    ensures number as int == DecimalValue(buf[..CLength(buf)])
  {
    var len := CLength(buf);
    number := 0;
    var i := 0;
    while buf[i] != 0
      invariant 0 <= i <= len
      invariant number as int == Fold(buf[..i])
      decreases len - i
    {
      assert buf[..len][..i] == buf[..i];
      FitsAsWrittenStep(buf[..len], i);
      assert buf[..i + 1][..i] == buf[..i];
      number := number * 8 + number * 2 + buf[i] as Int32 - CharZero as Int32;
      i := i + 1;
    }
    assert buf[..i] == buf[..len];
    FoldIsDecimalValue(buf[..len]);
  }

  /** The characters `s.c_str()` shows a C function: `s` up to its first
      embedded NUL, or all of `s` when it has none. */
  function CStringOf(s: seq<SChar>): (r: seq<SChar>)
    ensures r <= s && 0 !in r
    ensures |r| < |s| ==> s[|r|] == 0
  {
    var buf := s + [0];
    assert buf[..|s|] == s;
    buf[..CLength(buf)]
  }

  /** `fastStoiNotSafely(const std::string &)`: parses `s.c_str()`, so an
      embedded NUL ends the number. */
  method FastStoiString(s: seq<SChar>) returns (number: Int32)
    requires FitsAsWritten(CStringOf(s))
    ensures number as int == DecimalValue(CStringOf(s))
  {
    number := FastStoiNotSafely(s + [0]);
  }

  /** Strings of at most nine digits never overflow as written. */
  lemma {:induction false} NineDigitsFitAsWritten(cs: seq<SChar>)
    requires AllDigits(cs) && |cs| <= 9
    ensures FitsAsWritten(cs)
    decreases |cs|
  {
    if |cs| > 0 {
      var n := |cs| - 1;
      assert AllDigits(cs[..n]);
      NineDigitsFitAsWritten(cs[..n]);
      DigitsFoldBounds(cs[..n]);
      Pow10Monotone(n, 8);
    }
  }

  lemma {:induction false} Pow10Monotone(a: nat, b: nat)
    requires a <= b
    ensures Pow10(a) <= Pow10(b)
    decreases b
  {
    if a < b {
      Pow10Monotone(a, b - 1);
    }
  }

  /** Non-digit characters are folded in like digits: "1a" parses as
      10 + ('a' - '0') == 59, and "-5" as 10 * ('-' - '0') + 5 == -25. */
  lemma NoCharacterValidation()
    ensures Fold([49, 97]) == 59
    ensures Fold([45, 53]) == -25
  {
    assert [49, 97][..1] == [49 as SChar];
    assert [45, 53][..1] == [45 as SChar];
  }

  /** The largest `int32_t`, "2147483647", is an all-digit string whose
      value fits, yet the last step as written computes
      `2147483640 + '7'` == 2147483695 before subtracting '0': a signed
      overflow. */
  lemma AsWrittenOverflowsBelowInt32Max()
    ensures var cs: seq<SChar> := [50, 49, 52, 55, 52, 56, 51, 54, 52, 55];
      && AllDigits(cs) && Fold(cs) == Int32Max && !FitsAsWritten(cs)
  {
    var cs: seq<SChar> := [50, 49, 52, 55, 52, 56, 51, 54, 52, 55];
    assert cs[..0] == [];
    assert cs[..1] == cs[..0] + [50];
    assert cs[..2] == cs[..1] + [49];
    assert cs[..3] == cs[..2] + [52];
    assert cs[..4] == cs[..3] + [55];
    assert cs[..5] == cs[..4] + [52];
    assert cs[..6] == cs[..5] + [56];
    assert cs[..7] == cs[..6] + [51];
    assert cs[..8] == cs[..7] + [54];
    assert cs[..9] == cs[..8] + [52];
    assert cs == cs[..9] + [55];
    FoldAppend(cs[..0], 50);
    FoldAppend(cs[..1], 49);
    FoldAppend(cs[..2], 52);
    FoldAppend(cs[..3], 55);
    FoldAppend(cs[..4], 52);
    FoldAppend(cs[..5], 56);
    FoldAppend(cs[..6], 51);
    FoldAppend(cs[..7], 54);
    FoldAppend(cs[..8], 52);
    FoldAppend(cs[..9], 55);
    assert Fold(cs[..9]) == 214748364;
    assert !StepFitsAsWritten(Fold(cs[..9]), cs[9]);
  }

  // ---------------------------------------------------------------------
  // fastStoiNotSafely with the digit value computed first
  // ---------------------------------------------------------------------

  /** Every partial sum of `(n << 3) + (n << 1) + (c - '0')` is a valid
      `int32_t`. */
  predicate StepFitsDigitFirst(n: int, c: SChar) {
    InInt32(8 * n) && InInt32(2 * n) && InInt32(10 * n) && InInt32(10 * n + (c as int - CharZero))
  }

  predicate FitsDigitFirst(cs: seq<SChar>)
    decreases |cs|
  {
    |cs| == 0
    || (FitsDigitFirst(cs[..|cs| - 1]) && StepFitsDigitFirst(Fold(cs[..|cs| - 1]), cs[|cs| - 1]))
  }

  lemma {:induction false} FitsDigitFirstStep(cs: seq<SChar>, k: nat)
    requires FitsDigitFirst(cs) && k < |cs|
    ensures StepFitsDigitFirst(Fold(cs[..k]), cs[k])
    decreases |cs|
  {
    var n := |cs| - 1;
    if k < n {
      assert cs[..n][..k] == cs[..k];
      FitsDigitFirstStep(cs[..n], k);
    }
  }

  /** Computing the digit value first never overflows where the code as
      written does not: its no-overflow condition is implied by the
      as-written one. */
  lemma {:induction false} FitsAsWrittenImpliesDigitFirst(cs: seq<SChar>)
    requires FitsAsWritten(cs)
    ensures FitsDigitFirst(cs)
    decreases |cs|
  {
    if |cs| > 0 {
      FitsAsWrittenImpliesDigitFirst(cs[..|cs| - 1]);
    }
  }

  /** The implication is strict: "2147483647" parses without overflow when
      the digit value is computed first, but not as written. */
  lemma DigitFirstAcceptsMore()
    ensures var cs: seq<SChar> := [50, 49, 52, 55, 52, 56, 51, 54, 52, 55];
      FitsDigitFirst(cs) && !FitsAsWritten(cs)
  {
    var cs: seq<SChar> := [50, 49, 52, 55, 52, 56, 51, 54, 52, 55];
    AsWrittenOverflowsBelowInt32Max();
    DigitFirstFitsWhenValueFits(cs);
  }

  /** With the digit value computed first, every all-digit string whose
      value fits in `int32_t` is parsed without overflow. */
  lemma {:induction false} DigitFirstFitsWhenValueFits(cs: seq<SChar>)
    requires AllDigits(cs) && Fold(cs) <= Int32Max
    ensures FitsDigitFirst(cs)
    decreases |cs|
  {
    if |cs| > 0 {
      var n := |cs| - 1;
      assert AllDigits(cs[..n]);
      DigitsFoldBounds(cs[..n]);
      DigitFirstFitsWhenValueFits(cs[..n]);
    }
  }

  /** The parse loop with the parenthesised digit value. */
  method FastStoiDigitFirst(buf: seq<SChar>) returns (number: Int32)
    requires 0 in buf
    requires FitsDigitFirst(buf[..CLength(buf)])
    ensures number as int == DecimalValue(buf[..CLength(buf)])
  {
    var len := CLength(buf);
    number := 0;
    var i := 0;
    while buf[i] != 0
      invariant 0 <= i <= len
      invariant number as int == Fold(buf[..i])
      decreases len - i
    {
      assert buf[..len][..i] == buf[..i];
      FitsDigitFirstStep(buf[..len], i);
      assert buf[..i + 1][..i] == buf[..i];
      number := number * 8 + number * 2 + (buf[i] as Int32 - CharZero as Int32);
      i := i + 1;
    }
    assert buf[..i] == buf[..len];
    FoldIsDecimalValue(buf[..len]);
  }

  // ---------------------------------------------------------------------
  // fastCopy
  // ---------------------------------------------------------------------

  /** `length >> 4` full 16-byte blocks, then a tail of fewer than 16 bytes. */
  function BlockPlan(length: nat): (plan: (nat, nat))
    ensures 16 * plan.0 + plan.1 == length
    ensures plan.1 < 16
  {
    (length / 16, length % 16)
  }

  /** `fastCopy(dst, src, length)`: copies the blocks, then the tail with
      `memcpy`. The two regions must not overlap, which the model states as
      distinct arrays. */
  method FastCopy(dst: array<Byte>, src: array<Byte>, length: nat)
    requires dst != src
    requires length <= dst.Length && length <= src.Length
    modifies dst
    ensures dst[..length] == src[..length]
    ensures dst[length..] == old(dst[length..])
  {
    var plan := BlockPlan(length);
    var partCount := plan.0;
    var i := 0;
    while i < partCount
      invariant 0 <= i <= partCount
      invariant forall j :: 0 <= j < 16 * i ==> dst[j] == src[j]
      invariant forall j :: 16 * i <= j < dst.Length ==> dst[j] == old(dst[j])
    {
      forall k | 0 <= k < 16 {
        dst[16 * i + k] := src[16 * i + k];
      }
      i := i + 1;
    }
    var copied := 16 * partCount;
    forall j | copied <= j < length {
      dst[j] := src[j];
    }
  }
}
