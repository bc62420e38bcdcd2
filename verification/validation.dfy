/**
  rhino's field-validation macros. `Var(type, name, checks...)` declares a
  private field with a setter that runs the checks in the order written and
  throws `std::invalid_argument(msg)` at the first one that fails, and a
  getter that returns the field.

  Each check macro becomes a constructor of `Check`. A check compares either
  a number or a string against its condition, so field values are `Num`
  (with the field's integer type) or `Text`; a check applied to a value of
  the other kind does not compile in C++, which the model states as a
  precondition. A numeric check compares the value with its literal after
  the usual arithmetic conversions, so on an unsigned field at least as wide
  as the literal a negative limit wraps to a large one.

  The sign checks are modelled as written: `Positive`, `PositiveOrZero`,
  `Negative`, `NegativeOrZero` and `NonZero` share one body and all reject
  exactly `value <= 0`, whatever their names say.
*/
module Validation {
  import opened Wrappers
  import StringUtil

  /** The integer types a numeric field can be declared with. */
  datatype IntType = Int8 | Int16 | Int32 | Int64 | UInt8 | UInt16 | UInt32 | UInt64 {
    function Bits(): nat {
      if Int8? || UInt8? then 8
      else if Int16? || UInt16? then 16
      else if Int32? || UInt32? then 32
      else 64
    }

    predicate Signed() {
      Int8? || Int16? || Int32? || Int64?
    }

    /** The number of values of the type, `2^Bits()`. */
    function Modulus(): nat {
      if Bits() == 8 then 0x100
      else if Bits() == 16 then 0x1_0000
      else if Bits() == 32 then 0x1_0000_0000
      else 0x1_0000_0000_0000_0000
    }

    function Min(): int {
      if Signed() then -(Modulus() / 2) else 0
    }
  }

  /** `n` is a value of type `t`. */
  predicate InRange(n: int, t: IntType) {
    t.Min() <= n < t.Min() + t.Modulus()
  }

  /** The integer conversion of `x` to `t`: the value of `t` congruent to
      `x` modulo `2^Bits()`. Values `t` can hold are unchanged. */
  function Converted(x: int, t: IntType): (r: int)
    ensures InRange(r, t)
    ensures InRange(x, t) ==> r == x
  {
    Wrap(x, t.Min(), t.Modulus())
  }

  /** `x` brought into `[lo, lo + m)` by adding or subtracting `m`. */
  function Wrap(x: int, lo: int, m: nat): (r: int)
    requires m > 0
    ensures lo <= r < lo + m
    ensures lo <= x < lo + m ==> r == x
    ensures x < lo && lo <= x + m ==> r == x + m
    decreases if x < lo then lo - x + m else x - lo
  {
    if x < lo then Wrap(x + m, lo, m)
    else if x >= lo + m then Wrap(x - m, lo, m)
    else x
  }

  /** Integral promotion: a type narrower than `int` takes part in a
      comparison as `int`. */
  function Promoted(t: IntType): IntType {
    if t.Bits() < 32 then Int32 else t
  }

  /** The type of a limit written as an unsuffixed decimal literal, with a
      unary minus in front when it is negative. The literal `|limit|` is an
      `int` when it fits and otherwise a `long`, which is 64 bits wide; the
      minus keeps that type. So `-2147483648` is a `long`. */
  function LiteralType(limit: int): IntType {
    if -0x7FFF_FFFF <= limit <= 0x7FFF_FFFF then Int32 else Int64
  }

  /** The type both sides of `value OP limit` are converted to (the usual
      arithmetic conversions): the wider of the promoted types, and the
      unsigned one when they are equally wide. */
  function CommonType(t: IntType, limit: int): (c: IntType)
    ensures c == Promoted(t) || c == LiteralType(limit)
  {
    var a := Promoted(t);
    var b := LiteralType(limit);
    if a.Bits() > b.Bits() then a
    else if b.Bits() > a.Bits() then b
    else if !a.Signed() then a
    else b
  }

  /** The two sides of `value OP limit` after conversion to the common type. */
  datatype Comparison = Comparison(value: int, limit: int)

  /** The conversion as the usual arithmetic conversions define it. */
  function Converting(n: int, t: IntType, limit: int): Comparison {
    var c := CommonType(t, limit);
    Comparison(Converted(n, c), Converted(limit, c))
  }

  /** The comparison is done in an unsigned type: the field's type is
      unsigned and at least as wide as the literal's. */
  predicate UnsignedComparison(t: IntType, limit: int) {
    !t.Signed() && t.Bits() >= LiteralType(limit).Bits()
  }

  /** The limit as a value of type `t` is compared with it: wrapped into
      the field's unsigned type, or unchanged. */
  function ComparedLimit(t: IntType, limit: int): int {
    if UnsignedComparison(t, limit) then Wrap(limit, 0, t.Modulus()) else limit
  }

  /** `ComparedLimit` is the usual arithmetic conversions at work: the
      common type is unsigned exactly in the `UnsignedComparison` case, a
      value of the field's type is left as it is, and the limit becomes
      `ComparedLimit`. */
  lemma ComparedLimitIsConversion(n: int, t: IntType, limit: int)
    requires InRange(n, t) && InRange(limit, Int64)
    ensures UnsignedComparison(t, limit) <==> !CommonType(t, limit).Signed()
    ensures Converting(n, t, limit) == Comparison(n, ComparedLimit(t, limit))
  {
  }

  /** The value a field holds or is set to: an integer of the field's
      declared type, or a string. */
  datatype Value = Num(n: int, t: IntType) | Text(s: string) {
    function Kind(): Kind {
      if Num? then Numeric(t) else Textual
    }
  }

  /** A field's type: an integer type, or a string. */
  datatype Kind = Numeric(t: IntType) | Textual

  /** One validation macro, with its limit where it takes one and the message
      it throws with. A limit is an unsuffixed decimal literal. */
  datatype Check =
    | Positive(msg: string)
    | PositiveOrZero(msg: string)
    | Negative(msg: string)
    | NegativeOrZero(msg: string)
    | NonZero(msg: string)
    | NotBlank(msg: string)
    | LessOrEqualThan(limit: int, msg: string)
    | LessThan(limit: int, msg: string)
    | GreaterOrEqualThan(limit: int, msg: string)
    | GreaterThan(limit: int, msg: string)
    | NotEqual(limit: int, msg: string)
    | NotEmpty(msg: string)
    | SizeLessThan(limit: int, msg: string)
    | SizeLessOrEqualThan(limit: int, msg: string)
    | SizeGreaterThan(limit: int, msg: string)
    | SizeGreaterOrEqualThan(limit: int, msg: string)
    | SizeEqual(limit: int, msg: string)
    | SizeNotEqual(limit: int, msg: string)
  {
    /** The macro's body works on a string rather than a number. */
    predicate OnText() {
      NotBlank? || NotEmpty? || SizeLessThan? || SizeLessOrEqualThan?
      || SizeGreaterThan? || SizeGreaterOrEqualThan? || SizeEqual? || SizeNotEqual?
    }

    /** The macro's body compiles in the setter of a field of kind `k`. */
    predicate CompilesFor(k: Kind) {
      OnText() <==> k.Textual?
    }

    /** The literal a numeric macro compares the value with: `0` for the
        sign macros, the limit for the others. */
    function Literal(): int
      requires !OnText()
    {
      if IsSignCheck() then 0 else limit
    }

    /** One of the five macros that share the body `if (value <= 0) throw`. */
    predicate IsSignCheck() {
      Positive? || PositiveOrZero? || Negative? || NegativeOrZero? || NonZero?
    }
  }

  /** `value.size()` is a `size_t`, an unsigned 64-bit number at least as
      wide as any literal, so a size limit is converted to it before the
      comparison (a negative limit wraps). */
  const SizeTModulus: int := UInt64.Modulus()

  function AsSizeT(limit: int): nat {
    Wrap(limit, 0, SizeTModulus)
  }

  /** The condition under which a check's macro body throws. A numeric
      check compares the value with its literal after both are converted to
      their common type (`ComparedLimitIsConversion`). The five sign macros,
      whatever their names, reject exactly the values `<= 0`. */
  predicate Rejects(c: Check, v: Value): (r: bool)
    requires c.CompilesFor(v.Kind())
    ensures c.IsSignCheck() && InRange(v.n, v.t) ==> (r <==> v.n <= 0)
  {
    if c.OnText() then RejectsText(c, v.s)
    else RejectsNumber(c, Comparison(v.n, ComparedLimit(v.t, c.Literal())))
  }

  /** The throw condition of a numeric macro, on the converted operands. */
  predicate RejectsNumber(c: Check, p: Comparison)
    requires !c.OnText()
  {
    match c
    case LessOrEqualThan(_, _) => p.value > p.limit
    case LessThan(_, _) => p.value >= p.limit
    case GreaterOrEqualThan(_, _) => p.value < p.limit
    case GreaterThan(_, _) => p.value <= p.limit
    case NotEqual(_, _) => p.value == p.limit
    case _ => p.value <= p.limit  // the five sign macros
  }

  /** The throw condition of a string macro. */
  predicate RejectsText(c: Check, s: string)
    requires c.OnText()
  {
    match c
    case NotBlank(_) => StringUtil.IsBlank(s)
    case NotEmpty(_) => |s| == 0
    case SizeLessThan(limit, _) => |s| >= AsSizeT(limit)
    case SizeLessOrEqualThan(limit, _) => |s| > AsSizeT(limit)
    case SizeGreaterThan(limit, _) => |s| <= AsSizeT(limit)
    case SizeGreaterOrEqualThan(limit, _) => |s| < AsSizeT(limit)
    case SizeEqual(limit, _) => |s| != AsSizeT(limit)
    case _ => |s| == AsSizeT(c.limit)  // SizeNotEqual
  }

  /** Every check in the list compiles against values of kind `k`. */
  predicate AllOfKind(checks: seq<Check>, k: Kind) {
    forall i :: 0 <= i < |checks| ==> checks[i].CompilesFor(k)
  }

  /** No check in the list rejects `v`. */
  predicate AllPass(checks: seq<Check>, v: Value)
    requires AllOfKind(checks, v.Kind())
  {
    forall i :: 0 <= i < |checks| ==> !Rejects(checks[i], v)
  }

  /** The index of the check whose exception the setter throws: the first
      one, in the order written, that rejects `v`; `None` when all pass. */
  function FirstFailure(checks: seq<Check>, v: Value): (r: Option<nat>)
    requires AllOfKind(checks, v.Kind())
    ensures r.None? <==> AllPass(checks, v)
    ensures r.Some? ==> r.value < |checks| && Rejects(checks[r.value], v)
    ensures r.Some? ==> forall j :: 0 <= j < r.value ==> !Rejects(checks[j], v)
  {
    if |checks| == 0 then None
    else if Rejects(checks[0], v) then Some(0)
    else
      match FirstFailure(checks[1..], v)
      case None => None
      case Some(k) => Some(k + 1)
  }

  /** What a call `set_X(v)` leaves behind: the field's new content and
      whether the call returned or threw (with the message). */
  datatype Assignment = Assignment(stored: Value, outcome: Outcome<string>)

  /** `set_X(v)` on a field holding `current`: the checks run first, and the
      assignment is reached only when none of them threw. */
  function Assign(checks: seq<Check>, current: Value, v: Value): (r: Assignment)
    requires AllOfKind(checks, v.Kind())
    ensures r.outcome.Pass? <==> AllPass(checks, v)
    ensures r.outcome.Pass? ==> r.stored == v
    ensures r.outcome.Fail? ==> r.stored == current
    ensures r.outcome.Fail? ==>
      exists i :: 0 <= i < |checks| && Rejects(checks[i], v) && r.outcome.error == checks[i].msg
        && forall j :: 0 <= j < i ==> !Rejects(checks[j], v)
  {
    match FirstFailure(checks, v)
    case None => Assignment(v, Pass)
    case Some(i) => Assignment(current, Fail(checks[i].msg))
  }

  /** `values` could all be passed to the setter of a field holding
      `current`: they have the field's type, which the checks compile for. */
  predicate Settable(checks: seq<Check>, current: Value, values: seq<Value>) {
    && AllOfKind(checks, current.Kind())
    && forall i :: 0 <= i < |values| ==> values[i].Kind() == current.Kind()
  }

  /** The field's content after a sequence of `set_X` calls, each of which
      either stores its value or throws and leaves the field as it was. */
  function Replay(checks: seq<Check>, current: Value, values: seq<Value>): (r: Value)
    requires Settable(checks, current, values)
    ensures r.Kind() == current.Kind()
    decreases |values|
  {
    if |values| == 0 then current
    else Replay(checks, Assign(checks, current, values[0]).stored, values[1..])
  }

  /** The last value in `values` that passes every check, or `initial` when
      none does. */
  function LastAccepted(checks: seq<Check>, initial: Value, values: seq<Value>): Value
    requires Settable(checks, initial, values)
    decreases |values|
  {
    if |values| == 0 then initial
    else if AllPass(checks, values[|values| - 1]) then values[|values| - 1]
    else LastAccepted(checks, initial, values[..|values| - 1])
  }

  /** `get_X` after any sequence of `set_X` calls returns the last value that
      was successfully stored (or the initial content if none was). */
  lemma {:induction false} GetReturnsLastStored(checks: seq<Check>, initial: Value, values: seq<Value>)
    requires Settable(checks, initial, values)
    ensures Replay(checks, initial, values) == LastAccepted(checks, initial, values)
    decreases |values|
  {
    if |values| > 0 {
      var n := |values| - 1;
      ReplaySnoc(checks, initial, values[..n], values[n]);
      assert values[..n] + [values[n]] == values;
      GetReturnsLastStored(checks, initial, values[..n]);
    }
  }

  /** One more call after a sequence of calls. */
  lemma {:induction false} ReplaySnoc(checks: seq<Check>, current: Value, values: seq<Value>, v: Value)
    requires Settable(checks, current, values) && v.Kind() == current.Kind()
    ensures Replay(checks, current, values + [v])
         == Assign(checks, Replay(checks, current, values), v).stored
    decreases |values|
  {
    if |values| == 0 {
      assert [v][1..] == [];
    } else {
      assert (values + [v])[1..] == values[1..] + [v];
      ReplaySnoc(checks, Assign(checks, current, values[0]).stored, values[1..], v);
    }
  }

  /** The five sign macros have one copy-pasted body: each rejects exactly
      the values `<= 0` of the field's type, so `Negative` accepts 1 and
      rejects -1, `PositiveOrZero` and `NonZero` both reject 0, and on an
      unsigned field they all reject exactly 0. */
  lemma SignChecksRejectNonPositive(c: Check, n: int, t: IntType)
    requires c.IsSignCheck() && InRange(n, t)
    ensures Rejects(c, Num(n, t)) <==> n <= 0
    ensures !t.Signed() ==> (Rejects(c, Num(n, t)) <==> n == 0)
    ensures !Rejects(Negative(c.msg), Num(1, Int32)) && Rejects(Negative(c.msg), Num(-1, Int32))
    ensures Rejects(PositiveOrZero(c.msg), Num(0, Int32)) && Rejects(NonZero(c.msg), Num(0, Int32))
  {
  }

  /** `NotBlank` rejects a string exactly when every character is white
      space, so the empty string is rejected too. */
  lemma NotBlankCheck(msg: string, s: string)
    ensures Rejects(NotBlank(msg), Text(s)) <==> forall i :: 0 <= i < |s| ==> StringUtil.IsSpace(s[i])
    ensures Rejects(NotBlank(msg), Text(""))
  {
  }

  /** `NotEmpty` rejects only the empty string. */
  lemma NotEmptyCheck(msg: string, s: string)
    ensures Rejects(NotEmpty(msg), Text(s)) <==> s == ""
  {
  }

  /** The bound checks compare the field's value with the limit as
      converted to their common type, `l`: each accepts exactly the values
      on the side of `l` its name says, and `NotEqual` rejects only `l`. On
      an unsigned field at least as wide as the limit's type, a negative
      limit becomes `limit + 2^Bits()`; otherwise `l` is the limit itself. */
  lemma BoundChecks(limit: int, msg: string, n: int, t: IntType)
    requires InRange(n, t) && InRange(limit, Int64)
    ensures var l := Converting(n, t, limit).limit;
      && (!Rejects(LessThan(limit, msg), Num(n, t)) <==> n < l)
      && (!Rejects(LessOrEqualThan(limit, msg), Num(n, t)) <==> n <= l)
      && (!Rejects(GreaterThan(limit, msg), Num(n, t)) <==> n > l)
      && (!Rejects(GreaterOrEqualThan(limit, msg), Num(n, t)) <==> n >= l)
      && (!Rejects(NotEqual(limit, msg), Num(n, t)) <==> n != l)
    ensures Converting(n, t, limit).limit
         == if UnsignedComparison(t, limit) && limit < 0 then limit + t.Modulus() else limit
  {
    ComparedLimitIsConversion(n, t, limit);
    NegativeLimitWraps(t, limit);
    BoundChecksCompare(limit, msg, n, t);
  }

  /** The five bound macros, against the limit as compared. */
  lemma BoundChecksCompare(limit: int, msg: string, n: int, t: IntType)
    ensures var l := ComparedLimit(t, limit);
      && (!Rejects(LessThan(limit, msg), Num(n, t)) <==> n < l)
      && (!Rejects(LessOrEqualThan(limit, msg), Num(n, t)) <==> n <= l)
      && (!Rejects(GreaterThan(limit, msg), Num(n, t)) <==> n > l)
      && (!Rejects(GreaterOrEqualThan(limit, msg), Num(n, t)) <==> n >= l)
      && (!Rejects(NotEqual(limit, msg), Num(n, t)) <==> n != l)
  {
  }

  /** A literal in the 64-bit range wraps at most once. */
  lemma NegativeLimitWraps(t: IntType, limit: int)
    requires InRange(limit, Int64)
    ensures ComparedLimit(t, limit)
         == if UnsignedComparison(t, limit) && limit < 0 then limit + t.Modulus() else limit
  {
    if UnsignedComparison(t, limit) {
      assert InRange(limit, LiteralType(limit));
    }
  }

  /** `-2147483648` is `-` applied to the `long` literal `2147483648`, so on
      a `uint32_t` field the comparison is done in `long` and the limit does
      not wrap: `LessThan(-2147483648)` rejects every value, and
      `NotEqual(-2147483648)` rejects none. */
  lemma IntMinLimitIsLong(msg: string, n: int)
    requires InRange(n, UInt32)
    ensures LiteralType(-0x8000_0000) == Int64
    ensures Rejects(LessThan(-0x8000_0000, msg), Num(n, UInt32))
    ensures !Rejects(NotEqual(-0x8000_0000, msg), Num(n, UInt32))
  {
  }

  /** A negative limit on an unsigned field: for `uint32_t`, `-1` becomes
      4294967295, so `GreaterThan(-1)` rejects every value, `LessThan(-1)`
      accepts every value but the largest, and `NotEqual(-1)` rejects only
      the largest. A `uint16_t` value is promoted to `int` first, so there
      `GreaterThan(-1)` accepts every value. */
  lemma UnsignedNegativeLimit(msg: string, n: int, m: int)
    requires InRange(n, UInt32) && InRange(m, UInt16)
    ensures Rejects(GreaterThan(-1, msg), Num(n, UInt32))
    ensures !Rejects(LessThan(-1, msg), Num(n, UInt32)) <==> n < 0xFFFF_FFFF
    ensures Rejects(NotEqual(-1, msg), Num(n, UInt32)) <==> n == 0xFFFF_FFFF
    ensures !Rejects(GreaterThan(-1, msg), Num(m, UInt16))
  {
  }

  /** The size checks compare the length with the limit as a `size_t`: for
      a non-negative limit they accept exactly the lengths their names say,
      while a negative limit wraps to a huge one, so `SizeLessThan(-1)`
      accepts every string shorter than 2^64 - 1. */
  lemma SizeChecks(limit: int, msg: string, s: string)
    ensures 0 <= limit < SizeTModulus ==>
      && (!Rejects(SizeLessThan(limit, msg), Text(s)) <==> |s| < limit)
      && (!Rejects(SizeLessOrEqualThan(limit, msg), Text(s)) <==> |s| <= limit)
      && (!Rejects(SizeGreaterThan(limit, msg), Text(s)) <==> |s| > limit)
      && (!Rejects(SizeGreaterOrEqualThan(limit, msg), Text(s)) <==> |s| >= limit)
      && (!Rejects(SizeEqual(limit, msg), Text(s)) <==> |s| == limit)
      && (!Rejects(SizeNotEqual(limit, msg), Text(s)) <==> |s| != limit)
    ensures |s| < SizeTModulus - 1 ==> !Rejects(SizeLessThan(-1, msg), Text(s))
  {
  }

  /** The example entity: an `int32_t` field `score` with `Positive` then
      `LessThan(100)`. Setting 100 throws the `LessThan` message and keeps
      the old score; setting 0 fails `Positive` first; setting 99 stores. */
  lemma ScoreExample(previous: int)
    ensures var checks := [Positive("Score must be positive"), LessThan(100, "Score must be < 100")];
      && Assign(checks, Num(previous, Int32), Num(100, Int32)) == Assignment(Num(previous, Int32), Fail("Score must be < 100"))
      && Assign(checks, Num(previous, Int32), Num(0, Int32)) == Assignment(Num(previous, Int32), Fail("Score must be positive"))
      && Assign(checks, Num(previous, Int32), Num(99, Int32)) == Assignment(Num(99, Int32), Pass)
  {
    var checks := [Positive("Score must be positive"), LessThan(100, "Score must be < 100")];
    assert FirstFailure(checks, Num(100, Int32)) == Some(1);
    assert FirstFailure(checks, Num(0, Int32)) == Some(0);
    assert FirstFailure(checks, Num(99, Int32)) == None;
  }

  /** An object with one `Var` field: `Set` is `set_X`, `Get` is `get_X`.
      The field's type is `kind`; C++ leaves a scalar field uninitialised
      until the first successful set, so its first content is a parameter. */
  class Field {
    const checks: seq<Check>
    const kind: Kind
    var stored: Value

    ghost predicate Valid()
      reads this
    {
      AllOfKind(checks, kind) && stored.Kind() == kind
    }

    constructor (checks: seq<Check>, initial: Value)
      requires AllOfKind(checks, initial.Kind())
      ensures Valid() && this.checks == checks && kind == initial.Kind() && stored == initial
    {
      this.checks := checks;
      this.kind := initial.Kind();
      this.stored := initial;
    }

    /** `set_X(v)`: stores `v` iff every check passes; otherwise throws the
        first failing check's message and leaves the field unchanged. */
    method Set(v: Value) returns (outcome: Outcome<string>)
      requires Valid() && v.Kind() == kind
      modifies this
      ensures Valid()
      ensures outcome.Pass? <==> AllPass(checks, v)
      ensures outcome.Pass? ==> stored == v
      ensures outcome.Fail? ==> stored == old(stored)
      ensures outcome.Fail? ==> outcome.error == checks[FirstFailure(checks, v).value].msg
    {
      var r := Assign(checks, stored, v);
      stored := r.stored;
      outcome := r.outcome;
    }

    /** `get_X()`. */
    function Get(): (v: Value)
      reads this
      requires Valid()
      ensures v.Kind() == kind
    {
      stored
    }
  }
}
