# rhino utilities in Dafny

This project models four small, self-contained pieces of the rhino C++
utility collection and proves properties about them:

- **String utilities** (`StringUtil`): `isBlank` checks that every character
  is C-locale white space. `split(s, delimiter)` cuts `s` at each leftmost,
  non-overlapping occurrence of the delimiter, following `std::string::find`.
  `SplitLoop` mirrors the C++ loop and is proved equal to the recursive
  `Split`. The empty delimiter, on which the C++ loop never ends, is a
  precondition.
- **Setter validation** (`Validation`): each macro of the `Var` DSL is a
  constructor of the `Check` datatype. `FirstFailure` is the first check, in
  the order written, that rejects a value. `Assign` is `set_X`: it stores the
  value when every check passes, and otherwise throws the first failing
  check's message and leaves the field unchanged. The class `Field` wraps
  this as `Set`/`Get`. A numeric field has one of the eight fixed-width
  integer types. A numeric check compares the value with its literal after
  C++'s usual arithmetic conversions, so a negative limit on a wide
  unsigned field wraps. As written, `Positive`, `PositiveOrZero`, `Negative`,
  `NegativeOrZero` and `NonZero` all reject `value <= 0`, and the model keeps
  that copy-pasted behaviour.
- **Fast parse and block copy** (`FastUtil`): `fastStoiNotSafely` is a
  decimal fold with no validation. The fold accumulates in `int32_t` in the
  source's evaluation order, and every intermediate sum is range-checked,
  because signed overflow is undefined. `fastCopy` copies 16-byte blocks,
  then a tail. It is an array method whose loop invariant says the copied
  prefix already matches the source.
- **Result wrapper** (`Errs`, `Rets`): the `EGrp`/`Err` records, the catalog
  constants, and `Ret<T>` with its factories. The `errMsg` factories
  overwrite the caller's `Err`, so they return the overwritten `Err` beside
  the result. The catalog entries are mutable globals, so `ErrMsgOnCatalog`
  takes the catalog's state and returns it as the call leaves it.

`T{}` is passed to the `Ret` factories as an explicit `zero` argument.
In `FastUtil` a C `char` is the signed 8-bit `SChar`, `int32_t` is a newtype,
and memory bytes are `Byte`. In `StringUtil` and `Validation` a `std::string`
is a Dafny `string`, and each Dafny `char` stands for one byte of it.

## Model

| member | source | states |
|---|---|---|
| `StringUtil.IsBlank` | src/util/StringUtil.hpp:8-15 | true iff every character is a C-locale `isspace` character, so the empty string is blank |
| `StringUtil.BlankConcat` | src/util/StringUtil.hpp:10-11 | `isBlank("")` holds, and `isBlank(a + b)` equals `isBlank(a) && isBlank(b)` |
| `StringUtil.Find` | src/util/StringUtil.hpp:21-26 | `find(d, start)` returns an occurrence at or after `start` with no occurrence between `start` and it; npos means no occurrence at or after `start` |
| `StringUtil.EmptyDelimiterNeverAdvances` | src/util/StringUtil.hpp:23-26 | with an empty delimiter, `find` returns `start` and the next scan position is `start` again, so the loop never ends |
| `StringUtil.SplitFrom` | src/util/StringUtil.hpp:29 | at least one token comes back, because the last segment is always pushed |
| `StringUtil.SplitLoop` | src/util/StringUtil.hpp:17-32 | the C++ loop yields the same tokens as the recursive definition, and joining them with the delimiter gives back the input |
| `StringUtil.Split` | src/util/StringUtil.hpp:17-32 | `split(s, d)` returns at least one token, and joining the tokens with `d` gives back exactly `s` |
| `StringUtil.TokensAvoidDelimiter` | src/util/StringUtil.hpp:23-26 | with a non-empty delimiter, no token contains the delimiter |
| `StringUtil.SplitWithoutDelimiter` | src/util/StringUtil.hpp:21-29 | the result is `[s]` if and only if the delimiter does not occur in `s`; `split("", d) == [""]` |
| `StringUtil.SplitFirstToken` | src/util/StringUtil.hpp:21-24 | with two or more tokens, the delimiter occurs right after the first token and nowhere earlier |
| `StringUtil.SplitCount` | src/util/StringUtil.hpp:23-27 | the token count is 1 plus the number of leftmost non-overlapping occurrences; this count is found by a separate character-by-character scan |
| `Validation.Rejects` | src/common/Validation.h:46-74 | for a value of the field's type, the five sign macros throw exactly when `value <= 0`, whatever the sign in their names; the other macros' conditions are stated by `NotBlankCheck`, `NotEmptyCheck`, `BoundChecks` and `SizeChecks` |
| `Validation.FirstFailure` | src/common/Validation.h:41 | the index of the first check, in the order written, that rejects the value; none if and only if every check passes |
| `Validation.Assign` | src/common/Validation.h:40-43 | the setter returns iff all checks pass, and then stores the value; otherwise it keeps the old value and throws the first failing check's message |
| `Validation.Field.Set` | src/common/Validation.h:40-43 | the field is stored iff every check passes; otherwise it is unchanged and the first failing message is thrown |
| `Validation.Field.Get` | src/common/Validation.h:44 | `get_X()` returns a value of the field's declared type; `GetReturnsLastStored` says which value |
| `Validation.GetReturnsLastStored` | src/common/Validation.h:40-44 | after any sequence of sets, the getter returns the last value that passed every check, or the initial content |
| `Validation.SignChecksRejectNonPositive` | src/common/Validation.h:46-74 | the five sign macros each reject exactly `value <= 0`, so `Negative` accepts 1 and `PositiveOrZero` rejects 0; on an unsigned field they reject exactly 0 |
| `Validation.NotBlankCheck` | src/common/Validation.h:76-86 | `NotBlank` rejects exactly the all-whitespace strings, the empty string included |
| `Validation.NotEmptyCheck` | src/common/Validation.h:118-122 | `NotEmpty` rejects exactly the empty string |
| `Validation.ComparedLimitIsConversion` | src/common/Validation.h:88-116 | `value OP limit` is done in an unsigned type exactly when the field is unsigned and at least as wide as the literal's type; the value is unchanged by the conversion, and the limit becomes the value the model compares with |
| `Validation.BoundChecks` | src/common/Validation.h:88-116 | `LessThan`, `LessOrEqualThan`, `GreaterThan`, `GreaterOrEqualThan` and `NotEqual` each accept exactly the values on the named side of the converted limit; that is the limit itself, except that a negative limit on an unsigned field at least as wide as the literal becomes `limit + 2^bits` |
| `Validation.UnsignedNegativeLimit` | src/common/Validation.h:94-116 | on a `uint32_t` field, `GreaterThan(-1)` rejects every value, `LessThan(-1)` accepts all but 4294967295, and `NotEqual(-1)` rejects only 4294967295; a `uint16_t` field is promoted to `int`, so `GreaterThan(-1)` accepts every value |
| `Validation.IntMinLimitIsLong` | src/common/Validation.h:94-116 | the literal `-2147483648` is a `long`, because `2147483648` does not fit in `int`; on a `uint32_t` field the comparison is then done in `long`, so `LessThan(-2147483648)` rejects every value and `NotEqual(-2147483648)` rejects none |
| `Validation.SizeChecks` | src/common/Validation.h:124-158 | the six size checks accept exactly the lengths their names say for a non-negative limit; a negative limit wraps to a huge `size_t` |
| `Validation.ScoreExample` | src/common/Validation.h:14-32 | for `score` with `Positive` then `LessThan(100)`, `set_score(100)` throws the `LessThan` message and keeps the old score; 0 fails `Positive` first; 99 is stored |
| `FastUtil.CLength` | src/util/FastUtil.hpp:10-12 | the parse stops at the first NUL: the index holds NUL and no earlier index does |
| `FastUtil.FastStoiNotSafely` | src/util/FastUtil.hpp:8-16 | when no step overflows, the loop returns the positional decimal value of the characters before the first NUL, with no validation of the characters |
| `FastUtil.CStringOf` | src/util/FastUtil.hpp:17-19 | `c_str()` seen as a C string is the part of `s` before its first embedded NUL, or all of `s` if it has none |
| `FastUtil.FastStoiString` | src/util/FastUtil.hpp:17-19 | the `std::string` overload returns the decimal value of `s` up to its first embedded NUL |
| `FastUtil.FoldAppend` | src/util/FastUtil.hpp:14 | the empty string folds to 0, and `f(s + [c]) == 10 * f(s) + (c - '0')` |
| `FastUtil.FoldIsDecimalValue` | src/util/FastUtil.hpp:8-16 | the left fold equals the positional decimal value computed most-significant-digit first |
| `FastUtil.NineDigitsFitAsWritten` | src/util/FastUtil.hpp:14 | all-digit strings of at most nine digits never overflow `int32_t` at any intermediate step |
| `FastUtil.NoCharacterValidation` | src/util/FastUtil.hpp:14 | non-digits are folded in as `c - '0'`: "1a" gives 59 and "-5" gives -25 |
| `FastUtil.AsWrittenOverflowsBelowInt32Max` | src/util/FastUtil.hpp:14 | "2147483647" has a value that fits, yet an intermediate sum overflows as written |
| `FastUtil.DigitFirstFitsWhenValueFits` | src/util/FastUtil.hpp:14 | with the digit value parenthesised, every all-digit string whose value fits in `int32_t` parses without overflow |
| `FastUtil.FastStoiDigitFirst` | src/util/FastUtil.hpp:8-16 | the loop with the parenthesised digit value returns the same decimal value whenever none of its own steps overflows |
| `FastUtil.FitsAsWrittenImpliesDigitFirst` | src/util/FastUtil.hpp:14 | every input that does not overflow as written does not overflow with the digit value computed first either |
| `FastUtil.DigitFirstAcceptsMore` | src/util/FastUtil.hpp:14 | the converse fails: "2147483647" overflows as written but not with the digit value computed first |
| `FastUtil.BlockPlan` | src/util/FastUtil.hpp:29-33 | `length` splits into `length >> 4` blocks of 16 plus a tail of fewer than 16 bytes |
| `FastUtil.FastCopy` | src/util/FastUtil.hpp:25-35 | afterwards `dst[0..length)` equals `src[0..length)`, and dst bytes from `length` on are unchanged |
| `Errs.Catalog` | src/common/Errs.cpp:9-15 | the catalog errors have non-zero codes, and their codes and semantic tags are pairwise distinct |
| `Errs.CatalogIsNotDefault` | src/common/Errs.cpp:7-15 | every catalog entry, `INTERNAL` included, differs from the default-constructed record |
| `Rets.FailedIsNotSucceed` | src/common/Ret.h:30-36 | `failed() == !succeed()` for every result |
| `Rets.Default` | src/common/Ret.h:15-22 | `Ret()` is a success without the system flag, holding `T{}`, `EGrp{}` and `Err{}` |
| `Rets.Make` | src/common/Ret.h:26-28 | the four-argument constructor sets the flags, group and error as given, with a `T{}` payload |
| `Rets.SuccessWith` | src/common/Ret.h:42 | `successWith(d)` is a success without the system flag, whose `getData()` is `d` |
| `Rets.SuccessOfNullptr` | src/common/Ret.h:44 | `successOfNullptr` is a success carrying the null pointer |
| `Rets.SysErr` | src/common/Ret.h:46-48 | `sysErr(g, e)` is a system failure reporting exactly `g` and `e` |
| `Rets.SysErrWithMsg` | src/common/Ret.h:50-53 | sets the caller's `Err.msg` to the message and keeps its code and tag; the result is a system failure reporting that `Err` |
| `Rets.BizErr` | src/common/Ret.h:55-57 | `bizErr(g, e)` is a failure without the system flag, reporting exactly `g` and `e` |
| `Rets.BizErrWithMsg` | src/common/Ret.h:59-62 | sets the caller's `Err.msg` to the message and keeps its code and tag; the result is a business failure reporting that `Err` |
| `Rets.ErrMsgOnCatalog` | src/common/Ret.h:50-62 | an `errMsg` factory applied to catalog entry `i` sets that entry's message, keeps its code and tag, leaves every other entry alone, and reports the updated entry |
| `Rets.ErrMsgOverwritesCatalogEntry` | src/common/Ret.h:50-53 | after `sysErr(g, FORMAT_ERR, m)`, the catalog holds `FORMAT_ERR` with message `m`, so a later plain `bizErr(g, FORMAT_ERR)` reports `m`, not the default message |
| `Rets.FailureTransfer` | src/common/Ret.h:64-66 | copies the success and system flags, group and error from the source, with a `T{}` payload |
| `Rets.FailureTransferKeepsFailure` | src/common/Ret.h:64-66 | transferring a failure equals building that failure for the new payload type, and transferring twice equals transferring once |

## Findings

| source | as written | input that shows it | evidently intended | confidence | as-written member | corrected member |
|---|---|---|---|---|---|---|
| src/util/FastUtil.hpp:14 | `(number << 3) + (number << 1) + val[i] - '0'` adds the raw character code before subtracting `'0'` | "2147483647": the last step computes 2147483640 + 55 = 2147483695, above `INT32_MAX`, which is signed overflow | `(number << 3) + (number << 1) + (val[i] - '0')`, which never overflows for all-digit input whose value fits | medium, not executed (the overflow is undefined behaviour by the standard; it usually wraps back to the right value) | `FastUtil.AsWrittenOverflowsBelowInt32Max` | `FastUtil.FastStoiDigitFirst` |

## Left out

- Time-stamp-counter and wall-clock measurement (`MeasureUtil.hpp`, `MesureUtil.hpp`): inline assembly, clocks and floating-point statistics.
- `Locked.h` and `Locked.hpp`: their only content is mutex-guarded access.
- JSON helpers (`Json.h`, `JsonUtil.h`) and the `NLOHMANN_DEFINE_TYPE_INTRUSIVE` serialisation in `Ret.h` and `Errs.h`: thin wrappers over a third-party library.
- `TimeUtil.h` (Boost date/time and time zones), `main.cpp` (argument parsing), `ConfigTemplate.h`, `Version.h`, and the benchmark and demo tests.
- `StringUtil.h`: a non-compiling duplicate of `StringUtil.hpp`.
- The non-compiling parts of `Ret.h` are not modelled: the `sysErr` field clashes with the `sysErr` methods, `SUCCESS_OF_NULLPTR` names a missing namespace, and a test calls a missing `Ret::with`. The field is modelled as `sysErr` and the getter as `IsSysErr`.
- `Rets.ErrMsgOverwritesCatalogEntry`: the catalog is an explicit `seq<Err>` state that callers pass along. The `Errs` constants are its initial contents and do not change. A reader that keeps using the constants after an overwrite does not see the new message.
- `Rets.SuccessOfNullptr`: the static is only declared in the source, so the model takes it to be `successWith(nullptr)`.
- `StringUtil.IsBlank`: a Dafny `char` stands for one byte of the `std::string`, so `|s|` is `size()` counted in bytes, as `NotEmpty` and the size checks of `Validation.Rejects` see it. Multi-byte encodings such as UTF-8 are not modelled.
- `StringUtil.IsBlank`: only the "C" locale's white-space set is modelled; other locales and `isspace` on negative `char` values are left out.
- `StringUtil.Split`: an empty delimiter is excluded by a precondition, because the source loop never terminates on it.
- `Validation.Assign`: field values are integers or strings. Floating-point fields, other containers with `size()`, and string comparisons with the bound checks are not modelled.
- `Validation.Assign`: the implicit conversion of `set_X`'s argument to the field's declared integer type is not modelled. A numeric value is taken to be a value of its type, and the bound lemmas require it.
- `Validation.BoundChecks`: a limit is taken to be an unsuffixed decimal literal, perhaps with a unary minus. Its type comes from the magnitude alone: `int` when the magnitude fits, otherwise `long` (64 bits). So `-2147483648` is a `long`. The literal `9223372036854775808` has no standard signed type, so `-9223372036854775808` is not valid C++ without an extension; the model treats it as a `long`. Limits of other types, such as named constants or suffixed literals, are not modelled.
- `Validation.Field.Set`: a scalar field's content before its first successful set is indeterminate in C++, so it is a constructor parameter here. `Set` changes object state, so its contract uses `old`.
- `FastUtil.FastStoiNotSafely`: the shifts are modelled as multiplications. Left-shifting a negative value is undefined before C++20, but the model does not forbid it.
- `FastUtil.FastStoiNotSafely`: a buffer with no NUL makes the C++ loop read past the end, so the model requires a terminating NUL.
- `FastUtil.FastCopy`: the SSE loads and stores are plain element assignments.
- `FastUtil.FastCopy`: the source declares an `int32_t` result but never returns one, so the model returns nothing.
- `FastUtil.FastCopy`: the `int` block counter, which would overflow past 2^31 blocks, is not modelled.
- `FastUtil.FastCopy`: non-overlap is stated as two distinct arrays. Overlapping regions of one buffer are not modelled.
