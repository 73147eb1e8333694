# BigInteger.Log test harness: generators, literal encoder, verdicts

This project models the deterministic core of the `BigInteger.Log` test
class of System.Runtime.Numerics (`logTest`). It covers three parts.

- **Byte-array generators.** `GetRandomByteArray` fills a new `byte[]`
  from the shared random source. `GetRandomPosByteArray` and
  `GetRandomNegByteArray` then clear (`&= 0x7F`) or set (`|= 0x80`) bit 7
  of the last byte in place.
  - `new BigInteger(byte[])` reads an array as a little-endian two's-complement
    integer. That reading is the ghost function `Bytes.TwosComplement`.
  - With it, the sign policy is proved: the value is negative exactly when
    bit 7 of the last byte is set. A Pos array therefore decodes to a value
    ≥ 0, and a Neg array to a value < 0.
  - `System.Random` is replaced by the list of values its `Next` calls
    return, in call order. Each generator consumes a prefix of that list
    and returns the rest.
- **The opstring literal encoder `Print`.** It writes
  `make b0 b1 ... endmake `, with each byte in decimal and one space after
  every token.
  - A model tokenizer splits on single spaces, like `string.Split(' ')`,
    and drops the empty piece a final space leaves.
  - It is proved to get back `make`, one decimal token per byte and
    `endmake`. Parsing the byte tokens gives the array again.
  - The opstrings the scenarios build around literals tokenize as expected:
    two literals and an operator (`Print(a) + Print(b) + "bLog"`) give the
    two literals' tokens followed by the operator; `Print(a) + "0 bLog"`
    gives the literal's tokens, `0`, `bLog`; and `"1 " + Print(a) + "bLog"`
    gives `1`, the literal's tokens, `bLog`.
- **Verdicts.** `Eval<T>` is null-aware equality, with `Option` standing for
  null. `Eval(bool, message)` returns its argument. `VerifyLogString` folds
  `&=` over the per-step comparisons of the two stack tops.
  - The dual-stack calculator (`StackCalc`) is outside the model. One run of
    it is given as the sequence of its steps, each step carrying the string
    rendering of both stack tops.

Modules: `Wrappers` (Option), `Bytes` (the byte type, bit masks and the
two's-complement reading), `Generators`, `Opstring`, `Verification`.

Size 0 makes `GetRandomPosByteArray` and `GetRandomNegByteArray` index
`value[value.Length - 1]` with -1, which throws `IndexOutOfRangeException`
(log.cs:186, log.cs:198); the model returns `Thrown(IndexOutOfRange)`. A
negative size throws `OverflowException` at `new byte[size]` (log.cs:169);
the model returns `Thrown(Overflow)`.

## Model

| member | source | states |
|---|---|---|
| `Generators.GetRandomByteArray` | src/System.Runtime.Numerics/tests/BigInteger/log.cs:167-177 | a fresh array of exactly `size` bytes whose byte i is the i-th draw; the draws after the first `size` are left for the next call; a negative size throws Overflow and consumes nothing |
| `Generators.GetRandomByteArrayOfRandomLength` | src/System.Runtime.Numerics/tests/BigInteger/log.cs:163-166 | the first draw, in [0,100), is the length; the array holds the next that many draws in order |
| `Generators.GetRandomPosByteArray` | src/System.Runtime.Numerics/tests/BigInteger/log.cs:178-189 | for size ≥ 1, every byte but the last equals its draw and the last is the draw with bit 7 cleared (< 0x80), so the two's-complement value is ≥ 0; size 0 throws IndexOutOfRange, a negative size Overflow |
| `Generators.GetRandomNegByteArray` | src/System.Runtime.Numerics/tests/BigInteger/log.cs:190-201 | for size ≥ 1, every byte but the last equals its draw and the last is the draw with bit 7 set (≥ 0x80), so the two's-complement value is < 0; size 0 throws IndexOutOfRange, a negative size Overflow |
| `Bytes.ClearTopBit` | src/System.Runtime.Numerics/tests/BigInteger/log.cs:186 | `b & 0x7F` is below 0x80 and keeps the low seven bits of b |
| `Bytes.ClearTopBitIsMask` | src/System.Runtime.Numerics/tests/BigInteger/log.cs:186 | on every 8-bit pattern x, `ClearTopBit` gives exactly the bitwise `x & 0x7F` |
| `Bytes.SetTopBit` | src/System.Runtime.Numerics/tests/BigInteger/log.cs:198 | `b \| 0x80` is at least 0x80 and keeps the low seven bits of b |
| `Bytes.SetTopBitIsMask` | src/System.Runtime.Numerics/tests/BigInteger/log.cs:198 | on every 8-bit pattern x, `SetTopBit` gives exactly the bitwise `x \| 0x80` |
| `Bytes.UnsignedBound` | src/System.Runtime.Numerics/tests/BigInteger/log.cs:47 | about how `new BigInteger(byte[])` reads the array at this call: n bytes read little-endian as unsigned stay below 256^n |
| `Bytes.SignFromTopBit` | src/System.Runtime.Numerics/tests/BigInteger/log.cs:94 | about how `new BigInteger(byte[])` reads the array at this call: the value of a non-empty array is negative if and only if bit 7 of the last byte is set |
| `Bytes.TwosComplementRange` | src/System.Runtime.Numerics/tests/BigInteger/log.cs:62 | about how `new BigInteger(byte[])` reads the array at this call: the value of n ≥ 1 bytes lies in [-256^n/2, 256^n/2) |
| `Opstring.Decimal` | src/System.Runtime.Numerics/tests/BigInteger/log.cs:209 | a byte's rendering is a non-empty string of decimal digits, so it holds no space, and it starts with `0` only when it is exactly `"0"` for the value 0 (no leading zero) |
| `Opstring.DecimalRoundTrip` | src/System.Runtime.Numerics/tests/BigInteger/log.cs:209 | parsing a byte's decimal rendering gives the byte back |
| `Opstring.Print` | src/System.Runtime.Numerics/tests/BigInteger/log.cs:203-214 | the result is `make `, then each byte's decimal rendering with one trailing space in index order, then `endmake `; the empty array gives `make endmake ` |
| `Opstring.SplitItems` | src/System.Runtime.Numerics/tests/BigInteger/log.cs:207-210 | the byte part of a literal splits into exactly one decimal token per byte, in index order |
| `Opstring.SplitLiteral` | src/System.Runtime.Numerics/tests/BigInteger/log.cs:203-214 | a literal followed by any text splits into `make`, the byte tokens, `endmake`, then the pieces of that text |
| `Opstring.ParseDecimalTokens` | src/System.Runtime.Numerics/tests/BigInteger/log.cs:209 | parsing the decimal tokens of an array gives the array back |
| `Opstring.LiteralRoundTrip` | src/System.Runtime.Numerics/tests/BigInteger/log.cs:205-211 | the tokens of `Print(bytes)` are `make`, `\|bytes\|` decimal tokens and `endmake`, and parsing them yields exactly `bytes` |
| `Opstring.LiteralInjective` | src/System.Runtime.Numerics/tests/BigInteger/log.cs:203-214 | two arrays with the same literal are equal |
| `Opstring.BinaryOpstringTokens` | src/System.Runtime.Numerics/tests/BigInteger/log.cs:112 | `Print(a) + Print(b) + op` tokenizes to a's literal tokens, b's literal tokens, then op |
| `Opstring.LiteralZeroLogTokens` | src/System.Runtime.Numerics/tests/BigInteger/log.cs:32 | `Print(a) + "0 bLog"` tokenizes to a's literal tokens, then `0`, then `bLog` |
| `Opstring.OneLiteralLogTokens` | src/System.Runtime.Numerics/tests/BigInteger/log.cs:56 | `"1 " + Print(a) + "bLog"` tokenizes to `1`, then a's literal tokens, then `bLog` |
| `Verification.EvalBool` | src/System.Runtime.Numerics/tests/BigInteger/log.cs:243-251 | the verdict is returned unchanged |
| `Verification.Eval` | src/System.Runtime.Numerics/tests/BigInteger/log.cs:232-242 | true if and only if expected equals actual; two nulls agree, null against a value disagrees |
| `Verification.VerifyLogString` | src/System.Runtime.Numerics/tests/BigInteger/log.cs:132-141 | true if and only if the two stack tops are string-equal after every step; the running verdict after step k is agreement on steps 0..k, and once false it stays false |

## Left out

- `ApproxEqual` (log.cs:215-230): a relative-error comparison of doubles with NaN and infinity cases. Floating point is not modelled.
- `RunLogTests` (log.cs:16-130): its checks call `BigInteger.Log`, `Math.Log`, `(double)` casts and `Random.NextDouble`. These are floating-point results of library code that is not part of this model. Of it, only the opstrings built around generated literals are stated: the two-literal form `Print(a) + Print(b) + "bLog"` (log.cs:79, 88, 112, 120, 128) by `Opstring.BinaryOpstringTokens`, and `Print(a) + "0 bLog"` (log.cs:32) and `"1 " + Print(a) + "bLog"` (log.cs:56) by `Opstring.LiteralZeroLogTokens` and `Opstring.OneLiteralLogTokens`. The constant opstrings `"0 1 bLog"` and `"1 0 bLog"` (log.cs:26, 72) contain no literal and are not stated.
- `StackCalc` (`DoNextOperation`, `snCalc`, `myCalc`) and its opstring parser are not part of this model. A run is given as its sequence of step outcomes.
- `VerifyIdentityString` (log.cs:142-161): it only drives `StackCalc` and is never called.
- `System.Random` and its seed 100 (log.cs:13): the generator algorithm is foreign. Its `Next` results are an explicit input, and they are assumed to lie in the range each call asks for.
- `Verification.Eval`: the failure message (`errorMsg` with the expected and actual renderings) is not built, because it only feeds the console write.
- `Verification.EvalBool`: the `Console.WriteLine` of the message on failure is I/O and is not modelled.
- `Verification.VerifyLogString`: the `String.Format` message and the `Peek` calls on an empty stack, which would throw inside `StackCalc`, are not modelled.
- The `BigInteger(byte[])` constructor is not modelled as code. Its meaning is the ghost function `Bytes.TwosComplement`.
- The xUnit `[Fact]` attribute and `Assert.True` calls belong to the test framework.
- `Eval<T>` uses Dafny equality on `T` for `expected.Equals(actual)`. That matches `string`, the only type it is called with here.
