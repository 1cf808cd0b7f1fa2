# goathtool passcode generation, modelled in Dafny

goathtool is a command-line one-time-password tool. Its `hotp` sub-command prints
HOTP passcodes (RFC 4226) for a secret key and a start counter. Its `totp`
sub-command prints TOTP passcodes (RFC 6238) for a key and a clock reading.
This project models the generating side of `main.go`:

- `genHOTP` (module `Hotp`). The counter is written as eight big-endian
  two's-complement bytes and signed with HMAC-SHA1. The digest is dynamically
  truncated: the low nibble of byte 19 is the offset, the four bytes there are
  read big-endian, and the result is masked with `0x7fffffff`. That value is
  reduced modulo `10^digits` and rendered with `%0<digits>d`.
- `genTOTP` (module `Generation`). It sets the counter to `nowSec / step`,
  using Go's truncating int64 division, and then calls `genHOTP`.
- Secret normalisation in `getPositionalArgs` (module `Secret`). The secret is
  upper-cased and its spaces are removed. An empty result leads to the usage
  exit. In base32 mode the secret is padded with `=` up to 32 characters.
- The generation loop at the end of `main`, with the `incr` closures (class
  `Generation.Generator`). The loop bound is `max = *counter + window` for a
  positive window and 0 otherwise. The loop `for i := 0; i <= max; i++` prints
  `generate()` and then calls `incr()`. In HOTP mode `incr()` does
  `*counter++`; in TOTP mode it does `nowSec += *step`. Both wrap as int64.

Supporting modules:

- `Numeric`: powers, Go's `&` on non-negative values, and big-endian encodings.
- `Int64`: int64 wrap-around and Go's `/`.
- `Decimal`: `%0<w>d` and its inverse, the decimal value of a digit string.

The loop is imperative in Go, so it is modelled as a class.
- The class fields are `counter` and `nowSec`.
- Its methods `GenHotp`, `GenTotp`, `Generate`, `Incr`, `Round`, `Loop` and
  `Run` change the fields as the Go code does. `LoopRounds` and `RunWindow` are
  the corrected loop.
- Each method is proved against pure specification functions. `GenerateStep`
  and `IncrStep` give one call each, `After` gives the state after `n` rounds,
  and `Trace` gives the lines `n` rounds print.
- Lemmas then state what those functions mean:
  - HOTP round `i` prints the passcode of counter `start + i`, wrapping.
  - TOTP round `i` prints the passcode of `(now + i*step) / step`.
  - The epoch never matters.

The model follows `main.go` where it departs from what the program evidently
means:
- The TOTP counter is `nowSec / step`. Section 4.2 of RFC 6238 defines it as
  `(now - epoch) / step`; the `-S` epoch is parsed but never used.
- The help text of `-w` reads "Window of counter values to test when
  validating OTPs". It is written for validation; that generation should
  print `window + 1` passcodes, one per counter of the window, is inferred
  from it. The loop bound adds the start counter to the window instead: a
  positive start counter prints `counter` extra passcodes, a start counter
  below `-window` prints none, and `-c 0` prints `window + 1`.
- A loop bound of MaxInt64 makes the loop endless.

All three are listed under Findings, each with a corrected definition.

## Model

| member | source | states |
|---|---|---|
| Numeric.And | main.go:195 | Go's `&` on non-negative integers: the result is no larger than either operand |
| Numeric.AndLowMask | main.go:192 | AND with `2^k - 1` (as `& 0x0f` and `& 0x7fffffff`) is the remainder by `2^k` |
| Numeric.BeValueOfBeBytes | main.go:186 | writing `n` as `len` big-endian bytes and reading them back gives `n mod 256^len` |
| Numeric.BeBytesOfBeValue | main.go:194 | reading bytes big-endian and writing them back at the same width gives the same bytes |
| Numeric.BeValue4 | main.go:194 | `binary.BigEndian.Uint32` of four bytes is `b0*2^24 + b1*2^16 + b2*2^8 + b3` |
| Int64.Wrap64 | main.go:83 | int64 overflow wraps into `[MinInt64, MaxInt64]` and leaves in-range values alone |
| Int64.Add64 | main.go:140 | Go's int64 `+` gives an int64 |
| Int64.Add64IsWrap | main.go:140 | Go's int64 `+` is the exact sum wrapped |
| Int64.WrapIsMod | main.go:83 | wrapping is reduction modulo 2^64 into the int64 range |
| Int64.WrapAdd | main.go:140 | repeated wrapping additions wrap to the wrapped exact total |
| Int64.TruncDiv64 | main.go:204 | Go's int64 `/` gives an int64 |
| Int64.TruncDivSpec | main.go:204 | Go's int64 `/` truncates toward zero: the remainder is smaller than the divisor in magnitude and is zero or has the dividend's sign; `MinInt64 / -1` is `MinInt64` |
| Int64.TruncDivNonNegative | main.go:204 | for a non-negative clock and positive step, the quotient is the floor |
| Int64.TruncDivWindow | main.go:204 | the quotient is `k` exactly when `k*step <= now < (k+1)*step` |
| Decimal.Numeral | main.go:199 | `%d` of a non-negative integer is a non-empty digit string |
| Decimal.ValueOfNumeral | main.go:199 | the numeral `%d` prints has the value of the number |
| Decimal.FormatZeroPadded | main.go:197-199 | `%0<w>d` of a non-negative integer: its numeral left-padded with '0' to `w`; its width, digits and value are stated by `FormatZeroPaddedSpec` |
| Decimal.FormatZeroPaddedSpec | main.go:197-199 | `%0<w>d` of a code below `10^w` is exactly `w` digits whose value is the code |
| Decimal.FormatOfValue | main.go:197-199 | re-rendering a digit string's value at its own width gives the string back |
| Decimal.FixedWidthDigit | main.go:199 | each character of the padded rendering is the matching decimal digit of the code |
| Decimal.FormatKeepsLeadingZeros | main.go:197-199 | a small code keeps its leading zeros (42 at width 6 is `000042`) |
| Hotp.CounterBytes | main.go:186 | the HMAC message is the counter as 8 bytes |
| Hotp.DecodeCounterBytes | main.go:186 | the 8 bytes decode to the counter: the encoding is injective |
| Hotp.CounterBytesOfDecode | main.go:186 | every 8-byte message encodes exactly one int64 counter |
| Hotp.CounterBytesSign | main.go:186 | the top bit of the first byte is set exactly for a negative counter (two's complement) |
| Hotp.CounterBytesExamples | main.go:186 | counters 0 and 1 give the messages of RFC 4226 Appendix D |
| Hotp.CounterBytesMinusOne | main.go:186 | counter -1 gives eight `0xff` bytes |
| Hotp.Offset | main.go:192 | the offset is the low nibble of byte 19, so the four bytes read lie inside the digest |
| Hotp.Truncate | main.go:194-195 | the truncated value is below 2^31 |
| Hotp.TruncateSpec | main.go:192-195 | the truncated value is the big-endian word at the offset with the top bit of its first byte cleared |
| Hotp.MaskTopBit | main.go:195 | `& 0x7fffffff` on a big-endian word clears exactly the top bit of its first byte |
| Hotp.Code | main.go:196 | `trunc % uint32(math.Pow(10, digits))` for 1..9 digits; its bound, fixed point and period are stated by `CodeSpec` |
| Hotp.CodeSpec | main.go:196 | the code is below `10^digits`, equals a truncated value already below it, and repeats every `10^digits` |
| Hotp.DigestPasscode | main.go:191-199 | what `genHOTP` does after the HMAC: truncate, reduce, render; stated by `DigestPasscodeSpec` |
| Hotp.DigestPasscodeSpec | main.go:191-199 | the passcode of a digest has exactly `digits` decimal digits, and its value is the code |
| Hotp.Passcode | main.go:181-200 | `genHOTP` for a counter, key and digit count, with `mac` standing for HMAC-SHA1; stated by `PasscodeSpec` and `Generator.GenHotp` |
| Hotp.PasscodeSpec | main.go:181-200 | whatever the HMAC returns, `genHOTP` gives exactly `digits` decimal digits, valued below `10^digits` |
| Hotp.PasscodeDeterminedByCode | main.go:196-199 | two passcodes of one width are equal if and only if their codes are |
| Hotp.Rfc4226Section54Example | main.go:192-199 | the worked example of section 5.4 of RFC 4226 gives offset 10, value 0x50ef7f19 and passcode 872921 |
| Hotp.Rfc4226AppendixDCount0 | main.go:192-199 | the RFC 4226 Appendix D digest for count 0 gives passcode 755224 |
| Hotp.Rfc4226AppendixDCount1 | main.go:192-199 | the RFC 4226 Appendix D digest for count 1 gives passcode 287082 |
| Secret.UpperChar | main.go:254 | upper-casing changes exactly the letters a-z, each to its capital |
| Secret.ToUpper | main.go:254 | `strings.ToUpper` keeps the length and upper-cases each character |
| Secret.ToUpperIdempotent | main.go:254 | upper-casing twice is upper-casing once |
| Secret.RemoveSpaces | main.go:255 | the result has no space and is no longer than the input; every other character keeps its number of occurrences |
| Secret.RemoveSpacesAppend | main.go:255 | removing spaces distributes over concatenation |
| Secret.RemoveSpacesNoSpaces | main.go:255 | a string without spaces is unchanged |
| Secret.RemoveSpacesEmpty | main.go:255-258 | nothing is left, so usage is called, exactly when the argument is empty or all spaces |
| Secret.RemoveSpacesToUpper | main.go:254-255 | upper-casing and removing spaces commute |
| Secret.Equals | main.go:263 | `k` padding characters, each `=` |
| Secret.Padded | main.go:260-265 | the secret padded with '=' up to 32 characters; stated by `PaddedSpec` and `PadBase32` |
| Secret.PaddedSpec | main.go:260-265 | padding keeps the secret as a prefix, adds only `=`, and reaches 32 characters (a longer secret is unchanged) |
| Secret.PaddedIdempotent | main.go:260-265 | padding a padded secret changes nothing |
| Secret.PadBase32 | main.go:262-264 | the padding loop yields the padded secret: at least 32 characters, with the secret as a prefix |
| Secret.Normalised | main.go:253-265 | the kept secret, or `None` for the usage exit; stated by `NormaliseSecret`, `NormalisedShape` and `NormalisedIdempotent` |
| Secret.NormaliseSecret | main.go:253-265 | the secret handling yields the normalised secret, and refuses (usage) exactly when the argument is all spaces |
| Secret.NormalisedShape | main.go:253-265 | a kept secret is non-empty, has no spaces and no lower-case letters, and in base32 mode has at least 32 characters |
| Secret.NormalisedIdempotent | main.go:253-265 | normalising a normalised secret gives it back unchanged |
| Generation.ValidConfig | main.go:36 | the settings the model covers: `-d` in 1..9, an int64 `-w`, and an int64 non-zero step and epoch |
| Generation.GenerateStep | main.go:204 | `generate()` keeps the state int64 and never touches `nowSec` |
| Generation.IncrStep | main.go:139-141 | `incr()`, both closures: `*counter++` in HOTP mode (main.go:82-84) and `nowSec += *step` in TOTP mode, each wrapping; keeps the state int64 |
| Generation.After | main.go:169-176 | the state stays int64 through any number of rounds |
| Generation.Printed | main.go:170 | the passcode `generate()` returns: that of the counter it leaves; stated by `Generator.Generate` |
| Generation.Trace | main.go:169-176 | the lines `n` loop rounds print; stated by `TraceAt`, `HotpTrace`, `TotpTrace` and `Generator.Loop` |
| Generation.PrefixAt | main.go:169-176 | the lines printed one per round are, at position `i`, what round `i` printed |
| Generation.TraceAt | main.go:169-176 | the loop prints exactly `n` lines in `n` rounds, and line `i` is `generate()` from the state left by `i` rounds |
| Generation.LoopBound | main.go:158-165 | `max` is the int64-wrapped `counter + window` for a positive window, and 0 for a zero or negative one |
| Generation.Rounds | main.go:169 | how many rounds `for i := 0; i <= max; i++` makes for `max` below MaxInt64; used by `Generator.Loop` |
| Generation.HotpRound | main.go:82-84 | one HOTP round increments the counter, wrapping, and leaves the clock alone |
| Generation.HotpAfter | main.go:82-84 | `n` HOTP rounds advance the counter by `n`, wrapping |
| Generation.HotpTrace | main.go:169-176 | in HOTP mode line `i` is the passcode of counter `start + i`, wrapping |
| Generation.TotpRound | main.go:139-141 | one TOTP round advances the clock by one step, wrapping |
| Generation.TotpAfter | main.go:139-141 | `n` TOTP rounds advance the clock by `n` steps, wrapping |
| Generation.TotpTrace | main.go:202-205 | in TOTP mode line `i` is the passcode of counter `(now + i*step) / step`, whatever the start counter |
| Generation.TotpCounterAdvances | main.go:204 | one step later, the time-step counter is one more |
| Generation.TotpConsecutiveRounds | main.go:204 | consecutive TOTP rounds use consecutive counters while the clock stays in range |
| Generation.Generator.ForHotp | main.go:43 | HOTP mode starts at the `-c` counter with a zero clock |
| Generation.Generator.ForTotp | main.go:104-113 | TOTP mode starts at the parsed clock with counter 0, the `-c` default |
| Generation.Generator.GenHotp | main.go:181-200 | `genHOTP` returns `digits` decimal digits, the passcode of the current counter, and changes nothing |
| Generation.Generator.GenTotp | main.go:202-207 | `genTOTP` sets the counter to `nowSec / step`, keeps the clock, and returns that counter's passcode |
| Generation.Generator.Generate | main.go:170 | `generate()` dispatches by sub-command: the new state is one `GenerateStep` and the result is its passcode |
| Generation.Generator.Incr | main.go:175 | `incr()` performs one `IncrStep` on the fields |
| Generation.Generator.Round | main.go:170-175 | one loop body prints the passcode of the current state and leaves the state after one round |
| Generation.Generator.Loop | main.go:169-176 | the loop prints `Trace` for `max + 1` rounds (none for a negative `max`) and leaves the state after those rounds |
| Generation.Generator.LoopRounds | main.go:169-176 | the corrected loop: exactly `n` rounds, printing `Trace` for `n` rounds, and always ending |
| Generation.Generator.Run | main.go:158-176 | the end of `main`: the bound from the start counter and the window, then the loop |
| Generation.Generator.RunWindow | main.go:158-176 | the corrected end of `main`: `window + 1` rounds whatever the start counter, ending for every window |
| Generation.IntendedBound | main.go:160-165 | the intended last round index is the window, or 0 for a window that is not positive |
| Generation.HotpRoundsAsWritten | main.go:160-162 | as written, a positive window from counter `c` gives `c + window + 1` rounds |
| Generation.HotpWindowExample | main.go:160-169 | with `-c 5 -w 2`, eight passcodes are printed instead of three |
| Generation.HotpWrappedBoundExamples | main.go:160-162 | the bound wraps: `-c -1 -w 3` prints three passcodes and `-c 9223372036854775807 -w 1` prints none |
| Generation.GuardHoldsForeverAtMaxInt64 | main.go:169 | with `max` at MaxInt64 every int64 index passes `i <= max` and `i++` wraps MaxInt64 to MinInt64, so the loop never ends |
| Generation.HotpEndlessLoopExample | main.go:161 | `-c 9223372036854775806 -w 1` makes `max` MaxInt64 |
| Generation.HotpNegativeCounterPrintsNothing | main.go:160-169 | a negative start counter below `-window` prints no passcode at all |
| Generation.HotpIntendedWindow | main.go:169-176 | the intended bound prints exactly `window + 1` passcodes, for counters `start .. start + window` |
| Generation.BoundsAgreeFromZero | main.go:160-165 | from counter 0, the start in TOTP mode, the written and intended bounds agree |
| Generation.AfterIgnoresEpoch | main.go:138-141 | the `-S` epoch has no influence on the state after any number of rounds |
| Generation.TotpIgnoresEpoch | main.go:138 | changing the `-S` epoch changes no printed passcode |
| Generation.RfcTotpCounter | main.go:204 | the corrected counter, `(now - epoch) / step` of section 4.2 of RFC 6238; stated by `RfcTotpCounterWindow` |
| Generation.RfcTotpCounterWindow | main.go:204 | the RFC 6238 counter `(now - epoch) / step` is `k` exactly during the `k`-th step after the epoch |
| Generation.DefaultEpochAgrees | main.go:204 | with the default epoch (the Unix epoch), the counter `genTOTP` uses is the RFC 6238 counter |
| Generation.EpochDivergenceExample | main.go:204 | with epoch 30 and step 30, at time 59 the program uses counter 1 where RFC 6238 uses 0 |

## Left out

- HMAC-SHA1 is not modelled. It is the parameter `mac`, a function from key and message to a 20-byte digest; every property holds for any such function.
- `getKey` (hex and base32 decoding of the secret) is not modelled. The decoded key is a field of `Config`; the Go standard library decoders are not part of this model.
- `validate` is left out. It prints "not implemented" and exits before doing anything. The `otp > 0` branch of `main` that calls it is left out with it, and so is the OTP argument parsing.
- Flag parsing, time parsing (`-N`, `-S`), `time.Now`, verbose output and `usage()` are left out. The parsed values (`-c`, `-d`, `-w`, `-s`, the clock, the epoch) are inputs; usage is the `None` result of `NormaliseSecret`.
- Generation.ValidConfig: `-d` is restricted to 1..9, so three cases are not modelled. With `-d 0` the modulus is 1, the code is 0 and `%00d` prints "0" for every counter. A negative `-d` makes `uint32(math.Pow(10, d))` 0, so `trunc % 0` panics. With 10 or more digits, the float64-to-uint32 conversion of `math.Pow(10, d)` is implementation-defined.
- Generation.ValidConfig: a zero `-s` step is excluded. Go panics with a division by zero there.
- Generation.Generator.Loop: a bound of `MaxInt64` is excluded. `i <= max` then always holds and the Go loop never ends (`i++` wraps); `GuardHoldsForeverAtMaxInt64` states this, and it is listed under Findings.
- Generation.Generator.Run: requires the bound to be below `MaxInt64`, for the same reason.
- Secret.ToUpper: only ASCII letters are upper-cased, and a string is a sequence of characters. Go's Unicode case mapping and its byte-counting `len` in the padding loop are not modelled, so the model is exact for ASCII secrets only.
- Hotp.Passcode: the error return of `binary.Write` on a hash writer is left out. That writer never fails, so the branch is unreachable.
- The `err` printed after a failed `generate()` is left out. `genHOTP` never fails for the reason above.

## Findings

| source | as written | input that shows it | evidently intended | confidence | as-written member | corrected member |
|---|---|---|---|---|---|---|
| main.go:160-162 | `max = *counter + int64(*window)` bounds the round index, so `counter + window + 1` passcodes are printed; a negative counter below `-window` prints none | `hotp -c 5 -w 2` prints eight passcodes (counters 5..12) | `window + 1` passcodes for counters `counter .. counter + window` (the loop bound is the window), inferred from the `-w` help text, which is written for validation; with `-c 0` the two agree | medium, not executed | Generation.HotpWindowExample | Generation.HotpIntendedWindow |
| main.go:204 | `*counter = nowSec / *step`: the parsed `-S` epoch (`epochSec`, line 138) is never subtracted | `totp -S "1970-01-01 00:00:30 UTC" -s 30` at time 59 uses counter 1 | the RFC 6238 counter `(now - epoch) / step`, which is 0 there | high, not executed | Generation.EpochDivergenceExample | Generation.RfcTotpCounterWindow |
| main.go:169 | `for i := int64(0); i <= max; i++` with `max` at MaxInt64: every int64 `i` passes the guard and `i++` wraps to MinInt64 | `hotp -c 9223372036854775806 -w 1` makes `max` MaxInt64 and prints passcodes forever | `window + 1` rounds, ending for every window | high, not executed | Generation.GuardHoldsForeverAtMaxInt64 | Generation.Generator.RunWindow |
