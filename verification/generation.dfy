/**
 * The generation loop at the end of `main`: `generate()` is `genHOTP` or
 * `genTOTP`, `incr()` advances the HOTP counter or the TOTP clock, and the
 * loop `for i := 0; i <= max; i++` prints one passcode per round.
 */
module Generation {

  import opened Numeric
  import opened Int64
  import opened Decimal
  import opened Hotp

  /** The sub-command `main` dispatched on, with the TOTP flags `-s` (step) and `-S` (epoch, in Unix seconds). */
  datatype Mode = HotpMode | TotpMode(step: int, epochSec: int)

  /** What the loop reads but never changes: the decoded key, `-d`, `-w` and the mode. */
  datatype Config = Config(key: seq<Byte>, digits: nat, window: int, mode: Mode)

  /** `-d` within 1..9, `-w` a Go `int` (64 bits), and a TOTP step and epoch that are int64 with a non-zero step. */
  predicate ValidConfig(cfg: Config) {
    1 <= cfg.digits <= 9 && IsInt64(cfg.window) &&
    (cfg.mode.TotpMode? ==> IsInt64(cfg.mode.step) && cfg.mode.step != 0 && IsInt64(cfg.mode.epochSec))
  }

  /** The two globals the loop changes: `*counter` and `nowSec`. */
  datatype State = State(counter: int, nowSec: int)

  predicate ValidState(st: State) {
    IsInt64(st.counter) && IsInt64(st.nowSec)
  }

  /** What `generate()` does to the state: `genTOTP` sets the counter to `nowSec / *step`; `genHOTP` changes nothing. */
  function GenerateStep(cfg: Config, st: State): (st': State)
    requires ValidConfig(cfg) && ValidState(st)
    ensures ValidState(st') && st'.nowSec == st.nowSec
  {
    match cfg.mode
    case HotpMode => st
    case TotpMode(step, _) => st.(counter := TruncDiv64(st.nowSec, step))
  }

  /** The passcode `generate()` returns from the state it leaves: that of the counter it used. */
  function Printed(mac: Mac, cfg: Config, st: State): string
    requires ValidConfig(cfg) && ValidState(st)
  {
    Passcode(mac, cfg.key, GenerateStep(cfg, st).counter, cfg.digits)
  }

  /** One call of `incr()`: `*counter++` for HOTP, `nowSec += *step` for TOTP, both wrapping as int64. */
  function IncrStep(cfg: Config, st: State): (st': State)
    requires ValidConfig(cfg) && ValidState(st)
    ensures ValidState(st')
  {
    match cfg.mode
    case HotpMode => st.(counter := Add64(st.counter, 1))
    case TotpMode(step, _) => st.(nowSec := Add64(st.nowSec, step))
  }

  /** The state after `n` rounds of the loop body. */
  function After(cfg: Config, st: State, n: nat): (st': State)
    requires ValidConfig(cfg) && ValidState(st)
    ensures ValidState(st')
  {
    if n == 0 then st else IncrStep(cfg, GenerateStep(cfg, After(cfg, st, n - 1)))
  }

  /** The passcodes `n` rounds of the loop body print, in order. */
  function Trace(mac: Mac, cfg: Config, st: State, n: nat): (out: seq<string>)
    requires ValidConfig(cfg) && ValidState(st)
  {
    Prefix(k => Printed(mac, cfg, After(cfg, st, k)), n)
  }

  /** `[f(0), ..., f(n-1)]`, built one element at a time. */
  function Prefix<T>(f: nat -> T, n: nat): (s: seq<T>)
    ensures |s| == n
  {
    if n == 0 then [] else Prefix(f, n - 1) + [f(n - 1)]
  }

  lemma {:induction false} PrefixAt<T>(f: nat -> T, n: nat, i: nat)
    requires i < n
    ensures Prefix(f, n)[i] == f(i)
  {
    if i < n - 1 {
      PrefixAt(f, n - 1, i);
    }
  }

  /** Round `i` prints what `generate()` returns from the state `i` rounds leave. */
  lemma TraceAt(mac: Mac, cfg: Config, st: State, n: nat, i: nat)
    requires ValidConfig(cfg) && ValidState(st) && i < n
    ensures |Trace(mac, cfg, st, n)| == n
    ensures Trace(mac, cfg, st, n)[i] == Printed(mac, cfg, After(cfg, st, i))
  {
    PrefixAt(k => Printed(mac, cfg, After(cfg, st, k)), n, i);
  }

  /**
   * `max`: `*counter + int64(*window)` (wrapping) for a positive window,
   * otherwise 0 (a negative window leaves `max` at its zero value).
   */
  function LoopBound(counter: int, window: int): (max: int)
    requires IsInt64(counter) && IsInt64(window)
    ensures IsInt64(max)
    ensures window > 0 ==> max == Wrap64(counter + window)
    ensures window <= 0 ==> max == 0
  {
    Add64IsWrap(counter, window);
    if window > 0 then Add64(counter, window) else 0
  }

  /** How many rounds `for i := int64(0); i <= max; i++` makes, for `max` below MaxInt64. */
  function Rounds(max: int): nat {
    if max >= 0 then max + 1 else 0
  }

  // ---------------------------------------------------------------------
  // What the rounds compute
  // ---------------------------------------------------------------------

  /** In HOTP mode `n` rounds advance the counter by `n` (wrapping) and leave the clock alone. */
  lemma {:induction false} HotpAfter(cfg: Config, st: State, n: nat)
    requires ValidConfig(cfg) && ValidState(st) && cfg.mode.HotpMode?
    ensures After(cfg, st, n) == State(Wrap64(st.counter + n), st.nowSec)
  {
    if n > 0 {
      var prev := After(cfg, st, n - 1);
      calc {
        After(cfg, st, n);
        IncrStep(cfg, GenerateStep(cfg, prev));
        { HotpRound(cfg, prev); }
        State(Wrap64(prev.counter + 1), prev.nowSec);
        { HotpAfter(cfg, st, n - 1); }
        State(Wrap64(Wrap64(st.counter + (n - 1)) + 1), st.nowSec);
        { WrapAdd(st.counter + (n - 1), 1); }
        State(Wrap64(st.counter + n), st.nowSec);
      }
    }
  }

  /** One HOTP round: the counter goes up by one (wrapping). */
  lemma HotpRound(cfg: Config, s: State)
    requires ValidConfig(cfg) && ValidState(s) && cfg.mode.HotpMode?
    ensures IncrStep(cfg, GenerateStep(cfg, s)) == State(Wrap64(s.counter + 1), s.nowSec)
  {
    Add64IsWrap(s.counter, 1);
  }

  /** In HOTP mode round `i` prints the passcode of the start counter plus `i` (wrapping). */
  lemma HotpTrace(mac: Mac, cfg: Config, st: State, n: nat)
    requires ValidConfig(cfg) && ValidState(st) && cfg.mode.HotpMode?
    ensures |Trace(mac, cfg, st, n)| == n
    ensures forall i :: 0 <= i < n ==>
              Trace(mac, cfg, st, n)[i] == Passcode(mac, cfg.key, Wrap64(st.counter + i), cfg.digits)
  {
    forall i | 0 <= i < n
      ensures Trace(mac, cfg, st, n)[i] == Passcode(mac, cfg.key, Wrap64(st.counter + i), cfg.digits)
    {
      TraceAt(mac, cfg, st, n, i);
      HotpAfter(cfg, st, i);
    }
  }

  /** In TOTP mode `n` rounds advance the clock by `n` steps (wrapping). */
  lemma {:induction false} TotpAfter(cfg: Config, st: State, n: nat)
    requires ValidConfig(cfg) && ValidState(st) && cfg.mode.TotpMode?
    ensures After(cfg, st, n).nowSec == Wrap64(st.nowSec + n * cfg.mode.step)
  {
    if n > 0 {
      var prev := After(cfg, st, n - 1);
      TotpRound(cfg, prev);
      TotpAfter(cfg, st, n - 1);
      WrapAddMultiple(st.nowSec, cfg.mode.step, n, prev.nowSec);
    }
  }

  /** One TOTP round: the clock goes forward by one step (wrapping). */
  lemma TotpRound(cfg: Config, s: State)
    requires ValidConfig(cfg) && ValidState(s) && cfg.mode.TotpMode?
    ensures IncrStep(cfg, GenerateStep(cfg, s)).nowSec == Wrap64(s.nowSec + cfg.mode.step)
  {
    Add64IsWrap(s.nowSec, cfg.mode.step);
  }

  /** In TOTP mode round `i` prints the passcode of the counter `(now + i*step) / step`, whatever the start counter. */
  lemma TotpTrace(mac: Mac, cfg: Config, st: State, n: nat)
    requires ValidConfig(cfg) && ValidState(st) && cfg.mode.TotpMode?
    ensures |Trace(mac, cfg, st, n)| == n
    ensures forall i :: 0 <= i < n ==>
              Trace(mac, cfg, st, n)[i]
              == Passcode(mac, cfg.key, TruncDiv64(Wrap64(st.nowSec + i * cfg.mode.step), cfg.mode.step), cfg.digits)
  {
    forall i | 0 <= i < n
      ensures Trace(mac, cfg, st, n)[i]
              == Passcode(mac, cfg.key, TruncDiv64(Wrap64(st.nowSec + i * cfg.mode.step), cfg.mode.step), cfg.digits)
    {
      TraceAt(mac, cfg, st, n, i);
      TotpAfter(cfg, st, i);
    }
  }

  /** With a positive step and no overflow, one step later the time-step counter is one more. */
  lemma TotpCounterAdvances(now: int, step: int)
    requires 0 <= now && 0 < step && now + step <= MAX64
    ensures TruncDiv64(now + step, step) == TruncDiv64(now, step) + 1
  {
    var k := TruncDiv64(now, step);
    TruncDivWindow(now, step, k);
    TruncDivWindow(now + step, step, k + 1);
  }

  /** Consecutive TOTP rounds use consecutive counters while the clock stays in range. */
  lemma TotpConsecutiveRounds(now: int, step: int, i: nat)
    requires 0 <= now && 0 < step && now + (i + 1) * step <= MAX64
    ensures TruncDiv64(Wrap64(now + (i + 1) * step), step) == TruncDiv64(Wrap64(now + i * step), step) + 1
  {
    MulMonotone(i, i + 1, step);
    assert now + (i + 1) * step == now + i * step + step;
    TotpCounterAdvances(now + i * step, step);
  }

  // ---------------------------------------------------------------------
  // The loop as the program runs it
  // ---------------------------------------------------------------------

  /** `*counter` and `nowSec`, with the settings that stay fixed once `main` reaches the loop. */
  class Generator {
    const cfg: Config
    var counter: int
    var nowSec: int

    ghost predicate Valid()
      reads this
    {
      ValidConfig(cfg) && IsInt64(counter) && IsInt64(nowSec)
    }

    function Current(): State
      reads this
    {
      State(counter, nowSec)
    }

    /** HOTP mode: `-c` gives the start counter; `nowSec` keeps its zero value. */
    constructor ForHotp(cfg: Config, counter: int)
      requires ValidConfig(cfg) && cfg.mode.HotpMode? && IsInt64(counter)
      ensures Valid() && this.cfg == cfg && Current() == State(counter, 0)
    {
      this.cfg := cfg;
      this.counter := counter;
      this.nowSec := 0;
    }

    /** TOTP mode: `nowSec` is the current time; `*counter` keeps the HOTP flag's default 0, which is never parsed. */
    constructor ForTotp(cfg: Config, nowSec: int)
      requires ValidConfig(cfg) && cfg.mode.TotpMode? && IsInt64(nowSec)
      ensures Valid() && this.cfg == cfg && Current() == State(0, nowSec)
    {
      this.cfg := cfg;
      this.counter := 0;
      this.nowSec := nowSec;
    }

    /** `genHOTP`: the passcode of the current counter; nothing changes. */
    method GenHotp(mac: Mac) returns (p: string)
      requires Valid()
      ensures |p| == cfg.digits && AllDigits(p)
      ensures p == Passcode(mac, cfg.key, counter, cfg.digits)
    {
      p := DigestPasscode(mac(cfg.key, CounterBytes(counter)), cfg.digits);
      PasscodeSpec(mac, cfg.key, counter, cfg.digits);
    }

    /** `genTOTP`: set the counter to `nowSec / *step`, then `genHOTP`. */
    method GenTotp(mac: Mac) returns (p: string)
      requires Valid() && cfg.mode.TotpMode?
      modifies this
      ensures Valid() && nowSec == old(nowSec)
      ensures counter == TruncDiv64(nowSec, cfg.mode.step)
      ensures p == Passcode(mac, cfg.key, counter, cfg.digits)
    {
      counter := TruncDiv64(nowSec, cfg.mode.step);
      p := GenHotp(mac);
    }

    /** `generate()`, bound to `genHOTP` or `genTOTP` by the sub-command. */
    method Generate(mac: Mac) returns (p: string)
      requires Valid()
      modifies this
      ensures Valid() && Current() == GenerateStep(cfg, old(Current()))
      ensures p == Printed(mac, cfg, old(Current()))
    {
      if cfg.mode.HotpMode? {
        p := GenHotp(mac);
      } else {
        p := GenTotp(mac);
      }
    }

    /** `incr()`, the closure the sub-command installed. */
    method Incr()
      requires Valid()
      modifies this
      ensures Valid() && Current() == IncrStep(cfg, old(Current()))
    {
      match cfg.mode
      case HotpMode =>
        counter := Add64(counter, 1);
      case TotpMode(step, _) =>
        nowSec := Add64(nowSec, step);
    }

    /** The loop body: `passcode, err = generate()`, `fmt.Println(passcode)`, `incr()`. */
    method Round(mac: Mac) returns (p: string)
      requires Valid()
      modifies this
      ensures Valid() && p == Printed(mac, cfg, old(Current()))
      ensures Current() == IncrStep(cfg, GenerateStep(cfg, old(Current())))
    {
      p := Generate(mac);
      Incr();
    }

    /**
     * `for i := int64(0); i <= max; i++ { fmt.Println(generate()); incr() }`,
     * returning the printed lines. With `max` at MaxInt64 the Go loop never
     * ends (`i <= max` always holds), so that bound is excluded.
     */
    method Loop(mac: Mac, max: int) returns (out: seq<string>)
      requires Valid() && max < MAX64
      modifies this
      ensures Valid()
      ensures out == Trace(mac, cfg, old(Current()), Rounds(max))
      ensures Current() == After(cfg, old(Current()), Rounds(max))
    {
      ghost var st0 := Current();
      out := [];
      var i := 0;
      while i <= max
        invariant 0 <= i <= Rounds(max)
        invariant Valid() && out == Trace(mac, cfg, st0, i) && Current() == After(cfg, st0, i)
        decreases max - i
      {
        var p := Round(mac);
        out := out + [p];
        i := i + 1;
      }
    }

    /** The end of `main`: the bound from the start counter and `-w`, then the loop. */
    method Run(mac: Mac) returns (out: seq<string>)
      requires Valid() && LoopBound(counter, cfg.window) < MAX64
      modifies this
      ensures Valid()
      ensures out == Trace(mac, cfg, old(Current()), Rounds(LoopBound(old(counter), cfg.window)))
      ensures Current() == After(cfg, old(Current()), Rounds(LoopBound(old(counter), cfg.window)))
    {
      var max := LoopBound(counter, cfg.window);
      out := Loop(mac, max);
    }

    /**
     * `n` rounds of the loop body, counted so that the loop always ends:
     * `for i := 0; i < n; i++` on an unbounded `i`.
     */
    method LoopRounds(mac: Mac, n: nat) returns (out: seq<string>)
      requires Valid()
      modifies this
      ensures Valid()
      ensures out == Trace(mac, cfg, old(Current()), n)
      ensures Current() == After(cfg, old(Current()), n)
    {
      ghost var st0 := Current();
      out := [];
      var i := 0;
      while i < n
        invariant 0 <= i <= n
        invariant Valid() && out == Trace(mac, cfg, st0, i) && Current() == After(cfg, st0, i)
      {
        var p := Round(mac);
        out := out + [p];
        i := i + 1;
      }
    }

    /**
     * The end of `main` with the bound the window evidently means:
     * `window + 1` rounds whatever the start counter, and a loop that ends
     * for every window.
     */
    method RunWindow(mac: Mac) returns (out: seq<string>)
      requires Valid()
      modifies this
      ensures Valid()
      ensures out == Trace(mac, cfg, old(Current()), IntendedBound(cfg.window) + 1)
      ensures Current() == After(cfg, old(Current()), IntendedBound(cfg.window) + 1)
    {
      out := LoopRounds(mac, IntendedBound(cfg.window) + 1);
    }
  }

  // ---------------------------------------------------------------------
  // The loop bound: as written and as intended
  // ---------------------------------------------------------------------

  /** The last round index for a window of `window` counter values after the first: the window itself. */
  function IntendedBound(window: int): (max: int)
    requires IsInt64(window)
    ensures 0 <= max && (window >= 0 ==> max == window)
  {
    if window > 0 then window else 0
  }

  /**
   * As written, a positive window in HOTP mode makes `counter + window + 1`
   * rounds, so the number of passcodes grows with the start counter.
   */
  lemma HotpRoundsAsWritten(counter: int, window: int)
    requires 0 <= counter && 0 < window && counter + window < MAX64
    ensures Rounds(LoopBound(counter, window)) == counter + window + 1
  {
  }

  /** With `-c 5 -w 2` eight passcodes (counters 5 to 12) are printed, not three. */
  lemma HotpWindowExample()
    ensures Rounds(LoopBound(5, 2)) == 8 && IntendedBound(2) + 1 == 3
  {
  }

  /**
   * The bound wraps as int64: `-c -1 -w 3` prints three passcodes, and
   * `-c 9223372036854775807 -w 1` wraps `max` to MinInt64 and prints none.
   */
  lemma HotpWrappedBoundExamples()
    ensures Rounds(LoopBound(-1, 3)) == 3
    ensures LoopBound(MAX64, 1) == MIN64 && Rounds(LoopBound(MAX64, 1)) == 0
  {
  }

  /**
   * With `max` at MaxInt64 the loop never ends: every int64 index passes
   * `i <= max`, and `i++` leaves an int64 index (MaxInt64 wraps to MinInt64).
   */
  lemma GuardHoldsForeverAtMaxInt64(i: int)
    requires IsInt64(i)
    ensures i <= MAX64 && IsInt64(Add64(i, 1)) && Add64(i, 1) <= MAX64
    ensures i == MAX64 ==> Add64(i, 1) == MIN64
  {
  }

  /** `-c 9223372036854775806 -w 1` makes `max` MaxInt64, so that loop never ends. */
  lemma HotpEndlessLoopExample()
    ensures LoopBound(MAX64 - 1, 1) == MAX64
  {
  }

  /** A negative start counter below the window prints nothing at all. */
  lemma HotpNegativeCounterPrintsNothing(counter: int, window: int)
    requires MIN64 <= counter && 0 < window && counter + window < 0
    ensures Rounds(LoopBound(counter, window)) == 0
  {
  }

  /** The intended bound prints `window + 1` passcodes for the counters `counter .. counter + window`. */
  lemma HotpIntendedWindow(mac: Mac, cfg: Config, st: State)
    requires ValidConfig(cfg) && ValidState(st) && cfg.mode.HotpMode? && 0 <= cfg.window
    ensures var out := Trace(mac, cfg, st, IntendedBound(cfg.window) + 1);
            |out| == cfg.window + 1 &&
            forall i :: 0 <= i <= cfg.window ==>
              out[i] == Passcode(mac, cfg.key, Wrap64(st.counter + i), cfg.digits)
  {
    var n := IntendedBound(cfg.window) + 1;
    assert n == cfg.window + 1;
    HotpTrace(mac, cfg, st, n);
  }

  /** Starting from counter 0, as TOTP mode does, the written bound is the intended one. */
  lemma BoundsAgreeFromZero(window: int)
    requires IsInt64(window)
    ensures LoopBound(0, window) == IntendedBound(window)
  {
  }

  // ---------------------------------------------------------------------
  // The TOTP epoch: ignored as written, subtracted in RFC 6238
  // ---------------------------------------------------------------------

  /** The `-S` epoch never reaches the state: any other epoch gives the same rounds. */
  lemma {:induction false} AfterIgnoresEpoch(cfg: Config, st: State, n: nat, epochSec: int)
    requires ValidConfig(cfg) && ValidState(st) && cfg.mode.TotpMode? && IsInt64(epochSec)
    ensures After(cfg, st, n) == After(cfg.(mode := cfg.mode.(epochSec := epochSec)), st, n)
  {
    if n > 0 {
      AfterIgnoresEpoch(cfg, st, n - 1, epochSec);
    }
  }

  /** The `-S` epoch never reaches the passcodes: any other epoch prints the same lines. */
  lemma TotpIgnoresEpoch(mac: Mac, cfg: Config, st: State, n: nat, epochSec: int)
    requires ValidConfig(cfg) && ValidState(st) && cfg.mode.TotpMode? && IsInt64(epochSec)
    ensures Trace(mac, cfg, st, n) == Trace(mac, cfg.(mode := cfg.mode.(epochSec := epochSec)), st, n)
  {
    var cfg' := cfg.(mode := cfg.mode.(epochSec := epochSec));
    forall i | 0 <= i < n
      ensures Trace(mac, cfg, st, n)[i] == Trace(mac, cfg', st, n)[i]
    {
      TraceAt(mac, cfg, st, n, i);
      TraceAt(mac, cfg', st, n, i);
      AfterIgnoresEpoch(cfg, st, i, epochSec);
    }
  }

  /** The time-step counter of section 4.2 of RFC 6238: `(now - epoch) / step`. */
  function RfcTotpCounter(now: int, epochSec: int, step: int): int
    requires IsInt64(now - epochSec) && IsInt64(step) && step != 0
  {
    TruncDiv64(now - epochSec, step)
  }

  /** The counter is `k` exactly during the `k`-th step after the epoch. */
  lemma RfcTotpCounterWindow(now: int, epochSec: int, step: int, k: int)
    requires 0 <= now - epochSec <= MAX64 && 0 < step <= MAX64
    ensures RfcTotpCounter(now, epochSec, step) == k <==> epochSec + k * step <= now < epochSec + (k + 1) * step
  {
    TruncDivWindow(now - epochSec, step, k);
  }

  /** With the default `-S` (the Unix epoch, 0 seconds) the counter `genTOTP` uses is the RFC 6238 one. */
  lemma DefaultEpochAgrees(cfg: Config, st: State)
    requires ValidConfig(cfg) && ValidState(st) && cfg.mode.TotpMode? && cfg.mode.epochSec == 0
    ensures GenerateStep(cfg, st).counter == RfcTotpCounter(st.nowSec, cfg.mode.epochSec, cfg.mode.step)
  {
  }

  /** With `-S` 30 seconds after the Unix epoch and a 30-second step, time 59 uses counter 1 where RFC 6238 has 0. */
  lemma EpochDivergenceExample(key: seq<Byte>)
    ensures var cfg := Config(key, 6, 0, TotpMode(30, 30));
            GenerateStep(cfg, State(0, 59)).counter == 1 && RfcTotpCounter(59, 30, 30) == 0
  {
    TruncDivNonNegative(59, 30);
    TruncDivNonNegative(29, 30);
  }
}
