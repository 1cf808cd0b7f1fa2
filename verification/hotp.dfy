/**
 * HOTP passcode generation as in `genHOTP`: the counter as eight
 * big-endian bytes, an HMAC-SHA1 digest of them, dynamic truncation of the
 * digest (section 5.3 of RFC 4226), reduction modulo 10^digits and
 * zero-padded decimal rendering.
 */
module Hotp {

  import opened Numeric
  import opened Int64
  import opened Decimal

  /** An HMAC-SHA1 digest: 20 bytes. */
  type Digest = s: seq<Byte> | |s| == 20 witness seq(20, _ => 0)

  /**
   * HMAC-SHA1 keyed by the first argument over the message in the second.
   * The hash itself is not modelled: every operation that needs it takes it
   * as a parameter, so the model holds for whatever digest it returns.
   */
  type Mac = (seq<Byte>, seq<Byte>) -> Digest

  /** What `binary.Write(hash, binary.BigEndian, *counter)` feeds the HMAC: the int64 in two's complement, 8 bytes. */
  function CounterBytes(c: int): (bs: seq<Byte>)
    requires IsInt64(c)
    ensures |bs| == 8
  {
    BeBytes(c % MOD64, 8)
  }

  /** The int64 that 8 big-endian two's-complement bytes denote. */
  function DecodeInt64(bs: seq<Byte>): (c: int)
    requires |bs| == 8
    ensures IsInt64(c)
  {
    var u := BeValue(bs);
    assert u < MOD64 by { assert Pow(256, 8) == MOD64; }
    if u <= MAX64 then u else u - MOD64
  }

  /** Decoding the counter's bytes gives the counter back. */
  lemma DecodeCounterBytes(c: int)
    requires IsInt64(c)
    ensures DecodeInt64(CounterBytes(c)) == c
  {
    assert Pow(256, 8) == MOD64;
    BeValueOfBeBytes(c % MOD64, 8);
    DivModUnique(c % MOD64, MOD64, 0, c % MOD64);
    if c < 0 {
      DivModUnique(c, MOD64, -1, c + MOD64);
    } else {
      DivModUnique(c, MOD64, 0, c);
    }
  }

  /** Every 8-byte message is the encoding of exactly the counter it decodes to. */
  lemma CounterBytesOfDecode(bs: seq<Byte>)
    requires |bs| == 8
    ensures CounterBytes(DecodeInt64(bs)) == bs
  {
    assert Pow(256, 8) == MOD64;
    var u := BeValue(bs);
    var c := DecodeInt64(bs);
    if u <= MAX64 {
      DivModUnique(c, MOD64, 0, u);
    } else {
      DivModUnique(c, MOD64, -1, u);
    }
    BeBytesOfBeValue(bs);
  }

  /** The first byte carries the sign: its top bit is set exactly for a negative counter. */
  lemma CounterBytesSign(c: int)
    requires IsInt64(c)
    ensures CounterBytes(c)[0] >= 128 <==> c < 0
  {
    var bs := CounterBytes(c);
    DecodeCounterBytes(c);
    BeValueFirst(bs);
    assert Pow(256, 7) == 0x100_0000_0000_0000;
  }

  /** `h[19] & 0x0f`: the low nibble of the last digest byte. */
  function Offset(h: Digest): (o: nat)
    ensures o == h[19] % 16
    ensures o <= 15 && o + 4 <= |h|
  {
    AndLowMask(h[19], 4);
    And(h[19], 0x0f)
  }

  /**
   * Dynamic truncation: the four bytes at `Offset(h)` read big-endian
   * (`binary.BigEndian.Uint32`), then `& 0x7fffffff`.
   */
  function Truncate(h: Digest): (t: nat)
    ensures t < 0x8000_0000
  {
    var o := Offset(h);
    And(BeValue(h[o..o + 4]), 0x7fff_ffff)
  }

  /** The truncated value is the 31-bit big-endian word at the offset: its first byte loses its top bit. */
  lemma TruncateSpec(h: Digest)
    ensures var o := Offset(h);
            Truncate(h) == BeValue([h[o] % 128] + h[o + 1..o + 4])
  {
    var o := Offset(h);
    MaskTopBit(h[o..o + 4]);
  }

  /** Masking a 4-byte big-endian value with 0x7fffffff clears the top bit of its first byte. */
  lemma MaskTopBit(bs: seq<Byte>)
    requires |bs| == 4
    ensures And(BeValue(bs), 0x7fff_ffff) == BeValue([bs[0] % 128] + bs[1..])
    ensures And(BeValue(bs), 0x7fff_ffff) < 0x8000_0000
  {
    var b: int, rest: int := bs[0], BeValue(bs[1..]);
    var cleared := [bs[0] % 128] + bs[1..];
    assert cleared[1..] == bs[1..];
    assert Pow(256, 3) == 0x100_0000;
    BeValueFirst(bs);
    BeValueFirst(cleared);
    var v := BeValue(bs);
    calc {
      And(v, 0x7fff_ffff);
      { Mask31(v); }
      v % 0x8000_0000;
      { TopBitOfWord(v, b, rest); }
      (b % 128) * 0x100_0000 + rest;
      BeValue(cleared);
    }
  }

  /** `& 0x7fffffff` is the remainder by 2^31. */
  lemma Mask31(v: nat)
    ensures And(v, 0x7fff_ffff) == v % 0x8000_0000
  {
    Pow2To31();
    AndLowMask(v, 31);
  }

  /** Reducing `b * 2^24 + rest` modulo 2^31 clears the top bit of the byte `b`. */
  lemma TopBitOfWord(v: int, b: int, rest: int)
    requires 0 <= b < 256 && 0 <= rest < 0x100_0000 && v == b * 0x100_0000 + rest
    ensures v % 0x8000_0000 == (b % 128) * 0x100_0000 + rest
  {
    assert v == (b / 128) * 0x8000_0000 + ((b % 128) * 0x100_0000 + rest);
    DivModUnique(v, 0x8000_0000, b / 128, (b % 128) * 0x100_0000 + rest);
  }

  /**
   * `trunc % uint32(math.Pow(10, digits))`. For 1 <= digits <= 9 the power
   * is exact and fits a uint32, so this is the remainder by 10^digits.
   */
  function Code(trunc: nat, digits: nat): nat
    requires 1 <= digits <= 9
  {
    trunc % Pow(10, digits)
  }

  /** The code has at most `digits` digits, keeps a value that already fits, and repeats every 10^digits. */
  lemma CodeSpec(trunc: nat, digits: nat)
    requires 1 <= digits <= 9
    ensures Code(trunc, digits) < Pow(10, digits)
    ensures trunc < Pow(10, digits) ==> Code(trunc, digits) == trunc
    ensures Code(trunc + Pow(10, digits), digits) == Code(trunc, digits)
  {
    ModOfSmallAndShift(trunc, Pow(10, digits));
  }

  /** Everything `genHOTP` does after the HMAC: truncate, reduce, render with `%0<digits>d`. */
  function DigestPasscode(h: Digest, digits: nat): string
    requires 1 <= digits <= 9
  {
    FormatZeroPadded(Code(Truncate(h), digits), digits)
  }

  /** The passcode of a digest is `digits` decimal digits whose value is the code. */
  lemma DigestPasscodeSpec(h: Digest, digits: nat)
    requires 1 <= digits <= 9
    ensures var p := DigestPasscode(h, digits);
            |p| == digits && AllDigits(p) && Value(p) == Code(Truncate(h), digits)
  {
    CodeSpec(Truncate(h), digits);
    FormatZeroPaddedSpec(Code(Truncate(h), digits), digits);
  }

  /** `genHOTP`: the passcode for `counter` under `key`, with `mac` standing for HMAC-SHA1. */
  function Passcode(mac: Mac, key: seq<Byte>, counter: int, digits: nat): string
    requires IsInt64(counter) && 1 <= digits <= 9
  {
    DigestPasscode(mac(key, CounterBytes(counter)), digits)
  }

  /**
   * Whatever the HMAC returns, the passcode is exactly `digits` decimal
   * digits (leading zeros kept) whose value is below 10^digits.
   */
  lemma PasscodeSpec(mac: Mac, key: seq<Byte>, counter: int, digits: nat)
    requires IsInt64(counter) && 1 <= digits <= 9
    ensures var p := Passcode(mac, key, counter, digits);
            |p| == digits && AllDigits(p) && Value(p) < Pow(10, digits)
  {
    var h := mac(key, CounterBytes(counter));
    DigestPasscodeSpec(h, digits);
    CodeSpec(Truncate(h), digits);
  }

  /** Two passcodes of the same width are equal exactly when their codes are. */
  lemma PasscodeDeterminedByCode(h1: Digest, h2: Digest, digits: nat)
    requires 1 <= digits <= 9
    ensures DigestPasscode(h1, digits) == DigestPasscode(h2, digits)
            <==> Code(Truncate(h1), digits) == Code(Truncate(h2), digits)
  {
    var p1, p2 := DigestPasscode(h1, digits), DigestPasscode(h2, digits);
    DigestPasscodeSpec(h1, digits);
    DigestPasscodeSpec(h2, digits);
    FormatOfValue(p1);
    FormatOfValue(p2);
  }

  // ---------------------------------------------------------------------
  // Worked examples of RFC 4226
  // ---------------------------------------------------------------------

  /**
   * Section 5.4 of RFC 4226: a digest whose last byte is 0x5a has offset 10;
   * with bytes 0x50 0xef 0x7f 0x19 there, DBC is 0x50ef7f19 = 1357872921 and
   * the 6-digit passcode is 872921.
   */
  lemma Rfc4226Section54Example(h: Digest)
    requires h[19] == 0x5a && h[10..14] == [0x50, 0xef, 0x7f, 0x19]
    ensures Offset(h) == 10
    ensures Truncate(h) == 0x50ef7f19 == 1357872921
    ensures DigestPasscode(h, 6) == "872921"
  {
    TruncateExample(h, 10, [0x50, 0xef, 0x7f, 0x19], 0x50ef7f19);
    SixDigitExample(h, 1357872921, 872921);
    Format872921();
  }

  /** Truncation of a concrete digest, from its offset and the four bytes there with the top bit cleared. */
  lemma TruncateExample(h: Digest, o: nat, bs: seq<Byte>, t: nat)
    requires h[19] % 16 == o && o + 4 <= 20 && |bs| == 4 && bs[0] < 128
    requires h[o] % 128 == bs[0] && h[o + 1..o + 4] == bs[1..]
    requires t == bs[0] as int * 0x100_0000 + bs[1] as int * 0x1_0000 + bs[2] as int * 0x100 + bs[3]
    ensures Offset(h) == o && Truncate(h) == t
  {
    assert [h[o] % 128] + h[o + 1..o + 4] == bs;
    TruncateSpec(h);
    BeValue4(bs);
  }

  /** The 6-digit passcode of a digest whose truncated value `t` leaves `code` modulo 10^6. */
  lemma SixDigitExample(h: Digest, t: nat, code: nat)
    requires Truncate(h) == t && t % 1_000_000 == code
    ensures DigestPasscode(h, 6) == FormatZeroPadded(code, 6)
  {
    assert Pow(10, 6) == 1_000_000;
  }

  /**
   * Appendix D of RFC 4226, count 0 (HMAC cc93cf18...e4b0): offset 0, the
   * first byte 0xcc loses its top bit, 0x4c93cf18 = 1284755224, passcode 755224.
   */
  lemma Rfc4226AppendixDCount0(h: Digest)
    requires h[19] == 0xb0 && h[0..4] == [0xcc, 0x93, 0xcf, 0x18]
    ensures Offset(h) == 0
    ensures Truncate(h) == 0x4c93cf18 == 1284755224
    ensures DigestPasscode(h, 6) == "755224"
  {
    TruncateExample(h, 0, [0x4c, 0x93, 0xcf, 0x18], 0x4c93cf18);
    SixDigitExample(h, 1284755224, 755224);
    Format755224();
  }

  /**
   * Appendix D of RFC 4226, count 1 (HMAC 75a48a19...33ab): offset 11,
   * bytes 0xc1 0x39 0x7e 0xea give 0x41397eea = 1094287082, passcode 287082.
   */
  lemma Rfc4226AppendixDCount1(h: Digest)
    requires h[19] == 0xab && h[11..15] == [0xc1, 0x39, 0x7e, 0xea]
    ensures Offset(h) == 11
    ensures Truncate(h) == 0x41397eea == 1094287082
    ensures DigestPasscode(h, 6) == "287082"
  {
    TruncateExample(h, 11, [0x41, 0x39, 0x7e, 0xea], 0x41397eea);
    SixDigitExample(h, 1094287082, 287082);
    Format287082();
  }

  lemma Format872921()
    ensures FormatZeroPadded(872921, 6) == "872921"
  {
    assert Pow(10, 6) == 1_000_000;
    FormatIsFixedWidth(872921, 6);
  }

  lemma Format755224()
    ensures FormatZeroPadded(755224, 6) == "755224"
  {
    assert Pow(10, 6) == 1_000_000;
    FormatIsFixedWidth(755224, 6);
  }

  lemma Format287082()
    ensures FormatZeroPadded(287082, 6) == "287082"
  {
    assert Pow(10, 6) == 1_000_000;
    FormatIsFixedWidth(287082, 6);
  }

  /** The counters of those examples as the HMAC message. */
  lemma CounterBytesExamples()
    ensures CounterBytes(0) == [0, 0, 0, 0, 0, 0, 0, 0]
    ensures CounterBytes(1) == [0, 0, 0, 0, 0, 0, 0, 1]
  {
  }

  /** A negative counter is sent in two's complement: -1 is eight 0xff bytes. */
  lemma CounterBytesMinusOne()
    ensures CounterBytes(-1) == [0xff, 0xff, 0xff, 0xff, 0xff, 0xff, 0xff, 0xff]
  {
    assert Pow(256, 8) == MOD64;
    AllOnes(8);
  }

  /** The largest `k`-byte value is `k` bytes of 0xff. */
  lemma {:induction false} AllOnes(k: nat)
    ensures BeBytes(Pow(256, k) - 1, k) == seq(k, _ => 0xff)
  {
    if k > 0 {
      AllOnes(k - 1);
      var n := Pow(256, k) - 1;
      assert n / 256 == Pow(256, k - 1) - 1 && n % 256 == 0xff;
      assert seq(k - 1, _ => 0xff) + [0xff] == seq(k, _ => 0xff);
    }
  }
}
