/** One-time codes: section 4 of RFC 6238 over section 5.3 of RFC 4226, as e2e/helpers/totp.ts computes them.

    HMAC-SHA-1 is any function to twenty bytes. */
module TotpCode {
  import opened Wrappers
  import opened Base32
  import opened Decimal

  const PERIOD_MS: int := 30000
  const MARGIN_MS: int := 250

  type Digest = d: seq<Byte> | |d| == 20 witness seq(20, i => 0)

  type Hmac = (seq<Byte>, seq<Byte>) -> Digest

  /** What the engine supplies. */
  datatype Platform = Platform(hmac: Hmac, upper: Casing)

  datatype CodeError = InvalidChar(c: char) | StepOutOfRange

  function StepOf(nowMs: nat): nat {
    nowMs / PERIOD_MS
  }

  function MsUntilNextStep(nowMs: nat): nat {
    PERIOD_MS - nowMs % PERIOD_MS + MARGIN_MS
  }

  /** Steps are thirty seconds long, and the sleep ends a quarter of a second into the next. */
  lemma StepIs(nowMs: nat)
    ensures 30000 * StepOf(nowMs) <= nowMs < 30000 * StepOf(nowMs) + 30000
    ensures nowMs + MsUntilNextStep(nowMs) == 30000 * StepOf(nowMs) + 30250
  {
  }

  /** A sleep that does not end early ends in a later step, and at the earliest one margin into the next. */
  lemma SleepCrossesTheBoundary(from: nat, to: nat)
    requires to >= from + MsUntilNextStep(from)
    ensures StepOf(to) > StepOf(from)
    ensures to == from + MsUntilNextStep(from) ==> StepOf(to) == StepOf(from) + 1 && to % PERIOD_MS == MARGIN_MS
  {
  }

  // ---------------------------------------------------------------- the counter

  function BigEndian(n: nat, width: nat): (bytes: seq<Byte>)
    ensures |bytes| == width
  {
    if width == 0 then [] else BigEndian(n / 256, width - 1) + [n % 256]
  }

  function ValueOf(bytes: seq<Byte>): nat {
    if bytes == [] then 0 else ValueOf(bytes[..|bytes| - 1]) * 256 + bytes[|bytes| - 1]
  }

  function Pow256(n: nat): nat {
    if n == 0 then 1 else 256 * Pow256(n - 1)
  }

  /** The counter holds the step: what is written big-endian reads back. */
  lemma {:induction false} CounterRoundTrip(n: nat, width: nat)
    requires n < Pow256(width)
    ensures ValueOf(BigEndian(n, width)) == n
  {
    if width > 0 {
      CounterRoundTrip(n / 256, width - 1);
      assert BigEndian(n, width)[..width - 1] == BigEndian(n / 256, width - 1);
    }
  }

  /** Eight bytes, most significant first. */
  predicate EightBytesOf(b: seq<Byte>, n: int) {
    && |b| == 8
    && n == (((((((b[0] as int * 256 + b[1] as int) * 256 + b[2] as int) * 256 + b[3] as int) * 256 + b[4] as int) * 256
               + b[5] as int) * 256 + b[6] as int) * 256 + b[7] as int)
  }

  lemma ReadsEightBytes(b: seq<Byte>)
    requires |b| == 8
    ensures EightBytesOf(b, ValueOf(b))
  {
    assert b[..7][..6] == b[..6] && b[..6][..5] == b[..5] && b[..5][..4] == b[..4] && b[..4][..3] == b[..3];
    assert b[..3][..2] == b[..2] && b[..2][..1] == b[..1] && b[..1][..0] == [];
    assert ValueOf(b[..1]) == b[0];
    assert ValueOf(b[..2]) == ValueOf(b[..1]) * 256 + b[1];
    assert ValueOf(b[..3]) == ValueOf(b[..2]) * 256 + b[2];
    assert ValueOf(b[..4]) == ValueOf(b[..3]) * 256 + b[3];
    assert ValueOf(b[..5]) == ValueOf(b[..4]) * 256 + b[4];
    assert ValueOf(b[..6]) == ValueOf(b[..5]) * 256 + b[5];
    assert ValueOf(b[..7]) == ValueOf(b[..6]) * 256 + b[6];
  }

  // ---------------------------------------------------------------- truncation

  function OffsetOf(digest: Digest): (offset: nat)
    ensures offset + 4 <= |digest|
  {
    digest[|digest| - 1] % 16
  }

  function Word(digest: Digest, offset: nat): nat
    requires offset + 4 <= |digest|
  {
    var a: int, b: int, c: int, d: int := digest[offset], digest[offset + 1], digest[offset + 2], digest[offset + 3];
    a * 0x100_0000 + b * 0x1_0000 + c * 0x100 + d
  }

  function Truncate(digest: Digest): nat {
    Word(digest, OffsetOf(digest)) % 0x8000_0000 % 1_000_000
  }

  function CodeText(digest: Digest): string {
    PadStart(ToText(Truncate(digest)), 6)
  }

  /** What the standard takes of a digest: from the offset its last four bits name, four bytes without their top bit,
      modulo a million. */
  predicate TruncatesTo(d: Digest, value: int) {
    var o := d[19] as int % 16;
    value == (((d[o] as int % 128 * 256 + d[o + 1] as int) * 256 + d[o + 2] as int) * 256 + d[o + 3] as int) % 1000000
  }

  lemma TruncationIsStandard(digest: Digest)
    ensures TruncatesTo(digest, Truncate(digest))
  {
    var o: nat := digest[19] % 16;
    var a: int, b: int, c: int, d: int := digest[o], digest[o + 1], digest[o + 2], digest[o + 3];
    assert Word(digest, o) % 0x8000_0000 == ((a % 128 * 256 + b) * 256 + c) * 256 + d;
  }

  /** Every code is exactly the six digits of the standard's value. */
  lemma SixDigits(digest: Digest)
    ensures SixDigitsOf(CodeText(digest), Truncate(digest)) && TruncatesTo(digest, Truncate(digest))
  {
    var n := Truncate(digest);
    assert Pow10(6) == 1_000_000 by {
      assert Pow10(2) == 100 && Pow10(4) == 10_000;
    }
    TextLength(n, 6);
    ParseToText(n);
    PadKeepsValue(ToText(n), 6);
    ReadsSixDigits(CodeText(digest));
    TruncationIsStandard(digest);
  }

  const STEP_LIMIT: int := 0x1_0000_0000_0000_0000

  /** The code is the six digits of the standard's value of a digest. */
  ghost predicate CodeOf(code: string, digest: Digest) {
    exists value: int :: TruncatesTo(digest, value) && SixDigitsOf(code, value)
  }

  /** What the code of a step is: the six digits the standard takes of the HMAC of the decoded secret and the step as an
      eight-byte counter. A foreign character in the secret is refused before a step that does not fit. */
  ghost predicate IsCode(secret: string, step: int, p: Platform, r: Result<string, CodeError>) {
    match r
    case Ok(code) =>
      && 0 <= step < STEP_LIMIT && InAlphabet(Normalize(secret, p.upper))
      && exists key, counter :: CodeInput(secret, step, p, key, counter) && CodeOf(code, p.hmac(key, counter))
    case Err(InvalidChar(c)) => FirstForeign(Normalize(secret, p.upper), c)
    case Err(StepOutOfRange) => InAlphabet(Normalize(secret, p.upper)) && !(0 <= step < STEP_LIMIT)
  }

  ghost predicate CodeInput(secret: string, step: int, p: Platform, key: seq<Byte>, counter: seq<Byte>) {
    && InAlphabet(Normalize(secret, p.upper)) && Decodes(Quintets(Normalize(secret, p.upper)), key)
    && EightBytesOf(counter, step)
  }

  method TotpCodeForStep(secret: string, step: int, p: Platform) returns (r: Result<string, CodeError>)
    ensures IsCode(secret, step, p, r)
  {
    var key := Base32ToBuffer(secret, p.upper);
    if key.Err? {
      return Err(InvalidChar(key.error));
    }
    if step < 0 || step >= STEP_LIMIT {
      return Err(StepOutOfRange);
    }
    assert Pow256(8) == STEP_LIMIT by {
      assert Pow256(2) == 0x1_0000 && Pow256(4) == 0x1_0000_0000 && Pow256(6) == 0x1_0000_0000_0000;
    }
    var counter := BigEndian(step, 8);
    CounterRoundTrip(step, 8);
    ReadsEightBytes(counter);
    assert CodeInput(secret, step, p, key.value, counter);
    var digest := p.hmac(key.value, counter);
    SixDigits(digest);
    return Ok(CodeText(digest));
  }
}
