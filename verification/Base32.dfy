/** The base32 decoder of e2e/helpers/totp.ts against the bit strings of section 6 of RFC 4648. */
module Base32 {
  import opened Wrappers
  import opened Binary

  const ALPHABET: string := "ABCDEFGHIJKLMNOPQRSTUVWXYZ234567"

  type Byte = b: int | 0 <= b < 256
  type Quintet = q: int | 0 <= q < 32

  // ---------------------------------------------------------------- characters

  /** The upper-case form of a character outside ASCII, which may be several characters. */
  type Casing = char -> string

  function UpperOf(c: char, upper: Casing): string {
    if 'a' <= c <= 'z' then [((c as int) - 32) as char] else if c as int < 128 then [c] else upper(c)
  }

  /** Upper-casing goes character by character. */
  function Upper(s: string, upper: Casing): string {
    if s == "" then "" else UpperOf(s[0], upper) + Upper(s[1..], upper)
  }

  /** Character by character: an ASCII letter is raised by code point, other ASCII stays, anything else is as the
      engine has it. */
  lemma {:induction false} UpperIs(before: string, c: char, after: string, upper: Casing)
    ensures Upper(before + [c] + after, upper)
         == Upper(before, upper)
            + (if 97 <= c as int <= 122 then [(c as int - 32) as char] else if c as int < 128 then [c] else upper(c))
            + Upper(after, upper)
  {
    var s := before + [c] + after;
    if before == "" {
      assert s[1..] == after;
    } else {
      assert s[1..] == before[1..] + [c] + after;
      UpperIs(before[1..], c, after, upper);
    }
  }

  function StripPadding(s: string): string {
    if s != "" && s[|s| - 1] == '=' then StripPadding(s[..|s| - 1]) else s
  }

  function Normalize(base32: string, upper: Casing): string {
    StripPadding(Upper(base32, upper))
  }

  /** Exactly the trailing '=' are stripped. */
  lemma {:induction false} StripIs(s: string)
    ensures var t := StripPadding(s);
      && t <= s && (t == "" || t[|t| - 1] != '=')
      && forall i :: |t| <= i < |s| ==> s[i] == '='
  {
    if s != "" && s[|s| - 1] == '=' {
      StripIs(s[..|s| - 1]);
    }
  }

  /** Position in the alphabet: A to Z, then 2 to 7; -1 for any other character. */
  function IndexOf(c: char): int {
    if 'A' <= c <= 'Z' then c as int - 'A' as int
    else if '2' <= c <= '7' then 26 + (c as int - '2' as int)
    else -1
  }

  function CharOf(q: Quintet): char {
    if q < 26 then ('A' as int + q) as char else ('2' as int + (q - 26)) as char
  }

  /** The index is the position in the alphabet, and nothing else has one. */
  lemma IndexIsPosition(c: char, q: Quintet)
    ensures CharOf(q) == ALPHABET[q] && IndexOf(CharOf(q)) == q
    ensures IndexOf(c) >= 0 ==> 0 <= IndexOf(c) < 32 && ALPHABET[IndexOf(c)] == c
  {
  }

  // ---------------------------------------------------------------- bit strings

  /** Bit k of n, counted from the least significant; of a negative n, that of its two's complement. */
  function Bit(n: int, k: nat): bool
    decreases k
  {
    if k == 0 then n % 2 == 1 else Bit(n / 2, k - 1)
  }

  /** The low `width` bits of n, most significant first. */
  function BitsOf(n: int, width: nat): (bits: seq<bool>)
    ensures |bits| == width
  {
    seq(width, i requires 0 <= i < width => Bit(n, width - 1 - i))
  }

  /** The quintets of the characters, concatenated. */
  function QuintetBits(qs: seq<Quintet>): (bits: seq<bool>)
    ensures |bits| == 5 * |qs|
  {
    seq(5 * |qs|, i requires 0 <= i < 5 * |qs| => Bit(qs[i / 5], 4 - i % 5))
  }

  function ByteBits(bytes: seq<Byte>): (bits: seq<bool>)
    ensures |bits| == 8 * |bytes|
  {
    seq(8 * |bytes|, i requires 0 <= i < 8 * |bytes| => Bit(bytes[i / 8], 7 - i % 8))
  }

  /** Decoding as the standard words it: the whole bytes of the bit string, what is left over dropped. */
  ghost predicate Decodes(qs: seq<Quintet>, bytes: seq<Byte>) {
    |bytes| == 5 * |qs| / 8 && ByteBits(bytes) == QuintetBits(qs)[..8 * |bytes|]
  }

  lemma Powers()
    ensures Pow2(5) == 32 && Pow2(8) == 256 && Pow2(32) == 0x1_0000_0000
  {
    assert Pow2(2) == 4 && Pow2(4) == 16 && Pow2(6) == 64 && Pow2(7) == 128 && Pow2(10) == 1024;
    assert Pow2(12) == 0x1000 && Pow2(14) == 0x4000 && Pow2(16) == 0x1_0000 && Pow2(18) == 0x4_0000;
    assert Pow2(20) == 0x10_0000 && Pow2(22) == 0x40_0000 && Pow2(24) == 0x100_0000 && Pow2(26) == 0x400_0000;
    assert Pow2(28) == 0x1000_0000 && Pow2(30) == 0x4000_0000;
  }

  lemma Halve(d: int, p: int)
    ensures d * (2 * p) == 2 * (d * p)
  {
  }

  /** Numbers that differ by m, a multiple of 2^width, have the same low bits. */
  lemma {:induction false} SameLowBit(a: int, b: int, m: int, width: nat, d: int, k: nat)
    requires a == b + m && m == d * Pow2(width) && k < width
    ensures Bit(a, k) == Bit(b, k)
    decreases k
  {
    var e := d * Pow2(width - 1);
    assert m == 2 * e by {
      Halve(d, Pow2(width - 1));
    }
    assert a % 2 == b % 2 && a / 2 == b / 2 + e;
    if k > 0 {
      SameLowBit(a / 2, b / 2, e, width - 1, d, k - 1);
    }
  }

  lemma {:induction false} BitsDetermine(a: int, b: int, width: nat)
    requires 0 <= a < Pow2(width) && 0 <= b < Pow2(width)
    requires forall k :: 0 <= k < width ==> Bit(a, k) == Bit(b, k)
    ensures a == b
    decreases width
  {
    if width > 0 {
      assert Bit(a, 0) == Bit(b, 0);
      forall k | 0 <= k < width - 1
        ensures Bit(a / 2, k) == Bit(b / 2, k)
      {
        assert Bit(a, k + 1) == Bit(b, k + 1);
      }
      BitsDetermine(a / 2, b / 2, width - 1);
    }
  }

  // ---------------------------------------------------------------- the 32-bit accumulator

  /** What a JavaScript bitwise operator leaves of an integer: 32 bits, read as a signed number. */
  function ToInt32(n: int): int {
    var m := n % 0x1_0000_0000;
    if m >= 0x8000_0000 then m - 0x1_0000_0000 else m
  }

  /** `(value << 5) | idx`: the shift clears the low five bits, so the or adds. */
  function ShiftIn(value: int, idx: Quintet): int {
    ToInt32(value * 32) + idx
  }

  /** `value >> n`: an arithmetic shift halves n times, rounding down. */
  function ShiftRight(value: int, n: nat): int
    decreases n
  {
    if n == 0 then value else ShiftRight(value / 2, n - 1)
  }

  /** `(value >> n) & 0xff` */
  function LowByte(value: int, n: nat): Byte {
    ShiftRight(value, n) % 256
  }

  lemma {:induction false} ShiftedBit(value: int, n: nat, k: nat)
    ensures Bit(ShiftRight(value, n), k) == Bit(value, k + n)
    decreases n
  {
    if n > 0 {
      ShiftedBit(value / 2, n - 1, k);
    }
  }

  lemma WrapMultiple(n: int) returns (k: int)
    ensures ToInt32(n) == n + k * 0x1_0000_0000
  {
    k := -((n - ToInt32(n)) / 0x1_0000_0000);
  }

  /** The wrap loses none of the low 32 bits, and so none that is still needed: at most twelve ever are. */
  lemma WrapKeepsLowBits(n: int, k: nat)
    requires k < 32
    ensures Bit(ToInt32(n), k) == Bit(n, k)
  {
    var d := WrapMultiple(n);
    Powers();
    SameLowBit(ToInt32(n), n, d * 0x1_0000_0000, 32, d, k);
  }

  lemma ShiftBack(value: int, idx: Quintet)
    ensures ShiftRight(value * 32 + idx, 5) == value
  {
    var a, b, c, d := idx / 2, idx / 4, idx / 8, idx / 16;
    assert ShiftRight(value * 2 + d, 1) == value;
    assert (value * 4 + c) / 2 == value * 2 + d;
    assert ShiftRight(value * 4 + c, 2) == value;
    assert (value * 8 + b) / 2 == value * 4 + c;
    assert ShiftRight(value * 8 + b, 3) == value;
    assert (value * 16 + a) / 2 == value * 8 + b;
    assert ShiftRight(value * 16 + a, 4) == value;
    assert (value * 32 + idx) / 2 == value * 16 + a;
  }

  lemma ShiftInRange(value: int, idx: Quintet)
    ensures -0x8000_0000 <= ShiftIn(value, idx) < 0x8000_0000
  {
    var n := value * 32;
    var q, m := n / 0x1_0000_0000, n % 0x1_0000_0000;
    var e := value - q * 0x800_0000;
    assert n == q * 0x1_0000_0000 + m;
    assert m == 32 * e;
    assert m >= 0x8000_0000 || e < 0x400_0000;
    assert m < 0x1_0000_0000 && e < 0x800_0000;
  }

  lemma ShiftInUnwrapped(value: int, idx: Quintet, k: nat)
    requires k < 32
    ensures Bit(ShiftIn(value, idx), k) == Bit(value * 32 + idx, k)
  {
    var d := WrapMultiple(value * 32);
    Powers();
    SameLowBit(ShiftIn(value, idx), value * 32 + idx, d * 0x1_0000_0000, 32, d, k);
  }

  /** The arithmetic is the bitwise `(value << 5) | idx` on 32-bit words: a signed 32-bit number, the bits of the
      quintet at the bottom, and above them those of the value, bit by bit. */
  lemma ShiftInBit(value: int, idx: Quintet, k: nat)
    requires k < 32
    ensures -0x8000_0000 <= ShiftIn(value, idx) < 0x8000_0000
    ensures Bit(ShiftIn(value, idx), k) == if k < 5 then Bit(idx, k) else Bit(value, k - 5)
  {
    ShiftInRange(value, idx);
    ShiftInUnwrapped(value, idx, k);
    if k < 5 {
      Powers();
      SameLowBit(value * 32 + idx, idx, value * 32, 5, value, k);
    } else {
      ShiftBack(value, idx);
      ShiftedBit(value * 32 + idx, 5, k - 5);
    }
  }

  /** The byte pushed holds the eight oldest pending bits. */
  lemma LowByteBit(value: int, n: nat, k: nat)
    requires k < 8
    ensures Bit(LowByte(value, n), k) == Bit(value, k + n)
  {
    var v := ShiftRight(value, n);
    Powers();
    SameLowBit(v, v % 256, v / 256 * 256, 8, v / 256, k);
    ShiftedBit(value, n, k);
  }

  // ---------------------------------------------------------------- decoding

  predicate InAlphabet(s: string) {
    forall i :: 0 <= i < |s| ==> IndexOf(s[i]) >= 0
  }

  function Quintets(s: string): (qs: seq<Quintet>)
    requires InAlphabet(s)
    ensures |qs| == |s|
  {
    seq(|s|, i requires 0 <= i < |s| => IndexOf(s[i]))
  }

  predicate FirstForeign(s: string, c: char) {
    exists i :: 0 <= i < |s| && s[i] == c && IndexOf(c) < 0 && InAlphabet(s[..i])
  }

  /** The loop's invariant: the bytes pushed, then the low `bits` bits of the accumulator, are the bit string of
      the characters read. */
  ghost predicate Reads(all: seq<bool>, done: seq<bool>, value: int, bits: nat) {
    all == done + BitsOf(value, bits)
  }

  lemma ShiftInReads(all: seq<bool>, done: seq<bool>, value: int, bits: nat, idx: Quintet)
    requires Reads(all, done, value, bits) && bits <= 7
    ensures Reads(all + BitsOf(idx, 5), done, ShiftIn(value, idx), bits + 5)
  {
    var next := BitsOf(ShiftIn(value, idx), bits + 5);
    forall i | 0 <= i < bits + 5
      ensures next[i] == (BitsOf(value, bits) + BitsOf(idx, 5))[i]
    {
      ShiftInBit(value, idx, bits + 4 - i);
    }
    assert next == BitsOf(value, bits) + BitsOf(idx, 5);
    assert all + BitsOf(idx, 5) == done + next;
  }

  lemma PushReads(all: seq<bool>, done: seq<bool>, value: int, bits: nat)
    requires Reads(all, done, value, bits) && bits >= 8
    ensures Reads(all, done + BitsOf(LowByte(value, bits - 8), 8), value, bits - 8)
  {
    var pending, byte, rest := BitsOf(value, bits), BitsOf(LowByte(value, bits - 8), 8), BitsOf(value, bits - 8);
    forall i | 0 <= i < 8
      ensures byte[i] == pending[i]
    {
      LowByteBit(value, bits - 8, 7 - i);
    }
    assert pending == byte + rest;
    assert done + pending == done + byte + rest;
  }

  lemma AppendQuintet(qs: seq<Quintet>, q: Quintet)
    ensures QuintetBits(qs + [q]) == QuintetBits(qs) + BitsOf(q, 5)
  {
    var a, b := QuintetBits(qs + [q]), QuintetBits(qs) + BitsOf(q, 5);
    forall i | 0 <= i < |a|
      ensures a[i] == b[i]
    {
      if i >= 5 * |qs| {
        assert i / 5 == |qs| && i % 5 == i - 5 * |qs|;
      }
    }
  }

  lemma AppendByte(bytes: seq<Byte>, q: Byte)
    ensures ByteBits(bytes + [q]) == ByteBits(bytes) + BitsOf(q, 8)
  {
    var a, b := ByteBits(bytes + [q]), ByteBits(bytes) + BitsOf(q, 8);
    forall i | 0 <= i < |a|
      ensures a[i] == b[i]
    {
      if i >= 8 * |bytes| {
        assert i / 8 == |bytes| && i % 8 == i - 8 * |bytes|;
      }
    }
  }

  lemma NextQuintet(s: string, i: nat)
    requires i < |s| && InAlphabet(s[..i]) && IndexOf(s[i]) >= 0
    ensures InAlphabet(s[..i + 1]) && Quintets(s[..i + 1]) == Quintets(s[..i]) + [IndexOf(s[i])]
  {
  }

  lemma WholeBytes(qs: seq<Quintet>, bytes: seq<Byte>, value: int, bits: nat)
    requires Reads(QuintetBits(qs), ByteBits(bytes), value, bits) && bits <= 7
    ensures Decodes(qs, bytes)
  {
  }

  method DecodeNormalized(normalized: string) returns (r: Result<seq<Byte>, char>)
    ensures match r
      case Ok(bytes) => InAlphabet(normalized) && Decodes(Quintets(normalized), bytes)
      case Err(c) => FirstForeign(normalized, c)
  {
    var bits: nat := 0;
    var value := 0;
    var bytes: seq<Byte> := [];
    ghost var qs: seq<Quintet> := [];
    for i := 0 to |normalized|
      invariant InAlphabet(normalized[..i]) && qs == Quintets(normalized[..i])
      invariant bits == 5 * i - 8 * |bytes| && bits <= 7
      invariant Reads(QuintetBits(qs), ByteBits(bytes), value, bits)
    {
      var idx := IndexOf(normalized[i]);
      if idx < 0 {
        return Err(normalized[i]);
      }
      NextQuintet(normalized, i);
      AppendQuintet(qs, idx);
      ShiftInReads(QuintetBits(qs), ByteBits(bytes), value, bits, idx);
      qs := qs + [idx];
      value := ShiftIn(value, idx);
      bits := bits + 5;
      if bits >= 8 {
        AppendByte(bytes, LowByte(value, bits - 8));
        PushReads(QuintetBits(qs), ByteBits(bytes), value, bits);
        bytes := bytes + [LowByte(value, bits - 8)];
        bits := bits - 8;
      }
    }
    assert normalized[..|normalized|] == normalized;
    WholeBytes(qs, bytes, value, bits);
    return Ok(bytes);
  }

  /** The decoder: the bytes of the standard's bit string, or the first character outside the alphabet. */
  method Base32ToBuffer(base32: string, upper: Casing) returns (r: Result<seq<Byte>, char>)
    ensures match r
      case Ok(bytes) => InAlphabet(Normalize(base32, upper)) && Decodes(Quintets(Normalize(base32, upper)), bytes)
      case Err(c) => FirstForeign(Normalize(base32, upper), c)
  {
    r := DecodeNormalized(Normalize(base32, upper));
  }

  lemma BytesAreTheirBits(a: seq<Byte>, b: seq<Byte>)
    requires ByteBits(a) == ByteBits(b)
    ensures a == b
  {
    assert 8 * |a| == 8 * |b|;
    forall j | 0 <= j < |a|
      ensures a[j] == b[j]
    {
      forall k | 0 <= k < 8
        ensures Bit(a[j], k) == Bit(b[j], k)
      {
        var i := 8 * j + 7 - k;
        assert i / 8 == j && i % 8 == 7 - k;
        assert ByteBits(a)[i] == ByteBits(b)[i];
      }
      Powers();
      BitsDetermine(a[j], b[j], 8);
    }
  }

  /** The standard fixes the bytes: two decodings of the same text are equal. */
  lemma DecodingIsUnique(qs: seq<Quintet>, a: seq<Byte>, b: seq<Byte>)
    requires Decodes(qs, a) && Decodes(qs, b)
    ensures a == b
  {
    BytesAreTheirBits(a, b);
  }

  // ---------------------------------------------------------------- encoding

  /** The number with one more bit below. */
  function Append(n: nat, bit: bool): nat {
    2 * n + (if bit then 1 else 0)
  }

  /** Five bits, most significant first, as a number. */
  function FromBits(a: bool, b: bool, c: bool, d: bool, e: bool): Quintet {
    Append(Append(Append(Append(Append(0, a), b), c), d), e)
  }

  /** Bit i of the string, filled up with zero bits. */
  predicate Filled(bits: seq<bool>, i: nat) {
    i < |bits| && bits[i]
  }

  function QuintetAt(bits: seq<bool>, j: nat): Quintet {
    FromBits(Filled(bits, 5 * j), Filled(bits, 5 * j + 1), Filled(bits, 5 * j + 2), Filled(bits, 5 * j + 3),
             Filled(bits, 5 * j + 4))
  }

  /** The bit string cut into quintets. */
  function CutQuintets(bits: seq<bool>): (qs: seq<Quintet>)
    ensures |qs| == (|bits| + 4) / 5
  {
    seq((|bits| + 4) / 5, j requires 0 <= j < (|bits| + 4) / 5 => QuintetAt(bits, j))
  }

  /** The characters of the quintets. */
  function Text(qs: seq<Quintet>): (s: string)
    ensures |s| == |qs|
  {
    seq(|qs|, i requires 0 <= i < |qs| => CharOf(qs[i]))
  }

  /** Padded with '=' to a multiple of eight characters. */
  function Padded(text: string): string {
    text + seq((8 - |text| % 8) % 8, i => '=')
  }

  /** Section 6 of RFC 4648. */
  function Encode(bytes: seq<Byte>): string {
    Padded(Text(CutQuintets(ByteBits(bytes))))
  }

  lemma AppendBit(n: nat, bit: bool, k: nat)
    ensures Bit(Append(n, bit), k) == if k == 0 then bit else Bit(n, k - 1)
  {
  }

  lemma FromBitsBit(a: bool, b: bool, c: bool, d: bool, e: bool, k: nat)
    requires k < 5
    ensures Bit(FromBits(a, b, c, d, e), 4 - k) == [a, b, c, d, e][k]
  {
    var n1 := Append(0, a);
    var n2 := Append(n1, b);
    var n3 := Append(n2, c);
    var n4 := Append(n3, d);
    AppendBit(n4, e, 4 - k);
    if k < 4 {
      AppendBit(n3, d, 3 - k);
    }
    if k < 3 {
      AppendBit(n2, c, 2 - k);
    }
    if k < 2 {
      AppendBit(n1, b, 1 - k);
    }
    if k < 1 {
      AppendBit(0, a, 0);
    }
  }

  lemma QuintetAtBit(bits: seq<bool>, j: nat, k: nat)
    requires k < 5
    ensures Bit(QuintetAt(bits, j), 4 - k) == Filled(bits, 5 * j + k)
  {
    FromBitsBit(Filled(bits, 5 * j), Filled(bits, 5 * j + 1), Filled(bits, 5 * j + 2), Filled(bits, 5 * j + 3),
                Filled(bits, 5 * j + 4), k);
  }

  lemma CutKeepsBits(bits: seq<bool>)
    ensures QuintetBits(CutQuintets(bits))[..|bits|] == bits
  {
    var all := QuintetBits(CutQuintets(bits));
    forall i | 0 <= i < |bits|
      ensures all[i] == bits[i]
    {
      QuintetAtBit(bits, i / 5, i % 5);
    }
  }

  lemma {:induction false} StripPad(s: string, n: nat)
    requires s == "" || s[|s| - 1] != '='
    ensures StripPadding(s + seq(n, i => '=')) == s
  {
    var p := seq(n, i => '=');
    if n == 0 {
      assert s + p == s;
    } else {
      assert (s + p)[..|s + p| - 1] == s + seq(n - 1, i => '=');
      StripPad(s, n - 1);
    }
  }

  /** ASCII without lower-case letters. */
  predicate IsUpper(s: string) {
    forall i :: 0 <= i < |s| ==> s[i] as int < 128 && !('a' <= s[i] <= 'z')
  }

  lemma TextIsClean(qs: seq<Quintet>)
    ensures InAlphabet(Text(qs)) && Quintets(Text(qs)) == qs && IsUpper(Text(qs))
    ensures forall i :: 0 <= i < |qs| ==> Text(qs)[i] != '='
  {
  }

  lemma {:induction false} UpperIsKept(s: string, upper: Casing)
    requires IsUpper(s)
    ensures Upper(s, upper) == s
  {
    if s != "" {
      UpperIsKept(s[1..], upper);
      assert s == [s[0]] + s[1..];
    }
  }

  lemma PaddedIsUpper(text: string)
    requires IsUpper(text)
    ensures IsUpper(Padded(text))
  {
    assert forall i :: |text| <= i < |Padded(text)| ==> Padded(text)[i] == '=';
  }

  lemma NormalizePadded(qs: seq<Quintet>, upper: Casing)
    ensures Normalize(Padded(Text(qs)), upper) == Text(qs)
  {
    TextIsClean(qs);
    PaddedIsUpper(Text(qs));
    UpperIsKept(Padded(Text(qs)), upper);
    StripPad(Text(qs), (8 - |qs| % 8) % 8);
  }

  lemma CutDecodes(bytes: seq<Byte>, decoded: seq<Byte>)
    ensures Decodes(CutQuintets(ByteBits(bytes)), decoded) <==> decoded == bytes
  {
    CutKeepsBits(ByteBits(bytes));
    if Decodes(CutQuintets(ByteBits(bytes)), decoded) {
      BytesAreTheirBits(decoded, bytes);
    }
  }

  /** Decoding is a left inverse of encoding: an encoded buffer has no foreign character, and the only bytes it
      decodes to are its own. */
  lemma DecodeEncode(bytes: seq<Byte>, decoded: seq<Byte>, upper: Casing)
    ensures InAlphabet(Normalize(Encode(bytes), upper))
    ensures Decodes(Quintets(Normalize(Encode(bytes), upper)), decoded) <==> decoded == bytes
  {
    var qs := CutQuintets(ByteBits(bytes));
    NormalizePadded(qs, upper);
    TextIsClean(qs);
    CutDecodes(bytes, decoded);
  }
}
