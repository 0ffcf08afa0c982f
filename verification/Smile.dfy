/** The part of the Smile format that the payload uses: the encoder of spectator/smile.cc and a decoder.

    The decoder follows the FasterXML Smile Format Specification, section "Tokens: value mode"; it knows small
    integers, 32-bit integers, 64-bit floats and ASCII strings, and rejects everything else.
 */
module Smile {
  import opened Bytes

  /** A value of the stream.  A double is its 64-bit pattern, a string its bytes. */
  datatype Token = Int(n: int) | Double(bits: nat) | Str(s: seq<byte>)

  const SMALL_INT: byte := 0xC0
  const INT32: byte := 0x24
  const FLOAT64: byte := 0x29
  const EMPTY_STRING: byte := 0x20
  const SHORT_ASCII: byte := 0x40
  const LONG_ASCII: byte := 0xE0
  const END_OF_STRING: byte := 0xFC
  const START_ARRAY: byte := 0xF8
  const END_ARRAY: byte := 0xF9
  const HEADER: seq<byte> := [0x3A, 0x29, 0x0A, 0x00]

  // ---------- decoding ----------

  /** A variable-length integer: seven bits a byte, and six in the last one, which has its high bit set. */
  function ReadVInt(bytes: seq<byte>, acc: nat): (r: Option<(nat, seq<byte>)>)
    ensures r.Some? ==> |r.value.1| < |bytes|
  {
    if bytes == [] then None
    else if bytes[0] >= 0x80 then Some((acc * 64 + bytes[0] as int % 64, bytes[1..]))
    else ReadVInt(bytes[1..], acc * 128 + bytes[0] as int)
  }

  /** k digits of seven bits each, the most significant first. */
  function ReadDigits(bytes: seq<byte>, k: nat, acc: nat): (r: Option<(nat, seq<byte>)>)
    ensures r.Some? ==> |r.value.1| + k == |bytes|
    decreases k
  {
    if k == 0 then Some((acc, bytes))
    else if bytes == [] || bytes[0] >= 0x80 then None
    else ReadDigits(bytes[1..], k - 1, acc * 128 + bytes[0] as int)
  }

  ghost predicate IsAscii(s: seq<byte>) {
    forall i :: 0 <= i < |s| ==> s[i] < 0x80
  }

  /** k bytes of ASCII. */
  function ReadAscii(bytes: seq<byte>, k: nat): (r: Option<(seq<byte>, seq<byte>)>)
    ensures r.Some? ==> |r.value.1| + k == |bytes|
    decreases k
  {
    if k == 0 then Some(([], bytes))
    else if bytes == [] || bytes[0] >= 0x80 then None
    else match ReadAscii(bytes[1..], k - 1) {
      case None => None
      case Some((s, rest)) => Some(([bytes[0]] + s, rest))
    }
  }

  /** ASCII up to the end-of-string marker. */
  function ReadLongAscii(bytes: seq<byte>): (r: Option<(seq<byte>, seq<byte>)>)
    ensures r.Some? ==> |r.value.1| < |bytes|
  {
    if bytes == [] then None
    else if bytes[0] == END_OF_STRING then Some(([], bytes[1..]))
    else if bytes[0] >= 0x80 then None
    else match ReadLongAscii(bytes[1..]) {
      case None => None
      case Some((s, rest)) => Some(([bytes[0]] + s, rest))
    }
  }

  function UnZigZag(z: nat): int {
    if z % 2 == 0 then z / 2 else -(z / 2) - 1
  }

  /** The value at the front of the bytes, and what follows it. */
  function ReadToken(bytes: seq<byte>): (r: Option<(Token, seq<byte>)>)
    ensures r.Some? ==> |r.value.1| < |bytes|
  {
    if bytes == [] then None
    else
      var b, rest := bytes[0], bytes[1..];
      if SMALL_INT <= b < SMALL_INT + 0x20 then Some((Int(UnZigZag((b - SMALL_INT) as int)), rest))
      else if b == INT32 then
        match ReadVInt(rest, 0) {
          case None => None
          case Some((z, rest')) => if z < 0x1_0000_0000 then Some((Int(UnZigZag(z)), rest')) else None
        }
      else if b == FLOAT64 then
        match ReadDigits(rest, 10, 0) {
          case None => None
          case Some((bits, rest')) => Some((Double(bits), rest'))
        }
      else if b == EMPTY_STRING then Some((Str([]), rest))
      else if SHORT_ASCII <= b < SHORT_ASCII + 64 then
        match ReadAscii(rest, (b - SHORT_ASCII) as int + 1) {
          case None => None
          case Some((s, rest')) => Some((Str(s), rest'))
        }
      else if b == LONG_ASCII then
        match ReadLongAscii(rest) {
          case None => None
          case Some((s, rest')) => Some((Str(s), rest'))
        }
      else None
  }

  /** The values up to the end of the array, which must be the end of the bytes. */
  function ReadTokens(bytes: seq<byte>): Option<seq<Token>>
    decreases |bytes|
  {
    if bytes == [END_ARRAY] then Some([])
    else match ReadToken(bytes) {
      case None => None
      case Some((t, rest)) =>
        match ReadTokens(rest) {
          case None => None
          case Some(ts) => Some([t] + ts)
        }
    }
  }

  /** A document that holds one array of plain values. */
  function ReadDocument(bytes: seq<byte>): Option<seq<Token>> {
    if HEADER + [START_ARRAY] <= bytes then ReadTokens(bytes[|HEADER| + 1..]) else None
  }

  // ---------- what the encoder writes ----------

  /** `n << 1` on 64 bits. */
  function ZigZag(n: nat): nat {
    2 * n % 0x1_0000_0000_0000_0000
  }

  function HighBytes(h: nat): seq<byte> {
    if h == 0 then [] else HighBytes(h / 128) + [(h % 128) as byte]
  }

  function VInt(z: nat): seq<byte> {
    HighBytes(z / 64) + [0x80 + (z % 64) as byte]
  }

  function Digits(x: nat, k: nat): seq<byte> {
    if k == 0 then [] else Digits(x / 128, k - 1) + [(x % 128) as byte]
  }

  /** The type byte in front of a variable-length integer: from 2^20 to 2^27 the encoder writes 0x00. */
  function IntPrefix(z: nat): byte {
    if 0x10_0000 <= z < 0x800_0000 then 0x00 else INT32
  }

  function IntBytes(n: nat): seq<byte> {
    var z := ZigZag(n);
    if z <= 0x1F then [SMALL_INT + z as byte]
    else if z < 0x4_0000_0000 then [IntPrefix(z)] + VInt(z)
    else [INT32, (z / 0x800_0000 % 256) as byte] + Digits(z / 64, 3) + [0x80 + (z % 64) as byte]
  }

  function StringBytes(s: seq<byte>): seq<byte> {
    if s == [] then [EMPTY_STRING]
    else if |s| <= 64 then [SHORT_ASCII + (|s| - 1) as byte] + s
    else [LONG_ASCII] + s + [END_OF_STRING]
  }

  /** What the code can be asked to write: a size_t, a double, a string of ASCII bytes. */
  ghost predicate Writable(t: Token) {
    match t
    case Int(n) => 0 <= n < 0x1_0000_0000_0000_0000
    case Double(bits) => bits < 0x1_0000_0000_0000_0000
    case Str(s) => IsAscii(s)
  }

  function TokenBytes(t: Token): seq<byte>
    requires Writable(t)
  {
    match t
    case Int(n) => IntBytes(n)
    case Double(bits) => [FLOAT64] + Digits(bits, 10)
    case Str(s) => StringBytes(s)
  }

  ghost predicate AllWritable(ts: seq<Token>) {
    forall i :: 0 <= i < |ts| ==> Writable(ts[i])
  }

  function Flatten(parts: seq<seq<byte>>): seq<byte> {
    if parts == [] then [] else parts[0] + Flatten(parts[1..])
  }

  function Parts(ts: seq<Token>): seq<seq<byte>>
    requires AllWritable(ts)
  {
    seq(|ts|, i requires 0 <= i < |ts| => TokenBytes(ts[i]))
  }

  function Encode(ts: seq<Token>): seq<byte>
    requires AllWritable(ts)
  {
    Flatten(Parts(ts))
  }

  lemma {:induction false} FlattenAppend(ps: seq<seq<byte>>, qs: seq<seq<byte>>)
    ensures Flatten(ps + qs) == Flatten(ps) + Flatten(qs)
  {
    if ps == [] {
      assert ps + qs == qs;
    } else {
      FlattenAppend(ps[1..], qs);
      assert (ps + qs)[1..] == ps[1..] + qs;
    }
  }

  lemma PartsAppend(ts: seq<Token>, us: seq<Token>)
    requires AllWritable(ts) && AllWritable(us)
    ensures AllWritable(ts + us) && Parts(ts + us) == Parts(ts) + Parts(us)
  {
    assert forall i :: 0 <= i < |ts| ==> (ts + us)[i] == ts[i];
    assert forall i :: |ts| <= i < |ts + us| ==> (ts + us)[i] == us[i - |ts|];
  }

  lemma EncodeAppend(ts: seq<Token>, us: seq<Token>)
    requires AllWritable(ts) && AllWritable(us)
    ensures AllWritable(ts + us) && Encode(ts + us) == Encode(ts) + Encode(us)
  {
    PartsAppend(ts, us);
    FlattenAppend(Parts(ts), Parts(us));
  }

  lemma EncodeOne(t: Token)
    requires Writable(t)
    ensures AllWritable([t]) && Encode([t]) == TokenBytes(t)
  {
    assert Parts([t]) == [TokenBytes(t)];
    assert Flatten([TokenBytes(t)]) == TokenBytes(t) + Flatten([]);
  }

  // ---------- one token ----------

  lemma {:induction false} ReadHighBytes(h: nat, tail: seq<byte>)
    ensures ReadVInt(HighBytes(h) + tail, 0) == ReadVInt(tail, h)
  {
    if h == 0 {
      assert HighBytes(h) + tail == tail;
    } else {
      var d := (h % 128) as byte;
      ReadHighBytes(h / 128, [d] + tail);
      assert HighBytes(h) + tail == HighBytes(h / 128) + ([d] + tail);
      assert ([d] + tail)[1..] == tail;
    }
  }

  lemma ReadVIntBack(z: nat, rest: seq<byte>)
    ensures ReadVInt(VInt(z) + rest, 0) == Some((z, rest))
  {
    var last := 0x80 + (z % 64) as byte;
    ReadHighBytes(z / 64, [last] + rest);
    assert VInt(z) + rest == HighBytes(z / 64) + ([last] + rest);
    assert ([last] + rest)[1..] == rest;
  }

  function Power128(k: nat): nat {
    if k == 0 then 1 else 128 * Power128(k - 1)
  }

  lemma {:induction false} ReadDigitsBack(x: nat, k: nat, j: nat, tail: seq<byte>)
    requires x < Power128(k)
    ensures ReadDigits(Digits(x, k) + tail, k + j, 0) == ReadDigits(tail, j, x)
  {
    if k == 0 {
      assert Digits(x, k) + tail == tail;
    } else {
      var d := (x % 128) as byte;
      ReadDigitsBack(x / 128, k - 1, j + 1, [d] + tail);
      assert Digits(x, k) + tail == Digits(x / 128, k - 1) + ([d] + tail);
      assert ([d] + tail)[1..] == tail;
    }
  }

  lemma {:induction false} ReadAsciiBack(s: seq<byte>, rest: seq<byte>)
    requires IsAscii(s)
    ensures ReadAscii(s + rest, |s|) == Some((s, rest))
  {
    if s == [] {
      assert s + rest == rest;
    } else {
      ReadAsciiBack(s[1..], rest);
      assert (s + rest)[1..] == s[1..] + rest;
      assert [s[0]] + s[1..] == s;
    }
  }

  lemma {:induction false} ReadLongAsciiBack(s: seq<byte>, rest: seq<byte>)
    requires IsAscii(s)
    ensures ReadLongAscii(s + [END_OF_STRING] + rest) == Some((s, rest))
  {
    var bytes := s + [END_OF_STRING] + rest;
    if s == [] {
      assert bytes[1..] == rest;
    } else {
      ReadLongAsciiBack(s[1..], rest);
      assert bytes[1..] == s[1..] + [END_OF_STRING] + rest;
      assert [s[0]] + s[1..] == s;
    }
  }

  /** The integers the encoder gets right. */
  predicate Encodable(n: nat) {
    n < 0x8_0000 || 0x400_0000 <= n < 0x8000_0000
  }

  /** Integers come back exactly when they are below 2^19, or from 2^26 up to 2^31. */
  lemma IntRoundTripExactly(n: nat, rest: seq<byte>)
    requires n < 0x1_0000_0000_0000_0000
    ensures ReadToken(IntBytes(n) + rest) == Some((Int(n), rest)) <==> Encodable(n)
  {
    if Encodable(n) {
      EncodableReadsBack(n, rest);
    } else {
      UnencodableIsLost(n, rest);
    }
  }

  lemma EncodableReadsBack(n: nat, rest: seq<byte>)
    requires Encodable(n)
    ensures ReadToken(IntBytes(n) + rest) == Some((Int(n), rest))
  {
    assert 2 * n == ZigZag(n) && UnZigZag(2 * n) == n;
    if 2 * n <= 0x1F {
      ReadTinyToken(2 * n, rest);
    } else {
      assert IntBytes(n) == [INT32] + VInt(2 * n);
      ReadIntToken(2 * n, rest);
    }
  }

  lemma ReadTinyToken(z: nat, rest: seq<byte>)
    requires z <= 0x1F
    ensures ReadToken([SMALL_INT + z as byte] + rest) == Some((Int(UnZigZag(z)), rest))
  {
    assert ([SMALL_INT + z as byte] + rest)[1..] == rest;
  }

  lemma ReadIntToken(z: nat, rest: seq<byte>)
    requires z < 0x1_0000_0000
    ensures ReadToken([INT32] + VInt(z) + rest) == Some((Int(UnZigZag(z)), rest))
  {
    var bytes := [INT32] + VInt(z) + rest;
    assert bytes[0] == INT32 && bytes[1..] == VInt(z) + rest;
    ReadVIntBack(z, rest);
  }

  /** A decoded integer is a 32-bit one, whatever the bytes are. */
  lemma DecodedIntsAreSmall(bytes: seq<byte>)
    ensures var r := ReadToken(bytes); r.Some? && r.value.0.Int? ==> -0x8000_0000 <= r.value.0.n < 0x8000_0000
  {
  }

  /** The integers whose bytes are no token: those with the type byte 0x00, and those whose 34 bits are above 2^31.
      The doubling loses the top bit, and the first of five bytes loses what is above its eight bits. */
  predicate Rejected(n: nat) {
    0x8_0000 <= n % 0x8000_0000_0000_0000 < 0x400_0000 || 0x8000_0000 <= n % 0x4_0000_0000 < 0x2_0000_0000
  }

  /** An integer that is not encodable never comes back as itself: it is rejected or read as some other integer. */
  lemma UnencodableIsLost(n: nat, rest: seq<byte>)
    requires n < 0x1_0000_0000_0000_0000 && !Encodable(n)
    ensures var r := ReadToken(IntBytes(n) + rest);
      if Rejected(n) then r.None? else r.Some? && r.value.0.Int? && r.value.0 != Int(n)
  {
    DecodedIntsAreSmall(IntBytes(n) + rest);
    RejectedByDouble(n);
    SmallUnencodable(n);
    if ZigZag(n) < 0x4_0000_0000 {
      ReadShorter(n, rest);
    } else {
      ReadFiveBytes(n, rest);
    }
  }

  lemma SmallUnencodable(n: nat)
    ensures n < 0x8000_0000 && !Encodable(n) ==> Rejected(n)
  {
  }

  /** In particular it is only read as another integer from 2^31 on. */
  lemma LostOrLarge(n: nat, rest: seq<byte>)
    requires n < 0x1_0000_0000_0000_0000 && !Encodable(n)
    ensures var r := ReadToken(IntBytes(n) + rest); r.None? || (r.value.0 != Int(n) && n >= 0x8000_0000)
  {
    UnencodableIsLost(n, rest);
    SmallUnencodable(n);
  }

  ghost predicate RejectedDouble(z: nat) {
    0x10_0000 <= z < 0x800_0000 || 0x1_0000_0000 <= z % 0x8_0000_0000 < 0x4_0000_0000
  }

  lemma RejectedByDouble(n: nat)
    requires n < 0x1_0000_0000_0000_0000
    ensures Rejected(n) <==> RejectedDouble(ZigZag(n))
  {
    var m := n % 0x8000_0000_0000_0000;
    TopBitLost(n, m);
    DoubleModulo(m);
  }

  lemma TopBitLost(n: nat, m: nat)
    requires n < 0x1_0000_0000_0000_0000 && m == n % 0x8000_0000_0000_0000
    ensures ZigZag(n) == 2 * m && n % 0x4_0000_0000 == m % 0x4_0000_0000
  {
  }

  lemma DoubleModulo(m: nat)
    ensures 2 * m % 0x8_0000_0000 == 2 * (m % 0x4_0000_0000)
  {
  }

  /** The forms of up to 34 bits. */
  lemma ReadShorter(n: nat, rest: seq<byte>)
    requires ZigZag(n) < 0x4_0000_0000
    ensures var r := ReadToken(IntBytes(n) + rest);
      if RejectedDouble(ZigZag(n)) then r.None? else r.Some? && r.value.0.Int?
  {
    var z := ZigZag(n);
    if z <= 0x1F {
      assert (IntBytes(n) + rest)[0] == SMALL_INT + z as byte;
    } else {
      ReadPrefixed(z, rest);
      assert IntBytes(n) == [IntPrefix(z)] + VInt(z);
    }
  }

  lemma ReadPrefixed(z: nat, rest: seq<byte>)
    requires z < 0x4_0000_0000
    ensures var r := ReadToken([IntPrefix(z)] + VInt(z) + rest);
      if RejectedDouble(z) then r.None? else r.Some? && r.value.0.Int?
  {
    var bytes := [IntPrefix(z)] + VInt(z) + rest;
    assert bytes[0] == IntPrefix(z) && bytes[1..] == VInt(z) + rest;
    ReadVIntBack(z, rest);
  }

  /** The five-byte form: a first byte from 0x80 on is read as the last one. */
  lemma ReadFiveBytes(n: nat, rest: seq<byte>)
    requires ZigZag(n) >= 0x4_0000_0000
    ensures var r := ReadToken(IntBytes(n) + rest);
      if RejectedDouble(ZigZag(n)) then r.None? else r.Some? && r.value.0.Int?
  {
    var z := ZigZag(n);
    var h := z / 64;
    var top, last := (z / 0x800_0000 % 256) as byte, 0x80 + (z % 64) as byte;
    var d2, d1, d0 := (h / 128 / 128 % 128) as byte, (h / 128 % 128) as byte, (h % 128) as byte;
    ThreeDigits(h);
    assert IntBytes(n) == [INT32, top, d2, d1, d0, last];
    ReadTokenOfFive(top, d2, d1, d0, last, rest);
    if top < 0x80 {
      FiveBytesValue(z);
    } else {
      FirstByteHigh(z);
    }
  }

  lemma ReadTokenOfFive(b4: byte, b3: byte, b2: byte, b1: byte, b0: byte, rest: seq<byte>)
    requires b3 < 0x80 && b2 < 0x80 && b1 < 0x80 <= b0
    ensures var r := ReadToken([INT32, b4, b3, b2, b1, b0] + rest);
            var v := (((b4 as int * 128 + b3 as int) * 128 + b2 as int) * 128 + b1 as int) * 64 + b0 as int % 64;
      if b4 < 0x80 && v >= 0x1_0000_0000 then r.None? else r.Some? && r.value.0.Int?
  {
    var bytes := [INT32, b4, b3, b2, b1, b0] + rest;
    assert bytes[0] == INT32 && bytes[1..] == [b4, b3, b2, b1, b0] + rest;
    if b4 < 0x80 {
      ReadVIntOfFive(b4, b3, b2, b1, b0, rest);
    } else {
      assert bytes[1..][0] == b4;
    }
  }

  lemma ReadVIntOfFive(b4: byte, b3: byte, b2: byte, b1: byte, b0: byte, rest: seq<byte>)
    requires b4 < 0x80 && b3 < 0x80 && b2 < 0x80 && b1 < 0x80 <= b0
    ensures ReadVInt([b4, b3, b2, b1, b0] + rest, 0)
         == Some(((((b4 as int * 128 + b3 as int) * 128 + b2 as int) * 128 + b1 as int) * 64 + b0 as int % 64, rest))
  {
    var a3, a2 := b4 as int * 128 + b3 as int, (b4 as int * 128 + b3 as int) * 128 + b2 as int;
    ReadOneDigit(b4, [b3, b2, b1, b0] + rest, 0);
    ReadOneDigit(b3, [b2, b1, b0] + rest, b4 as int);
    ReadOneDigit(b2, [b1, b0] + rest, a3);
    ReadOneDigit(b1, [b0] + rest, a2);
    assert [b4, b3, b2, b1, b0] + rest == [b4] + ([b3, b2, b1, b0] + rest);
    assert [b3, b2, b1, b0] + rest == [b3] + ([b2, b1, b0] + rest);
    assert [b2, b1, b0] + rest == [b2] + ([b1, b0] + rest);
    assert [b1, b0] + rest == [b1] + ([b0] + rest);
    assert ([b0] + rest)[1..] == rest;
  }

  lemma ReadOneDigit(b: byte, tail: seq<byte>, acc: nat)
    requires b < 0x80
    ensures ReadVInt([b] + tail, acc) == ReadVInt(tail, acc * 128 + b as int)
  {
    assert ([b] + tail)[1..] == tail;
  }

  lemma FiveBytesValue(z: nat)
    requires z / 0x800_0000 % 256 < 0x80
    ensures var h := z / 64;
      (((z / 0x800_0000 % 256 * 128 + h / 128 / 128 % 128) * 128 + h / 128 % 128) * 128 + h % 128) * 64 + z % 64
      == z % 0x8_0000_0000 < 0x4_0000_0000
  {
    var h, t := z / 64, z / 0x800_0000;
    assert h / 128 / 128 / 128 == t;
    assert t % 256 == t - 256 * (z / 0x8_0000_0000) by { assert t / 256 == z / 0x8_0000_0000; }
  }

  lemma FirstByteHigh(z: nat)
    requires z / 0x800_0000 % 256 >= 0x80
    ensures z % 0x8_0000_0000 >= 0x4_0000_0000
  {
    assert z / 0x800_0000 / 256 == z / 0x8_0000_0000;
  }

  lemma DoubleRoundTrip(bits: nat, rest: seq<byte>)
    requires bits < 0x1_0000_0000_0000_0000
    ensures ReadToken([FLOAT64] + Digits(bits, 10) + rest) == Some((Double(bits), rest))
  {
    var bytes := [FLOAT64] + Digits(bits, 10) + rest;
    assert bytes[1..] == Digits(bits, 10) + rest;
    assert Power128(5) == 0x8_0000_0000 && Power128(10) == 0x40_0000_0000_0000_0000;
    ReadDigitsBack(bits, 10, 0, rest);
  }

  lemma StringRoundTrip(s: seq<byte>, rest: seq<byte>)
    requires IsAscii(s)
    ensures ReadToken(StringBytes(s) + rest) == Some((Str(s), rest))
  {
    var bytes := StringBytes(s) + rest;
    if s == [] {
      assert bytes[1..] == rest;
    } else if |s| <= 64 {
      assert bytes[1..] == s + rest;
      ReadAsciiBack(s, rest);
    } else {
      assert bytes[1..] == s + [END_OF_STRING] + rest;
      ReadLongAsciiBack(s, rest);
    }
  }

  // ---------- the stream ----------

  predicate TokenEncodable(t: Token) {
    t.Int? ==> t.n >= 0 && Encodable(t.n)
  }

  /** Every token comes back, and leaves the rest alone, exactly when it is encodable. */
  lemma TokenRoundTripExactly(t: Token, rest: seq<byte>)
    requires Writable(t)
    ensures ReadToken(TokenBytes(t) + rest) == Some((t, rest)) <==> TokenEncodable(t)
  {
    match t
    case Int(n) => IntRoundTripExactly(n, rest);
    case Double(bits) => DoubleRoundTrip(bits, rest);
    case Str(s) => StringRoundTrip(s, rest);
  }

  lemma FirstByte(t: Token)
    requires Writable(t)
    ensures |TokenBytes(t)| > 0 && TokenBytes(t)[0] != END_ARRAY
  {
    match t
    case Int(n) =>
    case Double(bits) =>
    case Str(s) =>
  }

  ghost predicate AllEncodable(ts: seq<Token>) {
    forall i :: 0 <= i < |ts| ==> TokenEncodable(ts[i])
  }

  ghost predicate SmallInts(ts: seq<Token>) {
    forall i :: 0 <= i < |ts| && ts[i].Int? ==> 0 <= ts[i].n < 0x8000_0000
  }

  /** A token stream is uniquely decodable, and decodes to itself, exactly when each of its integers is
      encodable; with 32-bit integers the only other outcome is that the reader rejects it. */
  lemma {:induction false} StreamRoundTripExactly(ts: seq<Token>)
    requires AllWritable(ts)
    ensures ReadTokens(Encode(ts) + [END_ARRAY]) == Some(ts) <==> AllEncodable(ts)
    ensures !AllEncodable(ts) && SmallInts(ts) ==> ReadTokens(Encode(ts) + [END_ARRAY]) == None
  {
    if ts == [] {
      assert Encode(ts) + [END_ARRAY] == [END_ARRAY];
    } else {
      var rest := Encode(ts[1..]) + [END_ARRAY];
      var bytes := Encode(ts) + [END_ARRAY];
      EncodeOne(ts[0]);
      EncodeAppend([ts[0]], ts[1..]);
      assert [ts[0]] + ts[1..] == ts;
      assert bytes == TokenBytes(ts[0]) + rest;
      FirstByte(ts[0]);
      assert bytes != [END_ARRAY];
      TokenRoundTripExactly(ts[0], rest);
      StreamRoundTripExactly(ts[1..]);
      assert AllEncodable(ts) <==> TokenEncodable(ts[0]) && AllEncodable(ts[1..]);
      if TokenEncodable(ts[0]) {
        if ReadTokens(rest).Some? {
          assert ([ts[0]] + ReadTokens(rest).value)[1..] == ReadTokens(rest).value;
        }
      } else {
        LostOrLarge(ts[0].n, rest);
        if ReadTokens(bytes).Some? {
          assert ReadTokens(bytes).value[0] != ts[0];
        }
      }
    }
  }

  // ---------- the encoder ----------

  lemma HighBytesShape(h: nat)
    ensures h == 0 ==> HighBytes(h) == []
    ensures 0 < h < 128 ==> HighBytes(h) == [h as byte]
    ensures 128 <= h ==> HighBytes(h) == HighBytes(h / 128) + [(h % 128) as byte]
  {
  }

  lemma TinyBytes(n: nat)
    requires ZigZag(n) <= 0x1F
    ensures IntBytes(n) == [0xC0 + ZigZag(n) as byte]
  {
  }

  /** The bytes of an integer that is not tiny, one line for each branch of the encoder. */
  lemma IntBytesShape(n: nat)
    ensures var z := ZigZag(n);
            var last, h := 0x80 + (z % 64) as byte, z / 64;
            var h1, h2 := h / 128, h / 128 / 128;
            && (0x1F < z <= 0x3F ==> IntBytes(n) == [0x24, last])
            && (0x3F < z && h <= 0x7F ==> IntBytes(n) == [0x24, h as byte, last])
            && (0x7F < h && h1 <= 0x7F ==> IntBytes(n) == [0x24, h1 as byte, (h % 128) as byte, last])
            && (0x7F < h1 && h2 <= 0x7F ==>
                  IntBytes(n) == [0x00, h2 as byte, (h1 % 128) as byte, (h % 128) as byte, last])
            && (0x7F < h2 ==>
                  IntBytes(n) == [0x24, (h2 / 128 % 256) as byte, (h2 % 128) as byte, (h1 % 128) as byte,
                                  (h % 128) as byte, last])
  {
    var z := ZigZag(n);
    var h := z / 64;
    HighBytesShape(h);
    HighBytesShape(h / 128);
    HighBytesShape(h / 128 / 128);
    HighBytesShape(h / 128 / 128 / 128);
    ThreeDigits(h);
    assert z / 0x800_0000 == h / 128 / 128 / 128;
  }

  /** The bytes of a string and the frame of the document. */
  lemma StringBytesShape(s: seq<byte>)
    ensures s == [] ==> StringBytes(s) == [0x20]
    ensures 1 <= |s| <= 64 ==> StringBytes(s) == [(0x3F + |s|) as byte] + s
    ensures |s| > 64 ==> StringBytes(s) == [0xE0] + s + [0xFC]
    ensures HEADER + [START_ARRAY] == [':' as byte, ')' as byte, '\n' as byte, 0, 0xF8] && END_ARRAY == 0xF9
  {
  }

  lemma DoubleType(bits: nat)
    requires bits < 0x1_0000_0000_0000_0000
    ensures |TokenBytes(Double(bits))| > 0 && TokenBytes(Double(bits))[0] == 0x29
  {
  }

  lemma ThreeDigits(x: nat)
    ensures Digits(x, 3) == [(x / 128 / 128 % 128) as byte, (x / 128 % 128) as byte, (x % 128) as byte]
  {
    assert Digits(x / 128 / 128, 1) == [(x / 128 / 128 % 128) as byte];
    assert Digits(x / 128, 2) == [(x / 128 / 128 % 128) as byte, (x / 128 % 128) as byte];
  }

  lemma FourDigits(x: nat)
    ensures Digits(x, 4) == [(x / 128 / 128 / 128 % 128) as byte] + Digits(x, 3)
  {
    ThreeDigits(x);
    ThreeDigits(x / 128);
  }

  lemma FiveDigits(x: nat)
    ensures Digits(x, 5) == Digits(x / 128 / 128, 3) + [(x / 128 % 128) as byte, (x % 128) as byte]
  {
    assert Digits(x, 5) == Digits(x / 128, 4) + [(x % 128) as byte];
    assert Digits(x / 128, 4) == Digits(x / 128 / 128, 3) + [(x / 128 % 128) as byte];
  }

  /** The split of a 64-bit word at bit 35, with the byte that crosses the two 32-bit halves. */
  lemma TenDigits(x: nat)
    ensures Digits(x, 10)
         == Digits(x / 0x8_0000_0000, 5) + [(x / 0x1000_0000 % 128) as byte] + Digits(x % 0x1_0000_0000, 4)
  {
    var x1 := x / 128;
    var x2 := x1 / 128;
    var x3 := x2 / 128;
    var x4 := x3 / 128;
    assert x4 == x / 0x1000_0000 && x4 / 128 == x / 0x8_0000_0000;
    assert Digits(x4, 6) == Digits(x4 / 128, 5) + [(x4 % 128) as byte];
    assert Digits(x3, 7) == Digits(x4, 6) + [(x3 % 128) as byte];
    assert Digits(x2, 8) == Digits(x3, 7) + [(x2 % 128) as byte];
    assert Digits(x1, 9) == Digits(x2, 8) + [(x1 % 128) as byte];
    LowDigits(x);
  }

  lemma SameDigit(a: nat, b: nat, t: nat)
    requires a == 128 * t + b
    ensures a / 128 == t + b / 128 && a % 128 == b % 128
  {
  }

  lemma LowDigits(x: nat)
    ensures var x1, x2, x3 := x / 128, x / 128 / 128, x / 128 / 128 / 128;
            Digits(x % 0x1_0000_0000, 4)
            == [(x3 % 128) as byte, (x2 % 128) as byte, (x1 % 128) as byte, (x % 128) as byte]
  {
    var q, y := x / 0x1_0000_0000, x % 0x1_0000_0000;
    FourDigits(y);
    ThreeDigits(y);
    SameDigit(x, y, 0x200_0000 * q);
    SameDigit(x / 128, y / 128, 0x4_0000 * q);
    SameDigit(x / 128 / 128, y / 128 / 128, 0x800 * q);
    SameDigit(x / 128 / 128 / 128, y / 128 / 128 / 128, 0x10 * q);
  }

  /** The three parts of a double's bits that the encoder takes apart: shifts, each cast to 32 bits. */
  function HighPart(bits: nat): nat { bits / 0x8_0000_0000 % 0x1_0000_0000 }
  function MiddlePart(bits: nat): nat { bits / 0x1000_0000 % 0x1_0000_0000 }
  function LowPart(bits: nat): nat { bits % 0x1_0000_0000 }

  lemma PartsOfBits(bits: nat)
    requires bits < 0x1_0000_0000_0000_0000
    ensures HighPart(bits) == bits / 0x8_0000_0000 && HighPart(bits) < 0x2000_0000
    ensures MiddlePart(bits) % 128 == bits / 0x1000_0000 % 128
  {
    var m := bits / 0x1000_0000;
    SameDigit(m, m % 0x1_0000_0000, 0x200_0000 * (m / 0x1_0000_0000));
  }

  /** The ten bytes of a double in the terms the encoder computes them in. */
  lemma DoubleShape(bits: nat)
    requires bits < 0x1_0000_0000_0000_0000
    ensures Digits(bits, 10) == HighShape(HighPart(bits)) + [(MiddlePart(bits) % 128) as byte] + LowShape(LowPart(bits))
  {
    PartsOfBits(bits);
    TenDigits(bits);
    HighDigits(HighPart(bits));
    FourDigits(LowPart(bits));
    ThreeDigits(LowPart(bits));
  }

  function HighShape(h: nat): seq<byte> {
    [(h / 128 / 128 / 128 / 128 % 256) as byte, (h / 128 / 128 / 128 % 128) as byte, (h / 128 / 128 % 128) as byte,
     (h / 128 % 128) as byte, (h % 128) as byte]
  }

  function LowShape(l: nat): seq<byte> {
    [(l / 128 / 128 / 128 % 128) as byte, (l / 128 / 128 % 128) as byte, (l / 128 % 128) as byte, (l % 128) as byte]
  }

  lemma HighDigits(h: nat)
    requires h < 0x2000_0000
    ensures Digits(h, 5) == HighShape(h)
  {
    FiveDigits(h);
    ThreeDigits(h / 128 / 128);
    assert h / 128 / 128 / 128 / 128 < 2;
  }

  lemma EncodeNext(ts: seq<Token>, t: Token)
    requires AllWritable(ts) && Writable(t)
    ensures AllWritable(ts + [t]) && Encode(ts + [t]) == Encode(ts) + TokenBytes(t)
  {
    EncodeOne(t);
    EncodeAppend(ts, [t]);
  }

  lemma Join(a: seq<byte>, b: seq<byte>, c: seq<byte>, d: seq<byte>)
    ensures a + b + c + d == a + (b + c + d)
    ensures a + b + c == a + (b + c)
  {
  }

  class SmilePayload {
    var buffer: seq<byte>
    ghost var tokens: seq<Token>  // what has been appended since Init

    ghost predicate Valid()
      reads this
    {
      AllWritable(tokens) && buffer == HEADER + [START_ARRAY] + Encode(tokens)
    }

    constructor ()
      ensures buffer == []
    {
      buffer, tokens := [], [];
    }

    method Init()
      modifies this
      ensures Valid() && tokens == []
    {
      buffer, tokens := [], [];
      WriteHeader();
      WriteStartArray();
    }

    method WriteHeader()
      modifies this`buffer
      ensures buffer == old(buffer) + HEADER
    {
      buffer := buffer + [0x3A, 0x29, 0x0A, 0x00];
    }

    method WriteStartArray()
      modifies this`buffer
      ensures buffer == old(buffer) + [START_ARRAY]
    {
      buffer := buffer + [0xF8];
    }

    /** Result: closes the array. */
    method Result() returns (bytes: seq<byte>)
      requires Valid()
      modifies this`buffer
      ensures bytes == buffer == HEADER + [START_ARRAY] + Encode(tokens) + [END_ARRAY]
    {
      buffer := buffer + [0xF9];
      bytes := buffer;
    }

    /** The int overload, which asserts that its argument is not negative. */
    method AppendInt(n: int)
      requires Valid() && 0 <= n < 0x8000_0000
      modifies this
      ensures Valid() && tokens == old(tokens) + [Int(n)]
      ensures buffer == old(buffer) + TokenBytes(Int(n))
    {
      AppendSize(n);
    }

    /** The size_t overload: the five branches write the type byte and the variable-length integer. */
    method AppendSize(n: nat)
      requires Valid() && n < 0x1_0000_0000_0000_0000
      modifies this
      ensures Valid() && tokens == old(tokens) + [Int(n)]
      ensures buffer == old(buffer) + IntBytes(n)
    {
      EncodeNext(tokens, Int(n));
      tokens := tokens + [Int(n)];
      var i := ZigZag(n);
      IntBytesShape(n);
      if i <= 0x3F {
        if i <= 0x1F {
          buffer := buffer + [0xC0 + i as byte];
          return;
        }
        buffer := buffer + [0x24, 0x80 + i as byte];
        return;
      }
      var b0 := 0x80 + (i % 64) as byte;
      i := i / 64;
      if i <= 0x7F {
        buffer := buffer + [0x24, i as byte, b0];
        return;
      }
      var b1 := (i % 128) as byte;
      i := i / 128;
      if i <= 0x7F {
        buffer := buffer + [0x24, i as byte, b1, b0];
        return;
      }
      var b2 := (i % 128) as byte;
      i := i / 128;
      if i <= 0x7F {
        buffer := buffer + [0x00, i as byte, b2, b1, b0];
        return;
      }
      var b3 := (i % 128) as byte;
      buffer := buffer + [0x24, (i / 128 % 256) as byte, b3, b2, b1, b0];
    }

    /** Ten bytes of seven bits: the high 29 bits, the seven that cross the word boundary, the low 28. */
    method AppendDouble(bits: nat)
      requires Valid() && bits < 0x1_0000_0000_0000_0000
      modifies this
      ensures Valid() && tokens == old(tokens) + [Double(bits)]
      ensures buffer == old(buffer) + TokenBytes(Double(bits))
    {
      EncodeNext(tokens, Double(bits));
      tokens := tokens + [Double(bits)];
      DoubleShape(bits);
      buffer := buffer + [0x29];
      var hi5 := HighPart(bits);
      var b4 := (hi5 % 128) as byte;
      hi5 := hi5 / 128;
      var b3 := (hi5 % 128) as byte;
      hi5 := hi5 / 128;
      var b2 := (hi5 % 128) as byte;
      hi5 := hi5 / 128;
      var b1 := (hi5 % 128) as byte;
      hi5 := hi5 / 128;
      var b0 := (hi5 % 256) as byte;
      var high := [b0, b1, b2, b3, b4];
      buffer := buffer + high;
      var mid := MiddlePart(bits);
      buffer := buffer + [(mid % 128) as byte];
      var lo4 := LowPart(bits);
      b3 := (lo4 % 128) as byte;
      lo4 := lo4 / 128;
      b2 := (lo4 % 128) as byte;
      lo4 := lo4 / 128;
      b1 := (lo4 % 128) as byte;
      lo4 := lo4 / 128;
      b0 := (lo4 % 128) as byte;
      buffer := buffer + [b0, b1, b2, b3];
      assert high == HighShape(HighPart(bits)) && [b0, b1, b2, b3] == LowShape(LowPart(bits));
    }

    method AppendString(s: seq<byte>)
      requires Valid() && IsAscii(s)
      modifies this
      ensures Valid() && tokens == old(tokens) + [Str(s)]
      ensures buffer == old(buffer) + StringBytes(s)
    {
      ghost var before := buffer;
      EncodeNext(tokens, Str(s));
      tokens := tokens + [Str(s)];
      if s == [] {
        buffer := buffer + [0x20];
        return;
      }
      var len := |s|;
      if len <= 64 {
        buffer := buffer + [(0x40 - 1 + len) as byte];
        buffer := buffer + s;
        Join(before, [(0x40 - 1 + len) as byte], s, []);
      } else {
        buffer := buffer + [0xE0];
        buffer := buffer + s;
        buffer := buffer + [0xFC];
        Join(before, [0xE0], s, [0xFC]);
      }
    }
  }
}
