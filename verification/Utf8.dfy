/** The UTF-16 to UTF-8 conversion of `createString` and the UTF-8 to UTF-16 conversion of `__string`. */
module Utf8 {
  import opened Bytes
  import opened FlatBytes

  type CodeUnit = u: int | 0 <= u < 0x1_0000

  predicate IsHigh(u: int) { 0xD800 <= u < 0xDC00 }
  predicate IsLow(u: int) { 0xDC00 <= u < 0xE000 }

  /** A code point as the writer computes it; a high surrogate at the very end gives NaN. */
  datatype CodePoint = NaN | Code(value: int)

  function Surrogates(high: int, low: int): int { 0x1_0000 + (high - 0xD800) * 0x400 + (low - 0xDC00) }

  /** The payload bits of two, three and four octets. */
  function Payload2(a: int, b: int): int { a % 32 * 64 + b % 64 }
  function Payload3(a: int, b: int, c: int): int { a % 16 * 4096 + b % 64 * 64 + c % 64 }
  function Payload4(a: int, b: int, c: int, e: int): int { a % 8 * 262144 + b % 64 * 4096 + c % 64 * 64 + e % 64 }

  lemma Payload2Recombines(v: int)
    requires 0 <= v < 0x800
    ensures Payload2(0xC0 + v / 64 % 32, 0x80 + v % 64) == v
  {
  }

  lemma Payload3Recombines(v: int)
    requires 0 <= v < 0x1_0000
    ensures Payload3(0xE0 + v / 64 / 64 % 16, 0x80 + v / 64 % 64, 0x80 + v % 64) == v
  {
    var v1 := v / 64;
    var v2 := v1 / 64;
    assert v == 64 * v1 + v % 64 && v1 == 64 * v2 + v1 % 64 && v2 < 16;
    assert (0xE0 + v2 % 16) % 16 == v2 && (0x80 + v1 % 64) % 64 == v1 % 64 && (0x80 + v % 64) % 64 == v % 64;
  }

  lemma Payload4Recombines(v: int)
    requires 0 <= v < 0x20_0000
    ensures Payload4(0xF0 + v / 64 / 64 / 64 % 8, 0x80 + v / 64 / 64 % 64, 0x80 + v / 64 % 64, 0x80 + v % 64) == v
  {
    var v1 := v / 64;
    var v2 := v1 / 64;
    var v3 := v2 / 64;
    assert v == 64 * v1 + v % 64 && v1 == 64 * v2 + v1 % 64 && v2 == 64 * v3 + v2 % 64 && v3 < 8;
    assert (0xF0 + v3 % 8) % 8 == v3 && (0x80 + v2 % 64) % 64 == v2 % 64;
    assert (0x80 + v1 % 64) % 64 == v1 % 64 && (0x80 + v % 64) % 64 == v % 64;
  }

  lemma Recombines(v: int)
    ensures 0 <= v < 0x800 ==> Payload2(0xC0 + v / 64 % 32, 0x80 + v % 64) == v
    ensures 0 <= v < 0x1_0000 ==> Payload3(0xE0 + v / 64 / 64 % 16, 0x80 + v / 64 % 64, 0x80 + v % 64) == v
    ensures 0 <= v < 0x20_0000 ==> Payload4(0xF0 + v / 64 / 64 / 64 % 8, 0x80 + v / 64 / 64 % 64, 0x80 + v / 64 % 64,
                                   0x80 + v % 64) == v
  {
    hide Payload2, Payload3, Payload4;
    if 0 <= v < 0x800 {
      Payload2Recombines(v);
    }
    if 0 <= v < 0x1_0000 {
      Payload3Recombines(v);
    }
    if 0 <= v < 0x20_0000 {
      Payload4Recombines(v);
    }
  }

  /** How many code units the writer takes at the front of a string, and the code point it makes of them. */
  function Taken(s: seq<CodeUnit>): (n: nat)
    requires s != []
    ensures 1 <= n <= |s|
  {
    if IsHigh(s[0]) && |s| > 1 then 2 else 1
  }

  function TakenCode(s: seq<CodeUnit>): (c: CodePoint)
    requires s != []
    ensures c.Code? ==> 0 <= c.value < 0x11_2400
  {
    if !IsHigh(s[0]) then Code(s[0])
    else if |s| > 1 then Code(Surrogates(s[0], s[1]))
    else NaN
  }

  /** The bit operations on NaN yield zero, so NaN falls into the four-byte branch with all payload bits clear. */
  function EncodeCode(c: CodePoint): (bs: seq<byte>)
    requires c.Code? ==> 0 <= c.value < 0x20_0000
    ensures 1 <= |bs| <= 4
  {
    match c
    case NaN => [0xF0, 0x80, 0x80, 0x80]
    case Code(v) =>
      if v < 0x80 then [v]
      else if v < 0x800 then [0xC0 + v / 64 % 32, 0x80 + v % 64]
      else if v < 0x1_0000 then [0xE0 + v / 64 / 64 % 16, 0x80 + v / 64 % 64, 0x80 + v % 64]
      else [0xF0 + v / 64 / 64 / 64 % 8, 0x80 + v / 64 / 64 % 64, 0x80 + v / 64 % 64, 0x80 + v % 64]
  }

  function Encode(s: seq<CodeUnit>): seq<byte> {
    if s == [] then [] else EncodeCode(TakenCode(s)) + Encode(s[Taken(s)..])
  }

  /** The number of bytes the reader takes for one code point; it looks at the lead byte only. */
  function LeadLength(a: byte): nat {
    if a < 0xC0 then 1 else if a < 0xE0 then 2 else if a < 0xF0 then 3 else 4
  }

  /** A lead byte outside the buffer is `undefined`: every comparison with it fails, and its payload bits are zero. */
  function LeadAt(d: seq<byte>, p: int): byte {
    if 0 <= p < |d| then d[p] else 0xF0
  }

  function DecodeCode(d: seq<byte>, p: int): (v: int)
    ensures 0 <= v < 0x20_0000
  {
    var a, b, c, e := LeadAt(d, p), ByteAt(d, p + 1), ByteAt(d, p + 2), ByteAt(d, p + 3);
    if a < 0xC0 then a
    else if a < 0xE0 then Payload2(a, b)
    else if a < 0xF0 then Payload3(a, b, c)
    else Payload4(a, b, c, e)
  }

  /** What the reader makes of any bytes, well-formed or not: the prefix of the lead byte (110, 1110, or 1111; anything
      else is one byte as it is) fixes the number of bytes, and the rest of each byte goes into the code point. */
  lemma LeadPrefix(d: seq<byte>, p: nat)
    requires p + 3 < |d|
    ensures var a: int, b: int, c: int, e: int := d[p], d[p + 1], d[p + 2], d[p + 3];
            var n := if a / 32 == 6 then 2 else if a / 16 == 14 then 3 else if a / 16 == 15 then 4 else 1;
            && LeadLength(LeadAt(d, p)) == n
            && (n == 1 ==> DecodeCode(d, p) == a)
            && (n == 2 ==> DecodeCode(d, p) == a % 32 * 64 + b % 64)
            && (n == 3 ==> DecodeCode(d, p) == a % 16 * 4096 + b % 64 * 64 + c % 64)
            && (n == 4 ==> DecodeCode(d, p) == a % 8 * 262144 + b % 64 * 4096 + c % 64 * 64 + e % 64)
  {
  }

  /** The UTF-16 form of a decoded code point; `fromCharCode` keeps 16 bits of each argument. */
  function ToUnits(v: int): (u: seq<CodeUnit>)
    requires 0 <= v < 0x20_0000
    ensures 1 <= |u| <= 2
  {
    if v < 0x1_0000 then [v]
    else [((v - 0x1_0000) / 0x400 + 0xD800) % 0x1_0000, (v - 0x1_0000) % 0x400 + 0xDC00]
  }

  /** Decoding of the bytes from `p` up to `end`. */
  function Decode(d: seq<byte>, p: int, end: int): seq<CodeUnit>
    decreases end - p
  {
    if end <= p then [] else ToUnits(DecodeCode(d, p)) + Decode(d, p + LeadLength(LeadAt(d, p)), end)
  }

  /** Every high surrogate is followed by a low one; a lone low surrogate is allowed. */
  predicate Paired(s: seq<CodeUnit>) {
    s == [] || (if 0xD800 <= s[0] <= 0xDBFF then |s| > 1 && 0xDC00 <= s[1] <= 0xDFFF && Paired(s[2..])
                else Paired(s[1..]))
  }

  /** One code point survives encoding and decoding, wherever its bytes stand. */
  lemma DecodesCode(d: seq<byte>, p: nat, c: CodePoint)
    requires c.Code? ==> 0 <= c.value < 0x20_0000
    requires HoldsAt(d, p, EncodeCode(c))
    ensures LeadLength(LeadAt(d, p)) == |EncodeCode(c)|
    ensures DecodeCode(d, p) == if c.NaN? then 0 else c.value
  {
    hide Payload2, Payload3, Payload4;
    var bs := EncodeCode(c);
    var w := d[p..p + |bs|];
    assert LeadAt(d, p) == w[0] && (|bs| > 1 ==> ByteAt(d, p + 1) == w[1]);
    assert (|bs| > 2 ==> ByteAt(d, p + 2) == w[2]) && (|bs| > 3 ==> ByteAt(d, p + 3) == w[3]);
    Recombines(if c.NaN? then 0 else c.value);
  }

  /** What reading back what was written gives, step by step. */
  function Reread(s: seq<CodeUnit>): (r: seq<CodeUnit>)
    ensures |r| <= |s|
  {
    if s == [] then []
    else
      var c := TakenCode(s);
      ToUnits(if c.NaN? then 0 else c.value) + Reread(s[Taken(s)..])
  }

  lemma EncodeSplits(s: seq<CodeUnit>)
    requires s != []
    ensures Encode(s) == EncodeCode(TakenCode(s)) + Encode(s[Taken(s)..])
    ensures Reread(s) == ToUnits(if TakenCode(s).NaN? then 0 else TakenCode(s).value) + Reread(s[Taken(s)..])
  {
  }

  lemma DecodeSplits(d: seq<byte>, p: nat, c: CodePoint, end: nat)
    requires c.Code? ==> 0 <= c.value < 0x20_0000
    requires HoldsAt(d, p, EncodeCode(c)) && p + |EncodeCode(c)| <= end
    ensures Decode(d, p, end) == ToUnits(if c.NaN? then 0 else c.value) + Decode(d, p + |EncodeCode(c)|, end)
  {
    DecodesCode(d, p, c);
  }

  lemma {:induction false} DecodeOfEncode(d: seq<byte>, p: nat, s: seq<CodeUnit>)
    requires HoldsAt(d, p, Encode(s))
    ensures Decode(d, p, p + |Encode(s)|) == Reread(s)
    decreases |s|
  {
    hide EncodeCode, Encode, Decode, Reread, TakenCode, Taken, ToUnits, HoldsAt, DecodeCode, LeadLength, ByteAt, LeadAt;
    if s == [] {
      EmptyString(d, p);
    } else {
      var bs, rest := EncodeCode(TakenCode(s)), s[Taken(s)..];
      EncodeSplits(s);
      SplitBytes(d, p, bs, Encode(rest));
      DecodeSplits(d, p, TakenCode(s), p + |Encode(s)|);
      DecodeOfEncode(d, p + |bs|, rest);
      assert p + |bs| + |Encode(rest)| == p + |Encode(s)|;
    }
  }

  lemma EmptyString(d: seq<byte>, p: nat)
    ensures Encode([]) == [] && Decode(d, p, p) == [] && Reread([]) == []
  {
  }

  lemma StepReproduces(s: seq<CodeUnit>)
    requires s != []
    ensures var c := TakenCode(s);
            var u := ToUnits(if c.NaN? then 0 else c.value);
            if IsHigh(s[0]) && !(|s| > 1 && IsLow(s[1])) then |u| < Taken(s) || (|u| == Taken(s) && u != s[..Taken(s)])
            else u == s[..Taken(s)]
  {
  }

  lemma {:induction false} RereadIsIdentity(s: seq<CodeUnit>)
    ensures Reread(s) == s <==> Paired(s)
    decreases |s|
  {
    if s != [] {
      var c, n := TakenCode(s), Taken(s);
      var u := ToUnits(if c.NaN? then 0 else c.value);
      StepReproduces(s);
      RereadIsIdentity(s[n..]);
      assert s == s[..n] + s[n..];
      if |u| == n {
        assert Reread(s)[..n] == u && Reread(s)[n..] == Reread(s[n..]);
      }
    }
  }

  /** The string round trip: reading the written bytes gives the string back exactly when it is paired. */
  lemma StringRoundTrip(d: seq<byte>, p: nat, s: seq<CodeUnit>)
    requires HoldsAt(d, p, Encode(s))
    ensures Decode(d, p, p + |Encode(s)|) == s <==> Paired(s)
  {
    DecodeOfEncode(d, p, s);
    RereadIsIdentity(s);
  }

  /** The loop of `createString`: the bytes pushed so far are those of the units read so far. */
  method EncodeUnits(s: seq<CodeUnit>) returns (utf8: seq<byte>)
    ensures utf8 == Encode(s)
  {
    hide EncodeCode, TakenCode;
    utf8 := [];
    var i := 0;
    while i < |s|
      invariant i <= |s| && utf8 + Encode(s[i..]) == Encode(s)
    {
      var code, n := TakenCode(s[i..]), Taken(s[i..]);
      assert s[i..][n..] == s[i + n..];
      utf8 := utf8 + EncodeCode(code);
      i := i + n;
    }
  }

  /** One character of the reading loop. */
  lemma DecodeStep(d: seq<byte>, p: int, end: int, s: seq<CodeUnit>)
    requires p < end
    ensures var next := p + LeadLength(LeadAt(d, p));
            (s + ToUnits(DecodeCode(d, p))) + Decode(d, next, end) == s + Decode(d, p, end)
  {
    hide DecodeCode, ToUnits, LeadLength, LeadAt;
  }

  lemma DecodeEnd(d: seq<byte>, p: int, end: int, s: seq<CodeUnit>)
    requires end <= p
    ensures s + Decode(d, p, end) == s
  {
  }

  /** `__string`: follow the offset at `p`, read the length, then decode that many bytes. */
  method ReadString(d: seq<byte>, p: int) returns (s: seq<CodeUnit>)
    ensures var start := p + ReadInt32(d, p);
            s == Decode(d, start + 4, start + 4 + ReadInt32(d, start))
  {
    hide DecodeCode, ReadInt32, LeadLength, ToUnits, Decode;
    var start := p + ReadInt32(d, p);
    var length, i := ReadInt32(d, start), 0;
    s := [];
    while i < length
      invariant s + Decode(d, start + 4 + i, start + 4 + length) == Decode(d, start + 4, start + 4 + length)
    {
      DecodeStep(d, start + 4 + i, start + 4 + length, s);
      s := s + ToUnits(DecodeCode(d, start + 4 + i));
      i := i + LeadLength(LeadAt(d, start + 4 + i));
    }
    DecodeEnd(d, start + 4 + i, start + 4 + length, s);
  }

  /** The octet sequences of section 3 of RFC 3629, with the number of octets fixed by the range of the value. */
  predicate IsUtf8Of(bs: seq<int>, v: int) {
    if 0 <= v <= 0x7F then bs == [v]
    else if v <= 0x7FF then |bs| == 2 && bs[0] / 32 == 6 && bs[1] / 64 == 2 && v == bs[0] % 32 * 64 + bs[1] % 64
    else if v <= 0xFFFF then
      |bs| == 3 && bs[0] / 16 == 14 && bs[1] / 64 == 2 && bs[2] / 64 == 2
      && v == bs[0] % 16 * 4096 + bs[1] % 64 * 64 + bs[2] % 64
    else
      |bs| == 4 && bs[0] / 8 == 30 && bs[1] / 64 == 2 && bs[2] / 64 == 2 && bs[3] / 64 == 2
      && v == bs[0] % 8 * 262144 + bs[1] % 64 * 4096 + bs[2] % 64 * 64 + bs[3] % 64
  }

  predicate IsScalarValue(v: int) {
    0 <= v <= 0x10_FFFF && !(0xD800 <= v <= 0xDFFF)
  }

  /** The UTF-16 form of a character as in section 2.1 of RFC 2781. */
  predicate IsUtf16Of(u: seq<int>, v: int) {
    if v < 0x1_0000 then u == [v]
    else |u| == 2 && 0xD800 <= u[0] <= 0xDBFF && 0xDC00 <= u[1] <= 0xDFFF
         && v == 0x1_0000 + (u[0] - 0xD800) * 0x400 + (u[1] - 0xDC00)
  }

  ghost predicate Spells(text: seq<int>, s: seq<CodeUnit>)
    decreases |text|
  {
    if text == [] then s == []
    else IsScalarValue(text[0]) && exists n :: 1 <= n <= 2 && n <= |s| && IsUtf16Of(s[..n], text[0])
                                               && Spells(text[1..], s[n..])
  }

  ghost predicate IsUtf8Text(bs: seq<byte>, text: seq<int>)
    decreases |text|
  {
    if text == [] then bs == []
    else exists n :: 1 <= n <= 4 && n <= |bs| && IsUtf8Of(bs[..n], text[0]) && IsUtf8Text(bs[n..], text[1..])
  }

  lemma SpelledCode(v: int, s: seq<CodeUnit>, n: nat)
    requires 1 <= n <= 2 && n <= |s| && IsScalarValue(v) && IsUtf16Of(s[..n], v)
    ensures Taken(s) == n && TakenCode(s) == Code(v)
  {
    assert s[0] == s[..n][0] && (n == 2 ==> s[1] == s[..n][1]);
  }

  lemma CodeConforms(v: int)
    requires IsScalarValue(v)
    ensures IsUtf8Of(EncodeCode(Code(v)), v)
  {
    hide Payload2, Payload3, Payload4;
    Recombines(v);
    Payloads(EncodeCode(Code(v)));
  }

  lemma Payloads(bs: seq<int>)
    ensures |bs| == 2 ==> Payload2(bs[0], bs[1]) == bs[0] % 32 * 64 + bs[1] % 64
    ensures |bs| == 3 ==> Payload3(bs[0], bs[1], bs[2]) == bs[0] % 16 * 4096 + bs[1] % 64 * 64 + bs[2] % 64
    ensures |bs| == 4
            ==> Payload4(bs[0], bs[1], bs[2], bs[3])
                == bs[0] % 8 * 262144 + bs[1] % 64 * 4096 + bs[2] % 64 * 64 + bs[3] % 64
  {
  }

  /** For well-formed UTF-16 the written bytes are the UTF-8 form of the same characters. */
  lemma {:induction false} EncodeConforms(text: seq<int>, s: seq<CodeUnit>)
    requires Spells(text, s)
    ensures IsUtf8Text(Encode(s), text)
    decreases |text|
  {
    if text != [] {
      var n :| 1 <= n <= 2 && n <= |s| && IsUtf16Of(s[..n], text[0]) && Spells(text[1..], s[n..]);
      SpelledCode(text[0], s, n);
      EncodeConforms(text[1..], s[n..]);
      var bs := EncodeCode(Code(text[0]));
      CodeConforms(text[0]);
      hide EncodeCode, TakenCode, IsUtf8Of, Taken;
      assert Encode(s)[..|bs|] == bs && Encode(s)[|bs|..] == Encode(s[n..]);
    }
  }
}
