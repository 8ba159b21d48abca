/** Base64 as in section 4 of RFC 4648, and the hints that are sent as URL-safe Base64. */
module Base64 {
  import opened Options
  import opened Bytes

  function Pow2(n: nat): (p: nat)
    ensures 0 < p
  {
    if n == 0 then 1 else 2 * Pow2(n - 1)
  }

  /** The `width` low bits of a number, highest first. */
  function ToBits(width: nat, v: nat): (bits: seq<bool>)
    ensures |bits| == width
  {
    if width == 0 then [] else ToBits(width - 1, v / 2) + [v % 2 == 1]
  }

  function FromBits(bits: seq<bool>): (v: nat)
    ensures v < Pow2(|bits|)
  {
    if bits == [] then 0
    else
      var n := |bits| - 1;
      2 * FromBits(bits[..n]) + if bits[n] then 1 else 0
  }

  /** The bits of a sequence of groups. */
  function Flow(groups: seq<nat>, width: nat): (bits: seq<bool>)
    ensures |bits| == width * |groups|
  {
    if groups == [] then [] else ToBits(width, groups[0]) + Flow(groups[1..], width)
  }

  predicate Fit(groups: seq<nat>, width: nat) {
    forall i :: 0 <= i < |groups| ==> groups[i] < Pow2(width)
  }

  /** The first `n` groups of a bit stream. */
  function Chunks(bits: seq<bool>, width: nat, n: nat): (groups: seq<nat>)
    requires width * n <= |bits|
    ensures |groups| == n && Fit(groups, width)
    decreases n
  {
    if n == 0 then []
    else
      assert width * n == width + width * (n - 1);
      [FromBits(bits[..width])] + Chunks(bits[width..], width, n - 1)
  }

  /** `transform_width`: the same bits as `n` groups of another width. */
  function Regroup(groups: seq<nat>, from: nat, to: nat, n: nat): (other: seq<nat>)
    requires from * |groups| == to * n
    ensures |other| == n && Fit(other, to)
  {
    Chunks(Flow(groups, from), to, n)
  }

  lemma {:induction false} FromToBits(width: nat, v: nat)
    requires v < Pow2(width)
    ensures FromBits(ToBits(width, v)) == v
  {
    if width > 0 {
      FromToBits(width - 1, v / 2);
      assert ToBits(width, v)[..width - 1] == ToBits(width - 1, v / 2);
    }
  }

  lemma {:induction false} ToFromBits(bits: seq<bool>)
    ensures ToBits(|bits|, FromBits(bits)) == bits
  {
    if bits != [] {
      var n := |bits| - 1;
      ToFromBits(bits[..n]);
    }
  }

  lemma OneMore(width: nat, n: nat)
    requires 0 < n
    ensures width * n == width + width * (n - 1)
  {
  }

  lemma FirstChunk(bits: seq<bool>, width: nat, n: nat)
    requires 0 < n && width * n <= |bits|
    ensures width <= |bits| && width * n == width + width * (n - 1)
    ensures Chunks(bits, width, n) == [FromBits(bits[..width])] + Chunks(bits[width..], width, n - 1)
  {
    OneMore(width, n);
  }

  lemma FirstFlow(g: nat, groups: seq<nat>, width: nat)
    ensures Flow([g] + groups, width) == ToBits(width, g) + Flow(groups, width)
  {
    assert ([g] + groups)[1..] == groups;
  }

  lemma {:induction false} FlowOfChunks(bits: seq<bool>, width: nat, n: nat)
    requires width * n == |bits|
    ensures Flow(Chunks(bits, width, n), width) == bits
    decreases n
  {
    hide ToBits, FromBits, Flow, Chunks;
    if n > 0 {
      FirstChunk(bits, width, n);
      ToFromBits(bits[..width]);
      FlowOfChunks(bits[width..], width, n - 1);
      FirstFlow(FromBits(bits[..width]), Chunks(bits[width..], width, n - 1), width);
      assert bits == bits[..width] + bits[width..];
    } else {
      NoGroups(bits, width);
    }
  }

  lemma NoGroups(bits: seq<bool>, width: nat)
    requires |bits| == 0
    ensures Flow(Chunks(bits, width, 0), width) == bits
  {
  }

  lemma {:induction false} ChunksOfFlow(groups: seq<nat>, width: nat)
    requires Fit(groups, width)
    ensures Chunks(Flow(groups, width), width, |groups|) == groups
  {
    if groups != [] {
      FromToBits(width, groups[0]);
      ChunksOfFlow(groups[1..], width);
      var bits := Flow(groups, width);
      assert bits[..width] == ToBits(width, groups[0]) && bits[width..] == Flow(groups[1..], width);
    }
  }

  /** Regrouping there and back loses nothing when the bits come out even. */
  lemma RegroupBack(groups: seq<nat>, from: nat, to: nat, n: nat)
    requires from * |groups| == to * n && Fit(groups, from)
    ensures Regroup(Regroup(groups, from, to, n), to, from, |groups|) == groups
  {
    FlowOfChunks(Flow(groups, from), to, n);
    ChunksOfFlow(groups, from);
  }

  lemma {:induction false} FlowConcat(a: seq<nat>, b: seq<nat>, width: nat)
    ensures Flow(a + b, width) == Flow(a, width) + Flow(b, width)
  {
    if a == [] {
      assert a + b == b;
    } else {
      assert (a + b)[1..] == a[1..] + b;
      FlowConcat(a[1..], b, width);
    }
  }

  lemma {:induction false} ChunksConcat(a: seq<bool>, b: seq<bool>, width: nat, m: nat, n: nat)
    requires |a| == width * m && |b| == width * n
    ensures width * (m + n) == |a + b|
    ensures Chunks(a + b, width, m + n) == Chunks(a, width, m) + Chunks(b, width, n)
    decreases m
  {
    hide FromBits;
    assert width * (m + n) == width * m + width * n;
    if m == 0 {
      assert a + b == b;
    } else {
      assert width * m == width + width * (m - 1);
      assert (a + b)[..width] == a[..width] && (a + b)[width..] == a[width..] + b;
      ChunksConcat(a[width..], b, width, m - 1, n);
    }
  }

  lemma RegroupConcat(a: seq<nat>, b: seq<nat>, from: nat, to: nat, m: nat, n: nat)
    requires from * |a| == to * m && from * |b| == to * n
    ensures from * |a + b| == to * (m + n)
    ensures Regroup(a + b, from, to, m + n) == Regroup(a, from, to, m) + Regroup(b, from, to, n)
  {
    hide Flow, Chunks;
    FlowConcat(a, b, from);
    ChunksConcat(Flow(a, from), Flow(b, from), to, m, n);
    assert from * |a + b| == from * |a| + from * |b|;
  }

  function Char(v: nat): char
    requires v < 64
  {
    if v < 26 then 'A' + v as char
    else if v < 52 then 'a' + (v - 26) as char
    else if v < 62 then '0' + (v - 52) as char
    else if v == 62 then '+'
    else '/'
  }

  function Index(c: char): (v: Option<nat>)
    ensures v.Some? ==> v.value < 64 && Char(v.value) == c
  {
    if 'A' <= c <= 'Z' then Some((c - 'A') as nat)
    else if 'a' <= c <= 'z' then Some((c - 'a') as nat + 26)
    else if '0' <= c <= '9' then Some((c - '0') as nat + 52)
    else if c == '+' then Some(62)
    else if c == '/' then Some(63)
    else None
  }

  /** The same table as one string. */
  function Alphabet(): string {
    "ABCDEFGHIJKLMNOPQRSTUVWXYZ" + "abcdefghijklmnopqrstuvwxyz" + "0123456789" + "+/"
  }

  function Run(first: char, n: nat): (s: string)
    requires first as nat + n < 0x80
    ensures |s| == n && forall i :: 0 <= i < n ==> s[i] == first + i as char
  {
    if n == 0 then "" else Run(first, n - 1) + [first + (n - 1) as char]
  }

  lemma UpperRun()
    ensures Run('A', 26) == "ABCDEFGHIJKLMNOPQRSTUVWXYZ"
  {
  }

  lemma LowerRun()
    ensures Run('a', 26) == "abcdefghijklmnopqrstuvwxyz"
  {
  }

  lemma DigitRun()
    ensures Run('0', 10) == "0123456789"
  {
  }

  lemma AlphabetRuns()
    ensures Alphabet() == Run('A', 26) + Run('a', 26) + Run('0', 10) + "+/"
  {
    hide Run;
    UpperRun();
    LowerRun();
    DigitRun();
  }

  /** Table 1 of section 4. */
  function Letter(v: nat): char
    requires v < 64
  {
    AlphabetRuns();
    Alphabet()[v]
  }

  /** Characters and values are computed by ranges and agree with the table. */
  lemma AlphabetAt(v: nat)
    requires v < 64
    ensures Char(v) == Letter(v) && Index(Letter(v)) == Some(v)
  {
    hide Run, Alphabet;
    AlphabetRuns();
  }

  lemma IndexOfChar(v: nat)
    requires v < 64
    ensures Index(Char(v)) == Some(v) && Char(v) !in ['=', '-', '_']
  {
  }

  function Chars(groups: seq<nat>): (s: string)
    requires Fit(groups, 6)
    ensures |s| == |groups|
  {
    SixBits();
    seq(|groups|, (i: int) requires 0 <= i < |groups| => Char(groups[i]))
  }

  lemma SixBits()
    ensures Pow2(6) == 64 && Pow2(8) == 256
  {
    assert Pow2(2) == 4 && Pow2(4) == 16;
  }

  function Repeat<T>(x: T, n: nat): (s: seq<T>)
    ensures |s| == n
  {
    seq(n, _ => x)
  }

  /** Each byte is a group of eight bits. */
  function Groups(bytes: seq<byte>): (groups: seq<nat>)
    ensures |groups| == |bytes| && Fit(groups, 8)
  {
    SixBits();
    seq(|bytes|, (i: int) requires 0 <= i < |bytes| => bytes[i])
  }

  function PadSize(n: nat): (pad: nat)
    ensures pad < 3 && (n + pad) % 3 == 0
  {
    (3 - n % 3) % 3
  }

  /** The number of 24-bit groups that `n` bytes need. */
  function Triples(n: nat): (t: nat)
    ensures 3 * t == n + PadSize(n)
  {
    (n + PadSize(n)) / 3
  }

  /** The six-bit groups of the bytes after padding them with zero bytes. */
  function Sextets(bytes: seq<byte>): (sextets: seq<nat>)
    ensures |sextets| == 4 * Triples(|bytes|) && Fit(sextets, 6)
  {
    Regroup(Groups(bytes) + Repeat<nat>(0, PadSize(|bytes|)), 8, 6, 4 * Triples(|bytes|))
  }

  function Encoded(bytes: seq<byte>): (s: string)
    ensures |s| == 4 * Triples(|bytes|)
  {
    var pad := PadSize(|bytes|);
    Chars(Sextets(bytes))[..|Sextets(bytes)| - pad] + Repeat('=', pad)
  }

  /** `encodeBase64`. */
  method EncodeBase64(input: seq<byte>) returns (encoded: string)
    ensures encoded == Encoded(input)
  {
    hide Regroup, Chars;
    var bytes, bytesToPad := input, 0;
    while |bytes| % 3 != 0
      invariant 0 <= bytesToPad <= PadSize(|input|) && |bytes| == |input| + bytesToPad
      invariant Groups(bytes) == Groups(input) + Repeat<nat>(0, bytesToPad)
      decreases PadSize(|input|) - bytesToPad
    {
      assert Groups(bytes + [0]) == Groups(bytes) + [0]
             && Repeat<nat>(0, bytesToPad + 1) == Repeat<nat>(0, bytesToPad) + [0];
      bytesToPad := bytesToPad + 1;
      bytes := bytes + [0];
    }
    PadReached(|input|, bytesToPad);
    var sextets := Regroup(Groups(bytes), 8, 6, 4 * (|bytes| / 3));
    encoded := Chars(sextets)[..|sextets| - bytesToPad] + Repeat('=', bytesToPad);
  }

  lemma PadReached(n: nat, pad: nat)
    requires pad <= PadSize(n) && (n + pad) % 3 == 0
    ensures pad == PadSize(n)
  {
  }

  function Replace(s: string, from: char, to: char): (r: string)
    ensures |r| == |s| && forall i :: 0 <= i < |s| ==> r[i] == if s[i] == from then to else s[i]
  {
    seq(|s|, (i: int) requires 0 <= i < |s| => if s[i] == from then to else s[i])
  }

  function Count(s: string, c: char): (n: nat)
    ensures n <= |s|
  {
    if s == [] then 0 else Count(s[..|s| - 1], c) + if s[|s| - 1] == c then 1 else 0
  }

  /** The values of the characters, if all of them are in the alphabet. */
  function Indices(s: string): (r: Option<seq<nat>>)
    ensures r.Some? ==> |r.value| == |s| && Fit(r.value, 6)
    ensures r.Some? <==> forall i :: 0 <= i < |s| ==> Index(s[i]).Some?
    ensures r.Some? ==> forall i :: 0 <= i < |s| ==> Index(s[i]) == Some(r.value[i])
  {
    SixBits();
    if forall i :: 0 <= i < |s| ==> Index(s[i]).Some?
    then Some(seq(|s|, (i: int) requires 0 <= i < |s| => Index(s[i]).value))
    else None
  }

  function ToBytes(groups: seq<nat>): (bytes: seq<byte>)
    requires Fit(groups, 8)
    ensures |bytes| == |groups|
  {
    SixBits();
    seq(|groups|, (i: int) requires 0 <= i < |groups| => groups[i])
  }

  /** Whole quadruples, and no more pad characters than decoded bytes. */
  predicate Decodable(encoded: string) {
    |encoded| % 4 == 0 && Count(encoded, '=') <= 3 * (|encoded| / 4)
  }

  /** `decodeBase64` for a whole number of quadruples; a character outside the alphabet is an error. */
  method DecodeBase64(encoded: string) returns (decoded: Option<seq<byte>>)
    requires Decodable(encoded)
    ensures decoded == Decoded(encoded)
  {
    var numPadded := 0;
    var i := 0;
    while i < |encoded|
      invariant i <= |encoded| && numPadded == Count(encoded[..i], '=')
    {
      assert encoded[..i + 1][..i] == encoded[..i];
      if encoded[i] == '=' {
        numPadded := numPadded + 1;
      }
      i := i + 1;
    }
    assert encoded[..i] == encoded;
    var indices := Indices(Replace(encoded, '=', 'A'));
    if indices.None? {
      return None;
    }
    var bytes := ToBytes(Regroup(indices.value, 6, 8, 3 * (|encoded| / 4)));
    decoded := Some(bytes[..|bytes| - numPadded]);
  }

  function Decoded(encoded: string): (bytes: Option<seq<byte>>)
    requires Decodable(encoded)
    ensures bytes.Some? ==> |bytes.value| == 3 * (|encoded| / 4) - Count(encoded, '=')
  {
    var indices := Indices(Replace(encoded, '=', 'A'));
    if indices.None? then None
    else
      var bytes := ToBytes(Regroup(indices.value, 6, 8, 3 * (|encoded| / 4)));
      Some(bytes[..|bytes| - Count(encoded, '=')])
  }

  lemma {:induction false} CountRepeat(s: string, c: char, n: nat)
    ensures Count(s + Repeat(c, n), c) == Count(s, c) + n
    decreases n
  {
    var t := s + Repeat(c, n);
    if n > 0 {
      CountRepeat(s, c, n - 1);
      assert t[..|t| - 1] == s + Repeat(c, n - 1) && t[|t| - 1] == c;
    } else {
      assert t == s;
    }
  }

  lemma {:induction false} CountNone(s: string, c: char)
    requires c !in s
    ensures Count(s, c) == 0
  {
    if s != [] {
      CountNone(s[..|s| - 1], c);
    }
  }

  lemma TriplesRound(n: nat)
    ensures Triples(n) == (n + 2) / 3 && PadSize(n) <= 4 * Triples(n)
  {
  }

  /** The pad characters: as many as bytes are missing to a multiple of three, and only at the end. */
  lemma PadOnlyAtEnd(bytes: seq<byte>)
    ensures var s, pad := Encoded(bytes), PadSize(|bytes|);
            && |s| == 4 * ((|bytes| + 2) / 3) && pad <= |s| && Count(s, '=') == pad
            && forall i :: 0 <= i < |s| ==> (s[i] == '=' <==> |s| - pad <= i)
  {
    hide Regroup, Char, PadSize, Triples, Sextets;
    SixBits();
    TriplesRound(|bytes|);
    var pad, sextets := PadSize(|bytes|), Sextets(bytes);
    var chars := Chars(sextets)[..|sextets| - pad];
    forall i | 0 <= i < |chars| ensures chars[i] != '=' {
      IndexOfChar(sextets[i]);
    }
    CountNone(chars, '=');
    CountRepeat(chars, '=', pad);
  }

  lemma {:induction false} ChunkAt(bits: seq<bool>, width: nat, n: nat, i: nat)
    requires width * n <= |bits| && i < n
    ensures 0 <= width * i <= width * i + width <= |bits|
    ensures Chunks(bits, width, n)[i] == FromBits(bits[width * i..width * i + width])
    decreases i
  {
    hide FromBits, Chunks;
    FirstChunk(bits, width, n);
    if i == 0 {
      assert width * i == 0;
    } else {
      OneMore(width, i);
      var from := width * (i - 1);
      ChunkAt(bits[width..], width, n - 1, i - 1);
      assert bits[width..][from..from + width] == bits[width + from..width + from + width];
    }
  }

  lemma {:induction false} NoBits(bits: seq<bool>)
    requires true !in bits
    ensures FromBits(bits) == 0
  {
    if bits != [] {
      NoBits(bits[..|bits| - 1]);
    }
  }

  lemma {:induction false} ZeroBits(n: nat)
    ensures true !in ToBits(n, 0)
  {
    if n > 0 {
      ZeroBits(n - 1);
    }
  }

  lemma {:induction false} ZeroFlow(n: nat, width: nat)
    ensures true !in Flow(Repeat<nat>(0, n), width)
    decreases n
  {
    if n > 0 {
      ZeroBits(width);
      ZeroFlow(n - 1, width);
      assert Repeat<nat>(0, n)[1..] == Repeat<nat>(0, n - 1);
    }
  }

  /** The groups that the pad characters replace are zero, so reading the characters as 'A' restores them. */
  lemma PaddingIsZero(bytes: seq<byte>, i: nat)
    requires |Sextets(bytes)| - PadSize(|bytes|) <= i < |Sextets(bytes)|
    ensures Sextets(bytes)[i] == 0
  {
    hide Flow, Chunks, FromBits;
    var pad := PadSize(|bytes|);
    var bits, n := Flow(Groups(bytes) + Repeat<nat>(0, pad), 8), 4 * Triples(|bytes|);
    FlowConcat(Groups(bytes), Repeat<nat>(0, pad), 8);
    ZeroFlow(pad, 8);
    ChunkAt(bits, 6, n, i);
    forall k | 6 * i <= k < 6 * i + 6 ensures bits[k] == false {
      assert 8 * |bytes| <= k;
      assert bits[k] == Flow(Repeat<nat>(0, pad), 8)[k - 8 * |bytes|];
    }
    NoBits(bits[6 * i..6 * i + 6]);
  }

  lemma ReadsSextets(bytes: seq<byte>)
    ensures Indices(Replace(Encoded(bytes), '=', 'A')) == Some(Sextets(bytes))
  {
    hide Sextets, Char, Index;
    SixBits();
    var s, pad, sextets := Encoded(bytes), PadSize(|bytes|), Sextets(bytes);
    var plain := Replace(s, '=', 'A');
    forall i | 0 <= i < |plain| ensures Index(plain[i]) == Some(sextets[i]) {
      IndexOfChar(sextets[i]);
      IndexOfA();
      if |sextets| - pad <= i {
        PaddingIsZero(bytes, i);
      }
    }
    assert Indices(plain).value == sextets;
  }

  lemma IndexOfA()
    ensures Index('A') == Some(0)
  {
  }

  lemma EncodedDecodable(bytes: seq<byte>)
    ensures Decodable(Encoded(bytes)) && |Encoded(bytes)| / 4 == Triples(|bytes|)
  {
    hide Encoded, PadSize, Triples;
    PadOnlyAtEnd(bytes);
    PadFits(|bytes|);
  }

  lemma PadFits(n: nat)
    ensures PadSize(n) <= 3 * Triples(n)
  {
  }

  /** Base64 round trip. */
  lemma RoundTrip(bytes: seq<byte>)
    ensures Decodable(Encoded(bytes)) && Decoded(Encoded(bytes)) == Some(bytes)
  {
    hide Sextets, Encoded, Regroup, Indices, Decodable, Count, PadSize, Triples;
    EncodedDecodable(bytes);
    PadOnlyAtEnd(bytes);
    ReadsSextets(bytes);
    SextetsBack(bytes);
    assert ToBytes(Groups(bytes) + Repeat<nat>(0, PadSize(|bytes|)))[..|bytes|] == bytes;
  }

  lemma SextetsBack(bytes: seq<byte>)
    ensures var padded := Groups(bytes) + Repeat<nat>(0, PadSize(|bytes|));
            Fit(padded, 8) && Regroup(Sextets(bytes), 6, 8, 3 * Triples(|bytes|)) == padded
  {
    hide Regroup, Pow2, PadSize, Triples;
    SixBits();
    RegroupBack(Groups(bytes) + Repeat<nat>(0, PadSize(|bytes|)), 8, 6, 4 * Triples(|bytes|));
  }

  lemma WholeTriples(n: nat, m: nat)
    requires n % 3 == 0
    ensures PadSize(n) == 0 && PadSize(n + m) == PadSize(m) && Triples(n + m) == Triples(n) + Triples(m)
  {
  }

  lemma GroupsConcat(a: seq<byte>, b: seq<byte>, pad: nat)
    ensures Groups(a) + Repeat<nat>(0, 0) == Groups(a)
    ensures Groups(a + b) + Repeat<nat>(0, pad) == Groups(a) + (Groups(b) + Repeat<nat>(0, pad))
  {
  }

  lemma CharsConcat(a: seq<nat>, b: seq<nat>, n: nat)
    requires Fit(a, 6) && Fit(b, 6) && n <= |b|
    ensures Fit(a + b, 6) && Chars(a + b)[..|a| + n] == Chars(a) + Chars(b)[..n]
  {
    SixBits();
  }

  lemma SextetsConcat(a: seq<byte>, b: seq<byte>)
    requires |a| % 3 == 0
    ensures Sextets(a + b) == Sextets(a) + Sextets(b)
  {
    hide Regroup, Groups, PadSize, Triples;
    var pad := PadSize(|b|);
    WholeTriples(|a|, |b|);
    GroupsConcat(a, b, pad);
    assert |Groups(b) + Repeat<nat>(0, pad)| == |b| + pad;
    RegroupConcat(Groups(a), Groups(b) + Repeat<nat>(0, pad), 8, 6, 4 * Triples(|a|), 4 * Triples(|b|));
  }

  /** Whole triples on the left: encoding distributes over concatenation. */
  lemma EncodedConcat(a: seq<byte>, b: seq<byte>)
    requires |a| % 3 == 0
    ensures Encoded(a + b) == Encoded(a) + Encoded(b)
  {
    hide Sextets, Chars, PadSize, Triples;
    WholeTriples(|a|, |b|);
    SextetsConcat(a, b);
    CharsConcat(Sextets(a), Sextets(b), |Sextets(b)| - PadSize(|b|));
    assert Repeat('=', 0) == [];
  }

  /** The text of section 4, by 24-bit input groups and the two special cases at the end. */
  function Rfc4648(b: seq<byte>): string {
    if |b| == 0 then ""
    else if |b| == 1 then [Letter(b[0] / 4), Letter(b[0] % 4 * 16), '=', '=']
    else if |b| == 2 then [Letter(b[0] / 4), Letter(b[0] % 4 * 16 + b[1] / 16), Letter(b[1] % 16 * 4), '=']
    else [Letter(b[0] / 4), Letter(b[0] % 4 * 16 + b[1] / 16), Letter(b[1] % 16 * 4 + b[2] / 64), Letter(b[2] % 64)]
         + Rfc4648(b[3..])
  }

  /** Bits of a number put together from a high and a low part. */
  lemma HalfOfJoined(x: nat, half: nat, y: nat)
    ensures (x * (2 * half) + y) / 2 == x * half + y / 2 && (x * (2 * half) + y) % 2 == y % 2
  {
    assert x * (2 * half) == 2 * (x * half);
  }

  lemma {:induction false} JoinedBits(high: nat, x: nat, low: nat, y: nat)
    requires y < Pow2(low)
    ensures ToBits(high + low, x * Pow2(low) + y) == ToBits(high, x) + ToBits(low, y)
    decreases low
  {
    if low > 0 {
      HalfOfJoined(x, Pow2(low - 1), y);
      JoinedBits(high, x, low - 1, y / 2);
    }
  }

  lemma Halves()
    ensures Pow2(2) == 4 && Pow2(4) == 16 && Pow2(6) == 64 && Pow2(8) == 256
  {
    SixBits();
    assert Pow2(1) == 2;
  }

  lemma ByteSplits(b: byte)
    ensures ToBits(8, b) == ToBits(6, b / 4) + ToBits(2, b % 4)
    ensures ToBits(8, b) == ToBits(4, b / 16) + ToBits(4, b % 16)
    ensures ToBits(8, b) == ToBits(2, b / 64) + ToBits(6, b % 64)
  {
    hide ToBits, Pow2;
    Halves();
    JoinedBits(6, b / 4, 2, b % 4);
    JoinedBits(4, b / 16, 4, b % 16);
    JoinedBits(2, b / 64, 6, b % 64);
  }

  lemma SextetJoins(x: nat, y: nat)
    ensures x < 4 && y < 16 ==> ToBits(6, x * 16 + y) == ToBits(2, x) + ToBits(4, y)
    ensures x < 16 && y < 4 ==> ToBits(6, x * 4 + y) == ToBits(4, x) + ToBits(2, y)
  {
    hide ToBits, Pow2;
    Halves();
    if y < 16 {
      JoinedBits(2, x, 4, y);
    }
    if y < 4 {
      JoinedBits(4, x, 2, y);
    }
  }

  /** One 24-bit input group. */
  lemma Triple(b0: byte, b1: byte, b2: byte)
    ensures Regroup([b0, b1, b2], 8, 6, 4) == [b0 / 4, b0 % 4 * 16 + b1 / 16, b1 % 16 * 4 + b2 / 64, b2 % 64]
  {
    hide ToBits, Pow2, Chunks, Flow;
    var sextets: seq<nat> := [b0 / 4, b0 % 4 * 16 + b1 / 16, b1 % 16 * 4 + b2 / 64, b2 % 64];
    Halves();
    ByteSplits(b0);
    ByteSplits(b1);
    ByteSplits(b2);
    SextetJoins(b0 % 4, b1 / 16);
    SextetJoins(b1 % 16, b2 / 64);
    FlowOfThree(b0, b1, b2);
    FlowOfFour(sextets[0], sextets[1], sextets[2], sextets[3]);
    assert Flow([b0, b1, b2], 8) == Flow(sextets, 6);
    ChunksOfFlow(sextets, 6);
  }

  lemma FlowOfOne(g: nat, width: nat)
    ensures Flow([g], width) == ToBits(width, g)
  {
    assert [g][1..] == [];
  }

  lemma FlowOfThree(a: nat, b: nat, c: nat)
    ensures Flow([a, b, c], 8) == ToBits(8, a) + ToBits(8, b) + ToBits(8, c)
  {
    hide ToBits, Flow;
    FlowOfOne(a, 8);
    FlowOfOne(b, 8);
    FlowOfOne(c, 8);
    FlowConcat([a], [b], 8);
    FlowConcat([a] + [b], [c], 8);
    assert [a] + [b] + [c] == [a, b, c];
  }

  lemma FlowOfFour(a: nat, b: nat, c: nat, e: nat)
    ensures Flow([a, b, c, e], 6) == ToBits(6, a) + ToBits(6, b) + ToBits(6, c) + ToBits(6, e)
  {
    hide ToBits, Flow;
    FlowOfOne(a, 6);
    FlowOfOne(b, 6);
    FlowOfOne(c, 6);
    FlowOfOne(e, 6);
    FlowConcat([a], [b], 6);
    FlowConcat([a] + [b], [c], 6);
    FlowConcat([a] + [b] + [c], [e], 6);
    assert [a] + [b] + [c] + [e] == [a, b, c, e];
  }

  /** The characters of at most three bytes, given what they are padded to. */
  lemma LastCharacters(b: seq<byte>, b1: byte, b2: byte)
    requires 0 < |b| <= 3 && b1 == (if |b| > 1 then b[1] else 0) && b2 == if |b| > 2 then b[2] else 0
    ensures Encoded(b) == [Char(b[0] / 4), Char(b[0] % 4 * 16 + b1 / 16), Char(b1 % 16 * 4 + b2 / 64),
            Char(b2 % 64)][..|b| + 1]
                          + Repeat('=', 3 - |b|)
  {
    hide Regroup, Char, Pow2;
    Halves();
    assert Groups(b) + Repeat<nat>(0, 3 - |b|) == [b[0], b1, b2];
    Triple(b[0], b1, b2);
    assert Chars(Sextets(b)) == [Char(b[0] / 4), Char(b[0] % 4 * 16 + b1 / 16), Char(b1 % 16 * 4 + b2 / 64),
           Char(b2 % 64)];
  }

  lemma Ends(c0: char, c1: char, c2: char, c3: char)
    ensures [c0, c1, c2, c3][..2] + Repeat('=', 2) == [c0, c1, '=', '=']
    ensures [c0, c1, c2, c3][..3] + Repeat('=', 1) == [c0, c1, c2, '=']
    ensures [c0, c1, c2, c3][..4] + Repeat('=', 0) == [c0, c1, c2, c3]
  {
  }

  lemma ShortText(b: seq<byte>)
    ensures |b| == 1 ==> Rfc4648(b) == [Char(b[0] / 4), Char(b[0] % 4 * 16), '=', '=']
    ensures |b| == 2 ==> Rfc4648(b) == [Char(b[0] / 4), Char(b[0] % 4 * 16 + b[1] / 16), Char(b[1] % 16 * 4), '=']
    ensures |b| == 3 ==> Rfc4648(b)
                         == [Char(b[0] / 4), Char(b[0] % 4 * 16 + b[1] / 16), Char(b[1] % 16 * 4 + b[2] / 64),
                         Char(b[2] % 64)]
  {
    hide Char, Index, Letter;
    if |b| == 1 {
      AlphabetAt(b[0] / 4);
      AlphabetAt(b[0] % 4 * 16);
    } else if |b| == 2 {
      AlphabetAt(b[0] / 4);
      AlphabetAt(b[0] % 4 * 16 + b[1] / 16);
      AlphabetAt(b[1] % 16 * 4);
    } else if |b| == 3 {
      AlphabetAt(b[0] / 4);
      AlphabetAt(b[0] % 4 * 16 + b[1] / 16);
      AlphabetAt(b[1] % 16 * 4 + b[2] / 64);
      AlphabetAt(b[2] % 64);
      assert b[3..] == [] && Rfc4648([]) == "";
    }
  }

  lemma LastGroup(b: seq<byte>)
    requires 0 < |b| <= 3
    ensures Encoded(b) == Rfc4648(b)
  {
    hide Encoded, Char, Repeat, Rfc4648;
    var b1, b2 := if |b| > 1 then b[1] else 0, if |b| > 2 then b[2] else 0;
    LastCharacters(b, b1, b2);
    Ends(Char(b[0] / 4), Char(b[0] % 4 * 16 + b1 / 16), Char(b1 % 16 * 4 + b2 / 64), Char(b2 % 64));
    ShortText(b);
  }

  /** The encoder, which regroups a stream of bits, produces the text that section 4 describes. */
  lemma {:induction false} EncodesAsRfc4648(b: seq<byte>)
    ensures Encoded(b) == Rfc4648(b)
    decreases |b|
  {
    hide Encoded, Char, Letter;
    if |b| > 3 {
      assert b == b[..3] + b[3..];
      EncodedConcat(b[..3], b[3..]);
      LastGroup(b[..3]);
      EncodesAsRfc4648(b[3..]);
      assert b[..3][3..] == [] && Rfc4648([]) == "";
    } else if |b| > 0 {
      LastGroup(b);
    } else {
      NothingEncoded();
    }
  }

  lemma NothingEncoded()
    ensures Encoded([]) == "" && Replace(Replace("", '+', '-'), '/', '_') == ""
  {
  }

  const HINT_SIZE := 84
  const ENCODED_SEGMENT_HINT_SIZE := 112

  /** The bytes of a `SegmentHint`. */
  type SegmentHint = b: seq<byte> | |b| == HINT_SIZE witness seq(HINT_SIZE, _ => 0)

  /** `SegmentHint::ToBase64`: safe for use in a URL. */
  function HintToBase64(hint: SegmentHint): (s: string)
    ensures |s| == ENCODED_SEGMENT_HINT_SIZE
  {
    assert Triples(HINT_SIZE) == 28;
    Replace(Replace(Encoded(hint), '+', '-'), '/', '_')
  }

  lemma {:induction false} ReplaceKeepsPads(s: string)
    ensures Count(Replace(Replace(s, '-', '+'), '_', '/'), '=') == Count(s, '=')
  {
    if s != [] {
      var n := |s| - 1;
      ReplaceKeepsPads(s[..n]);
      assert Replace(Replace(s, '-', '+'), '_', '/')[..n] == Replace(Replace(s[..n], '-', '+'), '_', '/');
    }
  }

  /** `SegmentHint::FromBase64`. A text with pads decodes to fewer bytes, and the rest of the struct stays as it was
      created. */
  method HintFromBase64(base64Hint: string, created: SegmentHint) returns (hint: Option<SegmentHint>)
    requires |base64Hint| == ENCODED_SEGMENT_HINT_SIZE && Count(base64Hint, '=') <= HINT_SIZE
    ensures hint == HintDecoded(base64Hint, created)
  {
    hide Decoded;
    var encoded := Replace(Replace(base64Hint, '-', '+'), '_', '/');
    ReplaceKeepsPads(base64Hint);
    var decoded := DecodeBase64(encoded);
    hint := if decoded.Some? then Some(Filled(decoded.value, created)) else None;
  }

  /** `std::copy` of the decoded bytes over a struct. */
  function Filled(bytes: seq<byte>, created: SegmentHint): (hint: SegmentHint)
    requires |bytes| <= HINT_SIZE
    ensures bytes <= hint && hint[|bytes|..] == created[|bytes|..]
  {
    bytes + created[|bytes|..]
  }

  function HintDecoded(base64Hint: string, created: SegmentHint): Option<SegmentHint>
    requires |base64Hint| == ENCODED_SEGMENT_HINT_SIZE && Count(base64Hint, '=') <= HINT_SIZE
  {
    var encoded := Replace(Replace(base64Hint, '-', '+'), '_', '/');
    ReplaceKeepsPads(base64Hint);
    var decoded := Decoded(encoded);
    if decoded.Some? then Some(Filled(decoded.value, created)) else None
  }

  lemma FilledWhole(hint: SegmentHint, created: SegmentHint)
    ensures Filled(hint, created) == hint
  {
    assert created[HINT_SIZE..] == [];
  }

  lemma HintRoundTrip(hint: SegmentHint, created: SegmentHint)
    ensures Count(HintToBase64(hint), '=') == 0 && HintDecoded(HintToBase64(hint), created) == Some(hint)
  {
    hide Encoded, Decoded, Decodable, Replace;
    UrlSafeBack(hint);
    CountNone(HintToBase64(hint), '=');
    RoundTrip(hint);
    FilledWhole(hint, created);
  }

  lemma EncodedAlphabet(bytes: seq<byte>)
    ensures '-' !in Encoded(bytes) && '_' !in Encoded(bytes)
  {
    hide Sextets, Char;
    SixBits();
    var s, sextets := Encoded(bytes), Sextets(bytes);
    forall i | 0 <= i < |s| ensures s[i] != '-' && s[i] != '_' {
      IndexOfChar(sextets[i]);
    }
  }

  lemma UrlSafeBack(hint: SegmentHint)
    ensures Replace(Replace(HintToBase64(hint), '-', '+'), '_', '/') == Encoded(hint)
    ensures '=' !in HintToBase64(hint)
  {
    hide Encoded;
    EncodedAlphabet(hint);
    PadOnlyAtEnd(hint);
  }

  /** `Hint::ToBase64`: the segment hints one after the other. */
  function HintsToBase64(hints: seq<SegmentHint>): (s: string)
    ensures |s| == ENCODED_SEGMENT_HINT_SIZE * |hints|
  {
    if hints == [] then "" else HintsToBase64(hints[..|hints| - 1]) + HintToBase64(hints[|hints| - 1])
  }

  function Joined(hints: seq<SegmentHint>): (bytes: seq<byte>)
    ensures |bytes| == HINT_SIZE * |hints|
  {
    if hints == [] then [] else Joined(hints[..|hints| - 1]) + hints[|hints| - 1]
  }

  lemma ReplaceConcat(a: string, b: string)
    ensures Replace(Replace(a + b, '+', '-'), '/', '_')
            == Replace(Replace(a, '+', '-'), '/', '_') + Replace(Replace(b, '+', '-'), '/', '_')
  {
  }

  /** The alphabet of section 5 differs from that of section 4 in two characters. */
  predicate UrlSafe(text: string, plain: string) {
    |text| == |plain|
    && forall i :: 0 <= i < |plain|
                   ==> text[i] == if plain[i] == '+' then '-' else if plain[i] == '/' then '_' else plain[i]
  }

  /** Because 84 is a multiple of three, the text of several hints is the text of their bytes put together. */
  lemma {:induction false} HintsAreOneText(hints: seq<SegmentHint>)
    ensures HintsToBase64(hints) == Replace(Replace(Encoded(Joined(hints)), '+', '-'), '/', '_')
    ensures UrlSafe(HintsToBase64(hints), Rfc4648(Joined(hints)))
  {
    hide Encoded, Replace, Triples, PadSize, Rfc4648;
    EncodesAsRfc4648(Joined(hints));
    if hints == [] {
      NothingEncoded();
    } else {
      var n := |hints| - 1;
      HintsAreOneText(hints[..n]);
      EncodedConcat(Joined(hints[..n]), hints[n]);
      ReplaceConcat(Encoded(Joined(hints[..n])), Encoded(hints[n]));
    }
  }

  function Piece(base64Hint: string, i: nat): (piece: string)
    requires ENCODED_SEGMENT_HINT_SIZE * (i + 1) <= |base64Hint|
    ensures |piece| == ENCODED_SEGMENT_HINT_SIZE
  {
    base64Hint[ENCODED_SEGMENT_HINT_SIZE * i..ENCODED_SEGMENT_HINT_SIZE * (i + 1)]
  }

  /** `Hint::FromBase64`: cut into pieces of 112 characters. */
  method HintsFromBase64(base64Hint: string, created: nat -> SegmentHint) returns (res: seq<Option<SegmentHint>>)
    requires |base64Hint| % ENCODED_SEGMENT_HINT_SIZE == 0
    requires forall i: nat :: ENCODED_SEGMENT_HINT_SIZE * (i + 1) <= |base64Hint|
                              ==> Count(Piece(base64Hint, i), '=') <= HINT_SIZE
    ensures ENCODED_SEGMENT_HINT_SIZE * |res| == |base64Hint|
    ensures forall i :: 0 <= i < |res| ==> res[i] == HintDecoded(Piece(base64Hint, i), created(i))
  {
    hide HintDecoded;
    res := [];
    var numHints := |base64Hint| / ENCODED_SEGMENT_HINT_SIZE;
    for i := 0 to numHints
      invariant |res| == i
      invariant forall k :: 0 <= k < i ==> res[k] == HintDecoded(Piece(base64Hint, k), created(k))
    {
      var hint := HintFromBase64(Piece(base64Hint, i), created(i));
      res := res + [hint];
    }
  }

  /** The whole list of hints comes back, one by one. */
  lemma HintsRoundTrip(hints: seq<SegmentHint>, i: nat, created: SegmentHint)
    requires i < |hints|
    ensures var piece := Piece(HintsToBase64(hints), i);
            Count(piece, '=') == 0 && HintDecoded(piece, created) == Some(hints[i])
  {
    hide HintDecoded, HintToBase64;
    PieceOfHints(hints, i);
    HintRoundTrip(hints[i], created);
  }

  lemma {:induction false} PieceOfHints(hints: seq<SegmentHint>, i: nat)
    requires i < |hints|
    ensures Piece(HintsToBase64(hints), i) == HintToBase64(hints[i])
  {
    hide HintToBase64;
    var n := |hints| - 1;
    var all, before := HintsToBase64(hints), HintsToBase64(hints[..n]);
    if i < n {
      PieceOfHints(hints[..n], i);
      assert Piece(all, i) == Piece(before, i);
    } else {
      assert Piece(all, i) == all[|before|..] == HintToBase64(hints[n]);
    }
  }
}
