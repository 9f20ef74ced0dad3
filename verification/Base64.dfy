/**
 Base64 as src/base64.c encodes and decodes it (section 4 of RFC 4648). Bytes are
 8-bit vectors, so shifts, masks and the wrap-around of unsigned char are exact.
 */
module Base64 {
  import opened Wrappers

  const PAD: Byte := 61           // '='
  const NOT_FOUND: Byte := 255    // (unsigned char) -1
  const UINT32: nat := 0x1_0000_0000

  // alphabet[i]: A-Z, a-z, 0-9, '+', '/'.
  function Alphabet(i: Byte): (c: Byte)
    requires i < 64
    ensures IsBase64(c)
  {
    if i < 26 then 65 + i else if i < 52 then 97 + (i - 26)
    else if i < 62 then 48 + (i - 52) else if i == 62 then 43 else 47
  }

  // isalnum in the C locale, '+' or '/'.
  predicate IsBase64(c: Byte) {
    48 <= c <= 57 || 65 <= c <= 90 || 97 <= c <= 122 || c == 43 || c == 47
  }

  // The search of find(), as a position.
  function Index(c: Byte): (i: Byte)
    ensures IsBase64(c) ==> i < 64 && Alphabet(i) == c
    ensures !IsBase64(c) ==> i == NOT_FOUND
  {
    if 65 <= c <= 90 then c - 65
    else if 97 <= c <= 122 then c - 97 + 26
    else if 48 <= c <= 57 then c - 48 + 52
    else if c == 43 then 62
    else if c == 47 then 63
    else NOT_FOUND
  }

  lemma AlphabetIsInjective(i: Byte, j: Byte)
    requires i < 64 && j < 64 && Alphabet(i) == Alphabet(j)
    ensures i == j
  {
  }

  // The four 6-bit indices of three bytes, and back.
  function Sextet(b: (Byte, Byte, Byte), k: nat): (i: Byte)
    requires k < 4
    ensures i < 64
  {
    if k == 0 then (b.0 & 0xfc) >> 2
    else if k == 1 then ((b.0 & 0x03) << 4) + ((b.1 & 0xf0) >> 4)
    else if k == 2 then ((b.1 & 0x0f) << 2) + ((b.2 & 0xc0) >> 6)
    else b.2 & 0x3f
  }

  function Octet(a: (Byte, Byte, Byte, Byte), k: nat): Byte
    requires k < 3
  {
    if k == 0 then (a.0 << 2) + ((a.1 & 0x30) >> 4)
    else if k == 1 then ((a.1 & 0xf) << 4) + ((a.2 & 0x3c) >> 2)
    else ((a.2 & 0x3) << 6) + a.3
  }

  lemma OctetsInvertSextets(b: (Byte, Byte, Byte))
    ensures var a := (Sextet(b, 0), Sextet(b, 1), Sextet(b, 2), Sextet(b, 3));
            Octet(a, 0) == b.0 && Octet(a, 1) == b.1 && Octet(a, 2) == b.2
  {
  }

  function Group(b: (Byte, Byte, Byte)): (s: seq<Byte>)
    ensures |s| == 4 && forall k :: 0 <= k < 4 ==> IsBase64(s[k])
  {
    [Alphabet(Sextet(b, 0)), Alphabet(Sextet(b, 1)), Alphabet(Sextet(b, 2)), Alphabet(Sextet(b, 3))]
  }

  // The last one or two bytes: zero-filled, cut short and padded with '='.
  function TailGroup(x: seq<Byte>): (s: seq<Byte>)
    requires 1 <= |x| <= 2
    ensures |s| == 4
  {
    if |x| == 1 then Group((x[0], 0, 0))[..2] + [PAD, PAD] else Group((x[0], x[1], 0))[..3] + [PAD]
  }

  /** The encoding of a byte string. */
  function Encode(x: seq<Byte>): (s: seq<Byte>)
    ensures |s| == 4 * ((|x| + 2) / 3)
  {
    if x == [] then []
    else if |x| < 3 then TailGroup(x)
    else Group((x[0], x[1], x[2])) + Encode(x[3..])
  }

  // The characters decoding looks at: up to the first that is not in the alphabet.
  function Run(s: seq<Byte>): (t: seq<Byte>)
    ensures |t| <= |s| && t == s[..|t|]
    ensures forall k :: 0 <= k < |t| ==> IsBase64(t[k]) && t[k] != PAD
    ensures |t| < |s| ==> s[|t|] == PAD || !IsBase64(s[|t|])
  {
    if s == [] || s[0] == PAD || !IsBase64(s[0]) then [] else [s[0]] + Run(s[1..])
  }

  function Octets(a: (Byte, Byte, Byte, Byte)): (s: seq<Byte>)
    ensures |s| == 3
  {
    [Octet(a, 0), Octet(a, 1), Octet(a, 2)]
  }

  // A short last group: the missing slots hold what find() returns for a NUL.
  function TailOctets(t: seq<Byte>): (s: seq<Byte>)
    requires 1 <= |t| <= 3
    ensures |s| == |t| - 1
  {
    Octets((Index(t[0]), if |t| > 1 then Index(t[1]) else NOT_FOUND,
        if |t| > 2 then Index(t[2]) else NOT_FOUND, NOT_FOUND))[..|t| - 1]
  }

  // Three bytes for a group of four characters, one less than its length for a short one.
  function DecodedLength(n: nat): nat {
    3 * (n / 4) + if n % 4 == 0 then 0 else n % 4 - 1
  }

  function DecodeRun(t: seq<Byte>): (x: seq<Byte>)
    ensures |x| == DecodedLength(|t|)
  {
    if t == [] then []
    else if |t| < 4 then TailOctets(t)
    else Octets((Index(t[0]), Index(t[1]), Index(t[2]), Index(t[3]))) + DecodeRun(t[4..])
  }

  /** The bytes a text decodes to. */
  function Decode(s: seq<Byte>): seq<Byte> {
    DecodeRun(Run(s))
  }

  /** The -1 that find() leaves in the padding slots has no influence on a decoded byte. */
  lemma PaddingHasNoInfluence(t: seq<Byte>, p1: Byte, p2: Byte, p3: Byte)
    requires 1 <= |t| <= 3
    ensures TailOctets(t) ==
            Octets((Index(t[0]), if |t| > 1 then Index(t[1]) else p1,
                if |t| > 2 then Index(t[2]) else p2, p3))[..|t| - 1]
  {
  }

  lemma IndexOfAlphabet(i: Byte)
    requires i < 64
    ensures Index(Alphabet(i)) == i
  {
    AlphabetIsInjective(Index(Alphabet(i)), i);
  }

  lemma GroupDecodes(b: (Byte, Byte, Byte))
    ensures var g := Group(b);
            Octets((Index(g[0]), Index(g[1]), Index(g[2]), Index(g[3]))) == [b.0, b.1, b.2]
  {
    hide Alphabet, Index;
    IndexOfAlphabet(Sextet(b, 0));
    IndexOfAlphabet(Sextet(b, 1));
    IndexOfAlphabet(Sextet(b, 2));
    IndexOfAlphabet(Sextet(b, 3));
    OctetsInvertSextets(b);
  }

  lemma {:induction false} RunOfLetters(g: seq<Byte>, rest: seq<Byte>)
    requires forall k :: 0 <= k < |g| ==> IsBase64(g[k])
    ensures Run(g + rest) == g + Run(rest)
  {
    if g == [] {
      assert g + rest == rest;
      assert g + Run(rest) == Run(rest);
    } else {
      assert (g + rest)[1..] == g[1..] + rest;
      RunOfLetters(g[1..], rest);
    }
  }

  lemma TailDecodes(x: seq<Byte>)
    requires 1 <= |x| <= 2
    ensures Decode(TailGroup(x)) == x
  {
    hide Alphabet, Index, Octet, Sextet;
    var g := Group((x[0], if |x| == 2 then x[1] else 0, 0));
    var t := g[..|x| + 1];
    var pads := if |x| == 1 then [PAD, PAD] else [PAD];
    assert TailGroup(x) == t + pads;
    RunOfLetters(t, pads);
    assert Run(pads) == [];
    assert Run(TailGroup(x)) == t;
    PaddingHasNoInfluence(t, Index(g[1]), Index(g[2]), Index(g[3]));
    GroupDecodes((x[0], if |x| == 2 then x[1] else 0, 0));
  }

  /** Decoding inverts encoding, for every byte string. */
  lemma {:induction false} DecodeInvertsEncode(x: seq<Byte>)
    ensures Decode(Encode(x)) == x
  {
    hide Alphabet, Index, Octet, Sextet, TailGroup;
    if x == [] {
    } else if |x| < 3 {
      TailDecodes(x);
    } else {
      var b := (x[0], x[1], x[2]);
      var rest := Encode(x[3..]);
      RunOfLetters(Group(b), rest);
      DecodeInvertsEncode(x[3..]);
      GroupDecodes(b);
      var t := Group(b) + Run(rest);
      assert t[4..] == Run(rest);
      assert t[0] == Group(b)[0] && t[1] == Group(b)[1] && t[2] == Group(b)[2] && t[3] == Group(b)[3];
      assert x == [x[0], x[1], x[2]] + x[3..];
    }
  }

  /** The table of section 4 of RFC 4648: A-Z, a-z, 0-9, plus, slash. */
  lemma AlphabetIsTheTable()
    ensures [Alphabet(0), Alphabet(1), Alphabet(2), Alphabet(3), Alphabet(4), Alphabet(5), Alphabet(6),
             Alphabet(7), Alphabet(8), Alphabet(9), Alphabet(10), Alphabet(11), Alphabet(12), Alphabet(13),
             Alphabet(14), Alphabet(15), Alphabet(16), Alphabet(17), Alphabet(18), Alphabet(19), Alphabet(20),
             Alphabet(21), Alphabet(22), Alphabet(23), Alphabet(24), Alphabet(25), Alphabet(26), Alphabet(27),
             Alphabet(28), Alphabet(29), Alphabet(30), Alphabet(31), Alphabet(32), Alphabet(33), Alphabet(34),
             Alphabet(35), Alphabet(36), Alphabet(37), Alphabet(38), Alphabet(39), Alphabet(40), Alphabet(41),
             Alphabet(42), Alphabet(43), Alphabet(44), Alphabet(45), Alphabet(46), Alphabet(47), Alphabet(48),
             Alphabet(49), Alphabet(50), Alphabet(51), Alphabet(52), Alphabet(53), Alphabet(54), Alphabet(55),
             Alphabet(56), Alphabet(57), Alphabet(58), Alphabet(59), Alphabet(60), Alphabet(61), Alphabet(62),
             Alphabet(63)] ==
            [65, 66, 67, 68, 69, 70, 71, 72, 73, 74, 75, 76, 77, 78, 79, 80,
             81, 82, 83, 84, 85, 86, 87, 88, 89, 90, 97, 98, 99, 100, 101, 102,
             103, 104, 105, 106, 107, 108, 109, 110, 111, 112, 113, 114, 115, 116, 117, 118,
             119, 120, 121, 122, 48, 49, 50, 51, 52, 53, 54, 55, 56, 57, 43, 47]
  {
  }

  /** Three bytes become the four characters for their 24 bits, six at a time. */
  lemma GroupKeepsBits(b0: Byte, b1: Byte, b2: Byte) returns (s0: Byte, s1: Byte, s2: Byte, s3: Byte)
    ensures s0 < 64 && s1 < 64 && s2 < 64 && s3 < 64
    ensures Encode([b0, b1, b2]) == [Alphabet(s0), Alphabet(s1), Alphabet(s2), Alphabet(s3)]
    ensures (s0 as bv32 << 18) | (s1 as bv32 << 12) | (s2 as bv32 << 6) | s3 as bv32 ==
            (b0 as bv32 << 16) | (b1 as bv32 << 8) | b2 as bv32
  {
    var b := (b0, b1, b2);
    s0, s1, s2, s3 := Sextet(b, 0), Sextet(b, 1), Sextet(b, 2), Sextet(b, 3);
    hide Alphabet;
    EncodeStep([b0, b1, b2], 0);
    assert [b0, b1, b2][0..] == [b0, b1, b2] && [b0, b1, b2][3..] == [];
    NothingIsEncoded();
  }

  /** One byte over becomes two characters and two signs of padding, two bytes three and
      one; the missing bits are zero. */
  lemma TailKeepsBits(b0: Byte, b1: Byte) returns (s0: Byte, s1: Byte, t0: Byte, t1: Byte, t2: Byte)
    ensures s0 < 64 && s1 < 64 && t0 < 64 && t1 < 64 && t2 < 64
    ensures Encode([b0]) == [Alphabet(s0), Alphabet(s1), 61, 61]
    ensures (s0 as bv32 << 6) | s1 as bv32 == b0 as bv32 << 4
    ensures Encode([b0, b1]) == [Alphabet(t0), Alphabet(t1), Alphabet(t2), 61]
    ensures (t0 as bv32 << 12) | (t1 as bv32 << 6) | t2 as bv32 == (b0 as bv32 << 10) | (b1 as bv32 << 2)
  {
    s0, s1 := Sextet((b0, 0, 0), 0), Sextet((b0, 0, 0), 1);
    t0, t1, t2 := Sextet((b0, b1, 0), 0), Sextet((b0, b1, 0), 1), Sextet((b0, b1, 0), 2);
    hide Alphabet;
    TailIsEncoded([b0]);
    TailIsEncoded([b0, b1]);
  }

  /** Groups are encoded one after the other. */
  lemma {:induction false} EncodeIsByGroups(x: seq<Byte>, y: seq<Byte>)
    requires |x| % 3 == 0
    ensures Encode(x + y) == Encode(x) + Encode(y)
  {
    hide Group, TailGroup;
    if x == [] {
      assert x + y == y;
    } else {
      assert (x + y)[3..] == x[3..] + y;
      EncodeIsByGroups(x[3..], y);
    }
  }

  /** Decoding stops at the first sign of padding or character outside the table. */
  lemma {:induction false} DecodeStops(s: seq<Byte>, c: Byte, rest: seq<Byte>)
    requires c == 61 || forall i: Byte :: i < 64 ==> Alphabet(i) != c
    ensures Decode(s + [c] + rest) == Decode(s)
  {
    hide Alphabet, Index, IsBase64, DecodeRun;
    assert c == PAD || !IsBase64(c) by { if IsBase64(c) { assert Alphabet(Index(c)) == c; } }
    RunStops(s, c, rest);
  }

  lemma {:induction false} RunStops(s: seq<Byte>, c: Byte, rest: seq<Byte>)
    requires c == PAD || !IsBase64(c)
    ensures Run(s + [c] + rest) == Run(s)
  {
    hide IsBase64;
    if s == [] {
      assert (s + [c] + rest)[0] == c;
    } else {
      assert (s + [c] + rest)[1..] == s[1..] + [c] + rest;
      RunStops(s[1..], c, rest);
    }
  }

  lemma ShortRuns(c0: Byte, c1: Byte, c2: Byte)
    requires IsBase64(c0) && IsBase64(c1) && IsBase64(c2)
    ensures Run([c0]) == [c0] && Run([c0, c1]) == [c0, c1] && Run([c0, c1, c2]) == [c0, c1, c2]
  {
    assert [c0][1..] == [] && [c0, c1][1..] == [c1] && [c1][1..] == [];
    assert [c0, c1, c2][1..] == [c1, c2] && [c1, c2][1..] == [c2] && [c2][1..] == [];
    assert Run([]) == [];
    assert Run([c2]) == [c2] && Run([c1]) == [c1];
    assert Run([c1, c2]) == [c1, c2];
  }

  lemma ShortBits(s0: Byte, s1: Byte, s2: Byte, p2: Byte, p3: Byte)
    requires s0 < 64 && s1 < 64
    ensures Octet((s0, s1, p2, p3), 0) == (s0 << 2) | (s1 >> 4)
    ensures s2 < 64 ==> Octet((s0, s1, s2, p3), 1) == (s1 << 4) | (s2 >> 2)
  {
  }

  /** A short group loses the bits that do not make up a byte. */
  lemma ShortGroups(s0: Byte, s1: Byte, s2: Byte)
    requires s0 < 64 && s1 < 64 && s2 < 64
    ensures Decode([Alphabet(s0)]) == []
    ensures Decode([Alphabet(s0), Alphabet(s1)]) == [(s0 << 2) | (s1 >> 4)]
    ensures Decode([Alphabet(s0), Alphabet(s1), Alphabet(s2)]) == [(s0 << 2) | (s1 >> 4), (s1 << 4) | (s2 >> 2)]
  {
    IndexOfAlphabet(s0);
    IndexOfAlphabet(s1);
    IndexOfAlphabet(s2);
    ShortRuns(Alphabet(s0), Alphabet(s1), Alphabet(s2));
    ShortBits(s0, s1, s2, NOT_FOUND, NOT_FOUND);
    ShortBits(s0, s1, NOT_FOUND, NOT_FOUND, NOT_FOUND);
    hide Alphabet, Run, Index, Octet;
  }

  // ---- the routines ----

  // find(): scan the alphabet.
  method Find(c: Byte) returns (r: Byte)
    ensures r == Index(c)
    ensures if r < 64 then Alphabet(r) == c else r == 255 && forall i: Byte :: i < 64 ==> Alphabet(i) != c
  {
    var i: Byte := 0;
    while i < 64
      invariant i <= 64
      invariant forall k: Byte :: k < i ==> Alphabet(k) != c
      decreases 64 - i
    {
      if Alphabet(i) == c {
        IndexOfAlphabet(i);
        return i;
      }
      i := i + 1;
    }
    return NOT_FOUND;
  }

  // Bytes put into the output from position n on.
  method Emit(out: array<Byte>, n: nat, s: seq<Byte>)
    requires n + |s| <= out.Length
    modifies out
    ensures out[..n + |s|] == old(out[..n]) + s
  {
    for k := 0 to |s|
      invariant out[..n] == old(out[..n])
      invariant out[n..n + k] == s[..k]
    {
      out[n + k] := s[k];
    }
    assert out[..n + |s|] == out[..n] + out[n..n + |s|];
  }

  // enc_size, in uint32_t arithmetic.
  function EncSize(len: nat): nat {
    ((len + 13) % UINT32 / 3 * 4) % UINT32
  }

  /** The longest input whose estimate does not wrap around. */
  const MAX_INPUT: nat := 3221225458

  predicate EncodingFits32Bits(len: nat) {
    4 * ((len + 2) / 3) < UINT32
  }

  // The estimated buffer holds the encoding and its terminator.
  predicate EstimateHolds(len: nat) {
    4 * ((len + 2) / 3) + 1 <= EncSize(len)
  }

  /** For every uint32_t length, the estimate suffices exactly up to MAX_INPUT. Among the
      lengths whose encoding fits 32 bits, it fails for the eleven that follow. */
  lemma EstimateSufficesExactly(len: nat)
    requires 0 < len < UINT32
    ensures EstimateHolds(len) <==> len <= MAX_INPUT
    ensures EncodingFits32Bits(len) && !EstimateHolds(len) <==> MAX_INPUT < len <= MAX_INPUT + 11
  {
  }

  /** At the first of them the estimate has wrapped around to nothing. */
  lemma EstimateWraps()
    ensures EncodingFits32Bits(MAX_INPUT + 1) && EncSize(MAX_INPUT + 1) == 0
    ensures 4 * ((MAX_INPUT + 1 + 2) / 3) == 4294967280
  {
  }

  lemma EstimateIs(len: nat)
    requires len <= MAX_INPUT
    ensures EncSize(len) == (len + 13) / 3 * 4 && 3 * EncSize(len) >= 4 * len + 44
  {
  }

  /** base64_encode with a place to store the length; None is the NULL it returns for
      empty input. */
  method Base64Encode(input: seq<Byte>) returns (out: array?<Byte>, setmeLen: nat)
    requires |input| <= MAX_INPUT
    ensures input == [] ==> out == null && setmeLen == 0
    ensures input != [] ==>
              && out != null && fresh(out)
              && setmeLen < out.Length == EncSize(|input|)
              && out[..setmeLen] == Encode(input) && out[setmeLen] == 0
  {
    hide Encode, Group, TailGroup, Alphabet, EncSize;
    if input == [] {
      return null, 0;
    }
    EstimateIs(|input|);
    out := new Byte[EncSize(|input|)];
    var char3: seq<Byte> := [];
    var count, pos := 0, 0;
    ghost var from := 0;
    assert out[..0] + Encode(input[0..]) == Encode(input);
    while pos < |input|
      invariant 0 <= from <= pos <= |input| && pos < from + 3
      invariant char3 == input[from..pos]
      invariant 3 * count == 4 * from && count <= out.Length
      invariant out[..count] + Encode(input[from..]) == Encode(input)
      decreases |input| - pos
    {
      char3 := char3 + [input[pos]];
      pos := pos + 1;
      if |char3| == 3 {
        EncodeNext(out, count, input, from, char3);
        count := count + 4;
        char3 := [];
        from := pos;
      }
    }
    if char3 != [] {
      assert input[from..] == char3;
      TailIsEncoded(char3);
      Emit(out, count, TailGroup(char3));
      count := count + 4;
    } else {
      assert input[from..] == [];
      NothingIsEncoded();
    }
    assert out[..count] == Encode(input);
    out[count] := 0;
    setmeLen := count;
  }

  // A full group, in the input it comes from.
  method EncodeNext(out: array<Byte>, count: nat, ghost input: seq<Byte>, ghost from: nat, char3: seq<Byte>)
    requires from + 3 <= |input| && char3 == input[from..from + 3] && count + 4 <= out.Length
    modifies out
    ensures out[..count + 4] + Encode(input[from + 3..]) == old(out[..count]) + Encode(input[from..])
  {
    hide Encode, Group;
    EncodeStep(input, from);
    Emit(out, count, Group((char3[0], char3[1], char3[2])));
  }

  lemma TailIsEncoded(x: seq<Byte>)
    requires 1 <= |x| <= 2
    ensures |TailGroup(x)| == 4 && Encode(x) == TailGroup(x)
  {
  }

  lemma NothingIsEncoded()
    ensures Encode([]) == []
  {
  }

  lemma EncodeStep(x: seq<Byte>, p: nat)
    requires p + 3 <= |x|
    ensures Encode(x[p..]) == Group((x[p], x[p + 1], x[p + 2])) + Encode(x[p + 3..])
  {
    assert x[p..][3..] == x[p + 3..];
  }

  // Three characters over, and none of them, or of those before, outside the alphabet.
  predicate ThreeLeftOver(s: seq<Byte>) {
    |s| % 4 == 3 && Run(s) == s
  }

  /** The buffer holds the decoded bytes and their terminator exactly unless three
      characters are left over: then the terminator falls one byte behind it. */
  lemma RoomSufficesExactly(s: seq<Byte>)
    ensures |Decode(s)| + 1 <= DecodedRoom(|s|) <==> !ThreeLeftOver(s)
    ensures ThreeLeftOver(s) ==> |Decode(s)| == DecodedRoom(|s|)
  {
    RunOf(s);
    RoomFor(|s|, |Run(s)|);
    assert |Run(s)| == |s| ==> Run(s) == s;
  }

  /** The shortest such text. */
  lemma ThreeCharactersOverflow()
    ensures var s: seq<Byte> := [65, 65, 65];
            ThreeLeftOver(s) && |Decode(s)| == 2 == DecodedRoom(|s|)
  {
    var s: seq<Byte> := [65, 65, 65];
    assert s[1..] == [65, 65] && s[1..][1..] == [65] && s[1..][1..][1..] == [];
    assert Run([]) == [] && Run([65]) == [65] && Run([65, 65]) == [65, 65];
    RoomSufficesExactly(s);
  }

  lemma RoomFor(len: nat, r: nat)
    requires r <= len
    ensures DecodedLength(r) + 1 <= DecodedRoom(len) <==> !(len % 4 == 3 && r == len)
    ensures len % 4 == 3 && r == len ==> DecodedLength(r) == DecodedRoom(len)
  {
  }

  /** base64_decode, of any text that does not leave three characters over. */
  method Base64Decode(encoded: seq<Byte>) returns (out: array<Byte>, setmeLen: nat)
    requires !ThreeLeftOver(encoded)
    ensures fresh(out) && setmeLen < out.Length == DecodedRoom(|encoded|)
    ensures out[..setmeLen] == Decode(encoded) && out[setmeLen] == 0
  {
    hide Run, DecodeRun, Octets, TailOctets, Index, IsBase64, DecodedRoom, GroupOctets, DecodedLength;
    var size := DecodedRoom(|encoded|);
    out := new Byte[size];
    RunOf(encoded);
    RoomSufficesExactly(encoded);
    ghost var t := Run(encoded);
    var char4: seq<Byte> := [];
    var count, pos := 0, 0;
    ghost var from := 0;
    assert t[0..] == t && out[..0] == [];
    ShortLength(0);
    while pos < |encoded| && encoded[pos] != PAD && IsBase64(encoded[pos])
      invariant 0 <= from <= pos <= |t| && pos < from + 4
      invariant char4 == t[from..pos]
      invariant from % 4 == 0 && count == DecodedLength(from) && count <= size
      invariant out[..count] + DecodeRun(t[from..]) == DecodeRun(t)
      decreases |encoded| - pos
    {
      assert pos < |t| && encoded[pos] == t[pos];
      SliceGrows(t, from, pos);
      char4 := char4 + [encoded[pos]];
      pos := pos + 1;
      if |char4| == 4 {
        FourMore(from);
        RoomFor(|encoded|, from + 4);
        DecodeNext(out, count, t, from, char4);
        count := count + 3;
        char4 := [];
        from := pos;
      }
    }
    assert pos == |t|;
    assert |out[..count] + DecodeRun(t[from..])| == |Decode(encoded)|;
    if char4 != [] {
      assert t[from..] == char4;
      ShortLength(|char4|);
      DecodeTail(out, count, char4);
      count := count + |char4| - 1;
    } else {
      assert t[from..] == [];
      NothingIsDecoded();
    }
    assert out[..count] == DecodeRun(t);
    out[count] := 0;
    setmeLen := count;
  }

  lemma SliceGrows(t: seq<Byte>, from: nat, pos: nat)
    requires from <= pos < |t|
    ensures t[from..pos] + [t[pos]] == t[from..pos + 1]
  {
  }

  method FindAll(c0: Byte, c1: Byte, c2: Byte, c3: Byte) returns (a: (Byte, Byte, Byte, Byte))
    ensures a == (Index(c0), Index(c1), Index(c2), Index(c3))
  {
    var a0 := Find(c0);
    var a1 := Find(c1);
    var a2 := Find(c2);
    var a3 := Find(c3);
    a := (a0, a1, a2, a3);
  }

  lemma OctetsAreThree(a: (Byte, Byte, Byte, Byte))
    ensures |Octets(a)| == 3
  {
  }

  // Four characters, as three bytes.
  function GroupOctets(t: seq<Byte>): seq<Byte>
    requires |t| == 4
  {
    Octets((Index(t[0]), Index(t[1]), Index(t[2]), Index(t[3])))
  }

  method DecodeGroup(out: array<Byte>, count: nat, char4: seq<Byte>)
    requires |char4| == 4 && count + 3 <= out.Length
    modifies out
    ensures out[..count + 3] == old(out[..count]) + GroupOctets(char4)
  {
    hide Octets, Index;
    var a := FindAll(char4[0], char4[1], char4[2], char4[3]);
    OctetsAreThree(a);
    Emit(out, count, Octets(a));
  }

  // A full group, in the run it comes from.
  method DecodeNext(out: array<Byte>, count: nat, ghost t: seq<Byte>, ghost from: nat, char4: seq<Byte>)
    requires from + 4 <= |t| && char4 == t[from..from + 4] && count + 3 <= out.Length
    modifies out
    ensures out[..count + 3] + DecodeRun(t[from + 4..]) == old(out[..count]) + DecodeRun(t[from..])
  {
    hide DecodeRun, GroupOctets;
    DecodeStep(t, from);
    DecodeGroup(out, count, char4);
  }

  // The last, short group of characters.
  method DecodeTail(out: array<Byte>, count: nat, char4: seq<Byte>)
    requires 1 <= |char4| <= 3 && count + |char4| - 1 <= out.Length
    modifies out
    ensures out[..count + |char4| - 1] == old(out[..count]) + DecodeRun(char4)
  {
    hide DecodeRun, Octets, TailOctets, Index, DecodedLength;
    TailIsDecoded(char4);
    var a := FindAll(char4[0], if |char4| > 1 then char4[1] else 0, if |char4| > 2 then char4[2] else 0, 0);
    OctetsAreThree(a);
    Emit(out, count, Octets(a)[..|char4| - 1]);
  }

  // The size of the output buffer.
  function DecodedRoom(len: nat): nat {
    3 * (len / 4) + 2
  }

  lemma FourMore(n: nat)
    requires n % 4 == 0
    ensures (n + 4) % 4 == 0 && DecodedLength(n + 4) == DecodedLength(n) + 3
  {
  }

  lemma ShortLength(n: nat)
    requires n < 4
    ensures DecodedLength(n) == if n == 0 then 0 else n - 1
  {
  }

  lemma TailIsDecoded(t: seq<Byte>)
    requires 1 <= |t| <= 3
    ensures DecodeRun(t) ==
            Octets((Index(t[0]), Index(if |t| > 1 then t[1] else 0),
                Index(if |t| > 2 then t[2] else 0), Index(0)))[..|t| - 1]
  {
    assert Index(0) == NOT_FOUND;
  }

  lemma NothingIsDecoded()
    ensures DecodeRun([]) == []
  {
  }

  lemma RunOf(s: seq<Byte>)
    ensures Run(s) <= s && forall k :: 0 <= k < |Run(s)| ==> s[k] != PAD && IsBase64(s[k])
    ensures |Run(s)| < |s| ==> s[|Run(s)|] == PAD || !IsBase64(s[|Run(s)|])
  {
  }

  lemma DecodeStep(t: seq<Byte>, p: nat)
    requires p + 4 <= |t|
    ensures DecodeRun(t[p..]) == GroupOctets(t[p..p + 4]) + DecodeRun(t[p + 4..])
  {
    hide Octets, Index;
    assert t[p..][4..] == t[p + 4..];
  }
}
