/**
 Percent-encoding as src/urlcode.c does it (sections 2.1 and 2.3 of RFC 3986, with
 '+' for a space). Bytes are 8-bit vectors; C strings are sequences without a zero.
 */
module UrlCode {
  import opened Wrappers

  const SPACE: Byte := 32
  const PERCENT: Byte := 37
  const PLUS: Byte := 43

  predicate CString(s: seq<Byte>) {
    forall i :: 0 <= i < |s| ==> s[i] != 0
  }

  // isdigit, isalnum and tolower in the C locale.
  predicate IsDigit(c: Byte) {
    48 <= c <= 57
  }

  predicate IsAlnum(c: Byte) {
    IsDigit(c) || 65 <= c <= 90 || 97 <= c <= 122
  }

  function ToLower(c: Byte): Byte {
    if 65 <= c <= 90 then c + 32 else c
  }

  predicate Unreserved(c: Byte) {
    IsAlnum(c) || c == 45 || c == 95 || c == 46 || c == 126
  }

  function FromHex(c: Byte): Byte {
    if IsDigit(c) then c - 48 else ToLower(c) - 97 + 10
  }

  // The byte written as two hexadecimal characters.
  function Unhex(high: Byte, low: Byte): Byte {
    (FromHex(high) << 4) | FromHex(low)
  }

  // The lower-case hexadecimal digit of the low four bits.
  function ToHex(code: Byte): Byte {
    var n := code & 15;
    if n < 10 then 48 + n else 97 + (n - 10)
  }

  predicate IsLowerHex(c: Byte) {
    IsDigit(c) || 97 <= c <= 102
  }

  function Escape(c: Byte): (r: seq<Byte>)
    ensures |r| == 3
  {
    [PERCENT, ToHex(c >> 4), ToHex(c & 15)]
  }

  lemma EscapeDigits(c: Byte)
    ensures IsLowerHex(ToHex(c))
    ensures Unhex(ToHex(c >> 4), ToHex(c & 15)) == c
  {
  }

  function EncodeByte(c: Byte): (r: seq<Byte>)
    ensures 1 <= |r| <= 3
  {
    if Unreserved(c) then [c] else if c == SPACE then [PLUS] else Escape(c)
  }

  function Encode(s: seq<Byte>): seq<Byte> {
    if s == [] then [] else EncodeByte(s[0]) + Encode(s[1..])
  }

  function EncodeSpaces(s: seq<Byte>): seq<Byte> {
    if s == [] then [] else (if s[0] == SPACE then Escape(SPACE) else [s[0]]) + EncodeSpaces(s[1..])
  }

  function Decode(s: seq<Byte>): seq<Byte> {
    if s == [] then []
    else if s[0] == PERCENT then
      if |s| >= 3 then [Unhex(s[1], s[2])] + Decode(s[3..]) else Decode(s[1..])
    else if s[0] == PLUS then [SPACE] + Decode(s[1..])
    else [s[0]] + Decode(s[1..])
  }

  lemma DecodeOfEncodedByte(c: Byte, rest: seq<Byte>)
    ensures Decode(EncodeByte(c) + rest) == [c] + Decode(rest)
  {
    hide Unhex, ToHex;
    var s := EncodeByte(c) + rest;
    if Unreserved(c) || c == SPACE {
      assert s[1..] == rest;
    } else {
      assert s[3..] == rest;
      EscapeDigits(c);
    }
  }

  /** Decoding inverts encoding. */
  lemma {:induction false} DecodeInvertsEncode(s: seq<Byte>)
    ensures Decode(Encode(s)) == s
  {
    hide EncodeByte;
    if s != [] {
      DecodeOfEncodedByte(s[0], Encode(s[1..]));
      DecodeInvertsEncode(s[1..]);
    }
  }

  predicate UrlSafe(c: Byte) {
    Unreserved(c) || c == PLUS || c == PERCENT
  }

  // Every '%' of an encoding is followed by two lower-case hexadecimal digits.
  predicate WellEscaped(s: seq<Byte>) {
    if s == [] then true
    else if s[0] == PERCENT then |s| >= 3 && IsLowerHex(s[1]) && IsLowerHex(s[2]) && WellEscaped(s[3..])
    else UrlSafe(s[0]) && WellEscaped(s[1..])
  }

  /** The encoding uses only unreserved characters, '+' and escapes, and is at most three
      times as long. */
  lemma {:induction false} EncodeIsUrlSafe(s: seq<Byte>)
    ensures WellEscaped(Encode(s)) && CString(Encode(s))
    ensures |s| <= |Encode(s)| <= 3 * |s|
  {
    hide ToHex, IsLowerHex;
    if s != [] {
      EncodeIsUrlSafe(s[1..]);
      var rest := Encode(s[1..]);
      EscapedByteIsSafe(s[0], rest);
    }
  }

  lemma EscapedByteIsSafe(c: Byte, rest: seq<Byte>)
    requires WellEscaped(rest) && CString(rest)
    ensures WellEscaped(EncodeByte(c) + rest) && CString(EncodeByte(c) + rest)
  {
    hide ToHex;
    var s := EncodeByte(c) + rest;
    EscapeDigits(c >> 4);
    EscapeDigits(c & 15);
    if Unreserved(c) || c == SPACE {
      assert s[1..] == rest;
    } else {
      assert s[3..] == rest;
    }
  }

  predicate Without(c: Byte, s: seq<Byte>) {
    forall i :: 0 <= i < |s| ==> s[i] != c
  }

  lemma {:induction false} EncodeSpacesHasNone(s: seq<Byte>)
    ensures Without(SPACE, EncodeSpaces(s))
    ensures |s| <= |EncodeSpaces(s)| <= 3 * |s|
  {
    if s != [] { EncodeSpacesHasNone(s[1..]); }
  }

  lemma {:induction false} NothingToEncode(s: seq<Byte>)
    requires Without(SPACE, s)
    ensures EncodeSpaces(s) == s
  {
    if s != [] { NothingToEncode(s[1..]); }
  }

  /** Encoding white space twice is the same as once, and it changes exactly the strings
      that have a space. */
  lemma EncodeSpacesIsIdempotent(s: seq<Byte>)
    ensures EncodeSpaces(EncodeSpaces(s)) == EncodeSpaces(s)
    ensures EncodeSpaces(s) == s <==> Without(SPACE, s)
  {
    EncodeSpacesHasNone(s);
    NothingToEncode(EncodeSpaces(s));
    if Without(SPACE, s) { NothingToEncode(s); }
  }

  lemma {:induction false} DecodeUndoesEncodeSpaces(s: seq<Byte>)
    requires Without(PERCENT, s) && Without(PLUS, s)
    ensures Decode(EncodeSpaces(s)) == s
  {
    if s != [] {
      var rest := EncodeSpaces(s[1..]);
      DecodeUndoesEncodeSpaces(s[1..]);
      if s[0] == SPACE {
        EscapeDigits(SPACE);
        assert (Escape(SPACE) + rest)[3..] == rest;
      } else {
        assert ([s[0]] + rest)[1..] == rest;
      }
    }
  }

  // ---- what the codes are ----

  /** Hexadecimal digits, lower case when written, either case when read. */
  lemma HexDigits()
    ensures [ToHex(0), ToHex(1), ToHex(2), ToHex(3), ToHex(4), ToHex(5), ToHex(6), ToHex(7)] ==
            [48, 49, 50, 51, 52, 53, 54, 55]
    ensures [ToHex(8), ToHex(9), ToHex(10), ToHex(11), ToHex(12), ToHex(13), ToHex(14), ToHex(15)] ==
            [56, 57, 97, 98, 99, 100, 101, 102]
    ensures forall c: Byte :: 48 <= c <= 57 ==> FromHex(c) == c - 48
    ensures forall c: Byte :: !(48 <= c <= 57 || 65 <= c <= 90) ==> FromHex(c) == c - 97 + 10
    ensures forall c: Byte :: 65 <= c <= 90 ==> FromHex(c) == c - 65 + 10
  {
  }

  /** Letters, digits, and - . _ ~ stand for themselves, a space becomes a plus sign, and
      any other byte an escape of its two hexadecimal digits. */
  lemma EncodedByte(c: Byte)
    ensures var plain := || 48 <= c <= 57 || 65 <= c <= 90 || 97 <= c <= 122
                         || c == 45 || c == 46 || c == 95 || c == 126;
            Encode([c]) == if plain then [c] else if c == 32 then [43] else [37, ToHex(c >> 4), ToHex(c & 15)]
  {
    assert Encode([c][1..]) == [];
  }

  lemma {:induction false} EncodeIsByBytes(s: seq<Byte>, t: seq<Byte>)
    ensures Encode(s + t) == Encode(s) + Encode(t)
  {
    hide EncodeByte;
    if s == [] {
      assert s + t == t;
    } else {
      assert (s + t)[1..] == s[1..] + t;
      EncodeIsByBytes(s[1..], t);
    }
  }

  /** Only a space is escaped, as %20. */
  lemma EncodedSpace(c: Byte, s: seq<Byte>)
    ensures EncodeSpaces([c] + s) == (if c == 32 then [37, 50, 48] else [c]) + EncodeSpaces(s)
  {
    assert ([c] + s)[1..] == s;
    SpaceDigits();
  }

  lemma SpaceDigits()
    ensures Escape(32) == [37, 50, 48]
  {
  }

  /** Reading: an escape is the byte with these two digits, a plus sign a space, a percent
      sign without two characters after it nothing, and anything else itself. */
  lemma DecodedStep(c: Byte, s: seq<Byte>)
    ensures c != 37 ==> Decode([c] + s) == [if c == 43 then 32 else c] + Decode(s)
    ensures c == 37 && |s| >= 2 ==> Decode([c] + s) == [(FromHex(s[0]) << 4) | FromHex(s[1])] + Decode(s[2..])
    ensures c == 37 && |s| < 2 ==> Decode([c] + s) == Decode(s)
    ensures Decode([]) == []
  {
    hide FromHex;
    var t := [c] + s;
    assert t[1..] == s;
    if |s| >= 2 { assert t[3..] == s[2..]; }
  }

  // ---- the routines ----

  // Bytes put at the write position.
  method Append(buf: array<Byte>, n: nat, t: seq<Byte>) returns (m: nat)
    requires n + |t| <= buf.Length
    modifies buf
    ensures m == n + |t| && buf[..m] == old(buf[..n]) + t
  {
    for k := 0 to |t|
      invariant buf[..n] == old(buf[..n])
      invariant buf[n..n + k] == t[..k]
    {
      buf[n + k] := t[k];
    }
    m := n + |t|;
    assert buf[..m] == buf[..n] + buf[n..m];
  }

  lemma EncodeStep(s: seq<Byte>, p: nat)
    requires p < |s|
    ensures Encode(s[p..]) ==
            (if Unreserved(s[p]) then [s[p]] else if s[p] == SPACE then [PLUS] else Escape(s[p])) + Encode(s[p + 1..])
  {
    assert s[p..][1..] == s[p + 1..];
  }

  lemma DecodeStep(s: seq<Byte>, p: nat)
    requires p < |s|
    ensures Decode(s[p..]) ==
            if s[p] == PERCENT then
              if p + 2 < |s| then [Unhex(s[p + 1], s[p + 2])] + Decode(s[p + 3..]) else Decode(s[p + 1..])
            else [if s[p] == PLUS then SPACE else s[p]] + Decode(s[p + 1..])
  {
    hide Unhex;
    assert s[p..][1..] == s[p + 1..];
    if p + 2 < |s| { assert s[p..][3..] == s[p + 3..]; }
  }

  lemma SpacesStep(s: seq<Byte>, p: nat)
    requires p < |s|
    ensures EncodeSpaces(s[p..]) == (if s[p] == SPACE then Escape(s[p]) else [s[p]]) + EncodeSpaces(s[p + 1..])
  {
    assert s[p..][1..] == s[p + 1..];
  }

  lemma NothingSpaced()
    ensures EncodeSpaces([]) == []
  {
  }

  lemma NothingEncoded()
    ensures Encode([]) == []
  {
  }

  lemma NothingDecoded()
    ensures Decode([]) == []
  {
  }

  method UrlEncode(str: seq<Byte>) returns (buf: array<Byte>, len: nat)
    requires CString(str)
    ensures fresh(buf) && len < buf.Length == 3 * |str| + 1
    ensures buf[..len] == Encode(str) && buf[len] == 0
  {
    hide Unreserved, Escape, EncodeByte, Encode;
    buf := new Byte[3 * |str| + 1];
    var p := 0;
    len := 0;
    assert str[0..] == str;
    while p < |str|
      invariant 0 <= p <= |str| && len <= 3 * p
      invariant buf[..len] + Encode(str[p..]) == Encode(str)
    {
      EncodeStep(str, p);
      if Unreserved(str[p]) {
        len := Append(buf, len, [str[p]]);
      } else if str[p] == SPACE {
        len := Append(buf, len, [PLUS]);
      } else {
        len := Append(buf, len, Escape(str[p]));
      }
      p := p + 1;
    }
    assert str[p..] == [];
    NothingEncoded();
    buf[len] := 0;
  }

  method UrlEncodeWhitespace(str: seq<Byte>) returns (buf: array<Byte>, len: nat)
    requires CString(str)
    ensures fresh(buf) && len < buf.Length == 3 * |str| + 1
    ensures buf[..len] == EncodeSpaces(str) && buf[len] == 0
  {
    hide Escape, EncodeSpaces;
    buf := new Byte[3 * |str| + 1];
    var p := 0;
    len := 0;
    assert str[0..] == str;
    while p < |str|
      invariant 0 <= p <= |str| && len <= 3 * p
      invariant buf[..len] + EncodeSpaces(str[p..]) == EncodeSpaces(str)
    {
      SpacesStep(str, p);
      if str[p] == SPACE {
        len := Append(buf, len, Escape(str[p]));
      } else {
        len := Append(buf, len, [str[p]]);
      }
      p := p + 1;
    }
    assert str[p..] == [];
    NothingSpaced();
    buf[len] := 0;
  }

  method UrlDecode(str: seq<Byte>) returns (buf: array<Byte>, len: nat)
    requires CString(str)
    ensures fresh(buf) && len < buf.Length == |str| + 1
    ensures buf[..len] == Decode(str) && buf[len] == 0
  {
    hide Unhex, Decode, CString;
    buf := new Byte[|str| + 1];
    var p := 0;
    len := 0;
    assert str[0..] == str;
    while p < |str|
      invariant 0 <= p <= |str| && len <= p
      invariant buf[..len] + Decode(str[p..]) == Decode(str)
      decreases |str| - p
    {
      DecodeStep(str, p);
      if str[p] == PERCENT {
        if p + 1 < |str| && p + 2 < |str| {
          var c := Unhex(str[p + 1], str[p + 2]);
          len := Append(buf, len, [c]);
          p := p + 2;
        }
      } else if str[p] == PLUS {
        len := Append(buf, len, [SPACE]);
      } else {
        len := Append(buf, len, [str[p]]);
      }
      p := p + 1;
    }
    assert str[p..] == [];
    NothingDecoded();
    buf[len] := 0;
  }
}
