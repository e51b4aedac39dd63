/** UTF-8 as section 3 of RFC 3629 defines it, with a decoder that rejects everything else. */
module Utf8 {
  import opened Wrappers

  type Byte = b: int | 0 <= b < 256

  function Tail(n: nat): Byte {
    0x80 + n % 64
  }

  function EncodeCharacter(c: char): (bytes: seq<Byte>)
    ensures bytes != []
  {
    var n := c as int;
    if n < 0x80 then [n]
    else if n < 0x800 then [0xC0 + n / 64, Tail(n)]
    else if n < 0x10000 then [0xE0 + n / 64 / 64, Tail(n / 64), Tail(n)]
    else [0xF0 + n / 64 / 64 / 64, Tail(n / 64 / 64), Tail(n / 64), Tail(n)]
  }

  function Encode(s: string): seq<Byte> {
    if s == "" then [] else EncodeCharacter(s[0]) + Encode(s[1..])
  }

  predicate IsTail(b: Byte) {
    0x80 <= b < 0xC0
  }

  /** The range of the second byte depends on the first: no overlong forms, no surrogates, nothing past U+10FFFF. */
  predicate SecondFits(first: Byte, second: Byte) {
    IsTail(second)
    && (first == 0xE0 ==> second >= 0xA0) && (first == 0xED ==> second < 0xA0)
    && (first == 0xF0 ==> second >= 0x90) && (first == 0xF4 ==> second < 0x90)
  }

  /** How many bytes a character takes by its first byte; None for a byte that starts no character. */
  function LengthFrom(first: Byte): Option<nat> {
    if first < 0x80 then Some(1)
    else if 0xC2 <= first < 0xE0 then Some(2)
    else if 0xE0 <= first < 0xF0 then Some(3)
    else if 0xF0 <= first < 0xF5 then Some(4)
    else None
  }

  predicate StartsCharacter(bytes: seq<Byte>) {
    bytes != [] &&
    var length := LengthFrom(bytes[0]);
    length.Some? && length.value <= |bytes| &&
    (length.value > 1 ==> SecondFits(bytes[0], bytes[1])) &&
    (length.value > 2 ==> IsTail(bytes[2])) &&
    (length.value > 3 ==> IsTail(bytes[3]))
  }

  /** Appending six more bits. */
  function Shifted(n: int, tail: Byte): int {
    n * 64 + (tail as int - 0x80)
  }

  function FirstCharacter(bytes: seq<Byte>): char
    requires StartsCharacter(bytes)
  {
    var a := bytes[0] as int;
    if a < 0x80 then a as char
    else if a < 0xE0 then Shifted(a - 0xC0, bytes[1]) as char
    else if a < 0xF0 then Shifted(Shifted(a - 0xE0, bytes[1]), bytes[2]) as char
    else Shifted(Shifted(Shifted(a - 0xF0, bytes[1]), bytes[2]), bytes[3]) as char
  }

  /** Decodes a whole byte sequence, or nothing. */
  function Decode(bytes: seq<Byte>): Option<string> {
    if bytes == [] then Some("")
    else if !StartsCharacter(bytes) then None
    else
      var rest := Decode(bytes[LengthFrom(bytes[0]).value..]);
      if rest.None? then None else Some([FirstCharacter(bytes)] + rest.value)
  }

  // ----- Round trips -----

  lemma CharacterDecodesAlone(c: char)
    ensures var e := EncodeCharacter(c);
            StartsCharacter(e) && FirstCharacter(e) == c && LengthFrom(e[0]) == Some(|e|)
  {
  }

  lemma FrontDecides(e: seq<Byte>, bytes: seq<Byte>)
    requires StartsCharacter(e) && LengthFrom(e[0]) == Some(|e|) && e <= bytes
    ensures StartsCharacter(bytes) && FirstCharacter(bytes) == FirstCharacter(e)
    ensures LengthFrom(bytes[0]) == Some(|e|)
  {
    hide Shifted;
    assert forall i :: 0 <= i < |e| ==> bytes[i] == e[i];
    assert bytes[0] == e[0];
  }

  lemma CharacterDecodes(c: char, rest: seq<Byte>)
    ensures var bytes := EncodeCharacter(c) + rest;
            StartsCharacter(bytes) && FirstCharacter(bytes) == c
            && LengthFrom(bytes[0]) == Some(|EncodeCharacter(c)|)
            && bytes[|EncodeCharacter(c)|..] == rest
  {
    hide StartsCharacter, FirstCharacter, EncodeCharacter, LengthFrom;
    CharacterDecodesAlone(c);
    FrontDecides(EncodeCharacter(c), EncodeCharacter(c) + rest);
  }

  lemma {:induction false} DecodeEncode(s: string)
    ensures Decode(Encode(s)) == Some(s)
  {
    if s != "" {
      DecodeEncode(s[1..]);
      CharacterDecodes(s[0], Encode(s[1..]));
      assert s == [s[0]] + s[1..];
    }
  }

  lemma CharacterEncodesAlone(e: seq<Byte>)
    requires StartsCharacter(e) && LengthFrom(e[0]) == Some(|e|)
    ensures EncodeCharacter(FirstCharacter(e)) == e
  {
    hide Tail;
    var a := e[0] as int;
    if |e| == 2 {
      ShiftedDigits(a - 0xC0, e[1]);
    } else if |e| == 3 {
      ShiftedDigits(a - 0xE0, e[1]);
      ShiftedDigits(Shifted(a - 0xE0, e[1]), e[2]);
    } else if |e| == 4 {
      ShiftedDigits(a - 0xF0, e[1]);
      ShiftedDigits(Shifted(a - 0xF0, e[1]), e[2]);
      ShiftedDigits(Shifted(Shifted(a - 0xF0, e[1]), e[2]), e[3]);
    }
  }

  lemma ShiftedDigits(n: nat, tail: Byte)
    requires IsTail(tail)
    ensures Shifted(n, tail) >= 0 && Shifted(n, tail) / 64 == n && Tail(Shifted(n, tail)) == tail
  {
  }

  lemma CharacterEncodes(bytes: seq<Byte>)
    requires StartsCharacter(bytes)
    ensures EncodeCharacter(FirstCharacter(bytes)) == bytes[..LengthFrom(bytes[0]).value]
  {
    hide EncodeCharacter, FirstCharacter;
    var e := bytes[..LengthFrom(bytes[0]).value];
    CharacterEncodesAlone(e);
    FrontDecides(e, bytes);
  }

  /** What decodes is the encoding of its result: the decoder accepts no second spelling. */
  lemma {:induction false} EncodeDecode(bytes: seq<Byte>)
    requires Decode(bytes).Some?
    ensures Encode(Decode(bytes).value) == bytes
  {
    hide FirstCharacter, EncodeCharacter, SecondFits;
    if bytes != [] {
      var length := LengthFrom(bytes[0]).value;
      CharacterEncodes(bytes);
      EncodeDecode(bytes[length..]);
      var s := Decode(bytes).value;
      assert s[0] == FirstCharacter(bytes) && s[1..] == Decode(bytes[length..]).value;
    }
  }

  // ----- Lengths -----

  predicate IsAscii(s: string) {
    forall c :: c in s ==> c as int < 0x80
  }

  lemma AsciiFront(s: string)
    requires s != ""
    ensures IsAscii(s) <==> s[0] as int < 0x80 && IsAscii(s[1..])
  {
    assert s == [s[0]] + s[1..];
    if IsAscii(s) {
      assert forall c :: c in s[1..] ==> c in s;
      assert s[0] in s;
    }
  }

  lemma {:induction false} EncodedLength(s: string)
    ensures |Encode(s)| >= |s|
    ensures |Encode(s)| == |s| <==> IsAscii(s)
  {
    if s != "" {
      EncodedLength(s[1..]);
      AsciiFront(s);
    }
  }

  lemma {:induction false} AsciiEncoding(s: string)
    requires IsAscii(s)
    ensures |Encode(s)| == |s| && forall i :: 0 <= i < |s| ==> Encode(s)[i] == s[i] as int
  {
    if s != "" {
      AsciiFront(s);
      AsciiEncoding(s[1..]);
    }
  }
}
