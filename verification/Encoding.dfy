/** Undoing text that was written as UTF-8 and read as Windows-1252, up to three times over. */
module Encoding {
  import opened Wrappers
  import opened Utf8

  // ----- Windows-1252 -----

  /** The characters above U+00FF that Windows-1252 has, with their bytes. */
  const CP1252_BYTE_MAP: map<int, Byte> := map[
    0x20ac := 0x80, 0x201a := 0x82, 0x0192 := 0x83, 0x201e := 0x84, 0x2026 := 0x85, 0x2020 := 0x86, 0x2021 := 0x87,
    0x02c6 := 0x88, 0x2030 := 0x89, 0x0160 := 0x8a, 0x2039 := 0x8b, 0x0152 := 0x8c, 0x017d := 0x8e, 0x2018 := 0x91,
    0x2019 := 0x92, 0x201c := 0x93, 0x201d := 0x94, 0x2022 := 0x95, 0x2013 := 0x96, 0x2014 := 0x97, 0x02dc := 0x98,
    0x2122 := 0x99, 0x0161 := 0x9a, 0x203a := 0x9b, 0x0153 := 0x9c, 0x017e := 0x9e, 0x0178 := 0x9f]

  /** The byte a character was read from, if it is one that Windows-1252 text can hold. */
  function ToByte(c: char): Option<Byte> {
    var code := c as int;
    if code in CP1252_BYTE_MAP then Some(CP1252_BYTE_MAP[code])
    else if code <= 0xff then Some(code)
    else None
  }

  /** The bytes from 0x80 to 0x9F as Windows-1252 reads them; five of them read as control characters. */
  const CP1252_CHARACTERS: seq<int> := [
    0x20ac, 0x81, 0x201a, 0x0192, 0x201e, 0x2026, 0x2020, 0x2021, 0x02c6, 0x2030, 0x0160, 0x2039, 0x0152, 0x8d, 0x017d,
    0x8f, 0x90, 0x2018, 0x2019, 0x201c, 0x201d, 0x2022, 0x2013, 0x2014, 0x02dc, 0x2122, 0x0161, 0x203a, 0x0153, 0x9d,
    0x017e, 0x0178]

  function CodeFromByte(b: Byte): (n: int)
    ensures 0 <= n < 0xD800
  {
    if 0x80 <= b < 0xA0 then CP1252_CHARACTERS[b - 0x80] else b
  }

  function FromByte(b: Byte): char {
    CodeFromByte(b) as char
  }

  function ReadAsCp1252(bytes: seq<Byte>): string {
    seq(|bytes|, i requires 0 <= i < |bytes| => FromByte(bytes[i]))
  }

  /** One crossing of the boundary: written as UTF-8, read as Windows-1252. */
  function Mangle(s: string): string {
    ReadAsCp1252(Encode(s))
  }

  function MangledTimes(s: string, k: nat): string {
    if k == 0 then s else Mangle(MangledTimes(s, k - 1))
  }

  // ----- The repair -----

  predicate IsTrigger(c: char) {
    c as int == 0xC2 || c as int == 0xC3 || c as int == 0xE1 || c as int == 0xC4 || c as int == 0xC5
  }

  predicate HasTrigger(s: string) {
    exists c :: c in s && IsTrigger(c)
  }

  const BOM := '\U{FEFF}'

  predicate LeadingBom(s: string) {
    s != "" && s[0] == BOM
  }

  /** A strict decoder drops one leading byte order mark. */
  function DecodeText(bytes: seq<Byte>): Option<string> {
    var s := Decode(bytes);
    if s.Some? && LeadingBom(s.value) then Some(s.value[1..]) else s
  }

  const DAMAGED := "\U{E1}\U{BB}u"
  const RESTORED := "\U{E1}\U{BB}\U{81}u"

  predicate DamagedAt(s: string, i: nat) {
    i + 3 <= |s| && s[i..i + 3] == DAMAGED
  }

  /** Every occurrence of the damaged text replaced, from left to right. */
  function RestoreControl(s: string): string {
    if |s| < 3 then s
    else if s[..3] == DAMAGED then RESTORED + RestoreControl(s[3..])
    else [s[0]] + RestoreControl(s[1..])
  }

  /** The bytes of a text, as far as every character has one. */
  function BytesOf(s: string): Option<seq<Byte>> {
    if s == "" then Some([])
    else
      var before := BytesOf(s[..|s| - 1]);
      var last := ToByte(s[|s| - 1]);
      if before.None? || last.None? then None else Some(before.value + [last.value])
  }

  /** What one pass turns a text into; None when the repair stops here. */
  function Repaired(s: string): Option<string> {
    if !HasTrigger(s) then None
    else
      var bytes := BytesOf(s);
      if bytes.None? then None
      else
        var decoded := DecodeText(bytes.value);
        if decoded.None? || decoded.value == s then None else decoded
  }

  function Passes(s: string, n: nat): string
    decreases n
  {
    if n == 0 || Repaired(s).None? then s else Passes(Repaired(s).value, n - 1)
  }

  function Repair(s: string): string {
    Passes(RestoreControl(s), 3)
  }

  method RepairCorruptedEncoding(text: string) returns (repaired: string)
    ensures repaired == Repair(text)
  {
    hide DecodeText, ToByte, RestoreControl, HasTrigger;
    if text == "" {
      EmptyStays();
      return text;
    }
    repaired := RestoreControl(text);
    for pass := 0 to 3
      invariant Passes(repaired, 3 - pass) == Repair(text)
    {
      if !HasTrigger(repaired) {
        break;
      }
      var bytes: seq<Byte> := [];
      for i := 0 to |repaired|
        invariant BytesOf(repaired[..i]) == Some(bytes)
      {
        assert repaired[..i + 1][..i] == repaired[..i];
        var b := ToByte(repaired[i]);
        if b.None? {
          StaysUnreadable(repaired, i + 1);
          return;
        }
        bytes := bytes + [b.value];
      }
      assert repaired[..|repaired|] == repaired;
      var decoded := DecodeText(bytes);
      if decoded.None? || decoded.value == repaired {
        break;
      }
      repaired := decoded.value;
    }
  }

  lemma EmptyStays()
    ensures Repair("") == ""
  {
    assert !HasTrigger("");
  }

  lemma {:induction false} StaysUnreadable(s: string, i: nat)
    requires i <= |s| && BytesOf(s[..i]).None?
    ensures BytesOf(s).None?
    decreases |s|
  {
    if i < |s| {
      assert s[..|s| - 1][..i] == s[..i];
      StaysUnreadable(s[..|s| - 1], i);
    } else {
      assert s[..i] == s;
    }
  }

  // ----- Mangled text can be read back -----

  lemma FirstHalfReadsBack(b: Byte)
    requires 0x80 <= b < 0x90
    ensures ToByte(FromByte(b)) == Some(b)
  {
  }

  lemma SecondHalfReadsBack(b: Byte)
    requires 0x90 <= b < 0xA0
    ensures ToByte(FromByte(b)) == Some(b)
  {
  }

  lemma LatinReadsBack(b: Byte)
    requires b < 0x80 || 0xA0 <= b
    ensures ToByte(FromByte(b)) == Some(b)
  {
  }

  /** Only five bytes have no character of their own and read as control characters. */
  lemma FiveControls(b: Byte)
    ensures 0x80 <= FromByte(b) as int < 0xA0 <==> b == 0x81 || b == 0x8D || b == 0x8F || b == 0x90 || b == 0x9D
    ensures b < 0x80 || b >= 0xA0 ==> FromByte(b) as int == b
  {
  }

  lemma ByteReadsBack(b: Byte)
    ensures ToByte(FromByte(b)) == Some(b)
  {
    hide ToByte, FromByte;
    if 0x80 <= b < 0x90 {
      FirstHalfReadsBack(b);
    } else if 0x90 <= b < 0xA0 {
      SecondHalfReadsBack(b);
    } else {
      LatinReadsBack(b);
    }
  }

  lemma {:induction false} BytesReadBack(bytes: seq<Byte>)
    ensures BytesOf(ReadAsCp1252(bytes)) == Some(bytes)
  {
    hide ToByte, FromByte;
    var s := ReadAsCp1252(bytes);
    if bytes != [] {
      var front, last := bytes[..|bytes| - 1], bytes[|bytes| - 1];
      BytesReadBack(front);
      ByteReadsBack(last);
      assert s[..|s| - 1] == ReadAsCp1252(front) && s[|s| - 1] == FromByte(last);
      assert bytes == front + [last];
    }
  }

  lemma MangledBytes(s: string)
    ensures BytesOf(Mangle(s)) == Some(Encode(s))
  {
    BytesReadBack(Encode(s));
  }

  lemma MangledHasNoBom(s: string)
    ensures !LeadingBom(Mangle(s))
  {
    hide Encode;
  }

  lemma MangledIsLonger(s: string)
    ensures |Mangle(s)| >= |s| && (|Mangle(s)| == |s| <==> IsAscii(s))
    ensures Mangle(s) == s <==> IsAscii(s)
  {
    EncodedLength(s);
    if IsAscii(s) {
      AsciiEncoding(s);
      var t := Mangle(s);
      forall i | 0 <= i < |s|
        ensures t[i] == s[i]
      {
        assert s[i] in s;
        assert t[i] == FromByte(Encode(s)[i]);
      }
    }
  }

  // ----- Triggers -----

  lemma TriggersAreNotAscii(s: string)
    requires HasTrigger(s)
    ensures !IsAscii(s)
  {
    var c :| c in s && IsTrigger(c);
    assert !(c as int < 0x80);
  }

  lemma {:induction false} TriggerEncodes(s: string, i: nat)
    requires i < |s| && IsTrigger(s[i])
    ensures 0xC3 in Encode(s)
  {
    if i > 0 {
      TriggerEncodes(s[1..], i - 1);
    } else {
      assert EncodeCharacter(s[0])[0] == 0xC3;
    }
  }

  /** The characters whose UTF-8 starts with a byte that reads as a trigger. */
  predicate LeavesTrigger(c: char) {
    0x80 <= c as int < 0x180 || 0x1000 <= c as int < 0x2000
  }

  lemma TriggerByte(b: Byte)
    ensures IsTrigger(FromByte(b)) <==> b == 0xC2 || b == 0xC3 || b == 0xC4 || b == 0xC5 || b == 0xE1
  {
  }

  lemma CharacterTriggers(c: char)
    ensures (exists i :: 0 <= i < |EncodeCharacter(c)| && IsTrigger(FromByte(EncodeCharacter(c)[i])))
       <==> LeavesTrigger(c)
  {
    hide FromByte, IsTrigger;
    var e := EncodeCharacter(c);
    forall i | 0 <= i < |e|
      ensures IsTrigger(FromByte(e[i]))
         <==> e[i] == 0xC2 || e[i] == 0xC3 || e[i] == 0xC4 || e[i] == 0xC5 || e[i] == 0xE1
    {
      TriggerByte(e[i]);
    }
    if LeavesTrigger(c) { assert IsTrigger(FromByte(e[0])); }
  }

  lemma {:induction false} TriggersComeFrom(s: string)
    ensures (exists i :: 0 <= i < |Encode(s)| && IsTrigger(FromByte(Encode(s)[i])))
       <==> exists c :: c in s && LeavesTrigger(c)
  {
    hide FromByte, IsTrigger, EncodeCharacter, LeavesTrigger;
    if s != "" {
      var first, rest := EncodeCharacter(s[0]), Encode(s[1..]);
      CharacterTriggers(s[0]);
      TriggersComeFrom(s[1..]);
      assert Encode(s) == first + rest;
      if i :| 0 <= i < |Encode(s)| && IsTrigger(FromByte(Encode(s)[i])) {
        if i < |first| { assert first[i] == Encode(s)[i]; } else { assert rest[i - |first|] == Encode(s)[i]; }
      }
      if i :| 0 <= i < |first| && IsTrigger(FromByte(first[i])) { assert Encode(s)[i] == first[i]; }
      if i :| 0 <= i < |rest| && IsTrigger(FromByte(rest[i])) { assert Encode(s)[|first| + i] == rest[i]; }
      assert forall c :: c in s <==> c == s[0] || c in s[1..];
    }
  }

  /** A crossing leaves a trigger exactly for text with a character from U+0080 to U+017F or U+1000 to U+1FFF. */
  lemma TriggeredExactly(s: string)
    ensures HasTrigger(Mangle(s)) <==> exists c :: c in s && LeavesTrigger(c)
  {
    hide FromByte, IsTrigger, Encode, LeavesTrigger;
    TriggersComeFrom(s);
    var t := Mangle(s);
    assert |t| == |Encode(s)| && forall i :: 0 <= i < |t| ==> t[i] == FromByte(Encode(s)[i]);
    if c :| c in t && IsTrigger(c) {
      var i :| 0 <= i < |t| && t[i] == c;
      assert IsTrigger(FromByte(Encode(s)[i]));
    }
    if i :| 0 <= i < |Encode(s)| && IsTrigger(FromByte(Encode(s)[i])) {
      assert t[i] in t;
    }
  }

  /** Text with a trigger character has one again after another crossing. */
  lemma TriggerPersists(s: string)
    requires HasTrigger(s)
    ensures HasTrigger(Mangle(s))
  {
    var c :| c in s && IsTrigger(c);
    var i :| 0 <= i < |s| && s[i] == c;
    TriggerEncodes(s, i);
    var j :| 0 <= j < |Encode(s)| && Encode(s)[j] == 0xC3;
    assert Mangle(s)[j] == FromByte(0xC3);
    assert IsTrigger(FromByte(0xC3));
  }

  lemma {:induction false} TriggersPersist(s: string, k: nat)
    requires HasTrigger(Mangle(s)) && k > 0
    ensures HasTrigger(MangledTimes(s, k))
  {
    hide HasTrigger, Mangle;
    if k > 1 {
      TriggersPersist(s, k - 1);
      TriggerPersists(MangledTimes(s, k - 1));
    } else {
      assert MangledTimes(s, 0) == s;
    }
  }

  // ----- One pass -----

  /** A pass over mangled text with a trigger gives the text before, less a byte order mark. */
  lemma PassUnmangles(s: string)
    requires HasTrigger(Mangle(s))
    ensures Repaired(Mangle(s)) == Some(if LeadingBom(s) then s[1..] else s)
  {
    hide Mangle, Encode, Decode, IsAscii, HasTrigger, BytesOf;
    MangledBytes(s);
    DecodeEncode(s);
    MangledIsLonger(s);
    if IsAscii(s) { TriggersAreNotAscii(Mangle(s)); }
  }

  lemma {:induction false} BytesLength(s: string)
    requires BytesOf(s).Some?
    ensures |BytesOf(s).value| == |s|
    ensures forall i :: 0 <= i < |s| ==> ToByte(s[i]) == Some(BytesOf(s).value[i])
  {
    hide ToByte;
    if s != "" {
      var front := s[..|s| - 1];
      BytesLength(front);
      forall i | 0 <= i < |s|
        ensures ToByte(s[i]) == Some(BytesOf(s).value[i])
      {
        if i < |s| - 1 { assert front[i] == s[i]; }
      }
    }
  }

  lemma AsciiByte(c: char)
    requires ToByte(c).Some? && ToByte(c).value < 0x80
    ensures c as int < 0x80
  {
  }

  lemma AsciiBytes(s: string, t: string)
    requires BytesOf(s) == Some(Encode(t)) && IsAscii(t)
    ensures IsAscii(s)
  {
    hide ToByte;
    BytesLength(s);
    AsciiEncoding(t);
    forall c | c in s
      ensures c as int < 0x80
    {
      var i :| 0 <= i < |s| && s[i] == c;
      assert t[i] in t;
      AsciiByte(s[i]);
    }
  }

  /** No trigger, a character that no byte reads as, or bytes that are not UTF-8: nothing was mangled here. */
  predicate IsUnmangled(s: string) {
    !HasTrigger(s) || BytesOf(s).None? || Decode(BytesOf(s).value).None?
  }

  /** The repair stops exactly at text that was not mangled; that decoding gives the text itself never happens. */
  lemma StopsExactly(s: string)
    ensures Repaired(s).None? <==> IsUnmangled(s)
    ensures !IsUnmangled(s) ==> DecodeText(BytesOf(s).value).Some? && DecodeText(BytesOf(s).value).value != s
  {
    hide HasTrigger, BytesOf, Decode, Encode, IsAscii;
    if !IsUnmangled(s) {
      var bytes := BytesOf(s).value;
      var t := Decode(bytes).value;
      EncodeDecode(bytes);
      EncodedLength(t);
      BytesLength(s);
      TriggersAreNotAscii(s);
      if IsAscii(t) { AsciiBytes(s, t); }
    }
  }

  /** Every pass that changes a text shortens it. */
  lemma PassShortens(s: string)
    requires Repaired(s).Some?
    ensures |Repaired(s).value| < |s|
  {
    hide HasTrigger, BytesOf, Decode, Encode, IsAscii;
    var bytes := BytesOf(s).value;
    var t := Decode(bytes).value;
    EncodeDecode(bytes);
    EncodedLength(t);
    BytesLength(s);
    TriggersAreNotAscii(s);
    if IsAscii(t) { AsciiBytes(s, t); }
  }

  lemma {:induction false} PassesShorten(s: string, n: nat)
    ensures |Passes(s, n)| <= |s|
    ensures Passes(s, n) == s <==> n == 0 || Repaired(s).None?
    decreases n
  {
    hide Repaired;
    if n > 0 && Repaired(s).Some? {
      PassShortens(s);
      PassesShorten(Repaired(s).value, n - 1);
    }
  }

  // ----- The damaged text never occurs in mangled text -----

  predicate DamagedBytesAt(bytes: seq<Byte>, i: nat) {
    i + 3 <= |bytes| && bytes[i] == 0xE1 && bytes[i + 1] == 0xBB && bytes[i + 2] == 0x75
  }

  lemma {:induction false} NoDamagedBytes(s: string, i: nat)
    ensures !DamagedBytesAt(Encode(s), i)
    decreases |s|
  {
    if s != "" {
      var first, rest := EncodeCharacter(s[0]), Encode(s[1..]);
      assert forall k :: 0 <= k < |first| ==> Encode(s)[k] == first[k];
      if i >= |first| {
        assert forall k :: 0 <= k < |rest| ==> Encode(s)[|first| + k] == rest[k];
        NoDamagedBytes(s[1..], i - |first|);
      } else {
        FirstBytes(s[0]);
      }
    }
  }

  /** Only a first byte is 0xE1, and it is followed by two bytes from 0x80 on. */
  lemma FirstBytes(c: char)
    ensures var bytes := EncodeCharacter(c);
            (forall k :: 0 < k < |bytes| ==> 0x80 <= bytes[k] < 0xC0) &&
            (bytes[0] == 0xE1 ==> |bytes| == 3)
  {
  }

  lemma DamagedCharacters(b: Byte)
    ensures FromByte(b) == DAMAGED[0] <==> b == 0xE1
    ensures FromByte(b) == DAMAGED[1] <==> b == 0xBB
    ensures FromByte(b) == DAMAGED[2] <==> b == 0x75
  {
  }

  /** Restoring the lost control character never changes text that was really mangled. */
  lemma MangledIsUndamaged(s: string, i: nat)
    ensures !DamagedAt(Mangle(s), i)
  {
    hide Encode, FromByte;
    if DamagedAt(Mangle(s), i) {
      var bytes := Encode(s);
      var damaged := Mangle(s)[i..i + 3];
      assert damaged[0] == FromByte(bytes[i]) && damaged[1] == FromByte(bytes[i + 1])
          && damaged[2] == FromByte(bytes[i + 2]);
      DamagedCharacters(bytes[i]);
      DamagedCharacters(bytes[i + 1]);
      DamagedCharacters(bytes[i + 2]);
      NoDamagedBytes(s, i);
    }
  }

  /** Every lost control character is put back, wherever it was lost, and nothing else is touched. */
  lemma {:induction false} RestoredEverywhere(a: string, b: string)
    ensures RestoreControl(a + DAMAGED + b) == RestoreControl(a) + RESTORED + RestoreControl(b)
    decreases |a|
  {
    var s := a + DAMAGED + b;
    if a == "" {
      assert s[..3] == DAMAGED && s[3..] == b;
    } else if DamagedAt(a, 0) {
      assert a[..3] == DAMAGED && s[..3] == DAMAGED && s[3..] == a[3..] + DAMAGED + b;
      RestoredEverywhere(a[3..], b);
    } else {
      NotDamagedInFront(a, b);
      assert s[0] == a[0] && s[1..] == a[1..] + DAMAGED + b;
      RestoredEverywhere(a[1..], b);
      ShortStays(a);
      assert RestoreControl(s) == [s[0]] + RestoreControl(s[1..]);
    }
  }

  lemma NotDamagedInFront(a: string, b: string)
    requires a != "" && !DamagedAt(a, 0)
    ensures var s := a + DAMAGED + b; |s| >= 3 && s[..3] != DAMAGED
  {
    var s := a + DAMAGED + b;
    if |a| >= 3 {
      assert s[..3] == a[..3];
    } else {
      assert s[..3][|a|] == DAMAGED[0];
    }
  }

  lemma ShortStays(a: string)
    requires a != "" && !DamagedAt(a, 0)
    ensures RestoreControl(a) == [a[0]] + RestoreControl(a[1..])
  {
    if |a| < 3 {
      assert a == [a[0]] + a[1..];
    }
  }

  /** The control character put back is the one that mangling a Vietnamese e with circumflex and grave leaves. */
  lemma RestoredIsMangled()
    ensures RESTORED == Mangle("\U{1EC1}u") && DAMAGED == RESTORED[..2] + RESTORED[3..]
  {
    var s := "\U{1EC1}u";
    assert s[1..] == "u" && "u"[1..] == "";
    assert EncodeCharacter('\U{1EC1}') == [0xE1, 0xBB, 0x81] && EncodeCharacter('u') == [0x75];
    assert Encode("") == [] && Encode("u") == [0x75] && Encode(s) == [0xE1, 0xBB, 0x81, 0x75];
    assert FromByte(0xE1) == '\U{E1}' && FromByte(0xBB) == '\U{BB}' && FromByte(0x75) == 'u';
    assert FromByte(0x81) == '\U{81}';
    assert ReadAsCp1252([0xE1, 0xBB, 0x81, 0x75]) == RESTORED;
  }

  lemma {:induction false} UndamagedStays(s: string)
    requires forall i: nat :: !DamagedAt(s, i)
    ensures RestoreControl(s) == s
  {
    if |s| >= 3 {
      assert !DamagedAt(s, 0);
      forall i: nat
        ensures !DamagedAt(s[1..], i)
      {
        assert !DamagedAt(s, i + 1);
        if i + 3 <= |s[1..]| { assert s[1..][i..i + 3] == s[i + 1..i + 4]; }
      }
      UndamagedStays(s[1..]);
      assert s == [s[0]] + s[1..];
    }
  }

  // ----- Several crossings -----

  lemma RepairOfMangled(s: string, k: nat)
    requires k > 0
    ensures Repair(MangledTimes(s, k)) == Passes(MangledTimes(s, k), 3)
  {
    hide Mangle, DamagedAt, RestoreControl, Passes;
    forall i: nat
      ensures !DamagedAt(MangledTimes(s, k), i)
    {
      MangledIsUndamaged(MangledTimes(s, k - 1), i);
    }
    UndamagedStays(MangledTimes(s, k));
  }

  lemma MangledTimesHasNoBom(s: string, k: nat)
    requires k > 0 || !LeadingBom(s)
    ensures !LeadingBom(MangledTimes(s, k))
  {
    hide Mangle, LeadingBom;
    if k > 0 { MangledHasNoBom(MangledTimes(s, k - 1)); }
  }

  /** Each pass takes one crossing away. */
  lemma {:induction false} PassesUnmangle(s: string, k: nat, m: nat, n: nat)
    requires HasTrigger(Mangle(s)) && m <= k && m <= n
    requires m < k || !LeadingBom(s)
    ensures Passes(MangledTimes(s, k), n) == Passes(MangledTimes(s, k - m), n - m)
    decreases m
  {
    hide Mangle, HasTrigger, LeadingBom, Repaired;
    if m > 0 {
      var before := MangledTimes(s, k - 1);
      TriggersPersist(s, k);
      MangledTimesHasNoBom(s, k - 1);
      PassUnmangles(before);
      PassesUnmangle(s, k - 1, m - 1, n - 1);
    }
  }

  lemma {:induction false} MangledTimesIsLonger(s: string, k: nat)
    requires k > 0 && !IsAscii(s)
    ensures |MangledTimes(s, k)| > |s|
  {
    hide Mangle, IsAscii;
    MangledIsLonger(MangledTimes(s, k - 1));
    if k > 1 { MangledTimesIsLonger(s, k - 1); } else { assert MangledTimes(s, 0) == s; }
  }

  /** Without a trigger in the first mangled form, no number of passes gets back to the text. */
  lemma {:induction false} UntriggeredStaysMangled(s: string, k: nat, n: nat)
    requires k > 0 && !IsAscii(s) && !HasTrigger(Mangle(s))
    ensures |Passes(MangledTimes(s, k), n)| > |s|
    decreases n
  {
    hide Mangle, IsAscii, HasTrigger, LeadingBom;
    var t := MangledTimes(s, k);
    MangledTimesIsLonger(s, k);
    assert MangledTimes(s, 0) == s;
    if n > 0 && Repaired(t).Some? {
      MangledTimesHasNoBom(s, k - 1) by { assert k > 1; }
      PassUnmangles(MangledTimes(s, k - 1));
      UntriggeredStaysMangled(s, k - 1, n - 1);
    }
  }

  lemma {:induction false} AsciiStays(s: string, k: nat)
    requires IsAscii(s)
    ensures MangledTimes(s, k) == s && Repair(s) == s
  {
    hide Mangle, IsAscii, HasTrigger, DamagedAt, RestoreControl;
    MangledIsLonger(s);
    if k > 0 { AsciiStays(s, k - 1); }
    if HasTrigger(s) { TriggersAreNotAscii(s); }
    forall i: nat
      ensures !DamagedAt(s, i)
    {
      MangledIsUndamaged(s, i);
    }
    UndamagedStays(s);
  }

  /**
   * Repairing text that crossed the boundary one to three times gives the text back exactly when it is plain
   * ASCII, or when a crossing leaves a trigger character, it has no leading byte order mark, and it does not
   * look mangled itself (which no longer matters after three crossings, when all passes are used up).
   */
  lemma RepairUndoesExactly(s: string, k: nat)
    requires 1 <= k <= 3
    ensures Repair(MangledTimes(s, k)) == s
       <==> IsAscii(s) || (HasTrigger(Mangle(s)) && !LeadingBom(s) && (k == 3 || IsUnmangled(s)))
  {
    hide Mangle, IsAscii, HasTrigger, Repair, Passes, Repaired, IsUnmangled;
    StopsExactly(s);
    if IsAscii(s) {
      AsciiStays(s, k);
    } else {
      RepairOfMangled(s, k);
      if !HasTrigger(Mangle(s)) {
        UntriggeredStaysMangled(s, k, 3);
      } else if LeadingBom(s) {
        MarkIsLost(s, k);
      } else {
        PassesUnmangle(s, k, k, 3);
        assert MangledTimes(s, 0) == s;
        PassesShorten(s, 3 - k);
      }
    }
  }

  lemma MarkIsLost(s: string, k: nat)
    requires 1 <= k <= 3 && HasTrigger(Mangle(s)) && LeadingBom(s)
    ensures Passes(MangledTimes(s, k), 3) != s
  {
    hide Mangle, HasTrigger, Repaired;
    PassesUnmangle(s, k, k - 1, 3);
    assert MangledTimes(s, 0) == s && MangledTimes(s, 1) == Mangle(s);
    PassUnmangles(s);
    PassesShorten(s[1..], 3 - k);
  }

  /** Three crossings of more are undone; the rest stay. */
  lemma ThreeCrossingsAreUndone(s: string, m: nat)
    requires HasTrigger(Mangle(s)) && (m > 0 || !LeadingBom(s))
    ensures Repair(MangledTimes(s, 3 + m)) == MangledTimes(s, m)
  {
    hide Mangle, HasTrigger, Repair, LeadingBom;
    RepairOfMangled(s, 3 + m);
    PassesUnmangle(s, 3 + m, 3, 3);
  }

  /** Text that never crossed stays as it is exactly when it does not look mangled, if nothing looks damaged. */
  lemma CleanStaysExactly(s: string)
    requires forall i: nat :: !DamagedAt(s, i)
    ensures Repair(s) == s <==> IsUnmangled(s)
  {
    hide Passes, Repaired, RestoreControl, IsUnmangled;
    StopsExactly(s);
    UndamagedStays(s);
    PassesShorten(s, 3);
  }
}
