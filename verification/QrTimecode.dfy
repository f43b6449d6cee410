/** The QR timecode: base36 fields and a CRC-8 in ten characters. */
module QrTimecode {
  import opened Crc8

  const QR_SEQ_MODULUS: nat := 46656
  const QR_ELAPSED_MODULUS: nat := 1679616
  const QR_CRC_INITIAL: byte := 0xA5

  predicate Base36(c: char) { '0' <= c <= '9' || 'A' <= c <= 'Z' }

  predicate AllBase36(text: string) {
    forall i :: 0 <= i < |text| ==> Base36(text[i])
  }

  function Digit(d: nat): (c: char)
    requires d < 36
    ensures Base36(c) && Value(c) == d
  {
    if d < 10 then '0' + d as char else 'A' + (d - 10) as char
  }

  function Value(c: char): (d: nat)
    requires Base36(c)
    ensures d < 36
  {
    if c <= '9' then (c - '0') as nat else (c - 'A') as nat + 10
  }

  function Power36(n: nat): nat {
    if n == 0 then 1 else 36 * Power36(n - 1)
  }

  /** The lowest `width` digits. */
  function Encode(value: nat, width: nat): (text: string)
    ensures |text| == width && AllBase36(text)
    decreases width
  {
    if width == 0 then "" else Encode(value / 36, width - 1) + [Digit(value % 36)]
  }

  function Decode(text: string): nat
    requires AllBase36(text)
  {
    if text == "" then 0 else Decode(text[..|text| - 1]) * 36 + Value(text[|text| - 1])
  }

  /** Digits are produced from the lowest up and put in front; negative values count as zero. */
  method Base36Encode(value: int, width: nat) returns (out: string)
    ensures out == Encode(if value < 0 then 0 else value, width)
  {
    var rest: nat := if value < 0 then 0 else value;
    ghost var goal := Encode(rest, width);
    out := "";
    for i := 0 to width
      invariant Encode(rest, width - i) + out == goal
    {
      EncodeStep(rest, width - i, out);
      out := [Digit(rest % 36)] + out;
      rest := rest / 36;
    }
    assert "" + out == out;
  }

  lemma EncodeStep(rest: nat, width: nat, out: string)
    requires width > 0
    ensures Encode(rest, width) + out == Encode(rest / 36, width - 1) + ([Digit(rest % 36)] + out)
  {
    hide Digit;
  }

  method Base36Decode(text: string) returns (value: nat)
    requires AllBase36(text)
    ensures value == Decode(text)
  {
    value := 0;
    for i := 0 to |text|
      invariant value == Decode(text[..i])
    {
      value := value * 36 + Value(text[i]);
      assert text[..i + 1][..i] == text[..i];
    }
    assert text[..|text|] == text;
  }

  lemma DivMod(value: nat, p: nat)
    requires p > 0
    ensures value / 36 % p * 36 + value % 36 == value % (36 * p)
  {
    var q, r := value / 36 / p, value / 36 % p;
    assert value / 36 == q * p + r && 0 <= r < p;
    assert value == value / 36 * 36 + value % 36;
    Regroup(q, p, r, value % 36);
    assert value == q * (36 * p) + (r * 36 + value % 36);
    assert r * 36 + value % 36 < 36 * p by { assert r <= p - 1; }
    UniqueRemainder(value, 36 * p, q, r * 36 + value % 36);
  }

  lemma Regroup(q: int, p: int, r: int, m: int)
    ensures (q * p + r) * 36 + m == q * (36 * p) + (r * 36 + m)
  {}

  lemma UniqueRemainder(n: nat, d: nat, q: nat, r: nat)
    requires d > 0 && n == q * d + r && r < d
    ensures n % d == r
  {
    if n / d < q {
      Below(n / d, q, d);
    } else if n / d > q {
      Below(q, n / d, d);
    }
  }

  lemma Below(a: nat, b: nat, d: nat)
    requires a < b
    ensures a * d + d <= b * d
  {
    if b == a + 1 {
    } else {
      Below(a, b - 1, d);
    }
  }

  /** Decoding gives back the value modulo 36 to the width. */
  lemma {:induction false} DecodeInvertsEncode(value: nat, width: nat)
    ensures Power36(width) > 0
    ensures Decode(Encode(value, width)) == value % Power36(width)
    decreases width
  {
    if width > 0 {
      var front := Encode(value / 36, width - 1);
      DecodeInvertsEncode(value / 36, width - 1);
      assert Encode(value, width)[..width - 1] == front;
      DivMod(value, Power36(width - 1));
    }
  }

  /** Different digits of the same width are different numbers. */
  lemma {:induction false} DecodeInjective(a: string, b: string)
    requires |a| == |b| && AllBase36(a) && AllBase36(b) && Decode(a) == Decode(b)
    ensures a == b
  {
    if a != "" {
      var n := |a| - 1;
      LastDigit(Decode(a[..n]), Value(a[n]), Decode(b[..n]), Value(b[n]));
      DecodeInjective(a[..n], b[..n]);
      SameValue(a[n], b[n]);
      assert a == a[..n] + [a[n]] && b == b[..n] + [b[n]];
    }
  }

  lemma LastDigit(x: nat, d: nat, y: nat, e: nat)
    requires d < 36 && e < 36 && x * 36 + d == y * 36 + e
    ensures x == y && d == e
  {}

  lemma SameValue(c: char, d: char)
    requires Base36(c) && Base36(d) && Value(c) == Value(d)
    ensures c == d
  {}

  // ---------------------------------------------------------------- the check value

  function Ascii(c: char): byte
    requires Base36(c)
  {
    (c as nat) as byte
  }

  function Bytes(text: string): (r: seq<byte>)
    requires AllBase36(text)
    ensures |r| == |text|
  {
    seq(|text|, i requires 0 <= i < |text| && Base36(text[i]) => Ascii(text[i]))
  }

  function Check(text: string): nat
    requires AllBase36(text)
  {
    BitwiseFrom(QR_CRC_INITIAL, Bytes(text)) as nat
  }

  /** `n` steps of the register. */
  function Shifted(crc: byte, n: nat): byte {
    if n == 0 then crc else BitStep(Shifted(crc, n - 1))
  }

  lemma EightSteps(crc: byte)
    ensures Shifted(crc, 8) == Divide(crc)
  {
    hide BitStep;
    assert Shifted(crc, 1) == BitStep(crc);
    assert Shifted(crc, 2) == BitStep(Shifted(crc, 1));
    assert Shifted(crc, 3) == BitStep(Shifted(crc, 2));
    assert Shifted(crc, 4) == BitStep(Shifted(crc, 3));
    assert Shifted(crc, 5) == BitStep(Shifted(crc, 4));
    assert Shifted(crc, 6) == BitStep(Shifted(crc, 5));
    assert Shifted(crc, 7) == BitStep(Shifted(crc, 6));
  }

  method QrPayloadCrc8(payload: seq<byte>) returns (crc: byte)
    ensures crc == BitwiseFrom(QR_CRC_INITIAL, payload)
  {
    crc := QR_CRC_INITIAL;
    for i := 0 to |payload|
      invariant crc == BitwiseFrom(QR_CRC_INITIAL, payload[..i])
    {
      crc := Xor(crc, payload[i]);
      ghost var mixed := crc;
      for bit := 0 to 8
        invariant crc == Shifted(mixed, bit)
      {
        if crc & 0x80 != 0 {
          crc := (crc << 1) ^ 0x07;
        } else {
          crc := crc << 1;
        }
      }
      EightSteps(mixed);
      assert payload[..i + 1][..i] == payload[..i];
    }
    assert payload[..|payload|] == payload;
  }

  // ---------------------------------------------------------------- payloads

  function Body(seqNo: int, event: int, tenths: int): (text: string)
    ensures |text| == 8 && AllBase36(text)
  {
    Encode(event % 36, 1) + Encode(seqNo % QR_SEQ_MODULUS, 3) + Encode(tenths % QR_ELAPSED_MODULUS, 4)
  }

  function Payload(seqNo: int, event: int, tenths: int): (text: string)
    ensures |text| == 10 && AllBase36(text)
  {
    var body := Body(seqNo, event, tenths);
    body + Encode(Check(body), 2)
  }

  /** `OtherFormat` stands for the two older formats, whose fields are not part of this model. */
  datatype Timecode = Compact(seqNo: nat, event: nat, tenths: nat) | OtherFormat | Rejected

  predicate Space(c: char) {
    var n := c as nat;
    || 0x09 <= n <= 0x0D || 0x1C <= n <= 0x20 || n == 0x85 || n == 0xA0 || n == 0x1680
    || 0x2000 <= n <= 0x200A || n == 0x2028 || n == 0x2029 || n == 0x202F || n == 0x205F || n == 0x3000
  }

  function StripLeft(text: string): (r: string)
    ensures |r| <= |text|
  {
    if text != "" && Space(text[0]) then StripLeft(text[1..]) else text
  }

  function StripRight(text: string): (r: string)
    ensures |r| <= |text|
  {
    if text != "" && Space(text[|text| - 1]) then StripRight(text[..|text| - 1]) else text
  }

  function Strip(text: string): string { StripRight(StripLeft(text)) }

  function Colons(text: string): nat {
    if text == "" then 0 else (if text[0] == ':' then 1 else 0) + Colons(text[1..])
  }

  function Parse(raw: string): Timecode {
    var payload := Strip(raw);
    if |payload| == 10 && AllBase36(payload) then
      if Decode(payload[8..10]) != Check(payload[..8]) then Rejected
      else Compact(Decode(payload[1..4]), Decode(payload[..1]), Decode(payload[4..8]))
    else if |payload| == 16 && payload[..2] == "G1" then OtherFormat
    else if Colons(payload) == 4 && |payload| >= 5 && payload[..5] == "GDS1:" then OtherFormat
    else Rejected
  }

  lemma Digits36()
    ensures Power36(1) == 36 && Power36(2) == 1296 && Power36(3) == QR_SEQ_MODULUS && Power36(4) == QR_ELAPSED_MODULUS
  {
    assert Power36(1) == 36 * Power36(0);
    assert Power36(2) == 36 * Power36(1);
    assert Power36(3) == 36 * Power36(2);
    assert Power36(4) == 36 * Power36(3);
  }

  lemma NotStripped(text: string)
    requires text != "" ==> !Space(text[0]) && !Space(text[|text| - 1])
    ensures Strip(text) == text
  {}

  lemma BodyFields(seqNo: int, event: int, tenths: int)
    ensures var text := Payload(seqNo, event, tenths);
      && text[..8] == Body(seqNo, event, tenths)
      && text[..1] == Encode(event % 36, 1)
      && text[1..4] == Encode(seqNo % QR_SEQ_MODULUS, 3)
      && text[4..8] == Encode(tenths % QR_ELAPSED_MODULUS, 4)
      && text[8..10] == Encode(Check(Body(seqNo, event, tenths)), 2)
  {
    hide Encode, Check;
    var a, b, c := Encode(event % 36, 1), Encode(seqNo % QR_SEQ_MODULUS, 3), Encode(tenths % QR_ELAPSED_MODULUS, 4);
    var body := Body(seqNo, event, tenths);
    assert body[..1] == a && body[1..4] == b && body[4..8] == c;
    var text := Payload(seqNo, event, tenths);
    assert text[..8] == body && text[..1] == body[..1] && text[1..4] == body[1..4] && text[4..8] == body[4..8];
  }

  /** Ten base36 characters are judged by their check digits alone. */
  lemma ParseCompact(text: string)
    requires |text| == 10 && AllBase36(text)
    ensures Parse(text) == if Decode(text[8..10]) != Check(text[..8]) then Rejected
                           else Compact(Decode(text[1..4]), Decode(text[..1]), Decode(text[4..8]))
  {
    assert Base36(text[0]) && Base36(text[9]);
    NotStripped(text);
    hide Decode, Check, Strip;
  }

  lemma SmallModulo(n: nat, m: nat)
    requires n < m
    ensures n % m == n
  {
    UniqueRemainder(n, m, 0, n);
  }

  lemma FitsInWidth(value: nat, width: nat)
    requires value < Power36(width)
    ensures Decode(Encode(value, width)) == value
  {
    hide Encode, Decode, Power36;
    DecodeInvertsEncode(value, width);
    SmallModulo(value, Power36(width));
  }

  lemma FieldIsReadBack(value: int, width: nat, modulus: nat)
    requires Power36(width) == modulus > 0
    ensures Decode(Encode(value % modulus, width)) == value % modulus
  {
    hide Encode, Decode, Power36;
    FitsInWidth(value % modulus, width);
  }

  /** A printed timecode is read back modulo the widths of its fields. */
  lemma TimecodeRoundTrip(seqNo: int, event: int, tenths: int)
    ensures Parse(Payload(seqNo, event, tenths))
         == Compact(seqNo % QR_SEQ_MODULUS, event % 36, tenths % QR_ELAPSED_MODULUS)
  {
    Digits36();
    hide Encode, Decode, Payload, Body, Check, Parse, Power36;
    ParseCompact(Payload(seqNo, event, tenths));
    BodyFields(seqNo, event, tenths);
    FieldIsReadBack(event, 1, 36);
    FieldIsReadBack(seqNo, 3, QR_SEQ_MODULUS);
    FieldIsReadBack(tenths, 4, QR_ELAPSED_MODULUS);
    CheckIsReadBack(Body(seqNo, event, tenths));
  }

  lemma ByteIsSmall(b: byte)
    ensures b as nat < 256
  {}

  lemma CheckIsReadBack(body: string)
    requires AllBase36(body)
    ensures Decode(Encode(Check(body), 2)) == Check(body)
  {
    ByteIsSmall(BitwiseFrom(QR_CRC_INITIAL, Bytes(body)));
    Digits36();
    hide Encode, Decode, Power36;
    FitsInWidth(Check(body), 2);
  }

  // ---------------------------------------------------------------- damage

  lemma AsciiIsCode(c: char)
    requires Base36(c)
    ensures Ascii(c) as nat == c as nat
  {}

  lemma SameAscii(c: char, d: char)
    requires Base36(c) && Base36(d) && Ascii(c) == Ascii(d)
    ensures c == d
  {
    hide Ascii;
    AsciiIsCode(c);
    AsciiIsCode(d);
  }

  lemma SameNumber(a: byte, b: byte)
    requires a as nat == b as nat
    ensures a == b
  {}

  /** One altered character changes the check value. */
  lemma CheckChanges(a: string, b: string, at: nat)
    requires |a| == |b| && AllBase36(a) && AllBase36(b) && at < |a| && a[at] != b[at]
    requires forall i :: 0 <= i < |a| && i != at ==> b[i] == a[i]
    ensures Check(a) != Check(b)
  {
    hide BitwiseFrom, Ascii;
    if Ascii(a[at]) == Ascii(b[at]) {
      SameAscii(a[at], b[at]);
    }
    SingleByteDetected(QR_CRC_INITIAL, Bytes(a), Bytes(b), at);
    if Check(a) == Check(b) {
      SameNumber(BitwiseFrom(QR_CRC_INITIAL, Bytes(a)), BitwiseFrom(QR_CRC_INITIAL, Bytes(b)));
    }
  }

  /** `b` is `a` with exactly one character replaced. */
  predicate OneChanged(a: string, b: string, at: nat) {
    && |a| == |b| && at < |a| && a[at] != b[at]
    && (forall i :: 0 <= i < |a| && i != at ==> b[i] == a[i])
  }

  lemma DigitDamage(text: string, damaged: string, at: nat)
    requires |text| == 10 && AllBase36(text) && Decode(text[8..10]) == Check(text[..8])
    requires OneChanged(text, damaged, at) && AllBase36(damaged)
    ensures Parse(damaged) == Rejected
  {
    ParseCompact(damaged);
    hide Decode, Check, Parse;
    if at < 8 {
      assert damaged[8..10] == text[8..10];
      CheckChanges(text[..8], damaged[..8], at);
    } else {
      assert damaged[..8] == text[..8];
      assert damaged[8..10][at - 8] != text[8..10][at - 8];
      if Decode(damaged[8..10]) == Decode(text[8..10]) {
        DecodeInjective(damaged[8..10], text[8..10]);
      }
    }
  }

  lemma {:induction false} FewColons(text: string, at: nat)
    requires forall i :: 0 <= i < |text| && i != at ==> text[i] != ':'
    ensures Colons(text) <= 1
    ensures at >= |text| ==> Colons(text) == 0
  {
    if text != "" {
      if at == 0 {
        FewColons(text[1..], |text|);
      } else {
        FewColons(text[1..], at - 1);
      }
    }
  }

  lemma BlankAtFront(text: string)
    requires |text| == 10 && Space(text[0]) && AllBase36(text[1..])
    ensures Strip(text) == text[1..]
  {
    var rest := text[1..];
    assert Base36(rest[0]) && Base36(rest[8]);
    assert StripLeft(rest) == rest && StripRight(rest) == rest;
  }

  lemma BlankAtEnd(text: string)
    requires |text| == 10 && Space(text[9]) && AllBase36(text[..9])
    ensures Strip(text) == text[..9]
  {
    var rest := text[..9];
    assert Base36(rest[0]) && Base36(rest[8]);
    assert text[0] == rest[0] && StripLeft(text) == text && StripRight(rest) == rest;
  }

  /** A character that is not a base36 digit leaves no format to match. */
  lemma ForeignDamage(damaged: string, at: nat)
    requires |damaged| == 10 && at < 10 && !Base36(damaged[at])
    requires forall i :: 0 <= i < 10 && i != at ==> Base36(damaged[i])
    ensures Parse(damaged) == Rejected
  {
    if at == 0 && Space(damaged[0]) {
      BlankAtFront(damaged);
      FewColons(damaged[1..], 9);
    } else if at == 9 && Space(damaged[9]) {
      BlankAtEnd(damaged);
      FewColons(damaged[..9], 9);
    } else {
      assert !Space(damaged[0]) && !Space(damaged[9]);
      NotStripped(damaged);
      FewColons(damaged, at);
    }
    hide Strip, Colons, Decode, Check;
  }

  /** Replacing any one character of a printed timecode, by anything, is always noticed. */
  lemma SubstitutionIsRejected(seqNo: int, event: int, tenths: int, damaged: string, at: nat)
    requires OneChanged(Payload(seqNo, event, tenths), damaged, at)
    ensures Parse(damaged) == Rejected
  {
    var text := Payload(seqNo, event, tenths);
    if Base36(damaged[at]) {
      BodyFields(seqNo, event, tenths);
      CheckIsReadBack(Body(seqNo, event, tenths));
      hide Encode, Decode, Payload, Body, Check, Parse;
      DigitDamage(text, damaged, at);
    } else {
      hide Encode, Payload, Check, Parse;
      ForeignDamage(damaged, at);
    }
  }

  // ---------------------------------------------------------------- white space around a timecode

  /** The 29 characters of white space. */
  lemma SpacesAre(c: char)
    ensures Space(c) <==> c as nat in {
              0x09, 0x0A, 0x0B, 0x0C, 0x0D, 0x1C, 0x1D, 0x1E, 0x1F, 0x20, 0x85, 0xA0, 0x1680, 0x2000, 0x2001, 0x2002,
              0x2003, 0x2004, 0x2005, 0x2006, 0x2007, 0x2008, 0x2009, 0x200A, 0x2028, 0x2029, 0x202F, 0x205F, 0x3000}
  {}

  predicate AllSpace(text: string) {
    forall i :: 0 <= i < |text| ==> Space(text[i])
  }

  lemma {:induction false} StripsFront(left: string, text: string)
    requires AllSpace(left) && text != "" && !Space(text[0])
    ensures StripLeft(left + text) == text
    decreases |left|
  {
    hide Space;
    if left == "" {
      assert left + text == text;
    } else {
      StripsFront(left[1..], text);
      assert (left + text)[1..] == left[1..] + text;
    }
  }

  lemma {:induction false} StripsBack(text: string, right: string)
    requires AllSpace(right) && text != "" && !Space(text[|text| - 1])
    ensures StripRight(text + right) == text
    decreases |right|
  {
    hide Space;
    if right == "" {
      assert text + right == text;
    } else {
      var all := text + right;
      StripsBack(text, right[..|right| - 1]);
      assert all[..|all| - 1] == text + right[..|right| - 1];
    }
  }

  /** White space around a printed timecode, any amount of it, makes no difference. */
  lemma PaddedTimecode(seqNo: int, event: int, tenths: int, left: string, right: string)
    requires AllSpace(left) && AllSpace(right)
    ensures Parse(left + (Payload(seqNo, event, tenths) + right))
         == Compact(seqNo % QR_SEQ_MODULUS, event % 36, tenths % QR_ELAPSED_MODULUS)
  {
    var text := Payload(seqNo, event, tenths);
    assert Base36(text[0]) && Base36(text[9]);
    TimecodeRoundTrip(seqNo, event, tenths);
    StripsFront(left, text + right);
    StripsBack(text, right);
    NotStripped(text);
    hide Payload, Strip, Decode, Check, AllSpace;
    SameStrip(left + (text + right), text);
  }

  lemma BeginsWith(text: string)
    ensures |text| >= 2 ==> (text[..2] == "G1" <==> text[0] == 'G' && text[1] == '1')
    ensures |text| >= 5 ==> (text[..5] == "GDS1:" <==>
              text[0] == 'G' && text[1] == 'D' && text[2] == 'S' && text[3] == '1' && text[4] == ':')
  {
    if |text| >= 5 {
      assert forall i :: 0 <= i < 5 ==> text[..5][i] == text[i];
    }
    if |text| >= 2 {
      assert forall i :: 0 <= i < 2 ==> text[..2][i] == text[i];
    }
  }

  /** The older formats: 16 characters from `G1` on, or five fields between colons, the first of them `GDS1`. */
  lemma OlderFormats(text: string)
    requires text != "" && !Space(text[0]) && !Space(text[|text| - 1]) && !(|text| == 10 && AllBase36(text))
    ensures Parse(text) == OtherFormat <==>
      || (|text| == 16 && text[0] == 'G' && text[1] == '1')
      || (|text| >= 5 && Colons(text) == 4
          && text[0] == 'G' && text[1] == 'D' && text[2] == 'S' && text[3] == '1' && text[4] == ':')
  {
    hide Strip, Space, Colons, AllBase36;
    NotStripped(text);
    BeginsWith(text);
  }

  lemma SameStrip(a: string, b: string)
    requires Strip(a) == Strip(b)
    ensures Parse(a) == Parse(b)
  {}

  // ---------------------------------------------------------------- a real timecode

  lemma OneCharacter(text: string, k: nat)
    requires k < |text| && AllBase36(text)
    ensures BitwiseFrom(QR_CRC_INITIAL, Bytes(text[..k + 1]))
         == Divide(Xor(BitwiseFrom(QR_CRC_INITIAL, Bytes(text[..k])), Ascii(text[k])))
  {
    var data := Bytes(text[..k + 1]);
    assert data[..k] == Bytes(text[..k]) && data[k] == Ascii(text[k]);
    hide Divide, Xor, Ascii;
  }

  lemma BodyRegisters()
    ensures Divide(Xor(0xA5, 0x47)) == 0xA0 && Divide(Xor(0xA0, 0x30)) == 0xF9
    ensures Divide(Xor(0xF9, 0x38)) == 0x49 && Divide(Xor(0x49, 0x59)) == 0x70
    ensures Divide(Xor(0x70, 0x30)) == 0xC7 && Divide(Xor(0xC7, 0x30)) == 0xCB
    ensures Divide(Xor(0xCB, 0x42)) == 0xB6 && Divide(Xor(0xB6, 0x34)) == 0x87
  {}

  lemma BodyCodes()
    ensures Ascii('G') == 0x47 && Ascii('0') == 0x30 && Ascii('8') == 0x38 && Ascii('Y') == 0x59
    ensures Ascii('B') == 0x42 && Ascii('4') == 0x34
  {}

  lemma NoCharacters(text: string)
    requires AllBase36(text)
    ensures BitwiseFrom(QR_CRC_INITIAL, Bytes(text[..0])) == 0xA5
  {}

  lemma FirstHalf()
    ensures BitwiseFrom(QR_CRC_INITIAL, Bytes("G08Y00B4"[..4])) == 0x70
  {
    hide Divide, Xor, Ascii, BitwiseFrom, Bytes;
    var text := "G08Y00B4";
    BodyRegisters();
    BodyCodes();
    NoCharacters(text);
    OneCharacter(text, 0);
    OneCharacter(text, 1);
    OneCharacter(text, 2);
    OneCharacter(text, 3);
  }

  lemma RealCheck()
    ensures Check("G08Y00B4") == 0x87
  {
    hide Divide, Xor, Ascii, BitwiseFrom, Bytes;
    var text := "G08Y00B4";
    BodyRegisters();
    BodyCodes();
    FirstHalf();
    OneCharacter(text, 4);
    OneCharacter(text, 5);
    OneCharacter(text, 6);
    OneCharacter(text, 7);
    assert text[..8] == text;
  }

  lemma Digits(value: nat, width: nat)
    requires width > 0
    ensures Encode(value, width) == Encode(value / 36, width - 1) + [Digit(value % 36)]
  {}

  lemma RealFields()
    ensures Encode(16, 1) == "G" && Encode(322, 3) == "08Y" && Encode(400, 4) == "00B4" && Encode(0x87, 2) == "3R"
  {
    hide Encode;
    assert Encode(0, 0) == "" by {
      Nothing(0);
    }
    Digits(0, 1);
    Digits(0, 2);
    Digits(16, 1);
    Digits(8, 2);
    Digits(322, 3);
    Digits(11, 3);
    Digits(400, 4);
    Digits(3, 1);
    Digits(0x87, 2);
    Nothing(0);
  }

  lemma Nothing(value: nat)
    ensures Encode(value, 0) == ""
  {}

  /** A timecode from a recorded run: event 16 in frame 322 at 40.0 seconds. */
  lemma RealTimecode()
    ensures Payload(322, 16, 400) == "G08Y00B43R"
    ensures Parse("G08Y00B43R") == Compact(322, 16, 400)
  {
    TimecodeRoundTrip(322, 16, 400);
    RealFields();
    RealCheck();
    hide Encode, Check, Parse;
    assert Body(322, 16, 400) == "G08Y00B4";
  }
}
