/**
 How log chunks are pushed to a browser: escaped as a JSON string (RFC 8259, section 7), wrapped in an object
 and sent as one WebSocket text frame (RFC 6455, section 5.2). Bytes are characters below 256.
 */
module LogPush {
  import opened LogHistory
  import opened LogStream
  import opened Options
  import opened ProtocolLog
  import opened Sequences
  import opened Words

  const MAX_CHUNK_BYTES: nat := 2048
  const MAX_PAYLOAD: nat := 65535

  predicate Bytes(text: string) {
    forall i :: 0 <= i < |text| ==> text[i] as nat < 256
  }

  function Codes(text: string): (r: seq<nat>)
    ensures |r| == |text|
  {
    seq(|text|, i requires 0 <= i < |text| => text[i] as nat)
  }

  // ---------------------------------------------------------------- JSON strings

  function HexDigit(n: nat): (c: char)
    requires n < 16
  {
    if n < 10 then '0' + n as char else 'A' + (n - 10) as char
  }

  /** One byte in a JSON string; control characters without a short form become four hex digits. */
  function Escape(c: char): string {
    if c == '"' then "\\\""
    else if c == '\\' then "\\\\"
    else if c == '\n' then "\\n"
    else if c == '\r' then "\\r"
    else if c == '\t' then "\\t"
    else if c as nat < 0x20 then "\\u00" + [HexDigit(c as nat / 16), HexDigit(c as nat % 16)]
    else [c]
  }

  function EscapeAll(text: string): string {
    if text == "" then "" else EscapeAll(text[..|text| - 1]) + Escape(text[|text| - 1])
  }

  function JsonString(text: string): string {
    "\"" + EscapeAll(text) + "\""
  }

  method WriteJsonString(value: string) returns (out: string)
    ensures out == JsonString(value)
  {
    out := "\"";
    for i := 0 to |value|
      invariant out == "\"" + EscapeAll(value[..i])
    {
      var c := value[i];
      assert value[..i + 1][..i] == value[..i];
      Assoc("\"", EscapeAll(value[..i]), Escape(c));
      match c
      case '"' => out := out + "\\\"";
      case '\\' => out := out + "\\\\";
      case '\n' => out := out + "\\n";
      case '\r' => out := out + "\\r";
      case '\t' => out := out + "\\t";
      case _ =>
        if c as nat < 0x20 {
          out := out + ("\\u00" + [HexDigit(c as nat / 16), HexDigit(c as nat % 16)]);
        } else {
          out := out + [c];
        }
    }
    assert value[..|value|] == value;
    out := out + "\"";
  }

  // ---------------------------------------------------------------- a reader of JSON strings

  function HexValue(c: char): Option<nat> {
    if '0' <= c <= '9' then Some((c - '0') as nat)
    else if 'a' <= c <= 'f' then Some((c - 'a') as nat + 10)
    else if 'A' <= c <= 'F' then Some((c - 'A') as nat + 10)
    else None
  }

  /** One code unit and the text behind it. */
  datatype Unit = Unit(code: nat, rest: string)

  /** The four hex digits behind `\u`. */
  function ReadHex(text: string): Option<Unit> {
    if |text| < 4 then None
    else
      var a, b, c, d := HexValue(text[0]), HexValue(text[1]), HexValue(text[2]), HexValue(text[3]);
      if a.None? || b.None? || c.None? || d.None? then None
      else Some(Unit(((a.value * 16 + b.value) * 16 + c.value) * 16 + d.value, text[4..]))
  }

  function ShortEscape(c: char): Option<nat> {
    if c == '"' || c == '\\' || c == '/' then Some(c as nat)
    else if c == 'b' then Some(8)
    else if c == 'f' then Some(12)
    else if c == 'n' then Some(10)
    else if c == 'r' then Some(13)
    else if c == 't' then Some(9)
    else None
  }

  /** The character at the front of a JSON string's inside, as the grammar has it. */
  function ReadUnit(text: string): Option<Unit> {
    if text == "" || text[0] == '"' || text[0] as nat < 0x20 then None
    else if text[0] != '\\' then Some(Unit(text[0] as nat, text[1..]))
    else if |text| < 2 then None
    else if text[1] == 'u' then ReadHex(text[2..])
    else if ShortEscape(text[1]).Some? then Some(Unit(ShortEscape(text[1]).value, text[2..]))
    else None
  }

  datatype Parsed = Parsed(codes: seq<nat>, rest: string)

  /** Characters up to the closing quotation mark. */
  function ReadChars(text: string, sofar: seq<nat>): Option<Parsed>
    decreases |text|
  {
    if text != "" && text[0] == '"' then Some(Parsed(sofar, text[1..]))
    else
      var u := ReadUnit(text);
      if u.None? || |u.value.rest| >= |text| then None else ReadChars(u.value.rest, sofar + [u.value.code])
  }

  function ReadString(text: string): Option<Parsed> {
    if text == "" || text[0] != '"' then None else ReadChars(text[1..], [])
  }

  lemma HexRound(n: nat)
    requires n < 16
    ensures HexValue(HexDigit(n)) == Some(n)
  {}

  lemma EscapeReads(c: char, rest: string)
    requires c as nat < 256
    ensures ReadUnit(Escape(c) + rest) == Some(Unit(c as nat, rest))
    ensures Escape(c) != "" && Escape(c)[0] != '"'
  {
    var text := Escape(c) + rest;
    if |Escape(c)| == 6 {
      HexRound(c as nat / 16);
      HexRound(c as nat % 16);
      assert text[2..][4..] == rest;
    } else {
      assert text[|Escape(c)|..] == rest;
    }
  }

  lemma ReadOne(c: char, rest: string, sofar: seq<nat>)
    requires c as nat < 256
    ensures ReadChars(Escape(c) + rest, sofar) == ReadChars(rest, sofar + [c as nat])
  {
    EscapeReads(c, rest);
    hide ReadUnit, Escape;
    assert (Escape(c) + rest)[0] == Escape(c)[0];
  }

  lemma CodesSnoc(text: string)
    requires text != ""
    ensures Codes(text) == Codes(text[..|text| - 1]) + [text[|text| - 1] as nat]
  {}

  lemma {:induction false} UnescapeInverts(text: string, rest: string, sofar: seq<nat>)
    requires Bytes(text)
    ensures ReadChars(EscapeAll(text) + rest, sofar) == ReadChars(rest, sofar + Codes(text))
    decreases |text|
  {
    if text == "" {
      assert "" + rest == rest && sofar + [] == sofar;
    } else {
      var front, c := text[..|text| - 1], text[|text| - 1];
      hide Escape, ReadUnit, Codes;
      Assoc(EscapeAll(front), Escape(c), rest);
      UnescapeInverts(front, Escape(c) + rest, sofar);
      ReadOne(c, rest, sofar + Codes(front));
      CodesSnoc(text);
      Assoc(sofar, Codes(front), [c as nat]);
    }
  }

  /** Reading a written JSON string gives back every byte, and the text behind it. */
  lemma JsonRoundTrip(text: string, rest: string)
    requires Bytes(text)
    ensures ReadString(JsonString(text) + rest) == Some(Parsed(Codes(text), rest))
  {
    var all := JsonString(text) + rest;
    hide EscapeAll, ReadUnit, Codes;
    UnescapeInverts(text, "\"" + rest, []);
    assert all[1..] == EscapeAll(text) + ("\"" + rest);
    assert ("\"" + rest)[1..] == rest;
    assert [] + Codes(text) == Codes(text);
  }

  // ---------------------------------------------------------------- the log message

  const LOG_HEAD: string := "{\"type\":\"log\",\"text\":"

  function LogJson(body: string): string {
    LOG_HEAD + JsonString(body) + "}"
  }

  lemma {:induction false} EscapeGrowth(text: string)
    ensures |text| <= |EscapeAll(text)| <= 6 * |text|
  {
    if text != "" {
      EscapeGrowth(text[..|text| - 1]);
    }
  }

  // ---------------------------------------------------------------- WebSocket frames

  /** The frame written for a text payload; empty and oversized payloads are refused. */
  function TextFrame(payload: string): Option<string> {
    if payload == "" || |payload| > MAX_PAYLOAD then None
    else if |payload| <= 125 then Some([0x81 as char, |payload| as char] + payload)
    else Some([0x81 as char, 126 as char, (|payload| / 256) as char, (|payload| % 256) as char] + payload)
  }

  datatype Frame = Frame(fin: bool, opcode: nat, payload: string, rest: string)

  function BigEndian(bytes: string): nat {
    if bytes == "" then 0 else BigEndian(bytes[..|bytes| - 1]) * 256 + bytes[|bytes| - 1] as nat
  }

  function CutPayload(fin: bool, opcode: nat, length: nat, text: string): Option<Frame> {
    if |text| < length then None else Some(Frame(fin, opcode, text[..length], text[length..]))
  }

  /**
   An unfragmented-frame reader: reserved bits must be clear, a frame to a client must not be masked, and a
   length must be in its shortest form.
   */
  function ReadFrame(text: string): Option<Frame> {
    if |text| < 2 then None
    else
      var first, second := text[0] as nat, text[1] as nat;
      var fin, opcode := first >= 128, first % 16;
      if first >= 256 || first / 16 % 8 != 0 || second >= 128 then None
      else if second <= 125 then CutPayload(fin, opcode, second, text[2..])
      else if second == 126 then
        if |text| < 4 || BigEndian(text[2..4]) < 126 then None
        else CutPayload(fin, opcode, BigEndian(text[2..4]), text[4..])
      else if |text| < 10 || BigEndian(text[2..10]) < 65536 then None
      else CutPayload(fin, opcode, BigEndian(text[2..10]), text[10..])
  }

  lemma TwoBytes(n: nat)
    requires n < 65536
    ensures BigEndian([(n / 256) as char, (n % 256) as char]) == n
  {
    var bytes := [(n / 256) as char, (n % 256) as char];
    assert bytes[..1] == [(n / 256) as char] && bytes[..1][..0] == "";
    assert BigEndian("") == 0;
    assert BigEndian(bytes[..1]) == n / 256;
  }

  lemma TakesAll(payload: string, rest: string)
    ensures CutPayload(true, 1, |payload|, payload + rest) == Some(Frame(true, 1, payload, rest))
  {
    assert (payload + rest)[..|payload|] == payload && (payload + rest)[|payload|..] == rest;
  }

  /** A frame is refused exactly for an empty or oversized payload; otherwise a client reads it back. */
  lemma FrameRoundTrip(payload: string, rest: string)
    ensures TextFrame(payload).None? <==> payload == "" || |payload| > MAX_PAYLOAD
    ensures TextFrame(payload).Some? ==>
      ReadFrame(TextFrame(payload).value + rest) == Some(Frame(true, 1, payload, rest))
  {
    if TextFrame(payload).Some? {
      var text := TextFrame(payload).value + rest;
      TakesAll(payload, rest);
      hide CutPayload;
      if |payload| <= 125 {
        assert text[2..] == payload + rest;
      } else {
        TwoBytes(|payload|);
        assert text[2..4] == [(|payload| / 256) as char, (|payload| % 256) as char];
        assert text[4..] == payload + rest;
      }
    }
  }

  // ---------------------------------------------------------------- pushing log chunks

  /** The frame that carries a chunk. */
  function Push(body: string): Option<string> {
    TextFrame(LogJson(body))
  }

  lemma ChunkFits(body: string)
    requires |body| <= MAX_CHUNK_BYTES
    ensures Push(body).Some?
  {
    hide EscapeAll;
    EscapeGrowth(body);
    FrameRoundTrip(LogJson(body), "");
  }

  /** What a client makes of the first frame of its input: the text of a log message. */
  function ReceiveText(input: string): Option<Parsed> {
    var f := ReadFrame(input);
    if f.None? || !f.value.fin || f.value.opcode != 1 || !(LOG_HEAD <= f.value.payload) then None
    else
      var body := ReadString(f.value.payload[|LOG_HEAD|..]);
      if body.None? || body.value.rest != "}" then None else Some(Parsed(body.value.codes, f.value.rest))
  }

  /** A pushed chunk arrives byte for byte, and nothing of what follows it is consumed. */
  lemma PushIsLossless(body: string, rest: string)
    requires Bytes(body) && Push(body).Some?
    ensures ReceiveText(Push(body).value + rest) == Some(Parsed(Codes(body), rest))
  {
    hide ReadFrame, ReadString, JsonString, Codes, TextFrame;
    FrameRoundTrip(LogJson(body), rest);
    JsonRoundTrip(body, "}");
    assert LogJson(body) == LOG_HEAD + (JsonString(body) + "}");
    assert LogJson(body)[|LOG_HEAD|..] == JsonString(body) + "}";
  }

  /** A list of chunks as pushed, back to back. */
  function PushAll(bodies: seq<string>): string {
    if bodies == [] then ""
    else (if Push(bodies[0]).Some? then Push(bodies[0]).value else "") + PushAll(bodies[1..])
  }

  function ReceiveAll(input: string): seq<seq<nat>>
    decreases |input|
  {
    var r := ReceiveText(input);
    if r.None? || |r.value.rest| >= |input| then [] else [r.value.codes] + ReceiveAll(r.value.rest)
  }

  function AllCodes(bodies: seq<string>): seq<seq<nat>> {
    if bodies == [] then [] else [Codes(bodies[0])] + AllCodes(bodies[1..])
  }

  lemma NothingReceived()
    ensures ReceiveText("") == None
  {}

  lemma FrameIsLonger(body: string)
    ensures Push(body).Some? ==> |Push(body).value| > 0
  {
    hide LogJson;
  }

  /** A client reads back every chunk pushed, in order. */
  lemma {:induction false} StreamOfPushes(bodies: seq<string>)
    requires forall i :: 0 <= i < |bodies| ==> Bytes(bodies[i]) && Push(bodies[i]).Some?
    ensures ReceiveAll(PushAll(bodies)) == AllCodes(bodies)
  {
    hide ReceiveText, Push, Codes;
    if bodies == [] {
      NothingReceived();
    } else {
      PushIsLossless(bodies[0], PushAll(bodies[1..]));
      FrameIsLonger(bodies[0]);
      StreamOfPushes(bodies[1..]);
    }
  }

  lemma {:induction false} TextOfOne(lines: seq<string>)
    requires |lines| <= 1 && forall i :: 0 <= i < |lines| ==> |lines[i]| < MAX_CHUNK_BYTES
    ensures |Text(lines)| <= MAX_CHUNK_BYTES
  {
    if lines != [] {
      assert lines[1..] == [];
      assert Text(lines[1..]) == "";
    }
  }

  /**
   As long as every line written is shorter than the chunk limit of 2048 bytes, no chunk the reader takes is ever
   refused for its size, whatever happens between its critical sections.
   */
  lemma PushIsNeverRefused(s: Stream, kept: seq<string>, got: seq<string>, from: nat, between: seq<LogStream.Event>)
    requires Delivered(s, kept, got, from) && AllProper(between)
    requires |WrittenAll(s.log, s.written, between)| + 1 < UINT32
    requires forall i :: 0 <= i < |WrittenAll(s.log, s.written, between)| ==>
      |WrittenAll(s.log, s.written, between)[i]| < 2048
    ensures var after := Act(s, Read(MAX_CHUNK_BYTES, between));
      s.sent <= after.sent && |after.sent[|s.sent|..]| <= 2048 && Push(after.sent[|s.sent|..]).Some?
  {
    var after := Act(s, Read(MAX_CHUNK_BYTES, between));
    var now, i, j := ReadDelivers(s, kept, got, from, MAX_CHUNK_BYTES, between);
    assert after.written == WrittenAll(s.log, s.written, between);
    assert Genuine(now, after.written);
    hide Act, Delivered, WrittenAll, AllProper, Push, LineSeq;
    var block := now[i..j];
    forall n | 0 <= n < |now| ensures |now[n]| < MAX_CHUNK_BYTES {
      assert after.written[LineSeq(now[n]) - 1] == now[n];
    }
    if j - i <= 1 {
      TextOfOne(block);
    }
    assert after.sent[|s.sent|..] == Text(block);
    ChunkFits(Text(block));
  }
}
