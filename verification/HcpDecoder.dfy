/**
 The proxy client's frame finder. It keeps a window of the last 24 bytes and tests its tails; what it reports
 is shown to be every matching substring of the whole stream, once, in order, however the stream is cut.
 */
module HcpDecoder {
  import opened Crc8
  import opened Sequences

  const WINDOW: nat := 24
  const SHORTEST: nat := 4
  const LONGEST: nat := 16

  /** The length nibble of a frame. */
  function PayloadLength(b: byte): (n: nat)
    ensures n < 16
  {
    NibblesSmall(b);
    Nibble(Low(b))
  }

  predicate IsFrame(frame: seq<byte>) {
    |frame| >= SHORTEST && PayloadLength(frame[1]) + 3 == |frame| && Crc8.Crc8(frame) == 0
  }

  /** A place in the stream. */
  datatype Place = Place(end: nat, length: nat)

  predicate Matches(stream: seq<byte>, p: Place) {
    && SHORTEST <= p.length <= LONGEST && p.length <= p.end <= |stream|
    && IsFrame(stream[p.end - p.length..p.end])
  }

  /** The matches ending at `end` of up to `length` bytes, shortest first. */
  function EndingAt(stream: seq<byte>, end: nat, length: nat): seq<Place>
    decreases length
  {
    if length < SHORTEST then []
    else EndingAt(stream, end, length - 1)
         + (if Matches(stream, Place(end, length)) then [Place(end, length)] else [])
  }

  /** The matches that end behind `from` bytes and within `upTo`. */
  function Found(stream: seq<byte>, from: nat, upTo: nat): seq<Place>
    decreases upTo
  {
    if upTo <= from then [] else Found(stream, from, upTo - 1) + EndingAt(stream, upTo, LONGEST)
  }

  function Frames(stream: seq<byte>, places: seq<Place>): seq<seq<byte>> {
    if places == [] then []
    else
      var p := places[|places| - 1];
      Frames(stream, places[..|places| - 1])
      + [FrameAt(stream, p)]
  }

  function FrameAt(stream: seq<byte>, p: Place): seq<byte> {
    if p.length <= p.end <= |stream| then stream[p.end - p.length..p.end] else []
  }

  /** The frames of up to `length` bytes that end the stream. */
  function TailFrames(stream: seq<byte>, length: nat): seq<seq<byte>> {
    Frames(stream, EndingAt(stream, |stream|, length))
  }

  // ---------------------------------------------------------------- the window

  function LastBytes(stream: seq<byte>, n: nat): seq<byte> {
    if |stream| <= n then stream else stream[|stream| - n..]
  }

  /** The two checks on a tail of the window. */
  method TestFrame(frame: seq<byte>) returns (ok: bool)
    requires |frame| >= SHORTEST
    ensures ok == IsFrame(frame)
  {
    if PayloadLength(frame[1]) + 3 != |frame| {
      return false;
    }
    var crc := ComputeCrc8(frame);
    ok := crc == 0;
  }

  class Decoder {
    var window: seq<byte>

    /** The window is all the decoder remembers of the stream. */
    ghost predicate Follows(stream: seq<byte>)
      reads this
    {
      window == LastBytes(stream, WINDOW)
    }

    constructor ()
      ensures Follows([])
    {
      window := [];
    }

    method DecodeTail(ghost stream: seq<byte>) returns (out: seq<seq<byte>>)
      requires Follows(stream)
      ensures out == TailFrames(stream, LONGEST)
    {
      hide TailFrames, LastBytes, IsFrame;
      var data := window;
      out := [];
      ShortestIsFour(stream);
      TailOfWindow(stream, 0);
      var longest := if |data| < LONGEST then |data| else LONGEST;
      var length := SHORTEST;
      while length <= longest
        invariant SHORTEST <= length && (length <= longest + 1 || length == SHORTEST)
        invariant out == TailFrames(stream, length - 1)
      {
        var frame := data[|data| - length..];
        TailOfWindow(stream, length);
        LongerTail(stream, length);
        var isFrame := TestFrame(frame);
        if isFrame {
          out := out + [frame];
        }
        length := length + 1;
      }
      NoLongerTail(stream, length - 1);
    }

    /** Appends to the window, which drops its oldest byte when full. */
    method Push(b: byte, ghost stream: seq<byte>)
      requires Follows(stream)
      modifies this
      ensures Follows(stream + [b])
    {
      window := window + [b];
      if |window| > WINDOW {
        window := window[1..];
      }
    }

    method Feed(data: seq<byte>, ghost stream: seq<byte>) returns (out: seq<seq<byte>>)
      requires Follows(stream)
      modifies this
      ensures Follows(stream + data)
      ensures out == NewFrames(stream, data)
    {
      hide Follows, NewFrames, TailFrames;
      out := [];
      NothingNew(stream);
      assert stream + data[..0] == stream && data[..0] == [];
      for i := 0 to |data|
        invariant Follows(stream + data[..i])
        invariant out == NewFrames(stream, data[..i])
      {
        ghost var before, now := stream + data[..i], stream + data[..i + 1];
        assert now == before + [data[i]];
        Push(data[i], before);
        var tail := DecodeTail(now);
        OneMoreByte(stream, data[..i], data[i]);
        assert data[..i + 1] == data[..i] + [data[i]];
        out := out + tail;
      }
      assert data[..|data|] == data;
    }
  }

  /** The frames that end within `data`, read behind `stream`. */
  function NewFrames(stream: seq<byte>, data: seq<byte>): seq<seq<byte>> {
    Frames(stream + data, Found(stream + data, |stream|, |stream + data|))
  }

  lemma NothingNew(stream: seq<byte>)
    ensures NewFrames(stream, []) == []
  {}

  lemma OneMoreByte(stream: seq<byte>, data: seq<byte>, b: byte)
    ensures var now := stream + (data + [b]);
      NewFrames(stream, data + [b]) == NewFrames(stream, data) + TailFrames(now, LONGEST)
  {
    hide EndingAt;
    var before, now := stream + data, stream + (data + [b]);
    Assoc(stream, data, [b]);
    FoundStays(before, [b], |stream|, |before|);
    FramesConcat(now, Found(now, |stream|, |before|), EndingAt(now, |now|, LONGEST));
  }

  lemma ShortestIsFour(stream: seq<byte>)
    ensures TailFrames(stream, SHORTEST - 1) == []
  {}

  /** The window's tails are the stream's. */
  lemma TailOfWindow(stream: seq<byte>, length: nat)
    ensures |LastBytes(stream, WINDOW)| == if |stream| < WINDOW then |stream| else WINDOW
    ensures length <= |LastBytes(stream, WINDOW)| ==>
      LastBytes(stream, WINDOW)[|LastBytes(stream, WINDOW)| - length..] == stream[|stream| - length..|stream|]
  {}

  lemma LongerTail(stream: seq<byte>, length: nat)
    requires SHORTEST <= length <= LONGEST && length <= |stream|
    ensures var tail := stream[|stream| - length..|stream|];
      TailFrames(stream, length) == TailFrames(stream, length - 1) + (if IsFrame(tail) then [tail] else [])
  {
    hide IsFrame;
    var shorter := EndingAt(stream, |stream|, length - 1);
    if Matches(stream, Place(|stream|, length)) {
      assert (shorter + [Place(|stream|, length)])[..|shorter|] == shorter;
    } else {
      assert shorter + [] == shorter;
    }
  }

  lemma NoLongerTail(stream: seq<byte>, length: nat)
    requires SHORTEST - 1 <= length <= LONGEST && (|stream| <= length || length == LONGEST)
    ensures TailFrames(stream, length) == TailFrames(stream, LONGEST)
  {
    NoneTooLong(stream, length, LONGEST);
  }

  /** No match is longer than the stream. */
  lemma {:induction false} NoneTooLong(stream: seq<byte>, length: nat, longer: nat)
    requires SHORTEST - 1 <= length <= longer && (|stream| <= length || length == longer)
    ensures EndingAt(stream, |stream|, longer) == EndingAt(stream, |stream|, length)
    decreases longer
  {
    hide IsFrame;
    if longer > length {
      NoneTooLong(stream, length, longer - 1);
    }
  }

  predicate Within(places: seq<Place>, upTo: nat) {
    forall i :: 0 <= i < |places| ==> places[i].length <= places[i].end <= upTo
  }

  lemma MatchStays(stream: seq<byte>, more: seq<byte>, p: Place)
    requires p.end <= |stream|
    ensures Matches(stream + more, p) == Matches(stream, p)
  {
    hide IsFrame;
    if p.length <= p.end {
      assert (stream + more)[p.end - p.length..p.end] == stream[p.end - p.length..p.end];
    }
  }

  lemma {:induction false} EndStays(stream: seq<byte>, more: seq<byte>, end: nat, length: nat)
    requires end <= |stream|
    ensures EndingAt(stream + more, end, length) == EndingAt(stream, end, length)
    ensures Within(EndingAt(stream, end, length), end)
    decreases length
  {
    hide Matches;
    if length >= SHORTEST {
      EndStays(stream, more, end, length - 1);
      MatchStays(stream, more, Place(end, length));
      assert Matches(stream, Place(end, length)) ==> length <= end by {
        MatchFits(stream, Place(end, length));
      }
    }
  }

  lemma MatchFits(stream: seq<byte>, p: Place)
    ensures Matches(stream, p) ==> SHORTEST <= p.length <= LONGEST && p.length <= p.end <= |stream|
  {}

  lemma {:induction false} FramesStay(stream: seq<byte>, more: seq<byte>, places: seq<Place>)
    requires Within(places, |stream|)
    ensures Frames(stream + more, places) == Frames(stream, places)
  {
    if places != [] {
      var p := places[|places| - 1];
      FramesStay(stream, more, places[..|places| - 1]);
      assert (stream + more)[p.end - p.length..p.end] == stream[p.end - p.length..p.end];
    }
  }

  /** What was found stays found, and is not found again. */
  lemma {:induction false} FoundStays(stream: seq<byte>, more: seq<byte>, from: nat, upTo: nat)
    requires upTo <= |stream|
    ensures Found(stream + more, from, upTo) == Found(stream, from, upTo)
    ensures Within(Found(stream, from, upTo), upTo)
    ensures Frames(stream + more, Found(stream, from, upTo)) == Frames(stream, Found(stream, from, upTo))
    decreases upTo
  {
    hide EndingAt;
    if upTo > from {
      FoundStays(stream, more, from, upTo - 1);
      EndStays(stream, more, upTo, LONGEST);
    }
    FramesStay(stream, more, Found(stream, from, upTo));
  }

  lemma {:induction false} FramesConcat(stream: seq<byte>, a: seq<Place>, b: seq<Place>)
    ensures Frames(stream, a + b) == Frames(stream, a) + Frames(stream, b)
    decreases |b|
  {
    if b == [] {
      assert a + b == a;
    } else {
      hide FrameAt;
      var all, n := a + b, |b| - 1;
      FramesConcat(stream, a, b[..n]);
      assert all[..|all| - 1] == a + b[..n] && all[|all| - 1] == b[n];
      assert (Frames(stream, a) + Frames(stream, b[..n])) + [FrameAt(stream, b[n])]
          == Frames(stream, a) + (Frames(stream, b[..n]) + [FrameAt(stream, b[n])]);
    }
  }

  lemma {:induction false} FoundSplits(stream: seq<byte>, from: nat, mid: nat, upTo: nat)
    requires from <= mid <= upTo
    ensures Found(stream, from, upTo) == Found(stream, from, mid) + Found(stream, mid, upTo)
    decreases upTo
  {
    hide EndingAt;
    if mid < upTo {
      FoundSplits(stream, from, mid, upTo - 1);
      Assoc(Found(stream, from, mid), Found(stream, mid, upTo - 1), EndingAt(stream, upTo, LONGEST));
    }
  }

  /** All frames of a stream. */
  function Report(stream: seq<byte>): seq<seq<byte>> {
    Frames(stream, Found(stream, 0, |stream|))
  }

  lemma ReportContinues(stream: seq<byte>, data: seq<byte>)
    ensures Report(stream + data) == Report(stream) + NewFrames(stream, data)
  {
    var all := stream + data;
    FoundSplits(all, 0, |stream|, |all|);
    FoundStays(stream, data, 0, |stream|);
    FramesConcat(all, Found(all, 0, |stream|), Found(all, |stream|, |all|));
  }

  lemma NothingReported()
    ensures Report([]) == []
  {}

  /** However a stream is cut into pieces, feeding them in turn reports the frames of the whole. */
  method FeedAll(pieces: seq<seq<byte>>) returns (out: seq<seq<byte>>)
    ensures out == Report(Flatten(pieces))
  {
    hide Report, NewFrames;
    var decoder := new Decoder();
    out := [];
    NothingReported();
    for i := 0 to |pieces|
      invariant decoder.Follows(Flatten(pieces[..i]))
      invariant out == Report(Flatten(pieces[..i]))
      modifies decoder
    {
      var more := decoder.Feed(pieces[i], Flatten(pieces[..i]));
      ReportContinues(Flatten(pieces[..i]), pieces[i]);
      FlattenSnoc(pieces[..i], pieces[i]);
      assert pieces[..i + 1] == pieces[..i] + [pieces[i]];
      out := out + more;
    }
    assert pieces[..|pieces|] == pieces;
  }

  // ---------------------------------------------------------------- what is found

  predicate Before(p: Place, q: Place) {
    p.end < q.end || (p.end == q.end && p.length < q.length)
  }

  /** Strictly increasing places: each is reported once. */
  ghost predicate Ordered(places: seq<Place>) {
    forall i, j :: 0 <= i < j < |places| ==> Before(places[i], places[j])
  }

  lemma ShortestMatch(stream: seq<byte>)
    ensures forall p :: Matches(stream, p) ==> SHORTEST <= p.length
  {
    hide IsFrame;
  }

  lemma {:induction false} EndingAtIsExact(stream: seq<byte>, end: nat, length: nat)
    requires length <= LONGEST
    ensures Ordered(EndingAt(stream, end, length))
    ensures forall p :: p in EndingAt(stream, end, length) <==> p.end == end && p.length <= length && Matches(stream, p)
    decreases length
  {
    hide Matches;
    ShortestMatch(stream);
    if length >= SHORTEST {
      hide Ordered;
      EndingAtIsExact(stream, end, length - 1);
      OneMore(EndingAt(stream, end, length - 1), Place(end, length), Matches(stream, Place(end, length)));
    }
  }

  lemma OneMore(places: seq<Place>, p: Place, more: bool)
    requires Ordered(places) && forall q :: q in places ==> Before(q, p)
    ensures var all := places + (if more then [p] else []);
      Ordered(all) && forall q :: q in all <==> q in places || (more && q == p)
  {
    hide Before;
  }

  /**
   The report is exactly the substrings of 4 to 16 bytes whose length nibble and CRC check out, ordered by
   where they end and then by length, each once.
   */
  lemma {:induction false} FoundIsExact(stream: seq<byte>, from: nat, upTo: nat)
    ensures Ordered(Found(stream, from, upTo))
    ensures forall p :: p in Found(stream, from, upTo) <==> from < p.end <= upTo && Matches(stream, p)
    decreases upTo
  {
    hide Matches, EndingAt;
    if upTo > from {
      FoundIsExact(stream, from, upTo - 1);
      EndingAtIsExact(stream, upTo, LONGEST);
      assert forall p :: Matches(stream, p) ==> p.length <= LONGEST by {
        forall p | Matches(stream, p) ensures p.length <= LONGEST { MatchFits(stream, p); }
      }
    }
  }

  /** The places of `FoundIsExact`, in numbers: 4 to 16 bytes, the length nibble, and the CRC of the rest behind. */
  lemma MatchesInNumbers(stream: seq<byte>, p: Place)
    ensures Matches(stream, p) <==>
      && 4 <= p.length <= 16 && p.length <= p.end <= |stream|
      && var frame := stream[p.end - p.length..p.end];
         frame[1] as nat % 16 + 3 == p.length && frame[p.length - 1] == Crc8.Crc8(frame[..p.length - 1])
  {
    hide Crc8.Crc8, IsFrame, PayloadLength;
    if 4 <= p.length <= 16 && p.length <= p.end <= |stream| {
      FrameIsAppended(stream[p.end - p.length..p.end]);
    }
  }

  // ---------------------------------------------------------------- real frames

  /** A frame is what its second byte's low nibble says long, and ends with the CRC of the rest. */
  lemma FrameIsAppended(frame: seq<byte>)
    ensures IsFrame(frame) <==>
      && |frame| >= 4 && frame[1] as nat % 16 + 3 == |frame|
      && frame[|frame| - 1] == Crc8.Crc8(frame[..|frame| - 1])
  {
    hide Crc8.Crc8, PayloadLength;
    if |frame| >= 4 {
      LowIsRemainder(frame[1]);
      EndsWithCrc(frame);
    }
  }

  lemma EndsWithCrc(frame: seq<byte>)
    requires frame != []
    ensures Crc8.Crc8(frame) == 0 <==> frame[|frame| - 1] == Crc8.Crc8(frame[..|frame| - 1])
  {
    hide Crc8.Crc8;
    var n := |frame| - 1;
    assert frame == frame[..n] + [frame[n]];
    ZeroIffAppended(frame[..n], frame[n]);
  }

  lemma LowIsRemainder(b: byte)
    ensures PayloadLength(b) == b as nat % 16
  {}

  lemma OneByte(data: seq<byte>, k: nat)
    requires k < |data|
    ensures BitwiseFrom(INITIAL, data[..k + 1]) == Divide(Xor(BitwiseFrom(INITIAL, data[..k]), data[k]))
  {
    assert data[..k + 1][..k] == data[..k] && data[..k + 1][k] == data[k];
    hide Divide, Xor;
  }

  lemma Registers()
    ensures Divide(Xor(0xF3, 0x28)) == 0x0F && Divide(Xor(0x0F, 0x82)) == 0xAA
    ensures Divide(Xor(0xAA, 0x01)) == 0x58 && Divide(Xor(0x58, 0x80)) == 0x06
    ensures Divide(Xor(0xF3, 0x00)) == 0xD7 && Divide(Xor(0xD7, 0x92)) == 0xDC
    ensures Divide(Xor(0xDC, 0x12)) == 0x64 && Divide(Xor(0x64, 0x02)) == 0x35
  {}

  lemma NoBytes(data: seq<byte>)
    ensures BitwiseFrom(INITIAL, data[..0]) == 0xF3
  {}

  lemma ScanCrc()
    ensures Crc8.Crc8([0x28, 0x82, 0x01, 0x80]) == 0x06
  {
    hide Divide, Xor, BitwiseFrom, Crc8.Crc8;
    Registers();
    var scan: seq<byte> := [0x28, 0x82, 0x01, 0x80];
    NoBytes(scan);
    FourBytes(scan);
    TableIsBitwise(scan);
  }

  lemma StatusCrc()
    ensures Crc8.Crc8([0x00, 0x92, 0x12, 0x02]) == 0x35
  {
    hide Divide, Xor, BitwiseFrom, Crc8.Crc8;
    Registers();
    var status: seq<byte> := [0x00, 0x92, 0x12, 0x02];
    NoBytes(status);
    FourBytes(status);
    TableIsBitwise(status);
  }

  lemma FiveBytes(frame: seq<byte>, rest: seq<byte>, b: byte, last: byte)
    requires |rest| == 4 && rest[1] == b && b as nat % 16 == 2 && frame == rest + [last] && Crc8.Crc8(rest) == last
    ensures IsFrame(frame)
  {
    FrameIsAppended(frame);
    assert frame[..4] == rest && frame[4] == last && frame[1] == b;
    hide Crc8.Crc8, IsFrame;
  }

  /** A slave scan and a status broadcast as the door sends them are frames. */
  lemma RealFrames()
    ensures IsFrame([0x28, 0x82, 0x01, 0x80, 0x06]) && IsFrame([0x00, 0x92, 0x12, 0x02, 0x35])
  {
    hide Crc8.Crc8, IsFrame;
    ScanCrc();
    StatusCrc();
    FiveBytes([0x28, 0x82, 0x01, 0x80, 0x06], [0x28, 0x82, 0x01, 0x80], 0x82, 0x06);
    FiveBytes([0x00, 0x92, 0x12, 0x02, 0x35], [0x00, 0x92, 0x12, 0x02], 0x92, 0x35);
  }

  lemma FourBytes(data: seq<byte>)
    requires |data| == 4
    ensures var two := Divide(Xor(Divide(Xor(BitwiseFrom(INITIAL, data[..0]), data[0])), data[1]));
      BitwiseFrom(INITIAL, data) == Divide(Xor(Divide(Xor(two, data[2])), data[3]))
  {
    hide BitwiseFrom, Divide, Xor;
    OneByte(data, 0);
    OneByte(data, 1);
    OneByte(data, 2);
    OneByte(data, 3);
    assert data[..4] == data;
  }
}
