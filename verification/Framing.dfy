/**
 Length-prefixed framing of a byte stream, as both receivers of the repository do it: append one
 item, then repeatedly ask how long the frame at the front of the buffer is, drop one item when the
 front cannot be a frame, and cut a frame off when all of it has arrived.

 The length question is a parameter, so that the master-frame decoder and the emulated master's
 response decoder share one theory. Items are generic: plain bytes, or bytes with their timing.
 */
module Framing {
  import opened Sequences

  datatype Need = More | Bad | Exactly(length: nat)

  /**
   What a length question must satisfy: answers are bounded, given before `limit` items are in,
   never changed by further input, and an announced frame on its own gives the same answer.
   */
  ghost predicate Decisive<T(!new)>(need: seq<T> -> Need, limit: nat) {
    && need([]) == More
    && (forall s {:trigger need(s)} :: |s| >= limit ==> !need(s).More?)
    && (forall s {:trigger need(s)} :: need(s).Exactly? ==> 1 <= need(s).length <= limit)
    && (forall s, more {:trigger need(s + more)} :: !need(s).More? ==> need(s + more) == need(s))
    && (forall s {:trigger need(s)} ::
          need(s).Exactly? && need(s).length <= |s| ==> need(s[..need(s).length]) == need(s))
  }

  datatype Chunk<T> = Frame(items: seq<T>) | Skipped(item: T)

  datatype Split<T> = Split(chunks: seq<Chunk<T>>, held: seq<T>)

  function Items<T>(chunk: Chunk<T>): seq<T> {
    match chunk
    case Frame(items) => items
    case Skipped(item) => [item]
  }

  /** The stream positions covered by a list of chunks. */
  function Covered<T>(chunks: seq<Chunk<T>>): seq<T> {
    if chunks == [] then [] else Items(chunks[0]) + Covered(chunks[1..])
  }

  /** How many items leave the front of the buffer now. */
  function Leaving<T(!new)>(need: seq<T> -> Need, limit: nat, buffer: seq<T>): (n: nat)
    requires Decisive(need, limit)
    ensures n <= |buffer|
  {
    match need(buffer)
    case More => 0
    case Bad => 1
    case Exactly(length) => if length <= |buffer| then length else 0
  }

  /** What those items are reported as. */
  function Front<T(!new)>(need: seq<T> -> Need, limit: nat, buffer: seq<T>): (c: Chunk<T>)
    requires Decisive(need, limit)
    requires Leaving(need, limit, buffer) > 0
    ensures Items(c) == buffer[..Leaving(need, limit, buffer)]
    ensures c.Frame? ==> need(c.items) == Exactly(|c.items|)
  {
    if need(buffer).Bad? then Skipped(buffer[0]) else Frame(buffer[..need(buffer).length])
  }

  lemma LeavingIsFinal<T(!new)>(need: seq<T> -> Need, limit: nat, buffer: seq<T>, more: seq<T>)
    requires Decisive(need, limit)
    requires Leaving(need, limit, buffer) > 0
    ensures Leaving(need, limit, buffer + more) == Leaving(need, limit, buffer)
    ensures Front(need, limit, buffer + more) == Front(need, limit, buffer)
  {
    assert need(buffer + more) == need(buffer);
    var n := Leaving(need, limit, buffer);
    assert (buffer + more)[..n] == buffer[..n];
  }

  /** The receivers' inner loop. */
  function Drain<T(!new)>(need: seq<T> -> Need, limit: nat, buffer: seq<T>): Split<T>
    requires Decisive(need, limit)
    decreases |buffer|
  {
    var n := Leaving(need, limit, buffer);
    if n == 0 then Split([], buffer)
    else
      var rest := Drain(need, limit, buffer[n..]);
      Split([Front(need, limit, buffer)] + rest.chunks, rest.held)
  }

  /** A buffer the inner loop leaves alone. */
  ghost predicate Settled<T(!new)>(need: seq<T> -> Need, limit: nat, buffer: seq<T>)
    requires Decisive(need, limit)
  {
    Leaving(need, limit, buffer) == 0
  }

  lemma CoveredStep<T>(first: Chunk<T>, rest: Split<T>, buffer: seq<T>, n: nat)
    requires n <= |buffer| && Items(first) == buffer[..n]
    requires Covered(rest.chunks) + rest.held == buffer[n..]
    ensures Covered([first] + rest.chunks) + rest.held == buffer
  {
    hide Items;
    assert ([first] + rest.chunks)[1..] == rest.chunks;
    Assoc(Items(first), Covered(rest.chunks), rest.held);
    assert buffer == buffer[..n] + buffer[n..];
  }

  /** Nothing is lost or reordered. */
  lemma {:induction false} DrainConserves<T(!new)>(need: seq<T> -> Need, limit: nat, buffer: seq<T>)
    requires Decisive(need, limit)
    ensures var d := Drain(need, limit, buffer);
      Covered(d.chunks) + d.held == buffer
    decreases |buffer|
  {
    hide Decisive, Leaving, Front;
    var n := Leaving(need, limit, buffer);
    if n == 0 {
      assert [] + buffer == buffer;
    } else {
      var rest := Drain(need, limit, buffer[n..]);
      DrainConserves(need, limit, buffer[n..]);
      CoveredStep(Front(need, limit, buffer), rest, buffer, n);
    }
  }

  /** What stays behind is settled, and what was cut off answers with its own length. */
  lemma {:induction false} DrainSettles<T(!new)>(need: seq<T> -> Need, limit: nat, buffer: seq<T>)
    requires Decisive(need, limit)
    ensures var d := Drain(need, limit, buffer);
      && Settled(need, limit, d.held)
      && (forall c :: c in d.chunks && c.Frame? ==> need(c.items) == Exactly(|c.items|))
    decreases |buffer|
  {
    hide Decisive, Leaving, Front;
    var n := Leaving(need, limit, buffer);
    if n > 0 {
      DrainSettles(need, limit, buffer[n..]);
    }
  }

  /** Between arrivals fewer than `limit` items are held. */
  lemma SettledIsShort<T(!new)>(need: seq<T> -> Need, limit: nat, buffer: seq<T>)
    requires Decisive(need, limit) && 0 < limit
    requires Settled(need, limit, buffer)
    ensures |buffer| < limit
  {}

  /** Input may be drained in two instalments. */
  lemma {:induction false} DrainInstalments<T(!new)>(need: seq<T> -> Need, limit: nat, a: seq<T>, b: seq<T>)
    requires Decisive(need, limit)
    ensures var first := Drain(need, limit, a);
      var second := Drain(need, limit, first.held + b);
      Drain(need, limit, a + b) == Split(first.chunks + second.chunks, second.held)
    decreases |a|
  {
    hide Decisive, Leaving, Front;
    var n := Leaving(need, limit, a);
    var first := Drain(need, limit, a);
    var second := Drain(need, limit, first.held + b);
    if n == 0 {
      assert first.chunks + second.chunks == second.chunks;
    } else {
      LeavingIsFinal(need, limit, a, b);
      DrainInstalments(need, limit, a[n..], b);
      assert (a + b)[n..] == a[n..] + b;
      Assoc([Front(need, limit, a)], Drain(need, limit, a[n..]).chunks, second.chunks);
    }
  }

  /** The receivers' outer loop: one item at a time. */
  function DrainEach<T(!new)>(need: seq<T> -> Need, limit: nat, held: seq<T>, input: seq<T>): Split<T>
    requires Decisive(need, limit)
    decreases |input|
  {
    if input == [] then Split([], held)
    else
      var now := Drain(need, limit, held + [input[0]]);
      var later := DrainEach(need, limit, now.held, input[1..]);
      Split(now.chunks + later.chunks, later.held)
  }

  /** Item by item gives the chunks of the stream taken as a whole, however it arrives. */
  lemma {:induction false} EachIsWhole<T(!new)>(need: seq<T> -> Need, limit: nat, held: seq<T>, input: seq<T>)
    requires Decisive(need, limit)
    requires Settled(need, limit, held)
    ensures DrainEach(need, limit, held, input) == Drain(need, limit, held + input)
    decreases |input|
  {
    hide Decisive, Leaving, Front;
    if input == [] {
      assert held + input == held;
    } else {
      var one := held + [input[0]];
      var now := Drain(need, limit, one);
      DrainSettles(need, limit, one);
      EachIsWhole(need, limit, now.held, input[1..]);
      DrainInstalments(need, limit, one, input[1..]);
      Assoc(held, [input[0]], input[1..]);
      assert input == [input[0]] + input[1..];
    }
  }

  function AsFrames<T>(frames: seq<seq<T>>): seq<Chunk<T>> {
    if frames == [] then [] else [Frame(frames[0])] + AsFrames(frames[1..])
  }

  /** Well-formed frames sent back to back come out exactly as sent, and nothing stays behind. */
  lemma {:induction false} DrainInverts<T(!new)>(need: seq<T> -> Need, limit: nat, frames: seq<seq<T>>)
    requires Decisive(need, limit)
    requires forall i :: 0 <= i < |frames| ==> need(frames[i]) == Exactly(|frames[i]|)
    ensures Drain(need, limit, Flatten(frames)) == Split(AsFrames(frames), [])
  {
    if frames == [] {
    } else {
      var first, rest := frames[0], Flatten(frames[1..]);
      WholeFrameLeaves(need, limit, first);
      LeavingIsFinal(need, limit, first, rest);
      hide Decisive, Leaving, Front;
      DrainInverts(need, limit, frames[1..]);
      assert (first + rest)[|first|..] == rest;
    }
  }

  lemma WholeFrameLeaves<T(!new)>(need: seq<T> -> Need, limit: nat, frame: seq<T>)
    requires Decisive(need, limit)
    requires need(frame) == Exactly(|frame|)
    ensures Leaving(need, limit, frame) == |frame| > 0
    ensures Front(need, limit, frame) == Frame(frame)
  {
    assert frame[..|frame|] == frame;
  }

  /** The receivers' view of the previous lemma. */
  lemma SentFramesAreReceived<T(!new)>(need: seq<T> -> Need, limit: nat, frames: seq<seq<T>>)
    requires Decisive(need, limit)
    requires forall i :: 0 <= i < |frames| ==> need(frames[i]) == Exactly(|frames[i]|)
    ensures DrainEach(need, limit, [], Flatten(frames)) == Split(AsFrames(frames), [])
  {
    assert Settled(need, limit, []);
    hide Decisive, Leaving, Front;
    EachIsWhole(need, limit, [], Flatten(frames));
    assert [] + Flatten(frames) == Flatten(frames);
    DrainInverts(need, limit, frames);
  }
}
