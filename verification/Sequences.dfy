/** Small facts about sequences shared by the framing, logging and decoding modules. */
module Sequences {

  /** Concatenates a list of blocks. */
  function Flatten<T>(blocks: seq<seq<T>>): (flat: seq<T>)
  {
    if blocks == [] then [] else blocks[0] + Flatten(blocks[1..])
  }

  lemma Assoc<T>(a: seq<T>, b: seq<T>, c: seq<T>)
    ensures (a + b) + c == a + (b + c)
  {}

  lemma FlattenCons<T>(first: seq<T>, rest: seq<seq<T>>)
    ensures Flatten([first] + rest) == first + Flatten(rest)
  {
    assert ([first] + rest)[1..] == rest;
  }

  lemma {:induction false} FlattenConcat<T>(left: seq<seq<T>>, right: seq<seq<T>>)
    ensures Flatten(left + right) == Flatten(left) + Flatten(right)
  {
    if left == [] {
      assert left + right == right;
      assert Flatten(left) + Flatten(right) == Flatten(right);
    } else {
      FlattenConcat(left[1..], right);
      assert left + right == [left[0]] + (left[1..] + right);
      FlattenCons(left[0], left[1..] + right);
      Assoc(left[0], Flatten(left[1..]), Flatten(right));
    }
  }

  lemma FlattenSnoc<T>(blocks: seq<seq<T>>, last: seq<T>)
    ensures Flatten(blocks + [last]) == Flatten(blocks) + last
  {
    FlattenConcat(blocks, [last]);
    assert [last] == [last] + [];
    FlattenCons(last, []);
  }
}
