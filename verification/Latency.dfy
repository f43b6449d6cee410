/**
 Pairing of decoded status polls with status responses: per counter, each response takes the latest
 finished poll that no earlier response took.
 */
module Latency {
  import opened Options

  datatype Poll = Poll(counter: int, startUs: real, endUs: real)

  datatype Response = Response(
    counter: int, startUs: real, endUs: real, firstByteUs: Option<real>, frameEndUs: Option<real>)

  /** A poll that response `r` could answer. */
  predicate Eligible(poll: Poll, response: Response) {
    poll.counter == response.counter && poll.endUs <= response.startUs
  }

  predicate Timed(response: Response) {
    response.firstByteUs.Some? && response.frameEndUs.Some?
  }

  const NONE := -1

  /** Poll `q` is still unused when the response after `taken` comes up. */
  predicate Unused(taken: seq<int>, q: int) {
    q !in taken
  }

  /** `p` is the right choice for `response`: the latest eligible unused poll, the earliest listed of equals. */
  ghost predicate Choice(polls: seq<Poll>, response: Response, taken: seq<int>, p: int) {
    if p == NONE then
      forall q :: 0 <= q < |polls| && Unused(taken, q) ==> !Eligible(polls[q], response)
    else
      && 0 <= p < |polls| && Unused(taken, p) && Eligible(polls[p], response)
      && forall q :: 0 <= q < |polls| && Unused(taken, q) && Eligible(polls[q], response) ==>
           polls[q].endUs < polls[p].endUs || (polls[q].endUs == polls[p].endUs && p <= q)
  }

  /** Every response so far took the right choice. */
  ghost predicate Greedy(polls: seq<Poll>, responses: seq<Response>, taken: seq<int>) {
    && |taken| <= |responses|
    && forall r :: 0 <= r < |taken| ==> Choice(polls, responses[r], taken[..r], taken[r])
  }

  /**
   Each response takes, of the polls with its counter that end no later than it starts and that no earlier response
   took, the one that ends last, the first listed of equals; and none exactly if there is none.
   */
  lemma LatestIsTaken(polls: seq<Poll>, responses: seq<Response>, taken: seq<int>, r: nat)
    requires Greedy(polls, responses, taken) && r < |taken|
    ensures taken[r] == -1 || (0 <= taken[r] < |polls| && taken[r] !in taken[..r]
                               && polls[taken[r]].counter == responses[r].counter
                               && polls[taken[r]].endUs <= responses[r].startUs)
    ensures forall q :: 0 <= q < |polls| && q !in taken[..r] && polls[q].counter == responses[r].counter
                        && polls[q].endUs <= responses[r].startUs ==>
              && taken[r] != -1
              && (polls[q].endUs < polls[taken[r]].endUs
                  || (polls[q].endUs == polls[taken[r]].endUs && taken[r] <= q))
  {
    assert Choice(polls, responses[r], taken[..r], taken[r]);
    forall q | 0 <= q < |polls| && q !in taken[..r] && polls[q].counter == responses[r].counter
               && polls[q].endUs <= responses[r].startUs
      ensures Unused(taken[..r], q) && Eligible(polls[q], responses[r])
    {}
  }

  /** The (poll, response) pairs reported: a match counts only when the response has its timing. */
  function Pairs(responses: seq<Response>, taken: seq<int>): (pairs: seq<(int, int)>)
    requires |taken| <= |responses|
  {
    if taken == [] then []
    else
      var r := |taken| - 1;
      Pairs(responses, taken[..r])
      + (if taken[r] != NONE && Timed(responses[r]) then [(taken[r], r)] else [])
  }

  /** How many of the responses took a poll. */
  function Matches(taken: seq<int>): nat {
    if taken == [] then 0 else Matches(taken[..|taken| - 1]) + (if taken[|taken| - 1] != NONE then 1 else 0)
  }

  /** How many took a poll but had no timing to report. */
  function Untimed(responses: seq<Response>, taken: seq<int>): nat
    requires |taken| <= |responses|
  {
    if taken == [] then 0
    else
      var r := |taken| - 1;
      Untimed(responses, taken[..r]) + (if taken[r] != NONE && !Timed(responses[r]) then 1 else 0)
  }

  // ---------------------------------------------------------------- the pending table

  type Table = map<int, seq<int>>

  ghost function Sizes(m: Table): nat
    decreases |m|
  {
    if !exists k :: k in m then 0
    else
      var k :| k in m;
      |m[k]| + Sizes(m - {k})
  }

  lemma {:induction false} SizesAt(m: Table, k: int)
    requires k in m
    ensures Sizes(m) == |m[k]| + Sizes(m - {k})
    decreases |m|
  {
    var j :| j in m && Sizes(m) == |m[j]| + Sizes(m - {j});
    if j != k {
      SizesAt(m - {j}, k);
      SizesAt(m - {k}, j);
      assert (m - {j}) - {k} == (m - {k}) - {j};
    }
  }

  lemma SizesUpdate(m: Table, k: int, list: seq<int>)
    ensures Sizes(m[k := list]) == Sizes(m) - (if k in m then |m[k]| else 0) + |list|
  {
    SizesAt(m[k := list], k);
    assert m[k := list] - {k} == m - {k};
    if k in m {
      SizesAt(m, k);
    } else {
      assert m - {k} == m;
    }
  }

  function Pending(m: Table, k: int): seq<int> {
    if k in m then m[k] else []
  }

  ghost predicate Increasing(s: seq<int>) {
    forall i, j :: 0 <= i < j < |s| ==> s[i] < s[j]
  }

  /** The table lists, per counter and in order, exactly the first `n` polls not taken yet. */
  ghost predicate Lists(m: Table, polls: seq<Poll>, taken: seq<int>, n: nat)
    requires n <= |polls|
  {
    forall k ::
      && Increasing(Pending(m, k))
      && forall q :: q in Pending(m, k) <==> 0 <= q < n && polls[q].counter == k && Unused(taken, q)
  }

  lemma NonEmpty(s: set<int>)
    requires s != {}
    ensures exists k :: k in s
  {
    assert (forall k :: k !in s) ==> s == {};
  }

  method TotalPending(m: Table) returns (total: nat)
    ensures total == Sizes(m)
  {
    total := 0;
    var keys := m.Keys;
    ghost var rest := m;
    while keys != {}
      invariant forall k :: k in keys <==> k in rest
      invariant forall k :: k in keys ==> k in m && rest[k] == m[k]
      invariant total + Sizes(rest) == Sizes(m)
      decreases keys
    {
      NonEmpty(keys);
      var k: int :| k in keys;
      SizesAt(rest, k);
      total := total + |m[k]|;
      keys, rest := keys - {k}, rest - {k};
    }
  }

  /** The best eligible entry of a candidate list: its position, or -1. */
  method LatestEligible(polls: seq<Poll>, candidates: seq<int>, response: Response) returns (best: int)
    requires Increasing(candidates)
    requires forall i :: 0 <= i < |candidates| ==>
      0 <= candidates[i] < |polls| && polls[candidates[i]].counter == response.counter
    ensures -1 <= best < |candidates|
    ensures best == -1 ==> forall j :: 0 <= j < |candidates| ==> !Eligible(polls[candidates[j]], response)
    ensures best >= 0 ==>
      && Eligible(polls[candidates[best]], response)
      && forall j :: 0 <= j < |candidates| && Eligible(polls[candidates[j]], response) ==>
           polls[candidates[j]].endUs < polls[candidates[best]].endUs
           || (polls[candidates[j]].endUs == polls[candidates[best]].endUs && best <= j)
  {
    best := -1;
    for i := 0 to |candidates|
      invariant -1 <= best < i
      invariant best == -1 ==> forall j :: 0 <= j < i ==> !Eligible(polls[candidates[j]], response)
      invariant best >= 0 ==>
        && Eligible(polls[candidates[best]], response)
        && forall j :: 0 <= j < i && Eligible(polls[candidates[j]], response) ==>
             polls[candidates[j]].endUs < polls[candidates[best]].endUs
             || (polls[candidates[j]].endUs == polls[candidates[best]].endUs && best <= j)
    {
      var poll := polls[candidates[i]];
      if poll.endUs <= response.startUs && (best == -1 || poll.endUs > polls[candidates[best]].endUs) {
        best := i;
      }
    }
  }

  method PendingByCounter(polls: seq<Poll>) returns (pending: Table)
    ensures Lists(pending, polls, [], |polls|)
    ensures Sizes(pending) == |polls|
  {
    hide Lists, Sizes;
    pending := map[];
    NothingListed(polls);
    for n := 0 to |polls|
      invariant Lists(pending, polls, [], n)
      invariant Sizes(pending) == n
    {
      var k := polls[n].counter;
      SizesUpdate(pending, k, Pending(pending, k) + [n]);
      Listed(pending, pending[k := Pending(pending, k) + [n]], polls, n);
      pending := pending[k := Pending(pending, k) + [n]];
    }
  }

  lemma NothingListed(polls: seq<Poll>)
    ensures Lists(map[], polls, [], 0) && Sizes(map[]) == 0
  {}

  /** The pairing loop of the source. `taken` is the poll each response took, for the specification only. */
  method MatchStatusPairs(polls: seq<Poll>, responses: seq<Response>)
    returns (pairs: seq<(int, int)>, unmatchedPolls: nat, unmatchedResponses: nat, ghost taken: seq<int>)
    ensures |taken| == |responses| && Greedy(polls, responses, taken)
    ensures pairs == Pairs(responses, taken)
    ensures |pairs| + unmatchedResponses == |responses|
    ensures unmatchedPolls == |polls| - Matches(taken)
  {
    var pending := PendingByCounter(polls);
    hide Greedy, Choice, Lists, Sizes, Pairs, Matches, Eligible, Increasing, Unused;
    taken, pairs, unmatchedResponses := [], [], 0;
    NothingTaken(polls, responses);
    for r := 0 to |responses|
      invariant |taken| == r && Greedy(polls, responses, taken)
      invariant Lists(pending, polls, taken, |polls|)
      invariant Sizes(pending) == |polls| - Matches(taken)
      invariant pairs == Pairs(responses, taken)
      invariant |pairs| + unmatchedResponses == r
    {
      var response := responses[r];
      var candidates := Pending(pending, response.counter);
      InTable(pending, polls, taken, response.counter);
      var best := LatestEligible(polls, candidates, response);
      ghost var before := taken;
      BestIsChoice(polls, response, taken, pending, best);
      taken := taken + [if best == -1 then NONE else candidates[best]];
      Appended(polls, responses, before, taken[r]);
      if best == -1 {
        StillListed(pending, polls, before);
        unmatchedResponses := unmatchedResponses + 1;
        continue;
      }
      SizesUpdate(pending, response.counter, candidates[..best] + candidates[best + 1..]);
      Popped(pending, polls, before, response.counter, best);
      pending := pending[response.counter := candidates[..best] + candidates[best + 1..]];
      if response.firstByteUs.None? || response.frameEndUs.None? {
        unmatchedResponses := unmatchedResponses + 1;
        continue;
      }
      pairs := pairs + [(candidates[best], r)];
    }
    unmatchedPolls := TotalPending(pending);
  }

  lemma NothingTaken(polls: seq<Poll>, responses: seq<Response>)
    ensures Greedy(polls, responses, []) && Pairs(responses, []) == [] && Matches([]) == 0
  {}

  lemma InTable(pending: Table, polls: seq<Poll>, taken: seq<int>, c: int)
    requires Lists(pending, polls, taken, |polls|)
    ensures var list := Pending(pending, c);
      && Increasing(list)
      && (forall i :: 0 <= i < |list| ==>
            0 <= list[i] < |polls| && polls[list[i]].counter == c && Unused(taken, list[i]))
      && (forall q :: 0 <= q < |polls| && polls[q].counter == c && Unused(taken, q) ==>
            exists i :: 0 <= i < |list| && list[i] == q)
  {
    var list := Pending(pending, c);
    assert forall i :: 0 <= i < |list| ==> list[i] in list;
  }

  lemma BestIsChoice(polls: seq<Poll>, response: Response, taken: seq<int>, pending: Table, best: int)
    requires Lists(pending, polls, taken, |polls|)
    requires -1 <= best < |Pending(pending, response.counter)|
    requires var list := Pending(pending, response.counter);
      && (forall i :: 0 <= i < |list| ==> 0 <= list[i] < |polls|)
      && (best == -1 ==> forall j :: 0 <= j < |list| ==> !Eligible(polls[list[j]], response))
      && (best >= 0 ==>
            && Eligible(polls[list[best]], response)
            && forall j :: 0 <= j < |list| && Eligible(polls[list[j]], response) ==>
                 polls[list[j]].endUs < polls[list[best]].endUs
                 || (polls[list[j]].endUs == polls[list[best]].endUs && best <= j))
    ensures Choice(polls, response, taken, if best == -1 then NONE else Pending(pending, response.counter)[best])
  {
    InTable(pending, polls, taken, response.counter);
  }

  lemma Appended(polls: seq<Poll>, responses: seq<Response>, taken: seq<int>, p: int)
    requires |taken| < |responses| && Greedy(polls, responses, taken)
    requires Choice(polls, responses[|taken|], taken, p)
    ensures Greedy(polls, responses, taken + [p])
    ensures Matches(taken + [p]) == Matches(taken) + (if p != NONE then 1 else 0)
    ensures Pairs(responses, taken + [p])
         == Pairs(responses, taken) + (if p != NONE && Timed(responses[|taken|]) then [(p, |taken|)] else [])
  {
    hide Choice;
    var longer := taken + [p];
    assert longer[..|taken|] == taken;
    forall r | 0 <= r < |longer| ensures Choice(polls, responses[r], longer[..r], longer[r]) {
      if r < |taken| {
        assert longer[..r] == taken[..r];
      } else {
        assert longer[..r] == taken;
      }
    }
  }

  lemma GreedyPrefix(polls: seq<Poll>, responses: seq<Response>, taken: seq<int>)
    requires Greedy(polls, responses, taken) && taken != []
    ensures var n := |taken| - 1;
      Greedy(polls, responses, taken[..n]) && Choice(polls, responses[n], taken[..n], taken[n])
  {
    hide Choice;
    var n := |taken| - 1;
    assert forall k :: 0 <= k < n ==> taken[..n][..k] == taken[..k];
  }

  lemma Listed(before: Table, after: Table, polls: seq<Poll>, n: nat)
    requires n < |polls| && Lists(before, polls, [], n)
    requires after == before[polls[n].counter := Pending(before, polls[n].counter) + [n]]
    ensures Lists(after, polls, [], n + 1)
  {
    forall k
      ensures Increasing(Pending(after, k))
      ensures forall q :: q in Pending(after, k) <==> 0 <= q < n + 1 && polls[q].counter == k && Unused([], q)
    {
      var list := Pending(before, k);
      assert forall i :: 0 <= i < |list| ==> list[i] in list;
      if k == polls[n].counter {
        assert Pending(after, k) == list + [n];
      }
    }
  }

  lemma StillListed(pending: Table, polls: seq<Poll>, taken: seq<int>)
    requires Lists(pending, polls, taken, |polls|)
    ensures Lists(pending, polls, taken + [NONE], |polls|)
  {
    forall k
      ensures forall q :: q in Pending(pending, k)
                          <==> 0 <= q < |polls| && polls[q].counter == k && Unused(taken + [NONE], q)
    {}
  }

  lemma Popped(pending: Table, polls: seq<Poll>, taken: seq<int>, c: int, best: int)
    requires Lists(pending, polls, taken, |polls|)
    requires 0 <= best < |Pending(pending, c)|
    ensures var list := Pending(pending, c);
      Lists(pending[c := list[..best] + list[best + 1..]], polls, taken + [list[best]], |polls|)
  {
    var list := Pending(pending, c);
    var popped := list[..best] + list[best + 1..];
    var after := pending[c := popped];
    assert list[best] in list;
    assert Increasing(list);
    forall k
      ensures Increasing(Pending(after, k))
      ensures forall q :: q in Pending(after, k) <==>
                0 <= q < |polls| && polls[q].counter == k && Unused(taken + [list[best]], q)
    {
      if k == c {
        InPopped(list, best);
      } else {
        assert Pending(after, k) == Pending(pending, k);
      }
    }
  }

  lemma InPopped(list: seq<int>, best: nat)
    requires best < |list| && Increasing(list)
    ensures var popped := list[..best] + list[best + 1..];
      Increasing(popped) && forall q :: q in popped <==> q in list && q != list[best]
  {
    var popped := list[..best] + list[best + 1..];
    forall q ensures q in popped <==> q in list && q != list[best] {
      if q in list && q != list[best] {
        var i :| 0 <= i < |list| && list[i] == q;
        assert popped[if i < best then i else i - 1] == q;
      }
    }
  }

  // ---------------------------------------------------------------- what the pairing guarantees

  lemma TakenOnce(polls: seq<Poll>, responses: seq<Response>, taken: seq<int>, r: nat, r': nat)
    requires Greedy(polls, responses, taken)
    requires r < r' < |taken| && taken[r'] != NONE
    ensures taken[r] != taken[r']
  {
    assert Choice(polls, responses[r'], taken[..r'], taken[r']);
    assert taken[..r'][r] == taken[r];
  }

  /** A reported pair: the response took that poll, may answer it, and has its timing. */
  predicate Honest(polls: seq<Poll>, responses: seq<Response>, taken: seq<int>, pair: (int, int)) {
    && 0 <= pair.1 < |taken| <= |responses|
    && 0 <= pair.0 < |polls|
    && pair.0 == taken[pair.1]
    && Eligible(polls[pair.0], responses[pair.1])
    && Timed(responses[pair.1])
  }

  lemma {:induction false} PairsAreHonest(polls: seq<Poll>, responses: seq<Response>, taken: seq<int>)
    requires Greedy(polls, responses, taken)
    ensures forall i :: 0 <= i < |Pairs(responses, taken)| ==>
      Honest(polls, responses, taken, Pairs(responses, taken)[i])
    ensures forall i, j :: 0 <= i < j < |Pairs(responses, taken)| ==>
      Pairs(responses, taken)[i].1 < Pairs(responses, taken)[j].1
    decreases |taken|
  {
    if taken != [] {
      var r := |taken| - 1;
      var before := Pairs(responses, taken[..r]);
      GreedyPrefix(polls, responses, taken);
      PairsAreHonest(polls, responses, taken[..r]);
      hide Greedy, Eligible, Timed;
      forall i | 0 <= i < |before| ensures Honest(polls, responses, taken, before[i]) {
        assert Honest(polls, responses, taken[..r], before[i]);
      }
    }
  }

  /** Reported pairs come in response order and use every poll and response at most once. */
  lemma PairsAreInjective(polls: seq<Poll>, responses: seq<Response>, taken: seq<int>)
    requires Greedy(polls, responses, taken)
    ensures var pairs := Pairs(responses, taken);
      && (forall i :: 0 <= i < |pairs| ==> Honest(polls, responses, taken, pairs[i]))
      && (forall i, j :: 0 <= i < j < |pairs| ==> pairs[i].1 < pairs[j].1 && pairs[i].0 != pairs[j].0)
  {
    var pairs := Pairs(responses, taken);
    PairsAreHonest(polls, responses, taken);
    forall i, j | 0 <= i < j < |pairs| ensures pairs[i].1 < pairs[j].1 && pairs[i].0 != pairs[j].0 {
      assert Honest(polls, responses, taken, pairs[i]) && Honest(polls, responses, taken, pairs[j]);
      TakenOnce(polls, responses, taken, pairs[i].1, pairs[j].1);
    }
  }

  lemma {:induction false} PairsCount(responses: seq<Response>, taken: seq<int>)
    requires |taken| <= |responses|
    ensures |Pairs(responses, taken)| + Untimed(responses, taken) == Matches(taken)
    decreases |taken|
  {
    if taken != [] {
      PairsCount(responses, taken[..|taken| - 1]);
    }
  }

  lemma {:induction false} UntimedIffSome(responses: seq<Response>, taken: seq<int>)
    requires |taken| <= |responses|
    ensures Untimed(responses, taken) == 0
      <==> forall r :: 0 <= r < |taken| && taken[r] != NONE ==> Timed(responses[r])
    decreases |taken|
  {
    if taken != [] {
      UntimedIffSome(responses, taken[..|taken| - 1]);
    }
  }

  /** With timed responses every match is a reported pair, so pairs and unused polls are all the polls. */
  lemma PollsConserved(polls: seq<Poll>, responses: seq<Response>, taken: seq<int>)
    requires |taken| <= |responses|
    requires forall r :: 0 <= r < |responses| ==> Timed(responses[r])
    ensures |Pairs(responses, taken)| + (|polls| - Matches(taken)) == |polls|
  {
    PairsCount(responses, taken);
    UntimedIffSome(responses, taken);
  }

  /** The pairing is fully determined. */
  lemma {:induction false} GreedyIsUnique(polls: seq<Poll>, responses: seq<Response>, a: seq<int>, b: seq<int>)
    requires Greedy(polls, responses, a) && Greedy(polls, responses, b) && |a| == |b|
    ensures a == b
    decreases |a|
  {
    if a != [] {
      var n := |a| - 1;
      GreedyPrefix(polls, responses, a);
      GreedyPrefix(polls, responses, b);
      GreedyIsUnique(polls, responses, a[..n], b[..n]);
      ChoiceIsUnique(polls, responses[n], a[..n], a[n], b[n]);
      assert a == a[..n] + [a[n]] && b == b[..n] + [b[n]];
    }
  }

  lemma ChoiceIsUnique(polls: seq<Poll>, response: Response, taken: seq<int>, p: int, q: int)
    requires Choice(polls, response, taken, p) && Choice(polls, response, taken, q)
    ensures p == q
  {}

  // ---------------------------------------------------------------- no pairing does better

  /** Any assignment of polls to responses that respects counters and time, without reuse. */
  ghost predicate Legal(polls: seq<Poll>, responses: seq<Response>, other: seq<int>) {
    && |other| <= |responses|
    && (forall r :: 0 <= r < |other| && other[r] != NONE ==>
          0 <= other[r] < |polls| && Eligible(polls[other[r]], responses[r]))
    && (forall r, r' :: 0 <= r < r' < |other| && other[r'] != NONE ==> other[r] != other[r'])
  }

  /** The polls of counter `c` that an assignment uses. */
  function UsedFor(responses: seq<Response>, taken: seq<int>, c: int): set<int>
    requires |taken| <= |responses|
  {
    set r | 0 <= r < |taken| && taken[r] != NONE && responses[r].counter == c :: taken[r]
  }

  /** How many responses of counter `c` got a poll. */
  function MatchesFor(responses: seq<Response>, taken: seq<int>, c: int): nat
    requires |taken| <= |responses|
  {
    if taken == [] then 0
    else
      var r := |taken| - 1;
      MatchesFor(responses, taken[..r], c) + (if taken[r] != NONE && responses[r].counter == c then 1 else 0)
  }

  lemma {:induction false} MatchesAreUses(responses: seq<Response>, taken: seq<int>, c: int)
    requires |taken| <= |responses|
    requires forall r, r' :: 0 <= r < r' < |taken| && taken[r'] != NONE ==> taken[r] != taken[r']
    ensures MatchesFor(responses, taken, c) == |UsedFor(responses, taken, c)|
    decreases |taken|
  {
    if taken == [] {
      assert UsedFor(responses, taken, c) == {};
    } else {
      var n := |taken| - 1;
      var shorter := taken[..n];
      MatchesAreUses(responses, shorter, c);
      var before := UsedFor(responses, shorter, c);
      if taken[n] != NONE && responses[n].counter == c {
        assert taken[n] !in before;
        assert UsedFor(responses, taken, c) == before + {taken[n]};
      } else {
        assert UsedFor(responses, taken, c) == before;
      }
    }
  }

  lemma SubsetIsSmaller(a: set<int>, b: set<int>)
    requires a <= b
    ensures |a| <= |b|
  {
    assert b == a + (b - a);
  }

  /**
   With responses in time order, no legal assignment pairs more responses of any counter than the
   source does.
   */
  lemma {:induction false} PairingIsMaximal(polls: seq<Poll>, responses: seq<Response>,
                                            taken: seq<int>, other: seq<int>, c: int)
    requires Greedy(polls, responses, taken)
    requires Legal(polls, responses, other) && |other| == |taken|
    requires forall r, r' :: 0 <= r < r' < |responses| ==> responses[r].startUs <= responses[r'].startUs
    ensures MatchesFor(responses, other, c) <= MatchesFor(responses, taken, c)
    decreases |taken|
  {
    if taken != [] {
      hide Greedy, Choice;
      var n := |taken| - 1;
      GreedyPrefix(polls, responses, taken);
      PairingIsMaximal(polls, responses, taken[..n], other[..n], c);
      if responses[n].counter == c && taken[n] == NONE {
        NothingLeft(polls, responses, taken, other, n);
      }
    }
  }

  /** When a response finds nothing, no legal assignment has paired more of its counter so far. */
  lemma NothingLeft(polls: seq<Poll>, responses: seq<Response>, taken: seq<int>, other: seq<int>, n: nat)
    requires Greedy(polls, responses, taken) && |taken| == n + 1 && taken[n] == NONE
    requires Legal(polls, responses, other) && |other| == n + 1
    requires forall r, r' :: 0 <= r < r' < |responses| ==> responses[r].startUs <= responses[r'].startUs
    ensures MatchesFor(responses, other, responses[n].counter) <= MatchesFor(responses, taken, responses[n].counter)
  {
    var c := responses[n].counter;
    var eligible := set q | 0 <= q < |polls| && Eligible(polls[q], responses[n]);
    EligibleAreUsed(polls, responses, taken, n, eligible);
    GreedyUses(polls, responses, taken, c);
    MatchesAreUses(responses, other, c);
    LegalUses(polls, responses, other, n, eligible);
    hide Greedy, Eligible, MatchesFor, UsedFor;
    SubsetIsSmaller(UsedFor(responses, other, c), eligible);
    SubsetIsSmaller(eligible, UsedFor(responses, taken, c));
  }

  lemma GreedyUses(polls: seq<Poll>, responses: seq<Response>, taken: seq<int>, c: int)
    requires Greedy(polls, responses, taken)
    ensures MatchesFor(responses, taken, c) == |UsedFor(responses, taken, c)|
  {
    forall r, r' | 0 <= r < r' < |taken| && taken[r'] != NONE ensures taken[r] != taken[r'] {
      TakenOnce(polls, responses, taken, r, r');
    }
    MatchesAreUses(responses, taken, c);
  }

  /** Up to a response, only polls eligible for it can have been used for its counter. */
  lemma LegalUses(polls: seq<Poll>, responses: seq<Response>, other: seq<int>, n: nat, eligible: set<int>)
    requires Legal(polls, responses, other) && n + 1 == |other|
    requires forall r, r' :: 0 <= r < r' < |responses| ==> responses[r].startUs <= responses[r'].startUs
    requires eligible == set q | 0 <= q < |polls| && Eligible(polls[q], responses[n])
    ensures UsedFor(responses, other, responses[n].counter) <= eligible
  {}

  /** When a response finds nothing, everything it could have had is already used for its counter. */
  lemma EligibleAreUsed(polls: seq<Poll>, responses: seq<Response>, taken: seq<int>, n: nat, eligible: set<int>)
    requires Greedy(polls, responses, taken) && n < |taken| && taken[n] == NONE
    requires eligible == set q | 0 <= q < |polls| && Eligible(polls[q], responses[n])
    ensures eligible <= UsedFor(responses, taken, responses[n].counter)
  {
    forall q | q in eligible ensures q in UsedFor(responses, taken, responses[n].counter) {
      assert Choice(polls, responses[n], taken[..n], NONE);
      assert !Unused(taken[..n], q);
      var r :| 0 <= r < n && taken[..n][r] == q;
      assert Choice(polls, responses[r], taken[..r], taken[r]);
      assert taken[r] == q;
    }
  }
}
