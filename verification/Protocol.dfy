/** Addresses, calls, replies and events of the proof-of-authority contract,
    and runs of any machine that answers such calls. */
module Protocol {
  import opened Sequences

  const TWO_160: int := 0x1_00000000_00000000_00000000_00000000_00000000
  const TWO_256: int := 0x1_00000000_00000000_00000000_00000000_00000000_00000000_00000000_00000000

  type Address = a: int | 0 <= a < TWO_160
  type uint256 = n: int | 0 <= n < TWO_256
  type bytes32 = uint256

  const ZERO_ADDRESS: Address := 0

  datatype Call =
    | SubmitNominee(sender: Address, nominee: Address, moniker: bytes32)
    | SubmitEviction(sender: Address, evictee: Address)
    | CastNomineeVote(sender: Address, nominee: Address, accept: bool)
    | CastEvictionVote(sender: Address, evictee: Address, accept: bool)

  /** `Reverted` is a failed `require`; `Vote` is the pair a cast function
      returns. */
  datatype Reply = Reverted | Done | Vote(decided: bool, result: bool)

  datatype Event =
    | NomineeProposed(nominee: Address, proposer: Address)
    | NomineeDecision(nominee: Address, yesVotes: nat, noVotes: nat, accepted: bool)
    | EvictionProposed(evictee: Address, proposer: Address)
    | EvictionDecision(evictee: Address, yesVotes: nat, noVotes: nat, accepted: bool)

  datatype Outcome<S> = Outcome(next: S, reply: Reply, events: seq<Event>)

  /** What a sequence of calls leaves behind. */
  datatype Trace<S> = Trace(last: S, replies: seq<Reply>, events: seq<Event>)

  function Run<S>(step: (S, Call) -> Outcome<S>, s: S, calls: seq<Call>): Trace<S> {
    if calls == [] then
      Trace(s, [], [])
    else
      var t := Run(step, s, calls[..|calls| - 1]);
      var o := step(t.last, calls[|calls| - 1]);
      Trace(o.next, t.replies + [o.reply], t.events + o.events)
  }

  lemma RunSnoc<S>(step: (S, Call) -> Outcome<S>, s: S, calls: seq<Call>, c: Call)
    ensures var t, o := Run(step, s, calls), step(Run(step, s, calls).last, c);
            Run(step, s, calls + [c]) == Trace(o.next, t.replies + [o.reply], t.events + o.events)
  {
    assert (calls + [c])[..|calls|] == calls;
  }

  /** Running two batches in turn is running their concatenation. */
  lemma {:induction false} RunConcat<S>(step: (S, Call) -> Outcome<S>, s: S, first: seq<Call>, second: seq<Call>)
    ensures var t := Run(step, s, first);
            var u := Run(step, t.last, second);
            Run(step, s, first + second) == Trace(u.last, t.replies + u.replies, t.events + u.events)
  {
    if second == [] {
      assert first + second == first;
    } else {
      var init, c := second[..|second| - 1], second[|second| - 1];
      RunConcat(step, s, first, init);
      assert second == init + [c];
      ConcatAssoc(first, init, [c]);
      RunSnoc(step, s, first + init, c);
      var t := Run(step, s, first);
      var u := Run(step, t.last, init);
      var o := step(u.last, c);
      ConcatAssoc(t.replies, u.replies, [o.reply]);
      ConcatAssoc(t.events, u.events, o.events);
    }
  }

  predicate IsEvictionAccepted(e: Event) {
    e.EvictionDecision? && e.accepted
  }

  /** No member was evicted while these events were emitted. */
  ghost predicate NoEviction(events: seq<Event>) {
    forall e :: e in events ==> !IsEvictionAccepted(e)
  }
}
