/** The governance rules with nothing but sets: who is a member, who is
    nominated or facing eviction, and who has said yes to it. */
module Councils {
  import opened Protocol

  datatype Council = Council(
    members: set<Address>,
    nominees: map<Address, set<Address>>,
    evictees: map<Address, set<Address>>)
  {
    function Nominate(sender: Address, a: Address): Outcome<Council> {
      if a in members || a in nominees then
        Outcome(this, Done, [])
      else
        Outcome(if a == ZERO_ADDRESS then this else this.(nominees := nominees[a := {}]),
                Done, [NomineeProposed(a, sender)])
    }

    function Accuse(sender: Address, a: Address): Outcome<Council> {
      if sender !in members then
        Outcome(this, Reverted, [])
      else if a !in members || a in evictees then
        Outcome(this, Done, [])
      else
        Outcome(this.(evictees := evictees[a := {}]), Done, [EvictionProposed(a, sender)])
    }

    function VoteOnNominee(v: Address, a: Address, accept: bool): Outcome<Council> {
      if v !in members then
        Outcome(this, Reverted, [])
      else if a !in nominees then
        Outcome(this, Vote(true, a in members), [])
      else if v in nominees[a] then
        Outcome(this, Vote(false, false), [])
      else if !accept then
        Outcome(this.(nominees := nominees - {a}), Vote(true, false),
                [NomineeDecision(a, |nominees[a]|, 1, false)])
      else
        var yes := nominees[a] + {v};
        if |yes| >= |members| then
          Outcome(this.(members := members + {a}, nominees := nominees - {a}), Vote(true, true),
                  [NomineeDecision(a, |yes|, 0, true)])
        else
          Outcome(this.(nominees := nominees[a := yes]), Vote(false, false), [])
    }

    function VoteOnEviction(v: Address, a: Address, accept: bool): Outcome<Council> {
      if v !in members then
        Outcome(this, Reverted, [])
      else if a !in evictees then
        Outcome(this, Vote(true, a !in members), [])
      else if v in evictees[a] then
        Outcome(this, Vote(false, false), [])
      else if !accept then
        Outcome(this.(evictees := evictees - {a}), Vote(true, false),
                [EvictionDecision(a, |evictees[a]|, 1, false)])
      else
        var yes := evictees[a] + {v};
        if |yes| >= |members| - 1 then
          Outcome(this.(members := members - {a}, evictees := evictees - {a}), Vote(true, true),
                  [EvictionDecision(a, |yes|, 0, true)])
        else
          Outcome(this.(evictees := evictees[a := yes]), Vote(false, false), [])
    }

    static function Step(s: Council, c: Call): Outcome<Council> {
      match c
      case SubmitNominee(sender, a, _) => s.Nominate(sender, a)
      case SubmitEviction(sender, a) => s.Accuse(sender, a)
      case CastNomineeVote(sender, a, accept) => s.VoteOnNominee(sender, a, accept)
      case CastEvictionVote(sender, a, accept) => s.VoteOnEviction(sender, a, accept)
    }
  }
}
