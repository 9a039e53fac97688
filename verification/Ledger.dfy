/** The contract's state as its index-based getters show it: the three address
    arrays in order, and for each open election the voters in `yesArray`. */
module Ledgers {
  import opened Protocol
  import opened Sequences
  import opened Councils

  type Ballots = map<Address, seq<Address>>

  datatype Ledger = Ledger(
    members: seq<Address>,
    nominees: seq<Address>,
    evictees: seq<Address>,
    ballots: Ballots,
    evictions: Ballots)
  {
    function CloseNomination(a: Address): Ledger {
      this.(nominees := SwapRemove(nominees, a), ballots := ballots - {a})
    }

    function CloseEviction(a: Address): Ledger {
      this.(evictees := SwapRemove(evictees, a), evictions := evictions - {a})
    }

    function Admit(a: Address): Ledger {
      CloseNomination(a).(members := members + [a])
    }

    function Evict(a: Address): Ledger {
      CloseEviction(a).(members := SwapRemove(members, a))
    }

    function Nominate(sender: Address, a: Address): Outcome<Ledger> {
      if a in members || a in ballots then
        Outcome(this, Done, [])
      else
        Outcome(this.(nominees := nominees + [a],
                      ballots := if a == ZERO_ADDRESS then ballots else ballots[a := []]),
                Done, [NomineeProposed(a, sender)])
    }

    function Accuse(sender: Address, a: Address): Outcome<Ledger> {
      if sender !in members then
        Outcome(this, Reverted, [])
      else if a !in members || a in evictions then
        Outcome(this, Done, [])
      else
        Outcome(this.(evictees := evictees + [a], evictions := evictions[a := []]),
                Done, [EvictionProposed(a, sender)])
    }

    function VoteOnNominee(v: Address, a: Address, accept: bool): Outcome<Ledger> {
      if v !in members then
        Outcome(this, Reverted, [])
      else if a !in ballots then
        Outcome(this, Vote(true, a in members), [])
      else if v in ballots[a] then
        Outcome(this, Vote(false, false), [])
      else if !accept then
        Outcome(CloseNomination(a), Vote(true, false), [NomineeDecision(a, |ballots[a]|, 1, false)])
      else
        var yes := ballots[a] + [v];
        if |yes| >= |members| then
          Outcome(Admit(a), Vote(true, true),
                  [NomineeDecision(a, |yes|, 0, true)])
        else
          Outcome(this.(ballots := ballots[a := yes]), Vote(false, false), [])
    }

    function VoteOnEviction(v: Address, a: Address, accept: bool): Outcome<Ledger> {
      if v !in members then
        Outcome(this, Reverted, [])
      else if a !in evictions then
        Outcome(this, Vote(true, a !in members), [])
      else if v in evictions[a] then
        Outcome(this, Vote(false, false), [])
      else if !accept then
        Outcome(CloseEviction(a), Vote(true, false), [EvictionDecision(a, |evictions[a]|, 1, false)])
      else
        var yes := evictions[a] + [v];
        if |yes| >= |members| - 1 then
          Outcome(Evict(a), Vote(true, true),
                  [EvictionDecision(a, |yes|, 0, true)])
        else
          Outcome(this.(evictions := evictions[a := yes]), Vote(false, false), [])
    }

    static function Step(s: Ledger, c: Call): Outcome<Ledger> {
      match c
      case SubmitNominee(sender, a, _) => s.Nominate(sender, a)
      case SubmitEviction(sender, a) => s.Accuse(sender, a)
      case CastNomineeVote(sender, a, accept) => s.VoteOnNominee(sender, a, accept)
      case CastEvictionVote(sender, a, accept) => s.VoteOnEviction(sender, a, accept)
    }

    /** The whitelist array is duplicate-free; every nonzero address occurs in
        the nominee array once if it is nominated and otherwise never (the zero
        address may pile up there); the eviction array lists each evictee once;
        nominees are never members and evictees always are; nobody has two yes
        votes in one election. */
    ghost predicate Inv() {
      && NoDup(members) && ZERO_ADDRESS !in members
      && ZERO_ADDRESS !in ballots
      && ListedOnce(nominees, ballots)
      && NoDup(evictees) && Elems(evictees) == evictions.Keys
      && Apart()
      && YesLists(ballots) && YesLists(evictions)
    }

    /** Nominees are not members; evictees are. */
    ghost predicate Apart() {
      && (forall a :: a in ballots ==> a !in members)
      && (forall a :: a in evictions ==> a in members)
    }

    ghost function Council(): Council {
      Councils.Council(Elems(members), Voters(ballots), Voters(evictions))
    }
  }

  function Voters(b: Ballots): map<Address, set<Address>> {
    map a | a in b :: Elems(b[a])
  }

  ghost predicate ListedOnce(nominees: seq<Address>, ballots: Ballots) {
    forall a: Address {:trigger multiset(nominees)[a]} ::
      a != ZERO_ADDRESS ==> multiset(nominees)[a] == if a in ballots then 1 else 0
  }

  ghost predicate YesLists(b: Ballots) {
    forall a :: a in b ==> NoDup(b[a]) && ZERO_ADDRESS !in b[a]
  }

  /** The state after deployment with a prepared whitelist. */
  function Genesis(members: seq<Address>): Ledger {
    Ledger(members, [], [], map[], map[])
  }

  lemma GenesisInv(members: seq<Address>)
    ensures Genesis(members).Inv() <==> NoDup(members) && ZERO_ADDRESS !in members
  {
  }

  // ---- Every call keeps the invariant.

  lemma CloseNominationInv(l: Ledger, a: Address)
    requires l.Inv() && a in l.ballots
    ensures l.CloseNomination(a).Inv()
    ensures a !in l.CloseNomination(a).nominees
  {
    SwapRemoveCounts(l.nominees, a);
    var m := multiset(l.CloseNomination(a).nominees);
    assert m[a] == 0;
    assert forall b :: b != a ==> m[b] == multiset(l.nominees)[b];
    assert a !in m;
  }

  lemma CloseEvictionInv(l: Ledger, a: Address)
    requires l.Inv() && a in l.evictions
    ensures l.CloseEviction(a).Inv()
  {
    SwapRemoveElems(l.evictees, a);
  }

  lemma NominateInv(l: Ledger, sender: Address, a: Address)
    requires l.Inv()
    ensures l.Nominate(sender, a).next.Inv()
  {
    assert forall b :: multiset(l.nominees + [a])[b] == multiset(l.nominees)[b] + if b == a then 1 else 0;
  }

  lemma AccuseInv(l: Ledger, sender: Address, a: Address)
    requires l.Inv()
    ensures l.Accuse(sender, a).next.Inv()
  {
    if a !in l.evictions {
      assert a !in Elems(l.evictees);
    }
    ElemsSnoc(l.evictees, a);
  }

  lemma VoteOnNomineeInv(l: Ledger, v: Address, a: Address, accept: bool)
    requires l.Inv()
    ensures l.VoteOnNominee(v, a, accept).next.Inv()
  {
    if v in l.members && a in l.ballots && v !in l.ballots[a] {
      CloseNominationInv(l, a);
    }
  }

  lemma EvictInv(l: Ledger, a: Address)
    requires l.Inv() && a in l.evictions
    ensures l.Evict(a).Inv()
  {
    CloseEvictionInv(l, a);
    WithoutMemberInv(l.CloseEviction(a), a);
  }

  lemma WithoutMemberInv(l: Ledger, a: Address)
    requires l.Inv() && a !in l.evictions
    ensures l.(members := SwapRemove(l.members, a)).Inv()
  {
    SwapRemoveElems(l.members, a);
    SwapRemoveIn(l.members, a);
  }

  lemma EvictionVoteInv(l: Ledger, v: Address, a: Address)
    requires l.Inv() && v in l.members && a in l.evictions && v !in l.evictions[a]
    ensures l.(evictions := l.evictions[a := l.evictions[a] + [v]]).Inv()
  {
    ElemsSnoc(l.evictions[a], v);
  }

  lemma VoteOnEvictionInv(l: Ledger, v: Address, a: Address, accept: bool)
    requires l.Inv()
    ensures l.VoteOnEviction(v, a, accept).next.Inv()
  {
    if v in l.members && a in l.evictions && v !in l.evictions[a] {
      if !accept {
        CloseEvictionInv(l, a);
      } else if |l.evictions[a]| + 1 >= |l.members| - 1 {
        EvictInv(l, a);
      } else {
        EvictionVoteInv(l, v, a);
      }
    }
  }

  lemma StepInv(l: Ledger, c: Call)
    requires l.Inv()
    ensures Ledger.Step(l, c).next.Inv()
  {
    match c
    case SubmitNominee(sender, a, _) => NominateInv(l, sender, a);
    case SubmitEviction(sender, a) => AccuseInv(l, sender, a);
    case CastNomineeVote(sender, a, accept) => VoteOnNomineeInv(l, sender, a, accept);
    case CastEvictionVote(sender, a, accept) => VoteOnEvictionInv(l, sender, a, accept);
  }

  lemma {:induction false} RunInv(l: Ledger, calls: seq<Call>)
    requires l.Inv()
    ensures Run(Ledger.Step, l, calls).last.Inv()
  {
    if calls != [] {
      var n := |calls| - 1;
      RunInv(l, calls[..n]);
      StepInv(Run(Ledger.Step, l, calls[..n]).last, calls[n]);
    }
  }

  lemma NominateApart(l: Ledger, sender: Address, a: Address, l': Ledger)
    requires l.Apart() && l' == l.Nominate(sender, a).next
    ensures l'.Apart()
  {
  }

  lemma AccuseApart(l: Ledger, sender: Address, a: Address, l': Ledger)
    requires l.Apart() && l' == l.Accuse(sender, a).next
    ensures l'.Apart()
  {
  }

  lemma VoteOnNomineeApart(l: Ledger, v: Address, a: Address, accept: bool, l': Ledger)
    requires l.Apart() && l' == l.VoteOnNominee(v, a, accept).next
    ensures l'.Apart()
  {
  }

  lemma VoteOnEvictionApart(l: Ledger, v: Address, a: Address, accept: bool, l': Ledger)
    requires l.Apart() && NoDup(l.members) && l' == l.VoteOnEviction(v, a, accept).next
    ensures l'.Apart()
  {
    SwapRemoveIn(l.members, a);
  }

  lemma ApartKept(l: Ledger, c: Call, l': Ledger)
    requires l.Apart() && NoDup(l.members) && l' == Ledger.Step(l, c).next
    ensures l'.Apart()
  {
    match c
    case SubmitNominee(sender, a, _) => NominateApart(l, sender, a, l');
    case SubmitEviction(sender, a) => AccuseApart(l, sender, a, l');
    case CastNomineeVote(sender, a, accept) => VoteOnNomineeApart(l, sender, a, accept, l');
    case CastEvictionVote(sender, a, accept) => VoteOnEvictionApart(l, sender, a, accept, l');
  }

  // ---- What a call does to the arrays, position by position.

  function Subject(c: Call): Address {
    match c
    case SubmitNominee(_, a, _) => a
    case SubmitEviction(_, a) => a
    case CastNomineeVote(_, a, _) => a
    case CastEvictionVote(_, a, _) => a
  }

  /** An array loses `a` to the last element when `a` loses its status, gains `a` at
      the end when it gains the status, and is otherwise the same. */
  ghost predicate Moves(before: seq<Address>, was: bool, after: seq<Address>, isNow: bool, a: Address) {
    if was && !isNow then GapFilled(before, a, after)
    else if !was && isNow then after == before + [a]
    else after == before
  }

  ghost predicate ArraysMove(l: Ledger, l': Ledger, a: Address) {
    && Moves(l.members, a in l.members, l'.members, a in l'.members, a)
    && Moves(l.evictees, a in l.evictions, l'.evictees, a in l'.evictions, a)
    && (a != ZERO_ADDRESS ==> Moves(l.nominees, a in l.ballots, l'.nominees, a in l'.ballots, a))
  }

  lemma NominateMoves(l: Ledger, sender: Address, a: Address)
    requires l.Inv()
    ensures ArraysMove(l, l.Nominate(sender, a).next, a)
    ensures a == ZERO_ADDRESS ==> l.Nominate(sender, a).next.nominees == l.nominees + [a]
  {
  }

  lemma AccuseMoves(l: Ledger, sender: Address, a: Address)
    requires l.Inv()
    ensures ArraysMove(l, l.Accuse(sender, a).next, a)
  {
  }

  lemma VoteOnNomineeMoves(l: Ledger, v: Address, a: Address, accept: bool)
    requires l.Inv()
    ensures ArraysMove(l, l.VoteOnNominee(v, a, accept).next, a)
  {
    SwapRemoveFillsGap(l.nominees, a);
    assert (l.members + [a])[|l.members|] == a;
  }

  lemma EvictMoves(l: Ledger, a: Address)
    requires l.Inv() && a in l.evictions
    ensures ArraysMove(l, l.Evict(a), a) && ArraysMove(l, l.CloseEviction(a), a)
  {
    SwapRemoveIn(l.members, a);
    SwapRemoveFillsGap(l.members, a);
    SwapRemoveFillsGap(l.evictees, a);
  }

  lemma VoteOnEvictionMoves(l: Ledger, v: Address, a: Address, accept: bool)
    requires l.Inv()
    ensures ArraysMove(l, l.VoteOnEviction(v, a, accept).next, a)
  {
    if a in l.evictions {
      EvictMoves(l, a);
    }
  }

  lemma StepMoves(l: Ledger, c: Call)
    requires l.Inv()
    ensures ArraysMove(l, Ledger.Step(l, c).next, Subject(c))
    ensures Subject(c) == ZERO_ADDRESS ==>
              Ledger.Step(l, c).next.nominees == l.nominees + if c.SubmitNominee? then [ZERO_ADDRESS] else []
  {
    assert l.nominees + [] == l.nominees;
    match c
    case SubmitNominee(sender, a, _) => NominateMoves(l, sender, a);
    case SubmitEviction(sender, a) => AccuseMoves(l, sender, a);
    case CastNomineeVote(sender, a, accept) => VoteOnNomineeMoves(l, sender, a, accept);
    case CastEvictionVote(sender, a, accept) => VoteOnEvictionMoves(l, sender, a, accept);
  }

  // ---- The sequences simulate the sets.

  lemma VotersUpdate(b: Ballots, a: Address, s: seq<Address>)
    ensures Voters(b[a := s]) == Voters(b)[a := Elems(s)]
    ensures Voters(b - {a}) == Voters(b) - {a}
  {
  }

  lemma NominateRefines(l: Ledger, sender: Address, a: Address)
    requires l.Inv()
    ensures var o, p := l.Nominate(sender, a), l.Council().Nominate(sender, a);
            o.next.Council() == p.next && o.reply == p.reply && o.events == p.events
  {
    VotersUpdate(l.ballots, a, []);
    assert Elems<Address>([]) == {};
  }

  lemma AccuseRefines(l: Ledger, sender: Address, a: Address)
    requires l.Inv()
    ensures var o, p := l.Accuse(sender, a), l.Council().Accuse(sender, a);
            o.next.Council() == p.next && o.reply == p.reply && o.events == p.events
  {
    VotersUpdate(l.evictions, a, []);
    assert Elems<Address>([]) == {};
  }

  lemma YesCount(b: Ballots, a: Address, v: Address)
    requires YesLists(b) && a in b && v !in b[a]
    ensures |Elems(b[a])| == |b[a]|
    ensures Elems(b[a] + [v]) == Elems(b[a]) + {v} && |Elems(b[a] + [v])| == |b[a]| + 1
  {
    ElemsSnoc(b[a], v);
    SizeOfElems(b[a]);
    SizeOfElems(b[a] + [v]);
  }

  lemma VoteOnNomineeRefines(l: Ledger, v: Address, a: Address, accept: bool)
    requires NoDup(l.members) && YesLists(l.ballots)
    ensures var o, p := l.VoteOnNominee(v, a, accept), l.Council().VoteOnNominee(v, a, accept);
            o.next.Council() == p.next && o.reply == p.reply && o.events == p.events
  {
    if v in l.members && a in l.ballots && v !in l.ballots[a] {
      YesCount(l.ballots, a, v);
      VotersUpdate(l.ballots, a, l.ballots[a] + [v]);
      SizeOfElems(l.members);
      ElemsSnoc(l.members, a);
    }
  }

  lemma VoteOnEvictionRefines(l: Ledger, v: Address, a: Address, accept: bool)
    requires NoDup(l.members) && YesLists(l.evictions)
    ensures var o, p := l.VoteOnEviction(v, a, accept), l.Council().VoteOnEviction(v, a, accept);
            o.next.Council() == p.next && o.reply == p.reply && o.events == p.events
  {
    if v in l.members && a in l.evictions && v !in l.evictions[a] {
      YesCount(l.evictions, a, v);
      VotersUpdate(l.evictions, a, l.evictions[a] + [v]);
      SizeOfElems(l.members);
      SwapRemoveElems(l.members, a);
    }
  }

  lemma StepRefines(l: Ledger, c: Call)
    requires l.Inv()
    ensures var o, p := Ledger.Step(l, c), Council.Step(l.Council(), c);
            o.next.Council() == p.next && o.reply == p.reply && o.events == p.events
  {
    match c
    case SubmitNominee(sender, a, _) => NominateRefines(l, sender, a);
    case SubmitEviction(sender, a) => AccuseRefines(l, sender, a);
    case CastNomineeVote(sender, a, accept) => VoteOnNomineeRefines(l, sender, a, accept);
    case CastEvictionVote(sender, a, accept) => VoteOnEvictionRefines(l, sender, a, accept);
  }

  /** Whatever the calls, the sequences and the sets end in matching states and
      give the same replies and the same events, vote counts included. */
  lemma {:induction false} RunRefines(l: Ledger, calls: seq<Call>)
    requires l.Inv()
    ensures var t, u := Run(Ledger.Step, l, calls), Run(Council.Step, l.Council(), calls);
            t.last.Council() == u.last && t.replies == u.replies && t.events == u.events
  {
    if calls != [] {
      var n := |calls| - 1;
      RunRefines(l, calls[..n]);
      RunInv(l, calls[..n]);
      StepRefines(Run(Ledger.Step, l, calls[..n]).last, calls[n]);
    }
  }
}
