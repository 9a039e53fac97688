/** Whole voting rounds, the votes of former members, joining and leaving, one vote
    per member over any run, honest replies, event replay, and when an election can
    be decided by the next vote, or still at all. */
module Rounds {
  import opened Protocol
  import opened Sequences
  import opened Councils
  import opened Ledgers
  import opened Elections

  function YesVotes(voters: seq<Address>, a: Address): seq<Call> {
    seq(|voters|, i requires 0 <= i < |voters| => CastNomineeVote(voters[i], a, true))
  }

  function EvictionVotes(voters: seq<Address>, a: Address): seq<Call> {
    seq(|voters|, i requires 0 <= i < |voters| => CastEvictionVote(voters[i], a, true))
  }

  function Undecided(k: nat): seq<Reply> {
    seq(k, _ => Vote(false, false))
  }

  lemma VotersSnoc(voters: seq<Address>, k: nat)
    requires k < |voters| && NoDup(voters)
    ensures voters[..k + 1] == voters[..k] + [voters[k]] && voters[k] !in voters[..k] && voters[k] in voters
    ensures k + 1 == |voters| ==> voters[..k + 1] == voters
    ensures Undecided(k + 1) == Undecided(k) + [Vote(false, false)]
  {
  }

  lemma YesSnoc(voters: seq<Address>, a: Address, k: nat)
    requires k < |voters|
    ensures YesVotes(voters[..k + 1], a) == YesVotes(voters[..k], a) + [CastNomineeVote(voters[k], a, true)]
  {
  }

  lemma EvictionSnoc(voters: seq<Address>, a: Address, k: nat)
    requires k < |voters|
    ensures EvictionVotes(voters[..k + 1], a) == EvictionVotes(voters[..k], a) + [CastEvictionVote(voters[k], a, true)]
  {
  }

  ghost predicate AllMembers(voters: seq<Address>, l: Ledger) {
    forall v :: v in voters ==> v in l.members
  }

  lemma ElemsAreMembers(voters: seq<Address>, l: Ledger)
    requires Elems(voters) <= Elems(l.members)
    ensures AllMembers(voters, l)
  {
    forall v | v in voters ensures v in l.members {
      assert v in Elems(voters);
    }
  }

  // ---- Nomination rounds.

  lemma SameBallots(b: Ballots, a: Address, yes: seq<Address>)
    requires a in b && b[a] == yes
    ensures b[a := yes + []] == b
  {
    assert yes + [] == yes;
  }

  /** A vote below the threshold. */
  lemma OneMoreYes(l: Ledger, a: Address, yes: seq<Address>, v: Address)
    requires a in l.ballots && v in l.members && v !in yes && |yes| + 1 < |l.members|
    ensures l.(ballots := l.ballots[a := yes]).VoteOnNominee(v, a, true)
         == Outcome(l.(ballots := l.ballots[a := yes + [v]]), Vote(false, false), [])
  {
    assert l.ballots[a := yes][a := yes + [v]] == l.ballots[a := yes + [v]];
  }

  lemma OneMoreEvictionYes(l: Ledger, a: Address, yes: seq<Address>, v: Address)
    requires a in l.evictions && v in l.members && v !in yes && |yes| + 1 < |l.members| - 1
    ensures l.(evictions := l.evictions[a := yes]).VoteOnEviction(v, a, true)
         == Outcome(l.(evictions := l.evictions[a := yes + [v]]), Vote(false, false), [])
  {
    assert l.evictions[a := yes][a := yes + [v]] == l.evictions[a := yes + [v]];
  }

  lemma OneMoreYesVote(l: Ledger, a: Address, calls: seq<Call>, yes: seq<Address>, v: Address)
    requires a in l.ballots && v in l.members && v !in yes && |yes| + 1 < |l.members|
    requires Last(l, calls) == l.(ballots := l.ballots[a := yes])
    ensures var t := Run(Ledger.Step, l, calls + [CastNomineeVote(v, a, true)]);
            && t.last == l.(ballots := l.ballots[a := yes + [v]])
            && t.replies == Run(Ledger.Step, l, calls).replies + [Vote(false, false)]
  {
    OneMoreYes(l, a, yes, v);
    RunSnoc(Ledger.Step, l, calls, CastNomineeVote(v, a, true));
  }

  lemma OneMoreEvictionVote(l: Ledger, a: Address, calls: seq<Call>, yes: seq<Address>, v: Address)
    requires a in l.evictions && v in l.members && v !in yes && |yes| + 1 < |l.members| - 1
    requires Last(l, calls) == l.(evictions := l.evictions[a := yes])
    ensures var t := Run(Ledger.Step, l, calls + [CastEvictionVote(v, a, true)]);
            && t.last == l.(evictions := l.evictions[a := yes + [v]])
            && t.replies == Run(Ledger.Step, l, calls).replies + [Vote(false, false)]
  {
    OneMoreEvictionYes(l, a, yes, v);
    RunSnoc(Ledger.Step, l, calls, CastEvictionVote(v, a, true));
  }

  lemma {:induction false} YesPrefix(l: Ledger, a: Address, yes: seq<Address>, voters: seq<Address>, k: nat)
    requires a in l.ballots && l.ballots[a] == yes
    requires NoDup(voters) && AllMembers(voters, l) && forall v :: v in voters ==> v !in yes
    requires k <= |voters| && (k == 0 || |yes| + k < |l.members|)
    ensures var t := Run(Ledger.Step, l, YesVotes(voters[..k], a));
            t.last == l.(ballots := l.ballots[a := yes + voters[..k]]) && t.replies == Undecided(k)
  {
    if k == 0 {
      SameBallots(l.ballots, a, yes);
    } else {
      var some, v := voters[..k - 1], voters[k - 1];
      YesPrefix(l, a, yes, voters, k - 1);
      VotersSnoc(voters, k - 1);
      YesSnoc(voters, a, k - 1);
      OneMoreYesVote(l, a, YesVotes(some, a), yes + some, v);
      ConcatAssoc(yes, some, [v]);
    }
  }

  /** The vote that reaches the threshold. */
  lemma DecidingVote(l: Ledger, a: Address, yes: seq<Address>, v: Address)
    requires a in l.ballots && v in l.members && v !in yes && |yes| + 1 >= |l.members|
    ensures l.(ballots := l.ballots[a := yes]).VoteOnNominee(v, a, true)
         == Outcome(l.Admit(a), Vote(true, true), [NomineeDecision(a, |yes| + 1, 0, true)])
  {
    assert l.ballots[a := yes] - {a} == l.ballots - {a};
  }

  lemma DecidingEvictionVote(l: Ledger, a: Address, yes: seq<Address>, v: Address)
    requires a in l.evictions && v in l.members && v !in yes && |yes| + 1 >= |l.members| - 1
    ensures l.(evictions := l.evictions[a := yes]).VoteOnEviction(v, a, true)
         == Outcome(l.Evict(a), Vote(true, true), [EvictionDecision(a, |yes| + 1, 0, true)])
  {
    assert l.evictions[a := yes] - {a} == l.evictions - {a};
  }

  lemma LastVote(l: Ledger, a: Address, calls: seq<Call>, yes: seq<Address>, v: Address)
    requires a in l.ballots && v in l.members && v !in yes && |yes| + 1 >= |l.members|
    requires Last(l, calls) == l.(ballots := l.ballots[a := yes])
    ensures var t := Run(Ledger.Step, l, calls + [CastNomineeVote(v, a, true)]);
            t.last == l.Admit(a) && t.replies == Run(Ledger.Step, l, calls).replies + [Vote(true, true)]
  {
    DecidingVote(l, a, yes, v);
    RunSnoc(Ledger.Step, l, calls, CastNomineeVote(v, a, true));
  }

  lemma FullRound(l: Ledger, a: Address, voters: seq<Address>)
    requires a in l.ballots && l.ballots[a] == []
    requires NoDup(voters) && AllMembers(voters, l) && |voters| == |l.members| > 0
    ensures var t := Run(Ledger.Step, l, YesVotes(voters, a));
            t.last == l.Admit(a) && t.replies == Undecided(|voters| - 1) + [Vote(true, true)]
  {
    var n := |voters| - 1;
    YesPrefix(l, a, [], voters, n);
    assert [] + voters[..n] == voters[..n];
    VotersSnoc(voters, n);
    YesSnoc(voters, a, n);
    LastVote(l, a, YesVotes(voters[..n], a), voters[..n], voters[n]);
  }

  /** The order of the voters does not matter: in every permutation of the
      members all votes but the last leave the election open, the last one
      admits the nominee, and the resulting ledger is the same. */
  lemma UnanimousRound(l: Ledger, a: Address, voters: seq<Address>)
    requires a in l.ballots && l.ballots[a] == [] && NoDup(l.members) && l.members != []
    requires NoDup(voters) && Elems(voters) == Elems(l.members)
    ensures var t := Run(Ledger.Step, l, YesVotes(voters, a));
            && t.last == l.Admit(a)
            && t.replies == Undecided(|l.members| - 1) + [Vote(true, true)]
  {
    SizeOfElems(voters);
    SizeOfElems(l.members);
    ElemsAreMembers(voters, l);
    FullRound(l, a, voters);
  }

  lemma RejectingVote(l: Ledger, a: Address, yes: seq<Address>, v: Address)
    requires a in l.ballots && v in l.members && v !in yes
    ensures l.(ballots := l.ballots[a := yes]).VoteOnNominee(v, a, false)
         == Outcome(l.CloseNomination(a), Vote(true, false), [NomineeDecision(a, |yes|, 1, false)])
  {
    assert l.ballots[a := yes] - {a} == l.ballots - {a};
  }

  lemma FewerThanMembers(l: Ledger, voters: seq<Address>, v: Address)
    requires NoDup(l.members) && NoDup(voters) && AllMembers(voters, l) && v in l.members && v !in voters
    ensures |voters| < |l.members|
  {
    SizeOfElems(voters);
    SizeOfElems(l.members);
    SubsetSize(Elems(voters) + {v}, Elems(l.members));
  }

  /** A single no vote, after any number of yes votes, closes the election and
      admits nobody. */
  lemma RejectedRound(l: Ledger, a: Address, voters: seq<Address>, v: Address)
    requires a in l.ballots && l.ballots[a] == [] && NoDup(l.members)
    requires NoDup(voters) && AllMembers(voters, l) && v in l.members && v !in voters
    ensures var t := Run(Ledger.Step, l, YesVotes(voters, a) + [CastNomineeVote(v, a, false)]);
            && t.last == l.CloseNomination(a)
            && t.replies == Undecided(|voters|) + [Vote(true, false)]
  {
    FewerThanMembers(l, voters, v);
    YesPrefix(l, a, [], voters, |voters|);
    assert [] + voters[..|voters|] == voters == voters[..|voters|];
    RejectingVote(l, a, voters, v);
    RunSnoc(Ledger.Step, l, YesVotes(voters, a), CastNomineeVote(v, a, false));
  }

  // ---- Eviction rounds.

  lemma {:induction false} EvictionPrefix(l: Ledger, a: Address, yes: seq<Address>, voters: seq<Address>, k: nat)
    requires a in l.evictions && l.evictions[a] == yes
    requires NoDup(voters) && AllMembers(voters, l) && forall v :: v in voters ==> v !in yes
    requires k <= |voters| && (k == 0 || |yes| + k < |l.members| - 1)
    ensures var t := Run(Ledger.Step, l, EvictionVotes(voters[..k], a));
            t.last == l.(evictions := l.evictions[a := yes + voters[..k]]) && t.replies == Undecided(k)
  {
    if k == 0 {
      SameBallots(l.evictions, a, yes);
    } else {
      var some, v := voters[..k - 1], voters[k - 1];
      EvictionPrefix(l, a, yes, voters, k - 1);
      VotersSnoc(voters, k - 1);
      EvictionSnoc(voters, a, k - 1);
      OneMoreEvictionVote(l, a, EvictionVotes(some, a), yes + some, v);
      ConcatAssoc(yes, some, [v]);
    }
  }

  lemma LastEvictionVote(l: Ledger, a: Address, calls: seq<Call>, yes: seq<Address>, v: Address)
    requires a in l.evictions && v in l.members && v !in yes && |yes| + 1 >= |l.members| - 1
    requires Last(l, calls) == l.(evictions := l.evictions[a := yes])
    ensures var t := Run(Ledger.Step, l, calls + [CastEvictionVote(v, a, true)]);
            t.last == l.Evict(a) && t.replies == Run(Ledger.Step, l, calls).replies + [Vote(true, true)]
  {
    DecidingEvictionVote(l, a, yes, v);
    RunSnoc(Ledger.Step, l, calls, CastEvictionVote(v, a, true));
  }

  /** Any members numbering all but one evict, the last of them deciding. */
  lemma EvictionRound(l: Ledger, a: Address, voters: seq<Address>)
    requires a in l.evictions && l.evictions[a] == []
    requires NoDup(voters) && AllMembers(voters, l) && |voters| == |l.members| - 1 > 0
    ensures var t := Run(Ledger.Step, l, EvictionVotes(voters, a));
            && t.last == l.Evict(a)
            && t.replies == Undecided(|voters| - 1) + [Vote(true, true)]
  {
    var n := |voters| - 1;
    EvictionPrefix(l, a, [], voters, n);
    assert [] + voters[..n] == voters[..n];
    VotersSnoc(voters, n);
    EvictionSnoc(voters, a, n);
    LastEvictionVote(l, a, EvictionVotes(voters[..n], a), voters[..n], voters[n]);
  }

  // ---- Votes of former members.

  /** `voters` are, in some order, the members who have not voted yet. */
  ghost predicate Remaining(l: Ledger, yes: seq<Address>, voters: seq<Address>) {
    NoDup(voters) && Elems(voters) == Missing(l, yes)
  }

  lemma RemainingAre(l: Ledger, yes: seq<Address>, voters: seq<Address>)
    requires Remaining(l, yes, voters)
    ensures AllMembers(voters, l) && forall v :: v in voters ==> v !in yes
    ensures |voters| == |Missing(l, yes)|
  {
    forall v | v in voters ensures v in l.members && v !in yes {
      assert v in Elems(voters);
    }
    SizeOfElems(voters);
  }

  lemma AfterSome(l: Ledger, yes: seq<Address>, voters: seq<Address>, k: nat)
    requires Remaining(l, yes, voters) && k <= |voters|
    ensures Stale(l, yes + voters[..k]) == Stale(l, yes)
    ensures |Missing(l, yes + voters[..k])| == |voters| - k
  {
    RemainingAre(l, yes, voters);
    var some := voters[..k];
    forall v | v in some ensures v in Elems(voters) {
    }
    assert Elems(some) <= Missing(l, yes);
    assert Missing(l, yes + some) == Missing(l, yes) - Elems(some);
    SizeOfElems(some);
    SubsetSize(Elems(some), Missing(l, yes));
  }

  /** Where a vote falls that is not preceded by the deciding one. */
  lemma YesVoteWithout(l: Ledger, a: Address, voters: seq<Address>, k: nat)
    requires l.Inv() && a in l.ballots && Remaining(l, l.ballots[a], voters)
    requires k < |voters| && (k == 0 || |l.ballots[a]| + k < |l.members|)
    ensures AdmitsWithout(Last(l, YesVotes(voters[..k], a)), voters[k], a)
       <==> 1 < |voters| - k <= |Stale(l, l.ballots[a])| + 1
  {
    var yes := l.ballots[a];
    RemainingAre(l, yes, voters);
    YesPrefix(l, a, yes, voters, k);
    RunInv(l, YesVotes(voters[..k], a));
    VotersSnoc(voters, k);
    AfterSome(l, yes, voters, k);
    AdmitsWithoutWhen(Last(l, YesVotes(voters[..k], a)), voters[k], a);
  }

  lemma EvictionVoteWithout(l: Ledger, a: Address, voters: seq<Address>, k: nat)
    requires l.Inv() && a in l.evictions && Remaining(l, l.evictions[a], voters)
    requires k < |voters| && (k == 0 || |l.evictions[a]| + k < |l.members| - 1)
    ensures EvictsWithout(Last(l, EvictionVotes(voters[..k], a)), voters[k], a)
       <==> 2 < |voters| - k <= |Stale(l, l.evictions[a])| + 2
  {
    var yes := l.evictions[a];
    RemainingAre(l, yes, voters);
    EvictionPrefix(l, a, yes, voters, k);
    RunInv(l, EvictionVotes(voters[..k], a));
    VotersSnoc(voters, k);
    AfterSome(l, yes, voters, k);
    EvictsWithoutWhen(Last(l, EvictionVotes(voters[..k], a)), voters[k], a);
  }

  /** After the deciding vote the nomination is closed for good. */
  lemma {:induction false} YesVotesAfter(l: Ledger, a: Address, voters: seq<Address>, d: nat, k: nat)
    requires l.Inv() && a in l.ballots && Remaining(l, l.ballots[a], voters) && d < k <= |voters|
    requires (d == 0 || |l.ballots[a]| + d < |l.members|) && |l.ballots[a]| + d + 1 >= |l.members|
    ensures a !in Last(l, YesVotes(voters[..k], a)).ballots
  {
    if k == d + 1 {
      AdmittedAt(l, a, voters, d);
    } else {
      YesVotesAfter(l, a, voters, d, k - 1);
      YesSnoc(voters, a, k - 1);
      AlreadyClosed(l, a, YesVotes(voters[..k - 1], a), voters[k - 1]);
    }
  }

  lemma AlreadyClosed(l: Ledger, a: Address, calls: seq<Call>, v: Address)
    ensures a !in Last(l, calls).ballots ==> a !in Last(l, calls + [CastNomineeVote(v, a, true)]).ballots
    ensures a !in Last(l, calls).evictions ==> a !in Last(l, calls + [CastEvictionVote(v, a, true)]).evictions
  {
    RunSnoc(Ledger.Step, l, calls, CastNomineeVote(v, a, true));
    RunSnoc(Ledger.Step, l, calls, CastEvictionVote(v, a, true));
  }

  /** The vote at `d` decides. */
  lemma AdmittedAt(l: Ledger, a: Address, voters: seq<Address>, d: nat)
    requires a in l.ballots && Remaining(l, l.ballots[a], voters) && d < |voters|
    requires (d == 0 || |l.ballots[a]| + d < |l.members|) && |l.ballots[a]| + d + 1 >= |l.members|
    ensures Last(l, YesVotes(voters[..d + 1], a)) == l.Admit(a)
  {
    RemainingAre(l, l.ballots[a], voters);
    YesPrefix(l, a, l.ballots[a], voters, d);
    VotersSnoc(voters, d);
    YesSnoc(voters, a, d);
    LastVote(l, a, YesVotes(voters[..d], a), l.ballots[a] + voters[..d], voters[d]);
  }

  lemma EvictedAt(l: Ledger, a: Address, voters: seq<Address>, d: nat)
    requires a in l.evictions && Remaining(l, l.evictions[a], voters) && d < |voters|
    requires (d == 0 || |l.evictions[a]| + d < |l.members| - 1) && |l.evictions[a]| + d + 1 >= |l.members| - 1
    ensures Last(l, EvictionVotes(voters[..d + 1], a)) == l.Evict(a)
  {
    RemainingAre(l, l.evictions[a], voters);
    EvictionPrefix(l, a, l.evictions[a], voters, d);
    VotersSnoc(voters, d);
    EvictionSnoc(voters, a, d);
    LastEvictionVote(l, a, EvictionVotes(voters[..d], a), l.evictions[a] + voters[..d], voters[d]);
  }

  lemma {:induction false} EvictionVotesAfter(l: Ledger, a: Address, voters: seq<Address>, d: nat, k: nat)
    requires l.Inv() && a in l.evictions && Remaining(l, l.evictions[a], voters) && d < k <= |voters|
    requires (d == 0 || |l.evictions[a]| + d < |l.members| - 1) && |l.evictions[a]| + d + 1 >= |l.members| - 1
    ensures a !in Last(l, EvictionVotes(voters[..k], a)).evictions
  {
    if k == d + 1 {
      EvictedAt(l, a, voters, d);
    } else {
      EvictionVotesAfter(l, a, voters, d, k - 1);
      EvictionSnoc(voters, a, k - 1);
      AlreadyClosed(l, a, EvictionVotes(voters[..k - 1], a), voters[k - 1]);
    }
  }

  /** Of all the votes only the deciding one, at `d`, can admit. */
  lemma YesVoteOnly(l: Ledger, a: Address, voters: seq<Address>, d: nat, k: nat)
    requires l.Inv() && a in l.ballots && Remaining(l, l.ballots[a], voters) && k < |voters|
    requires var st := |Stale(l, l.ballots[a])|; d == if |voters| > st then |voters| - st - 1 else 0
    ensures AdmitsWithout(Last(l, YesVotes(voters[..k], a)), voters[k], a)
       <==> k == d && 1 < |voters| - d <= |Stale(l, l.ballots[a])| + 1
  {
    RemainingAre(l, l.ballots[a], voters);
    Balance(l, l.ballots[a]);
    if k <= d {
      YesVoteWithout(l, a, voters, k);
    } else {
      YesVotesAfter(l, a, voters, d, k);
    }
  }

  lemma EvictionVoteOnly(l: Ledger, a: Address, voters: seq<Address>, d: nat, k: nat)
    requires l.Inv() && a in l.evictions && Remaining(l, l.evictions[a], voters) && k < |voters|
    requires var st := |Stale(l, l.evictions[a])|; d == if |voters| > st + 1 then |voters| - st - 2 else 0
    ensures EvictsWithout(Last(l, EvictionVotes(voters[..k], a)), voters[k], a)
       <==> k == d && 2 < |voters| - d <= |Stale(l, l.evictions[a])| + 2
  {
    RemainingAre(l, l.evictions[a], voters);
    Balance(l, l.evictions[a]);
    if k <= d {
      EvictionVoteWithout(l, a, voters, k);
    } else {
      EvictionVotesAfter(l, a, voters, d, k);
    }
  }

  /** "Everyone on the whitelist needs to cast a yes vote" is exactly right except
      when a vote of a former member stands in for a missing one. Whatever the
      order in which the remaining members say yes, their votes admit the nominee
      without a current member's vote if and only if, to begin with, some vote is
      a former member's and more than one member has yet to vote. */
  lemma NotUnanimousWhen(l: Ledger, a: Address, voters: seq<Address>)
    requires l.Inv() && a in l.ballots && Remaining(l, l.ballots[a], voters)
    ensures (exists k :: 0 <= k < |voters| && AdmitsWithout(Last(l, YesVotes(voters[..k], a)), voters[k], a))
       <==> Stale(l, l.ballots[a]) != {} && |Missing(l, l.ballots[a])| > 1
  {
    RemainingAre(l, l.ballots[a], voters);
    var m, st := |voters|, |Stale(l, l.ballots[a])|;
    var d := if m > st then m - st - 1 else 0;
    forall k | 0 <= k < m
      ensures AdmitsWithout(Last(l, YesVotes(voters[..k], a)), voters[k], a) <==> k == d && 1 < m - d <= st + 1
    {
      YesVoteOnly(l, a, voters, d, k);
    }
    if m > 0 {
      assert AdmitsWithout(Last(l, YesVotes(voters[..d], a)), voters[d], a) <==> 1 < m - d <= st + 1;
    }
  }

  /** The same for evictions, which can do without one member's vote: they do
      without more if and only if some vote is a former member's and more than two
      members have yet to vote. */
  lemma NotAllButOneWhen(l: Ledger, a: Address, voters: seq<Address>)
    requires l.Inv() && a in l.evictions && Remaining(l, l.evictions[a], voters)
    ensures (exists k :: 0 <= k < |voters| && EvictsWithout(Last(l, EvictionVotes(voters[..k], a)), voters[k], a))
       <==> Stale(l, l.evictions[a]) != {} && |Missing(l, l.evictions[a])| > 2
  {
    RemainingAre(l, l.evictions[a], voters);
    var m, st := |voters|, |Stale(l, l.evictions[a])|;
    var d := if m > st + 1 then m - st - 2 else 0;
    forall k | 0 <= k < m
      ensures EvictsWithout(Last(l, EvictionVotes(voters[..k], a)), voters[k], a) <==> k == d && 2 < m - d <= st + 2
    {
      EvictionVoteOnly(l, a, voters, d, k);
    }
    if m > 0 {
      assert EvictsWithout(Last(l, EvictionVotes(voters[..d], a)), voters[d], a) <==> 2 < m - d <= st + 2;
    }
  }

  // ---- Joining and leaving.

  lemma RunOne(l: Ledger, c: Call)
    ensures Last(l, [c]) == Ledger.Step(l, c).next
  {
    RunSnoc(Ledger.Step, l, [], c);
    assert [] + [c] == [c];
  }

  lemma DropLast(s: seq<Address>, a: Address)
    requires NoDup(s) && s != [] && a == s[|s| - 1]
    ensures SwapRemove(s, a) == s[..|s| - 1]
  {
    SplitLast(s);
    SwapRemoveLast(s[..|s| - 1], a);
  }

  lemma Joined(l: Ledger, a: Address, sender: Address, moniker: bytes32, voters: seq<Address>)
    requires l.Inv() && a != ZERO_ADDRESS && a !in l.members && a !in l.ballots && l.members != []
    requires NoDup(voters) && Elems(voters) == Elems(l.members)
    ensures Last(l, [Call.SubmitNominee(sender, a, moniker)] + YesVotes(voters, a)) == l.(members := l.members + [a])
  {
    var c := Call.SubmitNominee(sender, a, moniker);
    RunOne(l, c);
    var open := l.Nominate(sender, a).next;
    RunConcat(Ledger.Step, l, [c], YesVotes(voters, a));
    UnanimousRound(open, a, voters);
    NominatedAndClosed(l, sender, a);
  }

  lemma NominatedAndClosed(l: Ledger, sender: Address, a: Address)
    requires l.Inv() && a != ZERO_ADDRESS && a !in l.members && a !in l.ballots
    ensures l.Nominate(sender, a).next.CloseNomination(a) == l
  {
    assert a !in l.nominees by {
      assert multiset(l.nominees)[a] == 0;
    }
    SwapRemoveLast(l.nominees, a);
    assert l.ballots[a := []] - {a} == l.ballots;
  }

  /** A rejected nominee starts afresh: nominated again, it needs and gets the
      vote of every member, those included who voted in the rejected round. */
  lemma RejectedThenJoined(l: Ledger, a: Address, first: Address, second: Address, moniker: bytes32,
                           ayes: seq<Address>, nay: Address, voters: seq<Address>)
    requires l.Inv() && a != ZERO_ADDRESS && a !in l.members && a !in l.ballots
    requires NoDup(ayes) && AllMembers(ayes, l) && nay in l.members && nay !in ayes
    requires NoDup(voters) && Elems(voters) == Elems(l.members)
    ensures var rejected := [Call.SubmitNominee(first, a, moniker)]
                              + (YesVotes(ayes, a) + [CastNomineeVote(nay, a, false)]);
            var joined := [Call.SubmitNominee(second, a, moniker)] + YesVotes(voters, a);
            Last(l, rejected) == l && Last(l, rejected + joined) == l.(members := l.members + [a])
  {
    var c, round := Call.SubmitNominee(first, a, moniker), YesVotes(ayes, a) + [CastNomineeVote(nay, a, false)];
    RunOne(l, c);
    RunConcat(Ledger.Step, l, [c], round);
    RejectedRound(l.Nominate(first, a).next, a, ayes, nay);
    NominatedAndClosed(l, first, a);
    RunConcat(Ledger.Step, l, [c] + round, [Call.SubmitNominee(second, a, moniker)] + YesVotes(voters, a));
    Joined(l, a, second, moniker, voters);
  }

  lemma AccusedAndClosed(l: Ledger, sender: Address, a: Address)
    requires l.Inv() && sender in l.members && a in l.members && a !in l.evictions
    ensures l.Accuse(sender, a).next.CloseEviction(a) == l
  {
    assert a !in Elems(l.evictees);
    SwapRemoveLast(l.evictees, a);
    assert l.evictions[a := []] - {a} == l.evictions;
  }

  lemma Left(l: Ledger, a: Address, sender: Address, voters: seq<Address>)
    requires l.Inv() && l.members != [] && a == l.members[|l.members| - 1] && a !in l.evictions
    requires sender in l.members
    requires NoDup(voters) && AllMembers(voters, l) && |voters| == |l.members| - 1 > 0
    ensures Last(l, [Call.SubmitEviction(sender, a)] + EvictionVotes(voters, a))
         == l.(members := l.members[..|l.members| - 1])
  {
    var c := Call.SubmitEviction(sender, a);
    var open := l.Accuse(sender, a).next;
    RunOne(l, c);
    RunConcat(Ledger.Step, l, [c], EvictionVotes(voters, a));
    AccusedAndClosed(l, sender, a);
    EvictionRound(open, a, voters);
    DropLast(l.members, a);
  }

  /** Nominating and admitting an outsider and evicting it again, by the same
      members in any orders, restores the ledger exactly: every array, in
      order, and every open election. */
  lemma JoinThenLeave(l: Ledger, a: Address, moniker: bytes32, proposer: Address, accuser: Address,
                      ayes: seq<Address>, leavers: seq<Address>)
    requires l.Inv() && a != ZERO_ADDRESS && a !in l.members && a !in l.ballots && l.members != []
    requires NoDup(ayes) && Elems(ayes) == Elems(l.members)
    requires NoDup(leavers) && Elems(leavers) == Elems(l.members) && accuser in l.members
    ensures Last(l, ([Call.SubmitNominee(proposer, a, moniker)] + YesVotes(ayes, a))
                  + ([Call.SubmitEviction(accuser, a)] + EvictionVotes(leavers, a))) == l
  {
    var join := [Call.SubmitNominee(proposer, a, moniker)] + YesVotes(ayes, a);
    var leave := [Call.SubmitEviction(accuser, a)] + EvictionVotes(leavers, a);
    RunConcat(Ledger.Step, l, join, leave);
    Joined(l, a, proposer, moniker, ayes);
    RunInv(l, join);
    SizeOfElems(leavers);
    SizeOfElems(l.members);
    ElemsSnoc(l.members, a);
    var l' := l.(members := l.members + [a]);
    assert a !in l.evictions;
    ElemsAreMembers(leavers, l');
    Left(l', a, accuser, leavers);
    assert l'.members[..|l.members|] == l.members;
  }

  // ---- One member, one vote.

  ghost predicate Undisturbed(events: seq<Event>, a: Address) {
    forall e :: e in events ==> !(e.NomineeDecision? && e.nominee == a)
  }

  lemma VoteStays(l: Ledger, c: Call, v: Address, a: Address)
    requires a in l.ballots && v in l.ballots[a] && Undisturbed(Ledger.Step(l, c).events, a)
    ensures var l' := Ledger.Step(l, c).next;
            a in l'.ballots && l.ballots[a] <= l'.ballots[a]
  {
    var o := Ledger.Step(l, c);
    assert o.events != [] ==> o.events[0] in o.events;
  }

  /** Once counted, a member's vote stays counted and no further vote of that
      member changes anything until the election is decided. */
  lemma {:induction false} OneVoteEach(l: Ledger, calls: seq<Call>, v: Address, a: Address, accept: bool)
    requires a in l.ballots && v in l.ballots[a]
    requires Undisturbed(Events(l, calls), a)
    ensures var l' := Last(l, calls);
            && a in l'.ballots && l.ballots[a] <= l'.ballots[a]
            && l'.VoteOnNominee(v, a, accept)
                 == Outcome(l', if v in l'.members then Vote(false, false) else Reverted, [])
  {
    if calls != [] {
      var n := |calls| - 1;
      var before := Last(l, calls[..n]);
      assert Events(l, calls) == Events(l, calls[..n]) + Ledger.Step(before, calls[n]).events;
      OneVoteEach(l, calls[..n], v, a, accept);
      VoteStays(before, calls[n], v, a);
    }
  }

  ghost predicate EvictionUndisturbed(events: seq<Event>, a: Address) {
    forall e :: e in events ==> !(e.EvictionDecision? && e.evictee == a)
  }

  lemma EvictionVoteStays(l: Ledger, c: Call, v: Address, a: Address)
    requires a in l.evictions && v in l.evictions[a] && EvictionUndisturbed(Ledger.Step(l, c).events, a)
    ensures var l' := Ledger.Step(l, c).next;
            a in l'.evictions && l.evictions[a] <= l'.evictions[a]
  {
    var o := Ledger.Step(l, c);
    assert o.events != [] ==> o.events[0] in o.events;
  }

  lemma {:induction false} OneEvictionVoteEach(l: Ledger, calls: seq<Call>, v: Address, a: Address, accept: bool)
    requires a in l.evictions && v in l.evictions[a]
    requires EvictionUndisturbed(Events(l, calls), a)
    ensures var l' := Last(l, calls);
            && a in l'.evictions && l.evictions[a] <= l'.evictions[a]
            && l'.VoteOnEviction(v, a, accept)
                 == Outcome(l', if v in l'.members then Vote(false, false) else Reverted, [])
  {
    if calls != [] {
      var n := |calls| - 1;
      var before := Last(l, calls[..n]);
      assert Events(l, calls) == Events(l, calls[..n]) + Ledger.Step(before, calls[n]).events;
      OneEvictionVoteEach(l, calls[..n], v, a, accept);
      EvictionVoteStays(before, calls[n], v, a);
    }
  }

  // ---- Honest replies.

  /** A reported decision tells whether the nominee is now a member, or whether
      the evictee has left. */
  ghost predicate Honest(c: Call, reply: Reply, members: seq<Address>) {
    reply.Vote? && reply.decided ==>
      match c
      case CastNomineeVote(_, a, _) => reply.result == (a in members)
      case CastEvictionVote(_, a, _) => reply.result == (a !in members)
      case _ => false
  }

  lemma StepIsHonest(l: Ledger, c: Call)
    requires l.Inv()
    ensures Honest(c, Ledger.Step(l, c).reply, Ledger.Step(l, c).next.members)
  {
    match c
    case SubmitNominee(_, _, _) =>
    case SubmitEviction(_, _) =>
    case CastNomineeVote(_, _, _) =>
    case CastEvictionVote(_, a, _) => SwapRemoveIn(l.members, a);
  }

  /** The reply to call `i` of a run, and the state after it. */
  lemma {:induction false} CallAt(l: Ledger, calls: seq<Call>, i: nat)
    requires i < |calls|
    ensures |Run(Ledger.Step, l, calls).replies| == |calls|
    ensures var o := Ledger.Step(Last(l, calls[..i]), calls[i]);
            Run(Ledger.Step, l, calls).replies[i] == o.reply && Last(l, calls[..i + 1]) == o.next
  {
    var n := |calls| - 1;
    OneReplyEach(l, calls);
    OneReplyEach(l, calls[..n]);
    if i < n {
      CallAt(l, calls[..n], i);
      Prefixes(calls, n, i);
    } else {
      assert calls[..i + 1] == calls;
    }
  }

  lemma Prefixes(calls: seq<Call>, n: nat, i: nat)
    requires i < n <= |calls|
    ensures calls[..n][..i + 1] == calls[..i + 1] && calls[..n][..i] == calls[..i] && calls[..n][i] == calls[i]
  {
  }

  /** Every reply during a run is honest about the members just after its call. */
  lemma RepliesAreHonest(l: Ledger, calls: seq<Call>, i: nat)
    requires l.Inv() && i < |calls|
    ensures |Run(Ledger.Step, l, calls).replies| == |calls|
    ensures Honest(calls[i], Run(Ledger.Step, l, calls).replies[i], Last(l, calls[..i + 1]).members)
  {
    CallAt(l, calls, i);
    RunInv(l, calls[..i]);
    StepIsHonest(Last(l, calls[..i]), calls[i]);
  }

  /** During a run exactly the calls of non-members revert, nominations excepted,
      and they change nothing. */
  lemma RevertedWhen(l: Ledger, calls: seq<Call>, i: nat)
    requires i < |calls|
    ensures |Run(Ledger.Step, l, calls).replies| == |calls|
    ensures Run(Ledger.Step, l, calls).replies[i] == Reverted
       <==> !calls[i].SubmitNominee? && calls[i].sender !in Last(l, calls[..i]).members
    ensures Run(Ledger.Step, l, calls).replies[i] == Reverted ==> Last(l, calls[..i + 1]) == Last(l, calls[..i])
    ensures Run(Ledger.Step, l, calls).replies[i] == Done
       <==> || calls[i].SubmitNominee?
            || (calls[i].SubmitEviction? && calls[i].sender in Last(l, calls[..i]).members)
  {
    CallAt(l, calls, i);
  }

  /** What call, in which state, an event is about: proposals name their caller,
      and a decision counts the votes, the deciding one included. */
  ghost predicate IsAbout(l: Ledger, c: Call, e: Event) {
    match e
    case NomineeProposed(a, proposer) =>
      c.SubmitNominee? && c.sender == proposer && c.nominee == a && a !in l.members && a !in l.ballots
    case EvictionProposed(a, proposer) =>
      && c.SubmitEviction? && c.sender == proposer && c.evictee == a
      && proposer in l.members && a in l.members && a !in l.evictions
    case NomineeDecision(a, yes, no, accepted) =>
      && c.CastNomineeVote? && c.nominee == a && c.accept == accepted
      && c.sender in l.members && a in l.ballots && c.sender !in l.ballots[a]
      && yes == |l.ballots[a]| + (if accepted then 1 else 0) && no == (if accepted then 0 else 1)
      && (accepted ==> yes >= |l.members|)
    case EvictionDecision(a, yes, no, accepted) =>
      && c.CastEvictionVote? && c.evictee == a && c.accept == accepted
      && c.sender in l.members && a in l.evictions && c.sender !in l.evictions[a]
      && yes == |l.evictions[a]| + (if accepted then 1 else 0) && no == (if accepted then 0 else 1)
      && (accepted ==> yes >= |l.members| - 1)
  }

  lemma StepEvents(l: Ledger, c: Call)
    ensures forall e :: e in Ledger.Step(l, c).events ==> IsAbout(l, c, e)
  {
    assert Ledger.Step(l, c).events != [] ==> IsAbout(l, c, Ledger.Step(l, c).events[0]);
  }

  /** Every logged event is about one of the calls. */
  lemma {:induction false} EventsAreAboutCalls(l: Ledger, calls: seq<Call>, e: Event) returns (i: nat)
    requires e in Events(l, calls)
    ensures i < |calls| && IsAbout(Last(l, calls[..i]), calls[i], e)
  {
    var n := |calls| - 1;
    assert Events(l, calls) == Events(l, calls[..n]) + Ledger.Step(Last(l, calls[..n]), calls[n]).events;
    if e in Events(l, calls[..n]) {
      i := EventsAreAboutCalls(l, calls[..n], e);
      assert calls[..n][..i] == calls[..i];
    } else {
      i := n;
      StepEvents(Last(l, calls[..n]), calls[n]);
    }
  }

  lemma {:induction false} OneReplyEach(l: Ledger, calls: seq<Call>)
    ensures |Run(Ledger.Step, l, calls).replies| == |calls|
  {
    if calls != [] {
      OneReplyEach(l, calls[..|calls| - 1]);
    }
  }

  // ---- Event replay.

  datatype Summary = Summary(members: set<Address>, nominees: set<Address>, evictees: set<Address>)

  function Apply(s: Summary, e: Event): Summary {
    match e
    case NomineeProposed(a, _) => if a == ZERO_ADDRESS then s else s.(nominees := s.nominees + {a})
    case NomineeDecision(a, _, _, accepted) =>
      s.(nominees := s.nominees - {a}, members := if accepted then s.members + {a} else s.members)
    case EvictionProposed(a, _) => s.(evictees := s.evictees + {a})
    case EvictionDecision(a, _, _, accepted) =>
      s.(evictees := s.evictees - {a}, members := if accepted then s.members - {a} else s.members)
  }

  function Replay(s: Summary, events: seq<Event>): Summary {
    if events == [] then s
    else Apply(Replay(s, events[..|events| - 1]), events[|events| - 1])
  }

  function Summarize(l: Ledger): Summary {
    Summary(Elems(l.members), l.ballots.Keys, l.evictions.Keys)
  }

  /** At most one event, and it tells the change. */
  ghost predicate Tells(l: Ledger, o: Outcome<Ledger>) {
    && |o.events| <= 1
    && Summarize(o.next) == if o.events == [] then Summarize(l) else Apply(Summarize(l), o.events[0])
  }

  lemma NominateReplay(l: Ledger, sender: Address, a: Address)
    ensures Tells(l, l.Nominate(sender, a))
  {
  }

  lemma AccuseReplay(l: Ledger, sender: Address, a: Address)
    ensures Tells(l, l.Accuse(sender, a))
  {
  }

  lemma VoteOnNomineeReplay(l: Ledger, v: Address, a: Address, accept: bool)
    ensures Tells(l, l.VoteOnNominee(v, a, accept))
  {
    ElemsSnoc(l.members, a);
  }

  lemma VoteOnEvictionReplay(l: Ledger, v: Address, a: Address, accept: bool)
    requires NoDup(l.members)
    ensures Tells(l, l.VoteOnEviction(v, a, accept))
  {
    SwapRemoveElems(l.members, a);
  }

  lemma StepReplay(l: Ledger, c: Call)
    requires NoDup(l.members)
    ensures Tells(l, Ledger.Step(l, c))
  {
    match c
    case SubmitNominee(sender, a, _) => NominateReplay(l, sender, a);
    case SubmitEviction(sender, a) => AccuseReplay(l, sender, a);
    case CastNomineeVote(sender, a, accept) => VoteOnNomineeReplay(l, sender, a, accept);
    case CastEvictionVote(sender, a, accept) => VoteOnEvictionReplay(l, sender, a, accept);
  }

  /** Folding the emitted events over the starting summary gives the members,
      the nominees and the evictees after any calls. */
  lemma {:induction false} RunReplay(l: Ledger, calls: seq<Call>)
    requires l.Inv()
    ensures Replay(Summarize(l), Events(l, calls)) == Summarize(Last(l, calls))
  {
    if calls != [] {
      var n := |calls| - 1;
      var before := Last(l, calls[..n]);
      var o := Ledger.Step(before, calls[n]);
      RunReplay(l, calls[..n]);
      RunInv(l, calls[..n]);
      StepReplay(before, calls[n]);
      if o.events == [] {
        assert Events(l, calls) == Events(l, calls[..n]);
      } else {
        assert Events(l, calls) == Events(l, calls[..n]) + [o.events[0]];
        assert Events(l, calls)[..|Events(l, calls)| - 1] == Events(l, calls[..n]);
      }
    }
  }

  /** What holds after any calls to a contract deployed with a duplicate-free
      whitelist of nonzero addresses: the invariant; agreement in state, replies
      and events with the set machine; and the event log tells the state. */
  lemma EveryRun(members: seq<Address>, calls: seq<Call>)
    requires NoDup(members) && ZERO_ADDRESS !in members
    ensures var t := Run(Ledger.Step, Genesis(members), calls);
            var u := Run(Council.Step, Council.Council(Elems(members), map[], map[]), calls);
            && t.last.Inv()
            && t.last.Council() == u.last && t.replies == u.replies && t.events == u.events
            && Replay(Summary(Elems(members), {}, {}), t.events) == Summarize(t.last)
  {
    GenesisInv(members);
    RunInv(Genesis(members), calls);
    RunRefines(Genesis(members), calls);
    RunReplay(Genesis(members), calls);
    assert Genesis(members).Council() == Council.Council(Elems(members), map[], map[]);
    assert Summarize(Genesis(members)) == Summary(Elems(members), {}, {});
  }

  // ---- What can still be decided.

  /** An open nomination can be decided by a next vote exactly when some member
      has not voted in it. */
  lemma DecidableWhen(l: Ledger, a: Address)
    requires l.Inv() && a in l.ballots
    ensures (exists v, accept :: a !in l.VoteOnNominee(v, a, accept).next.ballots)
       <==> !(Elems(l.members) <= Elems(l.ballots[a]))
  {
    if !(Elems(l.members) <= Elems(l.ballots[a])) {
      var v :| v in Elems(l.members) && v !in Elems(l.ballots[a]);
      assert a !in l.VoteOnNominee(v, a, false).next.ballots;
    } else {
      forall v, accept ensures a in l.VoteOnNominee(v, a, accept).next.ballots {
        assert v in l.members ==> v in Elems(l.members);
      }
    }
  }

  lemma EvictionDecidableWhen(l: Ledger, a: Address)
    requires l.Inv() && a in l.evictions
    ensures (exists v, accept :: a !in l.VoteOnEviction(v, a, accept).next.evictions)
       <==> !(Elems(l.members) <= Elems(l.evictions[a]))
  {
    if !(Elems(l.members) <= Elems(l.evictions[a])) {
      var v :| v in Elems(l.members) && v !in Elems(l.evictions[a]);
      assert a !in l.VoteOnEviction(v, a, false).next.evictions;
    } else {
      forall v, accept ensures a in l.VoteOnEviction(v, a, accept).next.evictions {
        assert v in l.members ==> v in Elems(l.members);
      }
    }
  }

  /** An eviction can leave a nomination without such a member: two of any three
      members vote for an outsider and then evict the third. No next vote decides
      the nomination then; it takes a newcomer, as below. */
  lemma NoNextVoteDecides(p: Address, q: Address, r: Address, x: Address, moniker: bytes32, v: Address, accept: bool)
    requires NoDup([r, p, q, x]) && ZERO_ADDRESS !in [r, p, q, x]
    ensures var l := Last(Genesis([r, p, q]), ([Call.SubmitNominee(p, x, moniker)] + YesVotes([p, q], x))
                                              + EvictedByTwo(r, p, q));
            && l.members == [q, p] && x in l.ballots && l.ballots[x] == [p, q]
            && x in l.VoteOnNominee(v, x, accept).next.ballots
  {
    FourDistinct(r, p, q, x);
    var start, calls := Genesis([r, p, q]), [Call.SubmitNominee(p, x, moniker)] + YesVotes([p, q], x);
    TwoOfThree(p, q, r, x, moniker);
    TwoVotes(Last(start, calls), r, p, q);
    Batches(start, calls, EvictedByTwo(r, p, q));
  }

  lemma TwoOfThree(p: Address, q: Address, r: Address, x: Address, moniker: bytes32)
    requires p != q && x != p && x != q && x != r && x != ZERO_ADDRESS
    ensures var l := Last(Genesis([r, p, q]), [Call.SubmitNominee(p, x, moniker)] + YesVotes([p, q], x));
            l.members == [r, p, q] && x in l.ballots && l.ballots[x] == [p, q] && r !in l.evictions
  {
    var start, c, voters := Genesis([r, p, q]), Call.SubmitNominee(p, x, moniker), [p, q];
    var open := start.Nominate(p, x).next;
    assert open.members == [r, p, q] && open.ballots == map[x := []];
    RunOne(start, c);
    Batches(start, [c], YesVotes(voters, x));
    YesPrefix(open, x, [], voters, 2);
    assert voters[..2] == voters && [] + voters == voters;
  }

  /** With no members left, nobody ever joins and no nomination is ever closed. */
  lemma {:induction false} EmptyForever(l: Ledger, calls: seq<Call>)
    requires l.Inv() && l.members == []
    ensures Last(l, calls).members == [] && l.ballots.Keys <= Last(l, calls).ballots.Keys
    ensures forall r :: r in Run(Ledger.Step, l, calls).replies ==> r == Done || r == Reverted
  {
    if calls != [] {
      EmptyForever(l, calls[..|calls| - 1]);
    }
  }

  /** Someone who could still be nominated, and has no vote among `yes`. */
  ghost predicate Outsider(l: Ledger, yes: seq<Address>, y: Address) {
    y != ZERO_ADDRESS && y !in l.members && y !in l.ballots && y !in yes
  }

  /** There is one unless nearly all the 2^160 addresses are taken. */
  lemma OutsiderExists(l: Ledger, yes: seq<Address>) returns (y: Address)
    requires NoDup(l.members) && NoDup(yes) && |l.members| + |l.ballots| + |yes| < TWO_160 - 1
    ensures Outsider(l, yes, y)
  {
    SizeOfElems(l.members);
    SizeOfElems(yes);
    var taken := {ZERO_ADDRESS} + Elems(l.members) + l.ballots.Keys + Elems(yes);
    y := Unused(taken, TWO_160);
  }

  function Joining(l: Ledger, y: Address): seq<Call> {
    [Call.SubmitNominee(y, y, 0)] + YesVotes(l.members, y)
  }

  lemma NewcomerJoins(l: Ledger, y: Address, calls: seq<Call>)
    requires l.Inv() && l.members != [] && Outsider(l, [], y)
    ensures l.(members := l.members + [y]).Inv()
    ensures Last(l, Joining(l, y) + calls) == Last(l.(members := l.members + [y]), calls)
  {
    Joined(l, y, y, 0, l.members);
    RunInv(l, Joining(l, y));
    Batches(l, Joining(l, y), calls);
  }

  /** The yes votes of those who have not voted get as far as the admission. */
  lemma Finished(l: Ledger, a: Address, voters: seq<Address>) returns (k: nat)
    requires l.Inv() && a in l.ballots && Remaining(l, l.ballots[a], voters) && voters != []
    ensures k <= |voters| && Last(l, YesVotes(voters[..k], a)) == l.Admit(a)
  {
    var yes := l.ballots[a];
    RemainingAre(l, yes, voters);
    Balance(l, yes);
    var m, st := |voters|, |Stale(l, yes)|;
    var d := if m > st then m - st - 1 else 0;
    AdmittedAt(l, a, voters, d);
    k := d + 1;
  }

  lemma EvictionFinished(l: Ledger, a: Address, voters: seq<Address>) returns (k: nat)
    requires l.Inv() && a in l.evictions && Remaining(l, l.evictions[a], voters) && voters != []
    ensures k <= |voters| && Last(l, EvictionVotes(voters[..k], a)) == l.Evict(a)
  {
    var yes := l.evictions[a];
    RemainingAre(l, yes, voters);
    Balance(l, yes);
    var m, st := |voters|, |Stale(l, yes)|;
    var d := if m > st + 1 then m - st - 2 else 0;
    EvictedAt(l, a, voters, d);
    k := d + 1;
  }

  /** After a newcomer has joined, someone has yet to vote. */
  lemma NewcomerRemains(l: Ledger, yes: seq<Address>, y: Address) returns (voters: seq<Address>)
    requires y !in yes
    ensures Remaining(l.(members := l.members + [y]), yes, voters) && voters != []
  {
    var l' := l.(members := l.members + [y]);
    voters := InSomeOrder(Missing(l', yes));
    assert y in l'.members && y in Missing(l', yes);
  }

  lemma CanBeAdmitted(l: Ledger, a: Address, y: Address) returns (calls: seq<Call>)
    requires l.Inv() && a in l.ballots && Outsider(l, l.ballots[a], y) && l.members != []
    ensures a in Last(l, calls).members
  {
    var l' := l.(members := l.members + [y]);
    NewcomerJoins(l, y, []);
    var voters := NewcomerRemains(l, l.ballots[a], y);
    var k := Finished(l', a, voters);
    calls := Joining(l, y) + YesVotes(voters[..k], a);
    NewcomerJoins(l, y, YesVotes(voters[..k], a));
    assert (l'.members + [a])[|l'.members|] == a;
  }

  lemma CanBeRejected(l: Ledger, a: Address, y: Address) returns (calls: seq<Call>)
    requires l.Inv() && a in l.ballots && Outsider(l, l.ballots[a], y) && l.members != []
    ensures a !in Last(l, calls).ballots && a !in Last(l, calls).members
  {
    var no := CastNomineeVote(y, a, false);
    calls := Joining(l, y) + [no];
    NewcomerJoins(l, y, [no]);
    RunOne(l.(members := l.members + [y]), no);
    assert (l.members + [y])[|l.members|] == y;
  }

  /** An open nomination can still be decided, by admission and by rejection, if and
      only if there is a member: a newcomer can join and cast the missing vote. */
  lemma NominationCanBeDecidedWhen(l: Ledger, a: Address, y: Address)
    requires l.Inv() && a in l.ballots && Outsider(l, l.ballots[a], y)
    ensures (exists calls :: a in Last(l, calls).members) <==> l.members != []
    ensures (exists calls :: a !in Last(l, calls).ballots && a !in Last(l, calls).members) <==> l.members != []
  {
    if l.members == [] {
      forall calls ensures a !in Last(l, calls).members && a in Last(l, calls).ballots {
        EmptyForever(l, calls);
      }
    } else {
      var calls := CanBeAdmitted(l, a, y);
      calls := CanBeRejected(l, a, y);
    }
  }

  /** So can every open eviction: its evictee is a member. */
  lemma EvictionCanBeDecided(l: Ledger, a: Address, y: Address)
    requires l.Inv() && a in l.evictions && Outsider(l, l.evictions[a], y)
    ensures exists calls :: a !in Last(l, calls).members
    ensures exists calls :: a !in Last(l, calls).evictions && a in Last(l, calls).members
  {
    var calls := CanBeEvicted(l, a, y);
    calls := CanBeSpared(l, a, y);
  }

  lemma CanBeEvicted(l: Ledger, a: Address, y: Address) returns (calls: seq<Call>)
    requires l.Inv() && a in l.evictions && Outsider(l, l.evictions[a], y)
    ensures a !in Last(l, calls).members
  {
    var l' := l.(members := l.members + [y]);
    NewcomerJoins(l, y, []);
    var voters := NewcomerRemains(l, l.evictions[a], y);
    var k := EvictionFinished(l', a, voters);
    calls := Joining(l, y) + EvictionVotes(voters[..k], a);
    NewcomerJoins(l, y, EvictionVotes(voters[..k], a));
    SwapRemoveIn(l'.members, a);
  }

  lemma CanBeSpared(l: Ledger, a: Address, y: Address) returns (calls: seq<Call>)
    requires l.Inv() && a in l.evictions && Outsider(l, l.evictions[a], y)
    ensures a !in Last(l, calls).evictions && a in Last(l, calls).members
  {
    var no := CastEvictionVote(y, a, false);
    calls := Joining(l, y) + [no];
    NewcomerJoins(l, y, [no]);
    RunOne(l.(members := l.members + [y]), no);
    assert (l.members + [y])[|l.members|] == y;
  }

  /** The last member can evict itself, and whatever is called after that the
      whitelist stays empty. */
  lemma LastMemberLeavesForever(l: Ledger, a: Address, calls: seq<Call>)
    requires l.Inv() && l.members == [a] && a !in l.evictions
    ensures var leave := [Call.SubmitEviction(a, a), CastEvictionVote(a, a, true)];
            Last(l, leave + calls).members == []
  {
    var c, d := Call.SubmitEviction(a, a), CastEvictionVote(a, a, true);
    RunOne(l, c);
    RunSnoc(Ledger.Step, l, [c], d);
    assert [c] + [d] == [c, d];
    RunInv(l, [c, d]);
    RunConcat(Ledger.Step, l, [c, d], calls);
    FirstIndex([a], a, 0);
    EmptyForever(Last(l, [c, d]), calls);
  }
}
