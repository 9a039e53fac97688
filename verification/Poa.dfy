/** The proof-of-authority contract on its storage: counters, arrays, election
    records and the per-voter slots that `delete` does not reach. Each public
    method is proved to take exactly one step of the `Ledger`. */
module Contract {
  import opened Protocol
  import opened Sequences
  import opened Ledgers

  datatype WhitelistPerson = WhitelistPerson(person: Address, flags: uint256)

  datatype NomineeVote = NomineeVote(voter: Address, accept: bool)

  /** A Solidity mapping: an absent key reads as the zero value. */
  type Slots = map<Address, NomineeVote>

  datatype NomineeElection = NomineeElection(
    nominee: Address,
    proposer: Address,
    yesVotes: uint256,
    noVotes: uint256,
    vote: Slots,
    yesArray: seq<Address>,
    noArray: seq<Address>)
  {
    /** A struct literal assigned over this record, and (with zeros) `delete`:
        every member is replaced except the mapping. */
    function Overwrite(nominee: Address, proposer: Address): NomineeElection {
      NomineeElection(nominee, proposer, 0, 0, vote, [], [])
    }

    /** This record with one more ballot in it. */
    function WithVote(v: Address, accepted: bool): NomineeElection
      requires yesVotes < TWO_256 - 1 && noVotes < TWO_256 - 1
    {
      var e := this.(vote := vote[v := NomineeVote(v, accepted)]);
      if accepted then e.(yesVotes := yesVotes + 1, yesArray := yesArray + [v])
      else e.(noVotes := noVotes + 1, noArray := noArray + [v])
    }

    function SetVoter(v: Address, voter: Address): NomineeElection {
      this.(vote := vote[v := Slot(vote, v).(voter := voter)])
    }

    /** What is left of the record once its election is closed. */
    function Closed(): NomineeElection {
      this.(vote := Clear(Clear(vote, yesArray), noArray)).Overwrite(ZERO_ADDRESS, ZERO_ADDRESS)
    }

    /** The counters, the voter arrays and the slots tell the same story. */
    ghost predicate BallotBox() {
      && yesVotes == |yesArray| && noVotes == |noArray|
      && NoDup(yesArray) && NoDup(noArray)
      && (forall v: Address :: v in yesArray ==> v !in noArray)
      && ZERO_ADDRESS !in yesArray && ZERO_ADDRESS !in noArray
      && (forall v: Address {:trigger Slot(vote, v)} ::
            if v in yesArray then Slot(vote, v) == NomineeVote(v, true)
            else if v in noArray then Slot(vote, v) == NomineeVote(v, false)
            else Slot(vote, v).voter == ZERO_ADDRESS)
    }
  }

  type Records = map<Address, NomineeElection>

  const NOBODY := WhitelistPerson(ZERO_ADDRESS, 0)
  const NO_VOTE := NomineeVote(ZERO_ADDRESS, false)
  const NO_ELECTION := NomineeElection(ZERO_ADDRESS, ZERO_ADDRESS, 0, 0, map[], [], [])

  function Person(m: map<Address, WhitelistPerson>, a: Address): WhitelistPerson {
    if a in m then m[a] else NOBODY
  }

  function Slot(m: Slots, v: Address): NomineeVote {
    if v in m then m[v] else NO_VOTE
  }

  function Election(m: Records, a: Address): NomineeElection {
    if a in m then m[a] else NO_ELECTION
  }

  /** The slots after `voter` has been zeroed for each of `voters` in turn. */
  function Clear(m: Slots, voters: seq<Address>): Slots {
    if voters == [] then m else
      var before := Clear(m, voters[..|voters| - 1]);
      var v := voters[|voters| - 1];
      before[v := Slot(before, v).(voter := ZERO_ADDRESS)]
  }

  lemma {:induction false} ClearedSlot(m: Slots, voters: seq<Address>, v: Address)
    ensures Slot(Clear(m, voters), v)
         == NomineeVote(if v in voters then ZERO_ADDRESS else Slot(m, v).voter, Slot(m, v).accept)
  {
    if voters != [] {
      var n := |voters| - 1;
      ClearedSlot(m, voters[..n], v);
      assert voters == voters[..n] + [voters[n]];
    }
  }

  lemma ClearSnoc(m: Slots, voters: seq<Address>, j: nat)
    requires j < |voters|
    ensures var before := Clear(m, voters[..j]);
            Clear(m, voters[..j + 1]) == before[voters[j] := Slot(before, voters[j]).(voter := ZERO_ADDRESS)]
  {
    assert voters[..j + 1][..j] == voters[..j];
  }

  /** Closing an election leaves no voter slot set, so the next election of the
      same address starts clean although the mapping survives. */
  lemma ClosedIsClean(e: NomineeElection)
    requires e.BallotBox()
    ensures e.Closed().BallotBox()
    ensures forall v: Address :: Slot(e.Closed().vote, v).voter == ZERO_ADDRESS
    ensures e.Closed() == NO_ELECTION.(vote := e.Closed().vote)
  {
    forall v ensures Slot(e.Closed().vote, v).voter == ZERO_ADDRESS {
      ClearedSlot(e.vote, e.yesArray, v);
      ClearedSlot(Clear(e.vote, e.yesArray), e.noArray, v);
    }
  }

  /** Between calls: no election holds a no vote, and a closed one holds
      nothing. */
  ghost predicate Tidy(m: Records) {
    forall a :: a in m ==>
      && m[a].BallotBox()
      && m[a].noArray == []
      && (m[a].nominee == a || m[a].nominee == ZERO_ADDRESS)
      && (m[a].nominee == ZERO_ADDRESS ==> m[a].yesArray == [])
  }

  function Open(m: Records): Ballots {
    map a | a in m && m[a].nominee != ZERO_ADDRESS :: m[a].yesArray
  }

  lemma OpenUpdate(m: Records, a: Address, e: NomineeElection)
    ensures Open(m[a := e]) == if e.nominee != ZERO_ADDRESS then Open(m)[a := e.yesArray] else Open(m) - {a}
  {
  }

  /** A voter's slot is set exactly while its vote counts in an open election;
      no election that is closed, or never was open, has a slot set. */
  lemma SlotsFollowBallots(m: Records, a: Address, v: Address)
    requires Tidy(m)
    ensures Slot(Election(m, a).vote, v).voter != ZERO_ADDRESS <==> a in Open(m) && v in Open(m)[a]
  {
    if a in m {
      assert m[a].BallotBox();
    }
  }

  lemma Reopened(m: Records, a: Address, proposer: Address)
    requires Tidy(m) && Election(m, a).nominee == ZERO_ADDRESS
    ensures var m' := m[a := Election(m, a).Overwrite(a, proposer)];
            Tidy(m') && Open(m') == if a == ZERO_ADDRESS then Open(m) else Open(m)[a := []]
  {
    OpenUpdate(m, a, Election(m, a).Overwrite(a, proposer));
    assert a in m ==> m[a].BallotBox();
  }

  lemma OpenElection(m: Records, a: Address)
    requires Tidy(m) && a in Open(m)
    ensures a in m && m[a].nominee == a != ZERO_ADDRESS && m[a].noVotes == 0
    ensures m[a].yesVotes == |Open(m)[a]| < TWO_256 - 1
  {
    assert m[a].BallotBox();
    AddressesFit(m[a].yesArray);
  }

  lemma WithVoteBallotBox(e: NomineeElection, v: Address, accepted: bool)
    requires e.BallotBox() && e.noArray == [] && e.yesVotes < TWO_256 - 1
    requires v != ZERO_ADDRESS && v !in e.yesArray
    ensures e.WithVote(v, accepted).BallotBox()
  {
    var e' := e.WithVote(v, accepted);
    assert forall u: Address {:trigger Slot(e'.vote, u)} :: u != v ==> Slot(e'.vote, u) == Slot(e.vote, u);
  }

  /** One ballot, and then possibly the close of its election. */
  lemma VoteCounted(m: Records, m': Records, a: Address, v: Address, accepted: bool, decided: bool)
    requires Tidy(m) && a in Open(m) && v != ZERO_ADDRESS && v !in Open(m)[a]
    requires m[a].yesVotes < TWO_256 - 1 && m[a].noVotes == 0
    requires accepted || decided
    requires var e := m[a].WithVote(v, accepted);
             m' == m[a := if decided then e.Closed() else e]
    ensures Tidy(m')
    ensures Open(m') == if decided then Open(m) - {a} else Open(m)[a := Open(m)[a] + [v]]
  {
    var e := m[a].WithVote(v, accepted);
    WithVoteBallotBox(m[a], v, accepted);
    ClosedIsClean(e);
    OpenUpdate(m, a, if decided then e.Closed() else e);
  }

  /** No vote or membership counter can wrap around. */
  lemma AddressesFit(s: seq<Address>)
    requires NoDup(s)
    ensures |s| <= TWO_160 < TWO_256 - 1
  {
    SizeOfElems(s);
    BoundedSize(Elems(s), TWO_160);
  }

  /** Votes of outsiders, on closed elections, and repeated votes change nothing. */
  lemma IdleVotes(l: Ledger, v: Address, a: Address, accepted: bool)
    ensures var o := Ledger.Step(l, Call.CastNomineeVote(v, a, accepted));
            if v !in l.members then o == Outcome(l, Reverted, [])
            else if a !in l.ballots then o == Outcome(l, Vote(true, a in l.members), [])
            else v in l.ballots[a] ==> o == Outcome(l, Vote(false, false), [])
    ensures var o := Ledger.Step(l, Call.CastEvictionVote(v, a, accepted));
            if v !in l.members then o == Outcome(l, Reverted, [])
            else if a !in l.evictions then o == Outcome(l, Vote(true, a !in l.members), [])
            else v in l.evictions[a] ==> o == Outcome(l, Vote(false, false), [])
  {
  }

  /** A member's first ballot on a nominee. */
  lemma NomineeTally(l: Ledger, v: Address, a: Address, accepted: bool, decided: bool, admitted: bool)
    requires v in l.members && a in l.ballots && v !in l.ballots[a]
    requires decided == (!accepted || |l.ballots[a]| + 1 >= |l.members|) && admitted == (accepted && decided)
    ensures l.VoteOnNominee(v, a, accepted)
         == Outcome(Ledger(l.members + (if admitted then [a] else []),
                           if decided then SwapRemove(l.nominees, a) else l.nominees, l.evictees,
                           if decided then l.ballots - {a} else l.ballots[a := l.ballots[a] + [v]], l.evictions),
                    Vote(decided, admitted),
                    if !decided then []
                    else if accepted then [NomineeDecision(a, |l.ballots[a]| + 1, 0, true)]
                    else [NomineeDecision(a, |l.ballots[a]|, 1, false)])
  {
    assert l.members + [] == l.members;
  }

  /** A member's first ballot on an eviction. */
  lemma EvictionTally(l: Ledger, v: Address, a: Address, accepted: bool, decided: bool, evicted: bool)
    requires v in l.members && a in l.evictions && v !in l.evictions[a]
    requires decided == (!accepted || |l.evictions[a]| + 1 >= |l.members| - 1) && evicted == (accepted && decided)
    ensures l.VoteOnEviction(v, a, accepted)
         == Outcome(Ledger(if evicted then SwapRemove(l.members, a) else l.members, l.nominees,
                           if decided then SwapRemove(l.evictees, a) else l.evictees, l.ballots,
                           if decided then l.evictions - {a} else l.evictions[a := l.evictions[a] + [v]]),
                    Vote(decided, evicted),
                    if !decided then []
                    else if accepted then [EvictionDecision(a, |l.evictions[a]| + 1, 0, true)]
                    else [EvictionDecision(a, |l.evictions[a]|, 1, false)])
  {
  }

  class Poa {
    var whiteList: map<Address, WhitelistPerson>
    var whiteListCount: uint256
    var whiteListArray: seq<Address>
    var nomineeList: Records
    var nomineeArray: seq<Address>
    var monikerList: map<Address, bytes32>
    var evictionList: Records
    var evictionArray: seq<Address>
    var log: seq<Event>

    ghost function View(): Ledger
      reads this
    {
      Ledger(whiteListArray, nomineeArray, evictionArray, Open(nomineeList), Open(evictionList))
    }

    ghost predicate MembersAgree()
      reads this
    {
      && NoDup(whiteListArray) && ZERO_ADDRESS !in whiteListArray
      && whiteListCount == |whiteListArray|
      && (forall a: Address :: Person(whiteList, a).person == if a in whiteListArray then a else ZERO_ADDRESS)
    }

    ghost predicate Valid()
      reads this
    {
      && MembersAgree() && Tidy(nomineeList) && Tidy(evictionList)
      && View().Apart()
    }

    /** Moreover each array lists what its mapping holds. */
    ghost predicate Sound()
      reads this
    {
      Valid() && View().Inv()
    }

    predicate IsNominee(a: Address)
      reads this
    {
      Election(nomineeList, a).nominee != ZERO_ADDRESS
    }

    predicate IsEvictee(a: Address)
      reads this
    {
      Election(evictionList, a).nominee != ZERO_ADDRESS
    }

    predicate IsWhitelisted(a: Address)
      reads this
    {
      Person(whiteList, a).person != ZERO_ADDRESS
    }

    /** The contract as deployed by a genesis file that whitelists `members`. */
    constructor (members: seq<Address>, monikers: map<Address, bytes32>)
      requires NoDup(members) && ZERO_ADDRESS !in members
      ensures Sound() && View() == Genesis(members) && log == [] && monikerList == monikers
    {
      AddressesFit(members);
      whiteList := map a | a in members :: WhitelistPerson(a, 0);
      whiteListCount := |members|;
      whiteListArray := members;
      nomineeList, nomineeArray := map[], [];
      monikerList := monikers;
      evictionList, evictionArray := map[], [];
      log := [];
    }

    lemma Statuses(a: Address)
      requires Valid()
      ensures IsWhitelisted(a) == (a in View().members)
      ensures IsNominee(a) == (a in View().ballots) && IsEvictee(a) == (a in View().evictions)
    {
    }

    /** One transaction sent to the contract. */
    method Apply(c: Call) returns (r: Reply)
      requires Sound()
      modifies this
      ensures Sound()
      ensures var o := Ledger.Step(old(View()), c);
              View() == o.next && r == o.reply && log == old(log) + o.events
      // What the index-based getters show.
      ensures var a := Subject(c);
              && Moves(old(whiteListArray), old(IsWhitelisted(a)), whiteListArray, IsWhitelisted(a), a)
              && Moves(old(evictionArray), old(IsEvictee(a)), evictionArray, IsEvictee(a), a)
              && (a != ZERO_ADDRESS ==> Moves(old(nomineeArray), old(IsNominee(a)), nomineeArray, IsNominee(a), a))
              && (a == ZERO_ADDRESS ==>
                    nomineeArray == old(nomineeArray) + if c.SubmitNominee? then [ZERO_ADDRESS] else [])
    {
      StepInv(View(), c);
      StepMoves(View(), c);
      Statuses(Subject(c));
      match c {
        case SubmitNominee(sender, a, moniker) => r := SubmitNominee(sender, a, moniker);
        case SubmitEviction(sender, a) => r := SubmitEviction(sender, a);
        case CastNomineeVote(sender, a, accept) => r := CastNomineeVote(sender, a, accept);
        case CastEvictionVote(sender, a, accept) => r := CastEvictionVote(sender, a, accept);
      }
      Statuses(Subject(c));
    }

    method SubmitNominee(sender: Address, a: Address, moniker: bytes32) returns (r: Reply)
      requires Valid()
      modifies this`nomineeList, this`nomineeArray, this`monikerList, this`log
      ensures Valid()
      ensures var o := Ledger.Step(old(View()), Call.SubmitNominee(sender, a, moniker));
              View() == o.next && r == o.reply && log == old(log) + o.events
      ensures monikerList == if old(IsWhitelisted(a) || IsNominee(a)) then old(monikerList)
                             else old(monikerList)[a := moniker]
      ensures old(!IsWhitelisted(a) && !IsNominee(a)) ==> Election(nomineeList, a).proposer == sender
    {
      assert log + [] == log;
      if !IsWhitelisted(a) && !IsNominee(a) {
        Reopened(nomineeList, a, sender);
        nomineeList := nomineeList[a := Election(nomineeList, a).Overwrite(a, sender)];
        nomineeArray := nomineeArray + [a];
        assert View() == old(View()).Nominate(sender, a).next;
        NominateApart(old(View()), sender, a, View());
        monikerList := monikerList[a := moniker];
        log := log + [NomineeProposed(a, sender)];
      }
      r := Done;
    }

    method SubmitEviction(sender: Address, a: Address) returns (r: Reply)
      requires Valid()
      modifies this`evictionList, this`evictionArray, this`log
      ensures Valid()
      ensures var o := Ledger.Step(old(View()), Call.SubmitEviction(sender, a));
              View() == o.next && r == o.reply && log == old(log) + o.events
      ensures old(IsWhitelisted(sender) && IsWhitelisted(a) && !IsEvictee(a)) ==>
                Election(evictionList, a).proposer == sender
    {
      assert log + [] == log;
      if !IsWhitelisted(sender) {
        return Reverted;
      }
      if IsWhitelisted(a) && !IsEvictee(a) {
        Reopened(evictionList, a, sender);
        evictionList := evictionList[a := Election(evictionList, a).Overwrite(a, sender)];
        evictionArray := evictionArray + [a];
        AccuseApart(old(View()), sender, a, View());
        log := log + [EvictionProposed(a, sender)];
      }
      r := Done;
    }

    method CastNomineeVote(sender: Address, a: Address, accepted: bool) returns (r: Reply)
      requires Valid()
      modifies this`whiteList, this`whiteListCount, this`whiteListArray, this`nomineeList, this`nomineeArray, this`log
      ensures Valid()
      ensures var o := Ledger.Step(old(View()), Call.CastNomineeVote(sender, a, accepted));
              View() == o.next && r == o.reply && log == old(log) + o.events
    {
      SlotsFollowBallots(nomineeList, a, sender);
      IdleVotes(View(), sender, a, accepted);
      assert log + [] == log;
      if !IsWhitelisted(sender) {
        return Reverted;
      }
      var decided, voteresult := false, false;
      if IsNominee(a) {
        if Slot(nomineeList[a].vote, sender).voter == ZERO_ADDRESS {
          decided, voteresult := CountNomineeVote(sender, a, accepted);
          VoteOnNomineeApart(old(View()), sender, a, accepted, View());
        }
      } else {
        decided := true;
      }
      if decided {
        voteresult := IsWhitelisted(a);
      }
      return Vote(decided, voteresult);
    }

    method CastEvictionVote(sender: Address, a: Address, accepted: bool) returns (r: Reply)
      requires Valid()
      modifies this`whiteList, this`whiteListCount, this`whiteListArray, this`evictionList, this`evictionArray, this`log
      ensures Valid()
      ensures var o := Ledger.Step(old(View()), Call.CastEvictionVote(sender, a, accepted));
              View() == o.next && r == o.reply && log == old(log) + o.events
    {
      SlotsFollowBallots(evictionList, a, sender);
      IdleVotes(View(), sender, a, accepted);
      assert log + [] == log;
      if !IsWhitelisted(sender) {
        return Reverted;
      }
      var decided, voteresult := false, false;
      if IsEvictee(a) {
        if Slot(evictionList[a].vote, sender).voter == ZERO_ADDRESS {
          decided, voteresult := CountEvictionVote(sender, a, accepted);
          VoteOnEvictionApart(old(View()), sender, a, accepted, View());
        }
      } else {
        decided := true;
      }
      if decided {
        voteresult := !IsWhitelisted(a);
      }
      return Vote(decided, voteresult);
    }

    /** The first ballot of `sender` in the open nomination of `a`. */
    method CountNomineeVote(sender: Address, a: Address, accepted: bool) returns (decided: bool, voteresult: bool)
      requires MembersAgree() && Tidy(nomineeList)
      requires sender in whiteListArray && sender != ZERO_ADDRESS
      requires a in Open(nomineeList) && sender !in Open(nomineeList)[a]
      requires a !in whiteListArray
      modifies this`whiteList, this`whiteListCount, this`whiteListArray, this`nomineeList, this`nomineeArray, this`log
      ensures MembersAgree() && Tidy(nomineeList)
      ensures var o := old(View()).VoteOnNominee(sender, a, accepted);
              View() == o.next && Vote(decided, voteresult) == o.reply && log == old(log) + o.events
      ensures decided ==> voteresult == IsWhitelisted(a)
    {
      OpenElection(nomineeList, a);
      RecordNomineeVote(sender, a, accepted);
      ghost var yes := |old(View()).ballots[a]|;
      assert nomineeList[a].yesVotes == (if accepted then yes + 1 else yes);
      assert nomineeList[a].noVotes == (if accepted then 0 else 1);
      decided, voteresult := CheckForNomineeVoteDecision(a);
      VoteCounted(old(nomineeList), nomineeList, a, sender, accepted, decided);
      NomineeTally(old(View()), sender, a, accepted, decided, voteresult);
    }

    /** The first ballot of `sender` in the open eviction of `a`. */
    method CountEvictionVote(sender: Address, a: Address, accepted: bool) returns (decided: bool, voteresult: bool)
      requires MembersAgree() && Tidy(evictionList)
      requires sender in whiteListArray && sender != ZERO_ADDRESS
      requires a in Open(evictionList) && sender !in Open(evictionList)[a]
      requires a in whiteListArray
      modifies this`whiteList, this`whiteListCount, this`whiteListArray, this`evictionList, this`evictionArray, this`log
      ensures MembersAgree() && Tidy(evictionList)
      ensures var o := old(View()).VoteOnEviction(sender, a, accepted);
              View() == o.next && Vote(decided, voteresult) == o.reply && log == old(log) + o.events
      ensures decided ==> voteresult == !IsWhitelisted(a)
    {
      OpenElection(evictionList, a);
      RecordEvicteeVote(sender, a, accepted);
      ghost var yes := |old(View()).evictions[a]|;
      assert evictionList[a].yesVotes == (if accepted then yes + 1 else yes);
      assert evictionList[a].noVotes == (if accepted then 0 else 1);
      decided, voteresult := CheckForEvictionVoteDecision(a);
      VoteCounted(old(evictionList), evictionList, a, sender, accepted, decided);
      EvictionTally(old(View()), sender, a, accepted, decided, voteresult);
    }

    /** Stores one ballot: the voter's slot, a counter and a voter array. */
    method RecordNomineeVote(sender: Address, a: Address, accepted: bool)
      requires a in nomineeList && nomineeList[a].yesVotes < TWO_256 - 1 && nomineeList[a].noVotes < TWO_256 - 1
      modifies this`nomineeList
      ensures nomineeList == old(nomineeList)[a := old(nomineeList)[a].WithVote(sender, accepted)]
    {
      var vote := nomineeList[a].vote[sender := NomineeVote(sender, accepted)];
      nomineeList := nomineeList[a := nomineeList[a].(vote := vote)];
      if accepted {
        nomineeList := nomineeList[a := nomineeList[a].(yesVotes := nomineeList[a].yesVotes + 1)];
        nomineeList := nomineeList[a := nomineeList[a].(yesArray := nomineeList[a].yesArray + [sender])];
      } else {
        nomineeList := nomineeList[a := nomineeList[a].(noVotes := nomineeList[a].noVotes + 1)];
        nomineeList := nomineeList[a := nomineeList[a].(noArray := nomineeList[a].noArray + [sender])];
      }
    }

    method CheckForNomineeVoteDecision(a: Address) returns (decided: bool, voteresult: bool)
      requires MembersAgree()
      requires a in nomineeList && nomineeList[a].nominee == a != ZERO_ADDRESS
      modifies this`whiteList, this`whiteListCount, this`whiteListArray, this`nomineeList, this`nomineeArray, this`log
      ensures MembersAgree()
      ensures var e := old(nomineeList)[a];
              && decided == (e.noVotes > 0 || e.yesVotes >= old(whiteListCount))
              && voteresult == (e.noVotes == 0 && decided)
              && log == old(log) + (if decided then [NomineeDecision(a, e.yesVotes, e.noVotes, voteresult)] else [])
              && nomineeList == (if decided then old(nomineeList)[a := e.Closed()] else old(nomineeList))
              && nomineeArray == (if decided then SwapRemove(old(nomineeArray), a) else old(nomineeArray))
      ensures whiteListArray == old(whiteListArray) + if voteresult && a !in old(whiteListArray) then [a] else []
    {
      var election := nomineeList[a];
      decided, voteresult := false, false;
      if election.noVotes > 0 {
        DeclineNominee(election.nominee);
        decided, voteresult := true, false;
      } else {
        if election.yesVotes >= whiteListCount {
          AcceptNominee(election.nominee);
          decided, voteresult := true, true;
        }
      }
      if decided {
        log := log + [NomineeDecision(a, election.yesVotes, election.noVotes, voteresult)];
      }
    }

    /** Stores one ballot: the voter's slot, a counter and a voter array. */
    method RecordEvicteeVote(sender: Address, a: Address, accepted: bool)
      requires a in evictionList && evictionList[a].yesVotes < TWO_256 - 1 && evictionList[a].noVotes < TWO_256 - 1
      modifies this`evictionList
      ensures evictionList == old(evictionList)[a := old(evictionList)[a].WithVote(sender, accepted)]
    {
      var vote := evictionList[a].vote[sender := NomineeVote(sender, accepted)];
      evictionList := evictionList[a := evictionList[a].(vote := vote)];
      if accepted {
        evictionList := evictionList[a := evictionList[a].(yesVotes := evictionList[a].yesVotes + 1)];
        evictionList := evictionList[a := evictionList[a].(yesArray := evictionList[a].yesArray + [sender])];
      } else {
        evictionList := evictionList[a := evictionList[a].(noVotes := evictionList[a].noVotes + 1)];
        evictionList := evictionList[a := evictionList[a].(noArray := evictionList[a].noArray + [sender])];
      }
    }

    method CheckForEvictionVoteDecision(a: Address) returns (decided: bool, voteresult: bool)
      requires MembersAgree()
      requires whiteListCount > 0
      requires a in evictionList && evictionList[a].nominee == a != ZERO_ADDRESS
      modifies this`whiteList, this`whiteListCount, this`whiteListArray, this`evictionList, this`evictionArray, this`log
      ensures MembersAgree()
      ensures var e := old(evictionList)[a];
              && decided == (e.noVotes > 0 || e.yesVotes >= old(whiteListCount) - 1)
              && voteresult == (e.noVotes == 0 && decided)
              && log == old(log) + (if decided then [EvictionDecision(a, e.yesVotes, e.noVotes, voteresult)] else [])
              && evictionList == (if decided then old(evictionList)[a := e.Closed()] else old(evictionList))
              && evictionArray == (if decided then SwapRemove(old(evictionArray), a) else old(evictionArray))
      ensures whiteListArray == if voteresult then SwapRemove(old(whiteListArray), a) else old(whiteListArray)
      ensures IsWhitelisted(a) == (!voteresult && old(IsWhitelisted(a)))
    {
      var election := evictionList[a];
      decided, voteresult := false, false;
      if election.noVotes > 0 {
        DeclineEviction(election.nominee);
        decided, voteresult := true, false;
      } else {
        var threshold: uint256 := whiteListCount - 1;
        if election.yesVotes >= threshold {
          AcceptEviction(election.nominee);
          decided, voteresult := true, true;
        }
      }
      if decided {
        log := log + [EvictionDecision(a, election.yesVotes, election.noVotes, voteresult)];
      }
    }

    method AcceptNominee(a: Address)
      requires MembersAgree()
      requires a in nomineeList && a != ZERO_ADDRESS
      modifies this`whiteList, this`whiteListCount, this`whiteListArray, this`nomineeList, this`nomineeArray
      ensures MembersAgree()
      ensures whiteListArray == old(whiteListArray) + if a in old(whiteListArray) then [] else [a]
      ensures whiteList == if a in old(whiteListArray) then old(whiteList)
                           else old(whiteList)[a := WhitelistPerson(a, 0)]
      ensures nomineeList == old(nomineeList)[a := old(nomineeList)[a].Closed()]
      ensures nomineeArray == SwapRemove(old(nomineeArray), a)
    {
      if !IsWhitelisted(a) {
        AddressesFit(whiteListArray);
        whiteList := whiteList[a := WhitelistPerson(a, 0)];
        whiteListArray := whiteListArray + [a];
        whiteListCount := whiteListCount + 1;
      }
      RemoveNominee(a);
    }

    method AcceptEviction(a: Address)
      requires MembersAgree()
      requires a in evictionList
      modifies this`whiteList, this`whiteListCount, this`whiteListArray, this`evictionList, this`evictionArray
      ensures MembersAgree()
      ensures whiteListArray == SwapRemove(old(whiteListArray), a)
      ensures evictionList == old(evictionList)[a := old(evictionList)[a].Closed()]
      ensures evictionArray == SwapRemove(old(evictionArray), a)
      ensures !IsWhitelisted(a)
    {
      DeWhiteList(a);
      RemoveEviction(a);
    }

    method DeWhiteList(a: Address)
      requires MembersAgree()
      modifies this`whiteList, this`whiteListCount, this`whiteListArray
      ensures MembersAgree()
      ensures whiteListArray == SwapRemove(old(whiteListArray), a)
      ensures GapFilled(old(whiteListArray), a, whiteListArray)
      ensures whiteList == if old(IsWhitelisted(a)) then old(whiteList)[a := NOBODY] else old(whiteList)
      ensures !IsWhitelisted(a)
    {
      SwapRemoveIn(whiteListArray, a);
      SwapRemoveFillsGap(whiteListArray, a);
      if IsWhitelisted(a) {
        whiteList := whiteList[a := NOBODY];
        whiteListCount := whiteListCount - 1;
        var i := 0;
        while i < |whiteListArray|
          invariant 0 <= i <= |whiteListArray|
          invariant whiteListArray == old(whiteListArray) && forall k :: 0 <= k < i ==> whiteListArray[k] != a
        {
          if whiteListArray[i] == a {
            FirstIndex(whiteListArray, a, i);
            whiteListArray := whiteListArray[i := whiteListArray[|whiteListArray| - 1]];
            whiteListArray := whiteListArray[|whiteListArray| - 1 := ZERO_ADDRESS];
            whiteListArray := whiteListArray[..|whiteListArray| - 1];
            break;
          }
          i := i + 1;
        }
      }
    }

    method DeclineNominee(a: Address)
      requires a in nomineeList
      modifies this`nomineeList, this`nomineeArray
      ensures nomineeList == old(nomineeList)[a := old(nomineeList)[a].Closed()]
      ensures nomineeArray == SwapRemove(old(nomineeArray), a)
    {
      RemoveNominee(a);
    }

    method RemoveNominee(a: Address)
      requires a in nomineeList
      modifies this`nomineeList, this`nomineeArray
      ensures nomineeList == old(nomineeList)[a := old(nomineeList)[a].Closed()]
      ensures nomineeArray == SwapRemove(old(nomineeArray), a)
      ensures GapFilled(old(nomineeArray), a, nomineeArray)
    {
      SwapRemoveFillsGap(nomineeArray, a);
      RemoveNomineeVote(a);
      nomineeList := nomineeList[a := nomineeList[a].Overwrite(ZERO_ADDRESS, ZERO_ADDRESS)];
      var i := 0;
      while i < |nomineeArray|
        invariant 0 <= i <= |nomineeArray|
        invariant nomineeArray == old(nomineeArray) && forall k :: 0 <= k < i ==> nomineeArray[k] != a
      {
        if nomineeArray[i] == a {
          FirstIndex(nomineeArray, a, i);
          nomineeArray := nomineeArray[i := nomineeArray[|nomineeArray| - 1]];
          nomineeArray := nomineeArray[|nomineeArray| - 1 := ZERO_ADDRESS];
          nomineeArray := nomineeArray[..|nomineeArray| - 1];
          break;
        }
        i := i + 1;
      }
    }

    method RemoveNomineeVote(a: Address)
      requires a in nomineeList
      modifies this`nomineeList
      ensures var e := old(nomineeList)[a];
              nomineeList == old(nomineeList)[a := e.(vote := Clear(Clear(e.vote, e.yesArray), e.noArray))]
    {
      ghost var e := nomineeList[a];
      var j := 0;
      while j < |nomineeList[a].yesArray|
        invariant a in nomineeList && 0 <= j <= |e.yesArray|
        invariant nomineeList == old(nomineeList)[a := e.(vote := Clear(e.vote, e.yesArray[..j]))]
      {
        ClearSnoc(e.vote, e.yesArray, j);
        nomineeList := nomineeList[a := nomineeList[a].SetVoter(nomineeList[a].yesArray[j], ZERO_ADDRESS)];
        j := j + 1;
      }
      ghost var cleared := Clear(e.vote, e.yesArray);
      assert e.yesArray[..j] == e.yesArray;
      j := 0;
      while j < |nomineeList[a].noArray|
        invariant a in nomineeList && 0 <= j <= |e.noArray|
        invariant nomineeList == old(nomineeList)[a := e.(vote := Clear(cleared, e.noArray[..j]))]
      {
        ClearSnoc(cleared, e.noArray, j);
        nomineeList := nomineeList[a := nomineeList[a].SetVoter(nomineeList[a].noArray[j], ZERO_ADDRESS)];
        j := j + 1;
      }
      assert e.noArray[..j] == e.noArray;
    }

    method RemoveEvicteeVote(a: Address)
      requires a in evictionList
      modifies this`evictionList
      ensures var e := old(evictionList)[a];
              evictionList == old(evictionList)[a := e.(vote := Clear(Clear(e.vote, e.yesArray), e.noArray))]
    {
      ghost var e := evictionList[a];
      var j := 0;
      while j < |evictionList[a].yesArray|
        invariant a in evictionList && 0 <= j <= |e.yesArray|
        invariant evictionList == old(evictionList)[a := e.(vote := Clear(e.vote, e.yesArray[..j]))]
      {
        ClearSnoc(e.vote, e.yesArray, j);
        evictionList := evictionList[a := evictionList[a].SetVoter(evictionList[a].yesArray[j], ZERO_ADDRESS)];
        j := j + 1;
      }
      ghost var cleared := Clear(e.vote, e.yesArray);
      assert e.yesArray[..j] == e.yesArray;
      j := 0;
      while j < |evictionList[a].noArray|
        invariant a in evictionList && 0 <= j <= |e.noArray|
        invariant evictionList == old(evictionList)[a := e.(vote := Clear(cleared, e.noArray[..j]))]
      {
        ClearSnoc(cleared, e.noArray, j);
        evictionList := evictionList[a := evictionList[a].SetVoter(evictionList[a].noArray[j], ZERO_ADDRESS)];
        j := j + 1;
      }
      assert e.noArray[..j] == e.noArray;
    }

    method DeclineEviction(a: Address)
      requires a in evictionList
      modifies this`evictionList, this`evictionArray
      ensures evictionList == old(evictionList)[a := old(evictionList)[a].Closed()]
      ensures evictionArray == SwapRemove(old(evictionArray), a)
    {
      RemoveEviction(a);
    }

    method RemoveEviction(a: Address)
      requires a in evictionList
      modifies this`evictionList, this`evictionArray
      ensures evictionList == old(evictionList)[a := old(evictionList)[a].Closed()]
      ensures evictionArray == SwapRemove(old(evictionArray), a)
      ensures GapFilled(old(evictionArray), a, evictionArray)
    {
      SwapRemoveFillsGap(evictionArray, a);
      RemoveEvicteeVote(a);
      evictionList := evictionList[a := evictionList[a].Overwrite(ZERO_ADDRESS, ZERO_ADDRESS)];
      var i := 0;
      while i < |evictionArray|
        invariant 0 <= i <= |evictionArray|
        invariant evictionArray == old(evictionArray) && forall k :: 0 <= k < i ==> evictionArray[k] != a
      {
        if evictionArray[i] == a {
          FirstIndex(evictionArray, a, i);
          evictionArray := evictionArray[i := evictionArray[|evictionArray| - 1]];
          evictionArray := evictionArray[|evictionArray| - 1 := ZERO_ADDRESS];
          evictionArray := evictionArray[..|evictionArray| - 1];
          break;
        }
        i := i + 1;
      }
    }
  }
}
