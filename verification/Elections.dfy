/** What an accepted vote says about the members: unanimity, where it fails, and
    where it holds. */
module Elections {
  import opened Protocol
  import opened Sequences
  import opened Ledgers

  function Last(l: Ledger, calls: seq<Call>): Ledger {
    Run(Ledger.Step, l, calls).last
  }

  function Events(l: Ledger, calls: seq<Call>): seq<Event> {
    Run(Ledger.Step, l, calls).events
  }

  // ---- Unanimity of nominations.

  /** The vote is counted and brings the nominee in. */
  predicate Admits(l: Ledger, v: Address, a: Address) {
    && v in l.members && a in l.ballots && v !in l.ballots[a]
    && l.VoteOnNominee(v, a, true).reply == Vote(true, true)
  }

  predicate Evicts(l: Ledger, v: Address, a: Address) {
    && v in l.members && a in l.evictions && v !in l.evictions[a]
    && l.VoteOnEviction(v, a, true).reply == Vote(true, true)
  }

  /** Voters counted for `a` who are no longer members. */
  function Stale(l: Ledger, yes: seq<Address>): set<Address> {
    Elems(yes) - Elems(l.members)
  }

  /** Members who have not voted yet. */
  function Missing(l: Ledger, yes: seq<Address>): set<Address> {
    Elems(l.members) - Elems(yes)
  }

  lemma Balance(l: Ledger, yes: seq<Address>)
    requires NoDup(yes) && NoDup(l.members)
    ensures |yes| - |l.members| == |Stale(l, yes)| - |Missing(l, yes)|
  {
    SizeOfElems(yes);
    SizeOfElems(l.members);
    Overlap(Elems(yes), Elems(l.members));
  }

  lemma Overlap(y: set<Address>, m: set<Address>)
    ensures |y| - |m| == |y - m| - |m - y|
  {
    SubsetSize(y * m, y);
    SubsetSize(y * m, m);
    assert y - m == y - y * m && m - y == m - y * m;
  }

  /** The vote admits, although some member has not voted for the nominee. */
  ghost predicate AdmitsWithout(l: Ledger, v: Address, a: Address) {
    Admits(l, v, a) && !(Elems(l.members) <= Elems(l.ballots[a]) + {v})
  }

  /** The vote evicts, although more than one member has not voted for it. */
  ghost predicate EvictsWithout(l: Ledger, v: Address, a: Address) {
    Evicts(l, v, a) && |Elems(l.members) - (Elems(l.evictions[a]) + {v})| > 1
  }

  lemma AdmitsWithoutWhen(l: Ledger, v: Address, a: Address)
    requires l.Inv() && v in l.members && a in l.ballots && v !in l.ballots[a]
    ensures AdmitsWithout(l, v, a) <==> 1 < |Missing(l, l.ballots[a])| <= |Stale(l, l.ballots[a])| + 1
  {
    var yes := l.ballots[a];
    Balance(l, yes);
    assert {v} <= Missing(l, yes);
    SubsetSize({v}, Missing(l, yes));
    assert Missing(l, yes) - {v} == Elems(l.members) - (Elems(yes) + {v});
    assert Missing(l, yes) - {v} == {} <==> Elems(l.members) <= Elems(yes) + {v};
  }

  lemma EvictsWithoutWhen(l: Ledger, v: Address, a: Address)
    requires l.Inv() && v in l.members && a in l.evictions && v !in l.evictions[a]
    ensures EvictsWithout(l, v, a) <==> 2 < |Missing(l, l.evictions[a])| <= |Stale(l, l.evictions[a])| + 2
  {
    var yes := l.evictions[a];
    Balance(l, yes);
    assert {v} <= Missing(l, yes);
    SubsetSize({v}, Missing(l, yes));
    assert Missing(l, yes) - {v} == Elems(l.members) - (Elems(yes) + {v});
  }

  lemma Batches(l: Ledger, first: seq<Call>, second: seq<Call>)
    ensures Last(l, first + second) == Last(Last(l, first), second)
  {
    RunConcat(Ledger.Step, l, first, second);
  }

  /** The state after two, three and four calls. */
  lemma FewCalls(l: Ledger, a: Call, b: Call, c: Call, d: Call)
    ensures var s := Ledger.Step(Ledger.Step(l, a).next, b).next;
            && Last(l, [a, b]) == s && Last(l, [a, b, c]) == Ledger.Step(s, c).next
            && Last(l, [a, b, c, d]) == Ledger.Step(Ledger.Step(s, c).next, d).next
  {
    ShortLists(a, b, c, d);
    RunSnoc(Ledger.Step, l, [], a);
    RunSnoc(Ledger.Step, l, [a], b);
    RunSnoc(Ledger.Step, l, [a, b], c);
    RunSnoc(Ledger.Step, l, [a, b, c], d);
  }

  /** One of any three members votes for an outsider and is evicted by the other
      two; then one of these admits the outsider although the other never voted. */
  lemma UnanimityFails(p: Address, q: Address, r: Address, x: Address, moniker: bytes32)
    requires NoDup([p, q, r, x]) && ZERO_ADDRESS !in [p, q, r, x]
    ensures var l := Last(Genesis([p, q, r]), [Call.SubmitNominee(p, x, moniker), CastNomineeVote(p, x, true)]
                                              + EvictedByTwo(p, q, r));
            l.members == [r, q] && AdmitsWithout(l, q, x) && r !in l.ballots[x]
  {
    FourDistinct(p, q, r, x);
    var start, c, d := Genesis([p, q, r]), Call.SubmitNominee(p, x, moniker), CastNomineeVote(p, x, true);
    FewCalls(start, c, d, d, d);
    var l := Last(start, [c, d]);
    assert l.ballots[x] == [p] && l.members == [p, q, r] && p !in l.evictions;
    TwoVotes(l, p, q, r);
    Batches(start, [c, d], EvictedByTwo(p, q, r));
    assert r in Elems([r, q]);
  }

  lemma FourDistinct(p: Address, q: Address, r: Address, x: Address)
    requires NoDup([p, q, r, x]) && ZERO_ADDRESS !in [p, q, r, x]
    ensures p != q && p != r && p != x && q != r && q != x && r != x
    ensures p != ZERO_ADDRESS && q != ZERO_ADDRESS && r != ZERO_ADDRESS && x != ZERO_ADDRESS
  {
    var s := [p, q, r, x];
    assert s[0] == p && s[1] == q && s[2] == r && s[3] == x;
  }

  /** Two members propose and vote to evict `p`. */
  function EvictedByTwo(p: Address, q: Address, r: Address): seq<Call> {
    [Call.SubmitEviction(q, p), CastEvictionVote(q, p, true), CastEvictionVote(r, p, true)]
  }

  lemma TwoVotes(l: Ledger, p: Address, q: Address, r: Address)
    requires p != q && p != r && q != r && l.members == [p, q, r] && p !in l.evictions
    ensures var m := Last(l, EvictedByTwo(p, q, r));
            m.members == [r, q] && m.ballots == l.ballots
  {
    var propose, vote, decide := Call.SubmitEviction(q, p), CastEvictionVote(q, p, true), CastEvictionVote(r, p, true);
    FewCalls(l, propose, vote, decide, decide);
    FirstIndex([p, q, r], p, 0);
    assert [p, q, r][0 := r][..2] == [r, q];
    var m := Last(l, [propose, vote]);
    assert m.evictions[p] == [q] && m.members == l.members && m.ballots == l.ballots;
  }

  /** One of any four members votes to evict another and is evicted by the other
      three; then one of these evicts that other although two never voted. */
  lemma AllButOneFails(p: Address, q: Address, r: Address, x: Address)
    requires NoDup([p, q, r, x]) && ZERO_ADDRESS !in [p, q, r, x]
    ensures var l := Last(Genesis([p, q, r, x]), [Call.SubmitEviction(p, x), CastEvictionVote(p, x, true)]
                                                 + EvictedByThree(p, q, r, x));
            l.members == [x, q, r] && EvictsWithout(l, q, x) && r !in l.evictions[x] && x !in l.evictions[x]
  {
    FourDistinct(p, q, r, x);
    var start, c, d := Genesis([p, q, r, x]), Call.SubmitEviction(p, x), CastEvictionVote(p, x, true);
    FewCalls(start, c, d, d, d);
    var l := Last(start, [c, d]);
    assert l.evictions[x] == [p] && p !in l.evictions && l.members == [p, q, r, x];
    ThreeVotes(l, p, q, r, x);
    Batches(start, [c, d], EvictedByThree(p, q, r, x));
    TwoLeftOut(p, q, r, x);
  }

  lemma TwoLeftOut(p: Address, q: Address, r: Address, x: Address)
    requires p != q && p != r && p != x && q != r && q != x && r != x
    ensures |Elems([x, q, r]) - (Elems([p]) + {q})| == 2
  {
    assert Elems([x, q, r]) - (Elems([p]) + {q}) == {x, r};
  }

  /** Three members propose and vote to evict `p`. */
  function EvictedByThree(p: Address, q: Address, r: Address, x: Address): seq<Call> {
    [Call.SubmitEviction(q, p), CastEvictionVote(q, p, true), CastEvictionVote(r, p, true),
     CastEvictionVote(x, p, true)]
  }

  lemma ThreeVotes(l: Ledger, p: Address, q: Address, r: Address, x: Address)
    requires p != q && p != r && p != x && q != r && q != x && r != x
    requires l.members == [p, q, r, x] && p !in l.evictions && x in l.evictions && l.evictions[x] == [p]
    ensures var m := Last(l, EvictedByThree(p, q, r, x));
            m.members == [x, q, r] && x in m.evictions && m.evictions[x] == [p]
  {
    var propose, decide := Call.SubmitEviction(q, p), CastEvictionVote(x, p, true);
    var vote, again := CastEvictionVote(q, p, true), CastEvictionVote(r, p, true);
    FewCalls(l, propose, vote, again, decide);
    ThirdVote(l.Accuse(q, p).next, p, q, r, x);
  }

  lemma ThirdVote(l: Ledger, p: Address, q: Address, r: Address, x: Address)
    requires p != q && p != r && p != x && q != r && q != x && r != x
    requires l.members == [p, q, r, x] && p in l.evictions && l.evictions[p] == []
    requires x in l.evictions && l.evictions[x] == [p]
    ensures var m := l.VoteOnEviction(q, p, true).next.VoteOnEviction(r, p, true).next.VoteOnEviction(x, p, true).next;
            m.members == [x, q, r] && x in m.evictions && m.evictions[x] == [p]
  {
    var m1 := l.VoteOnEviction(q, p, true).next;
    assert m1.evictions[p] == [q] && m1.members == l.members && m1.evictions[x] == [p];
    var m2 := m1.VoteOnEviction(r, p, true).next;
    assert m2.evictions[p] == [q, r] && m2.members == l.members && m2.evictions[x] == [p];
    FirstIndex([p, q, r, x], p, 0);
    assert [p, q, r, x][0 := x][..3] == [x, q, r];
  }

  /** Every voter is a member, and the threshold is not yet met. */
  ghost predicate Fresh(l: Ledger, a: Address) {
    a in l.ballots ==>
      Elems(l.ballots[a]) <= Elems(l.members) && (l.ballots[a] == [] || |l.ballots[a]| < |l.members|)
  }

  ghost predicate FreshEviction(l: Ledger, a: Address) {
    a in l.evictions ==>
      Elems(l.evictions[a]) <= Elems(l.members) && (l.evictions[a] == [] || |l.evictions[a]| < |l.members| - 1)
  }

  lemma FreshStep(l: Ledger, c: Call, a: Address)
    requires l.Inv() && Fresh(l, a)
    requires NoEviction(Ledger.Step(l, c).events)
    ensures Fresh(Ledger.Step(l, c).next, a)
  {
    var o := Ledger.Step(l, c);
    assert forall e :: e in o.events ==> !IsEvictionAccepted(e);
    assert o.events != [] ==> !IsEvictionAccepted(o.events[0]);
    assert o.next.members == l.members || exists b :: o.next.members == l.members + [b];
  }

  lemma FreshEvictionStep(l: Ledger, c: Call, a: Address)
    requires l.Inv() && FreshEviction(l, a)
    requires NoEviction(Ledger.Step(l, c).events)
    ensures FreshEviction(Ledger.Step(l, c).next, a)
  {
    var o := Ledger.Step(l, c);
    assert o.events != [] ==> !IsEvictionAccepted(o.events[0]);
    assert o.next.members == l.members || exists b :: o.next.members == l.members + [b];
  }

  lemma {:induction false} FreshRun(l: Ledger, calls: seq<Call>, a: Address)
    requires l.Inv() && NoEviction(Events(l, calls))
    ensures Fresh(l, a) ==> Fresh(Last(l, calls), a)
    ensures FreshEviction(l, a) ==> FreshEviction(Last(l, calls), a)
  {
    if calls != [] {
      var n := |calls| - 1;
      var before := Last(l, calls[..n]);
      assert Events(l, calls) == Events(l, calls[..n]) + Ledger.Step(before, calls[n]).events;
      assert NoEviction(Events(l, calls[..n]));
      assert NoEviction(Ledger.Step(before, calls[n]).events);
      FreshRun(l, calls[..n], a);
      RunInv(l, calls[..n]);
      if Fresh(before, a) {
        FreshStep(before, calls[n], a);
      }
      if FreshEviction(before, a) {
        FreshEvictionStep(before, calls[n], a);
      }
    }
  }

  /** Unanimity. Take any state in which `a` is no nominee and any calls during
      which nobody is evicted. If a vote then admits `a`, the yes votes are
      exactly those of the members just before, whoever joined meanwhile. */
  lemma Unanimity(l: Ledger, calls: seq<Call>, v: Address, a: Address)
    requires l.Inv() && a !in l.ballots && NoEviction(Events(l, calls))
    requires Admits(Last(l, calls), v, a)
    ensures var l' := Last(l, calls);
            && Elems(l'.ballots[a]) + {v} == Elems(l'.members)
            && l'.VoteOnNominee(v, a, true).events == [NomineeDecision(a, |l'.members|, 0, true)]
  {
    var l' := Last(l, calls);
    FreshRun(l, calls, a);
    RunInv(l, calls);
    YesCount(l'.ballots, a, v);
    SizeOfElems(l'.members);
    SubsetSize(Elems(l'.ballots[a]) + {v}, Elems(l'.members));
  }

  lemma LeftOut(yes: set<Address>, members: set<Address>, v: Address)
    requires yes <= members && v in members && v !in yes
    requires (yes == {} || |yes| < |members| - 1) && |yes| + 1 >= |members| - 1
    ensures |members - (yes + {v})| == if |members| == 1 then 0 else 1
  {
    SubsetSize(yes + {v}, members);
    assert |yes + {v}| == |yes| + 1;
  }

  /** All but one. If nobody else is evicted while the eviction of `a` is open,
      an eviction leaves exactly one member's vote out, or none if there is
      only one member. */
  lemma AllButOne(l: Ledger, calls: seq<Call>, v: Address, a: Address)
    requires l.Inv() && a !in l.evictions && NoEviction(Events(l, calls))
    requires Evicts(Last(l, calls), v, a)
    ensures var l' := Last(l, calls);
            && Elems(l'.evictions[a]) + {v} <= Elems(l'.members)
            && |Elems(l'.members) - (Elems(l'.evictions[a]) + {v})| == (if |l'.members| == 1 then 0 else 1)
            && l'.VoteOnEviction(v, a, true).events == [EvictionDecision(a, |l'.evictions[a]| + 1, 0, true)]
  {
    var l' := Last(l, calls);
    FreshRun(l, calls, a);
    RunInv(l, calls);
    SizeOfElems(l'.evictions[a]);
    SizeOfElems(l'.members);
    LeftOut(Elems(l'.evictions[a]), Elems(l'.members), v);
  }
}
