/** `giverny transactions solo`: transfers between accounts, then a faucet
    payment to each account of what it spends. */
module Solo {
  import opened BigInts
  import opened Sequences
  import opened Transfers

  datatype SoloTransaction = SoloTransaction(to: string, toName: string, nonce: int, amount: BigInt)

  datatype SoloAccount = SoloAccount(
    moniker: string,
    address: string,
    nextNonce: int,
    credits: BigInt,
    debits: BigInt,
    delta: BigInt,
    transactions: seq<SoloTransaction>)

  /** The random choices of one turn: sender, receiver, and `rand.Intn` for
      the amount. */
  datatype Pick = Pick(from: nat, to: nat, r: nat)

  function Chosen(p: Pick): Transfer {
    Transfer(p.from, p.to, (p.r + 9) * 10_000_000_000_000_000)
  }

  function AllChosen(picks: seq<Pick>): seq<Transfer> {
    Map(Chosen, picks)
  }

  function Numbers(a: seq<SoloAccount>): set<BigInt> {
    (set i | 0 <= i < |a| :: a[i].credits) + (set i | 0 <= i < |a| :: a[i].debits)
    + (set i | 0 <= i < |a| :: a[i].delta)
  }

  /** All the numbers of all the accounts are different objects. */
  ghost predicate Distinct(a: seq<SoloAccount>) {
    forall i, j :: 0 <= i < |a| && 0 <= j < |a| ==>
      && a[i].credits != a[j].debits && a[i].credits != a[j].delta && a[i].debits != a[j].delta
      && (i != j ==> a[i].credits != a[j].credits && a[i].debits != a[j].debits && a[i].delta != a[j].delta)
  }

  /** As built from the key files, before any transaction. */
  ghost predicate Initial(a: seq<SoloAccount>)
    reads Numbers(a)
  {
    && Distinct(a)
    && forall i :: 0 <= i < |a| ==>
         a[i].nextNonce == 1 && a[i].transactions == [] && a[i].credits.v == a[i].debits.v == a[i].delta.v == 0
  }

  /** Only the nonce and the transaction list of an account are replaced. */
  ghost predicate SameNumbers(a: seq<SoloAccount>, init: seq<SoloAccount>) {
    |a| == |init| && forall i :: 0 <= i < |a| ==>
      a[i].(nextNonce := 0, transactions := []) == init[i].(nextNonce := 0, transactions := [])
  }

  ghost predicate Booked(acc: SoloAccount, ts: seq<Transfer>, i: nat)
    reads acc.credits, acc.debits, acc.delta
  {
    acc.credits.v == Received(ts, i) && acc.debits.v == Spent(ts, i) && acc.delta.v == Received(ts, i) - Spent(ts, i)
  }

  /** The account's transactions are `own`, numbered from 1. */
  ghost predicate Listed(acc: SoloAccount, own: seq<Transfer>, init: seq<SoloAccount>, worths: Worths) {
    && acc.nextNonce == |own| + 1 && |acc.transactions| == |own|
    && forall k :: 0 <= k < |own| ==>
         var t := acc.transactions[k];
         && own[k].to < |init| && t.to == init[own[k].to].address && t.toName == init[own[k].to].moniker
         && t.nonce == k + 1 && t.amount in worths && worths[t.amount] == own[k].amount
  }

  lemma OwnStep(ts: seq<Transfer>, k: nat, i: nat)
    requires k < |ts|
    ensures Own(ts[..k + 1], i) == Own(ts[..k], i) + if ts[k].from == i then [ts[k]] else []
    ensures Spent(ts[..k + 1], i) == Spent(ts[..k], i) + if ts[k].from == i then ts[k].amount else 0
    ensures Received(ts[..k + 1], i) == Received(ts[..k], i) + if ts[k].to == i then ts[k].amount else 0
  {
    assert ts[..k + 1][..k] == ts[..k];
  }

  lemma {:induction false} OwnProper(ts: seq<Transfer>, n: nat, i: nat)
    requires Proper(ts, n)
    ensures forall k :: 0 <= k < |Own(ts, i)| ==> Own(ts, i)[k].to < n && Own(ts, i)[k].from == i
    ensures i == 0 ==> Own(ts, i) == [] && Spent(ts, i) == 0 && Received(ts, i) == 0
  {
    if ts != [] {
      OwnProper(ts[..|ts| - 1], n, i);
    }
  }

  /** One turn of the transfer loop. */
  method TransferOnce(accounts: array<SoloAccount>, p: Pick, ghost ts: seq<Transfer>, ghost k: nat,
                      ghost init: seq<SoloAccount>)
    returns (amt: BigInt)
    requires SameNumbers(accounts[..], init) && Distinct(init)
    requires Proper(ts, |init|) && k < |ts| && ts[k] == Chosen(p)
    requires forall i :: 0 <= i < |init| ==> Booked(accounts[i], ts[..k], i)
    modifies accounts, accounts[p.from].debits, accounts[p.from].delta, accounts[p.to].credits, accounts[p.to].delta
    ensures fresh(amt) && amt.v == ts[k].amount == (p.r + 9) * 10_000_000_000_000_000
    ensures SameNumbers(accounts[..], init)
    ensures forall i :: 0 <= i < |init| ==> Booked(accounts[i], ts[..k + 1], i)
    ensures forall i :: 0 <= i < |init| && i != p.from ==> accounts[i] == old(accounts[i])
    ensures var before, after := old(accounts[p.from]), accounts[p.from];
            && after.nextNonce == before.nextNonce + 1
            && after.transactions == before.transactions
                 + [SoloTransaction(init[p.to].address, init[p.to].moniker, before.nextNonce, amt)]
  {
    var fromacct, toacct := p.from, p.to;
    forall i ensures Own(ts[..k + 1], i) == Own(ts[..k], i) + (if ts[k].from == i then [ts[k]] else [])
                  && Spent(ts[..k + 1], i) == Spent(ts[..k], i) + (if ts[k].from == i then ts[k].amount else 0)
                  && Received(ts[..k + 1], i) == Received(ts[..k], i) + (if ts[k].to == i then ts[k].amount else 0) {
      OwnStep(ts, k, i);
    }
    amt := Scaled(p.r + 9);
    accounts[fromacct] := accounts[fromacct].(transactions := accounts[fromacct].transactions
      + [SoloTransaction(accounts[toacct].address, accounts[toacct].moniker, accounts[fromacct].nextNonce, amt)]);
    accounts[fromacct] := accounts[fromacct].(nextNonce := accounts[fromacct].nextNonce + 1);
    accounts[fromacct].debits.Add(accounts[fromacct].debits, amt);
    accounts[toacct].credits.Add(accounts[toacct].credits, amt);
    accounts[fromacct].delta.Sub(accounts[fromacct].delta, amt);
    accounts[toacct].delta.Add(accounts[toacct].delta, amt);
  }

  lemma ListedStep(before: SoloAccount, after: SoloAccount, i: nat, ts: seq<Transfer>, k: nat, init: seq<SoloAccount>,
                   worths: Worths, amt: BigInt)
    requires k < |ts| && ts[k].to < |init| && amt !in worths
    requires Listed(before, Own(ts[..k], i), init, worths)
    requires if i != ts[k].from then after == before else
               && after.nextNonce == before.nextNonce + 1
               && after.transactions == before.transactions
                    + [SoloTransaction(init[ts[k].to].address, init[ts[k].to].moniker, before.nextNonce, amt)]
    ensures Listed(after, Own(ts[..k + 1], i), init, worths[amt := ts[k].amount])
  {
    OwnStep(ts, k, i);
  }

  ghost predicate AllListed(a: seq<SoloAccount>, ts: seq<Transfer>, init: seq<SoloAccount>, worths: Worths) {
    forall i :: 0 <= i < |a| ==> Listed(a[i], Own(ts, i), init, worths)
  }

  lemma AllListedStep(before: seq<SoloAccount>, after: seq<SoloAccount>, ts: seq<Transfer>, k: nat,
                      init: seq<SoloAccount>, worths: Worths, amt: BigInt)
    requires k < |ts| && ts[k].to < |init| && ts[k].from < |before| == |after| && amt !in worths
    requires AllListed(before, ts[..k], init, worths)
    requires forall i :: 0 <= i < |after| && i != ts[k].from ==> after[i] == before[i]
    requires var b, a := before[ts[k].from], after[ts[k].from];
             && a.nextNonce == b.nextNonce + 1
             && a.transactions == b.transactions
                  + [SoloTransaction(init[ts[k].to].address, init[ts[k].to].moniker, b.nextNonce, amt)]
    ensures AllListed(after, ts[..k + 1], init, worths[amt := ts[k].amount])
  {
    forall i | 0 <= i < |after| ensures Listed(after[i], Own(ts[..k + 1], i), init, worths[amt := ts[k].amount]) {
      ListedStep(before[i], after[i], i, ts, k, init, worths, amt);
    }
  }

  /** The transfer loop. */
  method TransferLoop(accounts: array<SoloAccount>, picks: seq<Pick>, ghost init: seq<SoloAccount>)
    returns (ghost worths: Worths)
    requires accounts[..] == init && Initial(init) && Proper(AllChosen(picks), |init|)
    modifies accounts, Numbers(init)
    ensures fresh(worths.Keys) && Worth(worths)
    ensures SameNumbers(accounts[..], init)
    ensures forall i :: 0 <= i < |init| ==> Booked(accounts[i], AllChosen(picks), i)
    ensures AllListed(accounts[..], AllChosen(picks), init, worths)
  {
    ghost var ts := AllChosen(picks);
    worths := map[];
    var i := 0;
    while i < |picks|
      invariant 0 <= i <= |picks|
      invariant fresh(worths.Keys) && Worth(worths)
      invariant SameNumbers(accounts[..], init)
      invariant forall j :: 0 <= j < |init| ==> Booked(accounts[j], ts[..i], j)
      invariant AllListed(accounts[..], ts[..i], init, worths)
    {
      ghost var was := accounts[..];
      var amt := TransferOnce(accounts, picks[i], ts, i, init);
      AllListedStep(was, accounts[..], ts, i, init, worths, amt);
      worths := worths[amt := ts[i].amount];
      i := i + 1;
    }
    assert ts[..i] == ts;
  }

  /** The faucet has paid the accounts before `i`, each the very number that
      holds its debits. */
  ghost predicate Paid(faucet: SoloAccount, ts: seq<Transfer>, i: nat, init: seq<SoloAccount>)
    reads faucet.credits, faucet.debits, faucet.delta
  {
    && faucet.credits.v == 0 && faucet.debits.v == AllSpent(ts, i) && faucet.delta.v == 0 - AllSpent(ts, i)
    && 1 <= i <= |init| && faucet.nextNonce == i && |faucet.transactions| == i - 1
    && forall k :: 0 <= k < i - 1 ==>
         faucet.transactions[k] == SoloTransaction(init[k + 1].address, init[k + 1].moniker, k + 1, init[k + 1].debits)
  }

  ghost function DebitSum(a: seq<SoloAccount>, n: nat): int
    requires n <= |a|
    reads Numbers(a)
  {
    if n <= 1 then 0 else DebitSum(a, n - 1) + a[n - 1].debits.v
  }

  ghost function DeltaSum(a: seq<SoloAccount>, n: nat): int
    requires n <= |a|
    reads Numbers(a)
  {
    if n <= 1 then 0 else DeltaSum(a, n - 1) + a[n - 1].delta.v
  }

  lemma {:induction false} SumsAre(a: seq<SoloAccount>, ts: seq<Transfer>, n: nat)
    requires n <= |a| && forall i :: 1 <= i < n ==> Booked(a[i], ts, i)
    ensures DebitSum(a, n) == AllSpent(ts, n) && DeltaSum(a, n) == AllReceived(ts, n) - AllSpent(ts, n)
  {
    if n > 1 {
      SumsAre(a, ts, n - 1);
    }
  }

  // ---- What the picks say by themselves.

  function PicksOf(picks: seq<Pick>, i: nat): seq<Pick> {
    if picks == [] then []
    else PicksOf(picks[..|picks| - 1], i) + if picks[|picks| - 1].from == i then [picks[|picks| - 1]] else []
  }

  /** The amount of a pick: 9 to `r + 9` units of 10^16. */
  function Amount(p: Pick): nat {
    (p.r + 9) * 10_000_000_000_000_000
  }

  function PickedFrom(picks: seq<Pick>, i: nat): nat {
    if picks == [] then 0
    else PickedFrom(picks[..|picks| - 1], i) + if picks[|picks| - 1].from == i then Amount(picks[|picks| - 1]) else 0
  }

  function PickedTo(picks: seq<Pick>, i: nat): nat {
    if picks == [] then 0
    else PickedTo(picks[..|picks| - 1], i) + if picks[|picks| - 1].to == i then Amount(picks[|picks| - 1]) else 0
  }

  lemma {:induction false} PicksTell(picks: seq<Pick>, i: nat)
    ensures Spent(AllChosen(picks), i) == PickedFrom(picks, i) && Received(AllChosen(picks), i) == PickedTo(picks, i)
    ensures |Own(AllChosen(picks), i)| == |PicksOf(picks, i)|
    ensures forall k :: 0 <= k < |PicksOf(picks, i)| ==>
              Own(AllChosen(picks), i)[k] == Transfer(i, PicksOf(picks, i)[k].to, Amount(PicksOf(picks, i)[k]))
  {
    if picks != [] {
      var n := |picks| - 1;
      PicksTell(picks[..n], i);
      assert AllChosen(picks)[..n] == AllChosen(picks[..n]);
    }
  }

  /** The account's books and list are those of the picks that send from it or to
      it, listed in order and numbered from 1. */
  ghost predicate FollowsPicks(acc: SoloAccount, picks: seq<Pick>, i: nat, init: seq<SoloAccount>)
    reads acc.credits, acc.debits, acc.delta, set t | t in acc.transactions :: t.amount
  {
    var own := PicksOf(picks, i);
    && acc.credits.v == PickedTo(picks, i) && acc.debits.v == PickedFrom(picks, i)
    && acc.delta.v == PickedTo(picks, i) - PickedFrom(picks, i)
    && |acc.transactions| == |own|
    && forall k :: 0 <= k < |own| ==>
         var t := acc.transactions[k];
         && own[k].to < |init| && t.to == init[own[k].to].address && t.toName == init[own[k].to].moniker
         && t.nonce == k + 1 && t.amount.v == Amount(own[k])
  }

  lemma ListedFollowsPicks(acc: SoloAccount, picks: seq<Pick>, i: nat, init: seq<SoloAccount>, worths: Worths)
    requires Booked(acc, AllChosen(picks), i) && Worth(worths)
    requires Listed(acc, Own(AllChosen(picks), i), init, worths)
    ensures FollowsPicks(acc, picks, i, init)
  {
    PicksTell(picks, i);
  }

  /** The whole generation; account 0 is the faucet. */
  method SoloTransactions(accounts: array<SoloAccount>, picks: seq<Pick>) returns (ghost worths: Worths)
    requires accounts.Length > 0 && Initial(accounts[..]) && Proper(AllChosen(picks), accounts.Length)
    modifies accounts, Numbers(accounts[..])
    ensures SameNumbers(accounts[..], old(accounts[..]))
    // Every account's books agree with its own transactions.
    ensures Worth(worths)
    ensures forall i :: 1 <= i < accounts.Length ==>
              && Booked(accounts[i], AllChosen(picks), i)
              && Listed(accounts[i], Own(AllChosen(picks), i), old(accounts[..]), worths)
    ensures forall i :: 1 <= i < accounts.Length ==> FollowsPicks(accounts[i], picks, i, old(accounts[..]))
    // The faucet pays everyone's debits, and its own debits are their sum.
    ensures Paid(accounts[0], AllChosen(picks), accounts.Length, old(accounts[..]))
    ensures accounts[0].debits.v == DebitSum(accounts[..], accounts.Length)
    // What the accounts gain and lose cancels out.
    ensures DeltaSum(accounts[..], accounts.Length) == 0
  {
    ghost var ts, init, n := AllChosen(picks), accounts[..], accounts.Length;
    worths := TransferLoop(accounts, picks, init);
    ghost var mid := accounts[..];
    OwnProper(ts, n, 0);
    FaucetLoop(accounts, ts, init);
    SumsAre(accounts[..], ts, n);
    Conservation(ts, n);
    forall i | 1 <= i < n ensures FollowsPicks(accounts[i], picks, i, init) {
      ListedFollowsPicks(accounts[i], picks, i, init, worths);
    }
  }

  /** Running a generated set: if the faucet holds its debits, its payments as
      listed and then the transfers in any order all go through; every account
      ends at its balance after the payments plus its delta. */
  lemma GeneratedSetIsSolvent(a: seq<SoloAccount>, init: seq<SoloAccount>, picks: seq<Pick>, payments: seq<Transfer>,
                              order: seq<Transfer>, balances: seq<nat>)
    requires |a| == |balances| > 0 && Proper(AllChosen(picks), |a|) && SameNumbers(a, init)
    requires forall i :: 1 <= i < |a| ==> Booked(a[i], AllChosen(picks), i)
    requires Paid(a[0], AllChosen(picks), |a|, init)
    requires |payments| == |a[0].transactions|
    requires forall k :: 0 <= k < |payments| ==>
               payments[k].from == 0 && payments[k].to == k + 1 && payments[k].amount == a[0].transactions[k].amount.v
    requires multiset(order) == multiset(AllChosen(picks)) && a[0].debits.v <= balances[0]
    ensures InRange(payments + order, |a|)
    ensures var r := Execute(balances, payments + order);
            && r.Some?
            && r.value[0] == balances[0] + a[0].delta.v
            && forall i :: 1 <= i < |a| ==> r.value[i] == balances[i] + payments[i - 1].amount + a[i].delta.v
  {
    var ts := AllChosen(picks);
    FundingAt(ts, |a|);
    forall k | 0 <= k < |payments| ensures payments[k] == Funding(ts, |a|)[k] {
      assert a[k + 1].debits == init[k + 1].debits;
    }
    assert payments == Funding(ts, |a|);
    Solvency(balances, ts, order);
  }

  /** The faucet loop. */
  method FaucetLoop(accounts: array<SoloAccount>, ghost ts: seq<Transfer>, ghost init: seq<SoloAccount>)
    requires accounts.Length > 0 && SameNumbers(accounts[..], init) && Distinct(init)
    requires forall j :: 0 <= j < |init| ==> Booked(accounts[j], ts, j)
    requires Spent(ts, 0) == 0 == Received(ts, 0) && accounts[0].nextNonce == 1 && accounts[0].transactions == []
    modifies accounts, accounts[0].debits, accounts[0].delta
    ensures SameNumbers(accounts[..], init)
    ensures forall j :: 1 <= j < |init| ==> accounts[j] == old(accounts[j]) && Booked(accounts[j], ts, j)
    ensures Paid(accounts[0], ts, |init|, init)
  {
    ghost var before := accounts[..];
    var i := 1;
    while i < accounts.Length
      invariant 1 <= i <= accounts.Length
      invariant SameNumbers(accounts[..], init)
      invariant forall j :: 1 <= j < |init| ==> accounts[j] == before[j] && Booked(accounts[j], ts, j)
      invariant Paid(accounts[0], ts, i, init)
    {
      FaucetOnce(accounts, i, ts, init);
      i := i + 1;
    }
  }

  /** One turn of the faucet loop. */
  method FaucetOnce(accounts: array<SoloAccount>, i: nat, ghost ts: seq<Transfer>, ghost init: seq<SoloAccount>)
    requires 1 <= i < accounts.Length && SameNumbers(accounts[..], init) && Distinct(init)
    requires Booked(accounts[i], ts, i) && Paid(accounts[0], ts, i, init)
    modifies accounts, accounts[0].debits, accounts[0].delta
    ensures SameNumbers(accounts[..], init)
    ensures forall j :: 1 <= j < accounts.Length ==> accounts[j] == old(accounts[j])
    ensures Paid(accounts[0], ts, i + 1, init)
  {
    accounts[0] := accounts[0].(transactions := accounts[0].transactions
      + [SoloTransaction(accounts[i].address, accounts[i].moniker, accounts[0].nextNonce, accounts[i].debits)]);
    accounts[0] := accounts[0].(nextNonce := accounts[0].nextNonce + 1);
    accounts[0].debits.Add(accounts[0].debits, accounts[i].debits);
    accounts[0].delta.Sub(accounts[0].delta, accounts[i].debits);
  }
}
