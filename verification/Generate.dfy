/** `giverny transactions generate`: transfers between a network's accounts,
    the faucet payments that fund them, and the net changes they amount to.
    Account `i` here is account `i + 1` of the `Transfers` module. */
module Generate {
  import opened BigInts
  import opened Options
  import opened Sequences
  import opened Transfers

  datatype Node = Node(moniker: string, netAddr: string)

  datatype Account = Account(moniker: string, address: string)

  datatype FullTransaction = FullTransaction(
    node: string, nodeName: string, from: string, fromName: string, to: string, amount: BigInt)

  datatype NodeTransactions = NodeTransactions(moniker: string, address: string, transactions: seq<FullTransaction>)

  datatype Delta = Delta(
    moniker: string, address: string,
    transCredit: BigInt, transDebit: BigInt, transNet: BigInt, faucetCredit: BigInt, totalNet: BigInt)

  /** The random choices of one turn. */
  datatype Pick = Pick(from: nat, to: nat, r: nat, node: nat)

  function Chosen(p: Pick): Transfer {
    Transfer(p.from + 1, p.to + 1, (p.r + 9) * 10_000_000_000_000_000)
  }

  function AllChosen(picks: seq<Pick>): seq<Transfer> {
    Map(Chosen, picks)
  }

  /** The numbers of the credit and debit lists are different objects. */
  ghost predicate Distinct(credits: seq<BigInt>, debits: seq<BigInt>) {
    && |credits| == |debits|
    && (forall i, j :: 0 <= i < |credits| && 0 <= j < |debits| ==> credits[i] != debits[j])
    && (forall i, j :: 0 <= i < j < |credits| ==> credits[i] != credits[j] && debits[i] != debits[j])
  }

  ghost predicate Tallied(credits: seq<BigInt>, debits: seq<BigInt>, ts: seq<Transfer>)
    requires |credits| == |debits|
    reads credits, debits
  {
    forall i :: 0 <= i < |credits| ==> credits[i].v == Received(ts, i + 1) && debits[i].v == Spent(ts, i + 1)
  }

  /** The items of `full` whose transfer is sent by account `i`, in order. */
  function Selected(full: seq<FullTransaction>, ts: seq<Transfer>, i: nat): seq<FullTransaction>
    requires |full| == |ts|
  {
    if full == [] then []
    else
      var k := |full| - 1;
      Selected(full[..k], ts[..k], i) + if ts[k].from == i then [full[k]] else []
  }

  /** The per-account lists taken together. */
  function Together(full: seq<FullTransaction>, ts: seq<Transfer>, n: nat): multiset<FullTransaction>
    requires |full| == |ts|
  {
    if n <= 1 then multiset{} else Together(full, ts, n - 1) + multiset(Selected(full, ts, n - 1))
  }

  lemma {:induction false} TogetherStep(full: seq<FullTransaction>, ts: seq<Transfer>, n: nat)
    requires |full| == |ts| > 0
    ensures var k := |full| - 1;
            Together(full, ts, n) == Together(full[..k], ts[..k], n)
              + if 1 <= ts[k].from < n then multiset{full[k]} else multiset{}
  {
    if n > 1 {
      var k := |full| - 1;
      var shorter := Selected(full[..k], ts[..k], n - 1);
      TogetherStep(full, ts, n - 1);
      SnocCounts(shorter, full[k]);
      assert shorter + [] == shorter;
      assert multiset(Selected(full, ts, n - 1))
          == multiset(shorter) + if ts[k].from == n - 1 then multiset{full[k]} else multiset{};
    }
  }

  lemma {:induction false} NothingTogether(n: nat)
    ensures Together([], [], n) == multiset{}
  {
    if n > 1 {
      NothingTogether(n - 1);
    }
  }

  /** The per-account lists partition the full list. */
  lemma {:induction false} Partition(full: seq<FullTransaction>, ts: seq<Transfer>, n: nat)
    requires |full| == |ts| && Proper(ts, n)
    ensures Together(full, ts, n) == multiset(full)
  {
    if full == [] {
      NothingTogether(n);
    } else {
      var k := |full| - 1;
      Partition(full[..k], ts[..k], n);
      TogetherStep(full, ts, n);
      SplitLast(full);
    }
  }

  predicate ValidPicks(picks: seq<Pick>, accounts: seq<Account>, nodes: seq<Node>) {
    forall k :: 0 <= k < |picks| ==>
      picks[k].from < |accounts| && picks[k].to < |accounts| && picks[k].from != picks[k].to && picks[k].node < |nodes|
  }

  ghost predicate Describes(f: FullTransaction, p: Pick, accounts: seq<Account>, nodes: seq<Node>)
    requires p.from < |accounts| && p.to < |accounts| && p.node < |nodes|
  {
    && f.node == nodes[p.node].netAddr && f.nodeName == nodes[p.node].moniker
    && f.from == accounts[p.from].address && f.fromName == accounts[p.from].moniker
    && f.to == accounts[p.to].address
  }

  /** Transaction `k` of `full` carries out pick `k`. */
  ghost predicate CarriesOut(full: seq<FullTransaction>, picks: seq<Pick>, accounts: seq<Account>, nodes: seq<Node>,
                             worths: Worths)
    requires ValidPicks(picks, accounts, nodes)
  {
    |full| <= |picks| && forall k :: 0 <= k < |full| ==>
      && Describes(full[k], picks[k], accounts, nodes)
      && full[k].amount in worths && worths[full[k].amount] == (picks[k].r + 9) * 10_000_000_000_000_000
  }

  lemma CarriesOutStep(full: seq<FullTransaction>, f: FullTransaction, picks: seq<Pick>, accounts: seq<Account>,
                       nodes: seq<Node>, worths: Worths)
    requires ValidPicks(picks, accounts, nodes) && |full| < |picks|
    requires CarriesOut(full, picks, accounts, nodes, worths)
    requires Describes(f, picks[|full|], accounts, nodes) && f.amount !in worths
    ensures CarriesOut(full + [f], picks, accounts, nodes, worths[f.amount := Chosen(picks[|full|]).amount])
  {
  }

  /** Each account's list is its share of `full`, in order. */
  ghost predicate Shared(lists: seq<NodeTransactions>, accounts: seq<Account>, full: seq<FullTransaction>,
                         ts: seq<Transfer>)
    requires |full| == |ts|
  {
    |lists| == |accounts| && forall i :: 0 <= i < |accounts| ==>
      lists[i] == NodeTransactions(accounts[i].moniker, accounts[i].address, Selected(full, ts, i + 1))
  }

  lemma SharedStep(lists: seq<NodeTransactions>, accounts: seq<Account>, full: seq<FullTransaction>, f: FullTransaction,
                   ts: seq<Transfer>, k: nat, i: nat)
    requires |full| == k < |ts| && i < |lists| && ts[k].from == i + 1
    requires Shared(lists, accounts, full, ts[..k])
    ensures Shared(lists[i := lists[i].(transactions := lists[i].transactions + [f])],
                   accounts, full + [f], ts[..k + 1])
  {
    forall j
      ensures Selected(full + [f], ts[..k + 1], j) == Selected(full, ts[..k], j) + if j == i + 1 then [f] else []
    {
      SelectedStep(full, f, ts, k, j);
    }
  }

  lemma SelectedStep(full: seq<FullTransaction>, f: FullTransaction, ts: seq<Transfer>, k: nat, i: nat)
    requires |full| == k < |ts|
    ensures Selected(full + [f], ts[..k + 1], i) == Selected(full, ts[..k], i) + if ts[k].from == i then [f] else []
  {
    assert ts[..k + 1][..k] == ts[..k];
    assert (full + [f])[..k] == full;
  }

  /** The two sums of one turn. */
  method Tally(credits: seq<BigInt>, debits: seq<BigInt>, fromacct: nat, toacct: nat, amt: BigInt,
               ghost ts: seq<Transfer>, ghost k: nat)
    requires k < |ts| && fromacct < |debits| && toacct < |credits|
    requires ts[k] == Transfer(fromacct + 1, toacct + 1, ts[k].amount) && amt.v == ts[k].amount
    requires amt !in credits && amt !in debits
    requires Distinct(credits, debits) && Tallied(credits, debits, ts[..k])
    modifies credits[toacct], debits[fromacct]
    ensures Tallied(credits, debits, ts[..k + 1])
  {
    assert ts[..k + 1][..k] == ts[..k];
    assert credits[toacct] in credits && debits[fromacct] in debits;
    credits[toacct].Add(credits[toacct], amt);
    debits[fromacct].Add(debits[fromacct], amt);
  }

  /** The transfer loop. */
  method TransferLoop(accounts: seq<Account>, nodes: seq<Node>, picks: seq<Pick>,
                      credits: seq<BigInt>, debits: seq<BigInt>, ghost nums: set<BigInt>)
    returns (fulltrans: seq<FullTransaction>, nodeTrans: seq<NodeTransactions>, ghost worths: Worths)
    requires ValidPicks(picks, accounts, nodes)
    requires |credits| == |debits| == |accounts|
    requires forall i :: 0 <= i < |accounts| ==> credits[i] in nums && debits[i] in nums
    requires Distinct(credits, debits) && Tallied(credits, debits, [])
    modifies nums
    ensures Tallied(credits, debits, AllChosen(picks))
    ensures |fulltrans| == |picks|
    ensures fresh(worths.Keys) && Worth(worths) && CarriesOut(fulltrans, picks, accounts, nodes, worths)
    ensures Shared(nodeTrans, accounts, fulltrans, AllChosen(picks))
    ensures DistinctAddresses(accounts) ==>
              forall i :: 0 <= i < |accounts| ==>
                && nodeTrans[i].transactions == ListedFrom(fulltrans, accounts[i].address)
                && debits[i].v == PaidFrom(fulltrans, accounts[i].address)
                && credits[i].v == PaidTo(fulltrans, accounts[i].address)
  {
    ghost var ts := AllChosen(picks);
    nodeTrans := seq(|accounts|, i requires 0 <= i < |accounts| =>
                       NodeTransactions(accounts[i].moniker, accounts[i].address, []));
    fulltrans, worths := [], map[];
    var i := 0;
    while i < |picks|
      invariant 0 <= i == |fulltrans| <= |picks|
      invariant Tallied(credits, debits, ts[..i])
      invariant fresh(worths.Keys) && Worth(worths) && CarriesOut(fulltrans, picks, accounts, nodes, worths)
      invariant Shared(nodeTrans, accounts, fulltrans, ts[..i])
    {
      var fromacct, toacct, nodeno := picks[i].from, picks[i].to, picks[i].node;
      var amt := Scaled(picks[i].r + 9);
      Tally(credits, debits, fromacct, toacct, amt, ts, i);
      var newtrans := FullTransaction(nodes[nodeno].netAddr, nodes[nodeno].moniker, accounts[fromacct].address,
                                      accounts[fromacct].moniker, accounts[toacct].address, amt);
      SharedStep(nodeTrans, accounts, fulltrans, newtrans, ts, i, fromacct);
      CarriesOutStep(fulltrans, newtrans, picks, accounts, nodes, worths);
      fulltrans := fulltrans + [newtrans];
      nodeTrans :=
        nodeTrans[fromacct := nodeTrans[fromacct].(transactions := nodeTrans[fromacct].transactions + [newtrans])];
      worths := worths[amt := ts[i].amount];
      i := i + 1;
    }
    assert ts[..i] == ts;
    if DistinctAddresses(accounts) {
      forall i | 0 <= i < |accounts|
        ensures nodeTrans[i].transactions == ListedFrom(fulltrans, accounts[i].address)
        ensures PaidFrom(fulltrans, accounts[i].address) == Spent(ts, i + 1)
        ensures PaidTo(fulltrans, accounts[i].address) == Received(ts, i + 1)
      {
        FullListTells(fulltrans, picks, accounts, nodes, worths, i, |picks|);
        assert fulltrans[..|picks|] == fulltrans && ts[..|picks|] == ts;
      }
    }
  }

  /** One account's row of net changes, and its faucet payment, which covers
      what it spends plus the surplus. */
  ghost predicate Row(d: Delta, f: FullTransaction, account: Account, faucet: Account, node: Node,
                      ts: seq<Transfer>, i: nat, surplus: int)
    reads d.transCredit, d.transDebit, d.transNet, d.faucetCredit, d.totalNet, f.amount
  {
    && d.moniker == account.moniker && d.address == account.address
    && d.transCredit.v == Received(ts, i) && d.transDebit.v == Spent(ts, i)
    && d.transNet.v == Received(ts, i) - Spent(ts, i)
    && d.faucetCredit.v == f.amount.v == Spent(ts, i) + surplus
    && d.totalNet.v == d.transNet.v + d.faucetCredit.v
    && f.from == faucet.address && f.fromName == faucet.moniker && f.to == account.address
    && f.node == node.netAddr && f.nodeName == node.moniker
  }

  /** The delta loop. */
  method DeltaLoop(accounts: seq<Account>, faucet: Account, nodes: seq<Node>, nodenos: seq<nat>,
                   credits: seq<BigInt>, debits: seq<BigInt>, surplus: BigInt, ghost ts: seq<Transfer>)
    returns (faucettrans: seq<FullTransaction>, deltas: seq<Delta>)
    requires |credits| == |debits| == |accounts| == |nodenos| && Tallied(credits, debits, ts)
    requires forall i :: 0 <= i < |nodenos| ==> nodenos[i] < |nodes|
    ensures |faucettrans| == |deltas| == |accounts|
    ensures forall i :: 0 <= i < |accounts| ==>
              Row(deltas[i], faucettrans[i], accounts[i], faucet, nodes[nodenos[i]], ts, i + 1, surplus.v)
  {
    faucettrans, deltas := [], [];
    var i := 0;
    while i < |accounts|
      invariant 0 <= i == |faucettrans| == |deltas| <= |accounts|
      invariant forall j :: 0 <= j < i ==>
                  && fresh(deltas[j].transNet) && fresh(deltas[j].faucetCredit) && fresh(deltas[j].totalNet)
                  && fresh(faucettrans[j].amount)
                  && Row(deltas[j], faucettrans[j], accounts[j], faucet, nodes[nodenos[j]], ts, j + 1, surplus.v)
    {
      var f, d := FundOnce(accounts[i], faucet, nodes[nodenos[i]], credits[i], debits[i], surplus, ts, i + 1);
      faucettrans := faucettrans + [f];
      deltas := deltas + [d];
      i := i + 1;
    }
  }

  /** One turn of the delta loop. */
  method FundOnce(account: Account, faucet: Account, node: Node, credit: BigInt, debit: BigInt, surplus: BigInt,
                  ghost ts: seq<Transfer>, ghost i: nat)
    returns (f: FullTransaction, d: Delta)
    requires credit.v == Received(ts, i) && debit.v == Spent(ts, i)
    ensures fresh(d.transNet) && fresh(d.faucetCredit) && fresh(d.totalNet) && fresh(f.amount)
    ensures d.transCredit == credit && d.transDebit == debit
    ensures Row(d, f, account, faucet, node, ts, i, surplus.v)
  {
    var amount := new BigInt(0);
    amount.Add(debit, surplus);
    f := FullTransaction(node.netAddr, node.moniker, faucet.address, faucet.moniker, account.address, amount);
    var transNet := new BigInt(0);
    transNet.Sub(credit, debit);
    var faucetCredit := new BigInt(0);
    faucetCredit.Add(debit, surplus);
    var totalNet := new BigInt(0);
    totalNet.Add(credit, surplus);
    d := Delta(account.moniker, account.address, credit, debit, transNet, faucetCredit, totalNet);
  }

  // ---- What the rows add up to.

  ghost function NetSum(deltas: seq<Delta>): int
    reads set d | d in deltas :: d.transNet
  {
    if deltas == [] then 0 else NetSum(deltas[..|deltas| - 1]) + deltas[|deltas| - 1].transNet.v
  }

  ghost function TotalNetSum(deltas: seq<Delta>): int
    reads set d | d in deltas :: d.totalNet
  {
    if deltas == [] then 0 else TotalNetSum(deltas[..|deltas| - 1]) + deltas[|deltas| - 1].totalNet.v
  }

  ghost function AmountSum(full: seq<FullTransaction>): int
    reads set f | f in full :: f.amount
  {
    if full == [] then 0 else AmountSum(full[..|full| - 1]) + full[|full| - 1].amount.v
  }

  lemma {:induction false} NetSumIs(deltas: seq<Delta>, ts: seq<Transfer>)
    requires forall i :: 0 <= i < |deltas| ==> deltas[i].transNet.v == Received(ts, i + 1) - Spent(ts, i + 1)
    ensures NetSum(deltas) == AllReceived(ts, |deltas| + 1) - AllSpent(ts, |deltas| + 1)
  {
    if deltas != [] {
      NetSumIs(deltas[..|deltas| - 1], ts);
    }
  }

  lemma Times(k: nat, surplus: int)
    ensures (k + 1) * surplus == k * surplus + surplus
  {
  }

  lemma {:induction false} TotalNetSumIs(deltas: seq<Delta>, ts: seq<Transfer>, surplus: int)
    requires forall i :: 0 <= i < |deltas| ==> deltas[i].totalNet.v == Received(ts, i + 1) + surplus
    ensures TotalNetSum(deltas) == AllReceived(ts, |deltas| + 1) + |deltas| * surplus
  {
    if deltas != [] {
      var k := |deltas| - 1;
      TotalNetSumIs(deltas[..k], ts, surplus);
      Times(k, surplus);
    }
  }

  lemma {:induction false} AmountSumIs(payments: seq<FullTransaction>, ts: seq<Transfer>, surplus: int)
    requires forall i :: 0 <= i < |payments| ==> payments[i].amount.v == Spent(ts, i + 1) + surplus
    ensures AmountSum(payments) == AllSpent(ts, |payments| + 1) + |payments| * surplus
  {
    if payments != [] {
      var k := |payments| - 1;
      AmountSumIs(payments[..k], ts, surplus);
      Times(k, surplus);
    }
  }

  ghost predicate Rows(deltas: seq<Delta>, payments: seq<FullTransaction>, accounts: seq<Account>, faucet: Account,
                       sentBy: seq<Node>, ts: seq<Transfer>, surplus: int)
    reads set d | d in deltas :: d.transCredit, set d | d in deltas :: d.transDebit, set d | d in deltas :: d.transNet
    reads set d | d in deltas :: d.faucetCredit, set d | d in deltas :: d.totalNet, set f | f in payments :: f.amount
  {
    |deltas| == |payments| == |accounts| == |sentBy| && forall i :: 0 <= i < |accounts| ==>
      Row(deltas[i], payments[i], accounts[i], faucet, sentBy[i], ts, i + 1, surplus)
  }

  /** Transfers cancel out. */
  lemma NetsCancel(deltas: seq<Delta>, payments: seq<FullTransaction>, accounts: seq<Account>, faucet: Account,
                   sentBy: seq<Node>, ts: seq<Transfer>, surplus: int)
    requires Rows(deltas, payments, accounts, faucet, sentBy, ts, surplus) && Proper(ts, |accounts| + 1)
    ensures NetSum(deltas) == 0
  {
    NetSumIs(deltas, ts);
    Conservation(ts, |accounts| + 1);
  }

  /** The accounts together gain what the faucet pays. */
  lemma FaucetPaysTotals(deltas: seq<Delta>, payments: seq<FullTransaction>, accounts: seq<Account>, faucet: Account,
                         sentBy: seq<Node>, ts: seq<Transfer>, surplus: int)
    requires Rows(deltas, payments, accounts, faucet, sentBy, ts, surplus) && Proper(ts, |accounts| + 1)
    ensures TotalNetSum(deltas) == AmountSum(payments) == Total(ts) + |accounts| * surplus
  {
    TotalNetSumIs(deltas, ts, surplus);
    AmountSumIs(payments, ts, surplus);
    Conservation(ts, |accounts| + 1);
  }

  /** The balances of accounts that start empty after the faucet's payments, the
      faucet keeping `rest`; a negative payment is refused. */
  function Funded(rest: nat, amounts: seq<int>): (r: Option<seq<nat>>)
    ensures r.Some? ==> |r.value| == |amounts| + 1 && forall i :: 0 <= i < |amounts| ==> r.value[i + 1] == amounts[i]
  {
    if forall i :: 0 <= i < |amounts| ==> amounts[i] >= 0 then
      Some([rest] + seq<nat>(|amounts|, i requires 0 <= i < |amounts| && amounts[i] >= 0 => amounts[i]))
    else None
  }

  /** Whatever the surplus, negative ones included: the payments are accepted and
      the accounts, empty before, can execute the transfers in every order if and
      only if the surplus is not negative. */
  lemma GeneratedSetIsCarefreeWhen(rest: nat, amounts: seq<int>, ts: seq<Transfer>, surplus: int)
    requires amounts != [] && Proper(ts, |amounts| + 1)
    requires forall i :: 0 <= i < |amounts| ==> amounts[i] == Spent(ts, i + 1) + surplus
    ensures Funded(rest, amounts).Some? && Carefree(Funded(rest, amounts).value, ts) <==> surplus >= 0
  {
    if Funded(rest, amounts).Some? {
      var balances := Funded(rest, amounts).value;
      CarefreeExactlyWhen(balances, ts);
      assert balances[1] == Spent(ts, 1) + surplus;
      forall i | 1 <= i < |balances| ensures balances[i] == Spent(ts, i) + surplus {
        assert balances[(i - 1) + 1] == amounts[i - 1];
      }
    }
  }

  // ---- What the full list says by itself.

  predicate DistinctAddresses(accounts: seq<Account>) {
    forall i, j :: 0 <= i < j < |accounts| ==> accounts[i].address != accounts[j].address
  }

  function Senders(nodes: seq<Node>, nodenos: seq<nat>): seq<Node>
    requires forall i :: 0 <= i < |nodenos| ==> nodenos[i] < |nodes|
  {
    seq(|nodenos|, i requires 0 <= i < |nodenos| => nodes[nodenos[i]])
  }

  /** The transactions sent from this address, in order. */
  function ListedFrom(full: seq<FullTransaction>, address: string): seq<FullTransaction> {
    if full == [] then []
    else
      ListedFrom(full[..|full| - 1], address) + if full[|full| - 1].from == address then [full[|full| - 1]] else []
  }

  ghost function PaidFrom(full: seq<FullTransaction>, address: string): int
    reads set f | f in full :: f.amount
  {
    if full == [] then 0
    else PaidFrom(full[..|full| - 1], address)
         + if full[|full| - 1].from == address then full[|full| - 1].amount.v else 0
  }

  ghost function PaidTo(full: seq<FullTransaction>, address: string): int
    reads set f | f in full :: f.amount
  {
    if full == [] then 0
    else PaidTo(full[..|full| - 1], address) + if full[|full| - 1].to == address then full[|full| - 1].amount.v else 0
  }

  lemma ItemTells(full: seq<FullTransaction>, picks: seq<Pick>, accounts: seq<Account>, nodes: seq<Node>,
                  worths: Worths, i: nat, k: nat)
    requires ValidPicks(picks, accounts, nodes) && k < |full| && i < |accounts| && DistinctAddresses(accounts)
    requires CarriesOut(full, picks, accounts, nodes, worths) && Worth(worths)
    ensures var t := Chosen(picks[k]);
            && (full[k].from == accounts[i].address <==> t.from == i + 1)
            && (full[k].to == accounts[i].address <==> t.to == i + 1)
            && full[k].amount.v == t.amount
  {
  }

  /** Up to `k`, the selection and the sums by account number are those by address. */
  ghost predicate Tells(full: seq<FullTransaction>, ts: seq<Transfer>, i: nat, address: string, k: nat)
    requires k <= |full| == |ts|
    reads set f | f in full :: f.amount
  {
    && Selected(full[..k], ts[..k], i) == ListedFrom(full[..k], address)
    && Spent(ts[..k], i) == PaidFrom(full[..k], address) && Received(ts[..k], i) == PaidTo(full[..k], address)
  }

  lemma TellsNext(full: seq<FullTransaction>, ts: seq<Transfer>, i: nat, address: string, k: nat)
    requires k < |full| == |ts| && Tells(full, ts, i, address, k)
    requires (full[k].from == address <==> ts[k].from == i) && (full[k].to == address <==> ts[k].to == i)
    requires full[k].amount.v == ts[k].amount
    ensures Tells(full, ts, i, address, k + 1)
  {
    assert full[..k + 1][..k] == full[..k] && ts[..k + 1][..k] == ts[..k];
  }

  lemma {:induction false} FullListTells(full: seq<FullTransaction>, picks: seq<Pick>, accounts: seq<Account>,
                                         nodes: seq<Node>, worths: Worths, i: nat, k: nat)
    requires ValidPicks(picks, accounts, nodes) && k <= |full| == |picks|
    requires i < |accounts| && DistinctAddresses(accounts)
    requires CarriesOut(full, picks, accounts, nodes, worths) && Worth(worths)
    ensures Tells(full, AllChosen(picks), i + 1, accounts[i].address, k)
  {
    if k > 0 {
      FullListTells(full, picks, accounts, nodes, worths, i, k - 1);
      ItemTells(full, picks, accounts, nodes, worths, i, k - 1);
      TellsNext(full, AllChosen(picks), i + 1, accounts[i].address, k - 1);
    }
  }

  /** The whole generation from the accounts and nodes of the network file. */
  method GenerateTransactions(accounts: seq<Account>, faucet: Account, nodes: seq<Node>, picks: seq<Pick>,
                              nodenos: seq<nat>, surplusCredit: int)
    returns (fulltrans: seq<FullTransaction>, nodeTrans: seq<NodeTransactions>,
             faucettrans: seq<FullTransaction>, deltas: seq<Delta>, ghost worths: Worths)
    requires ValidPicks(picks, accounts, nodes)
    requires |nodenos| == |accounts| && forall i :: 0 <= i < |nodenos| ==> nodenos[i] < |nodes|
    // Each account's list is its share of the full list, in order.
    ensures |fulltrans| == |picks|
    ensures Worth(worths) && CarriesOut(fulltrans, picks, accounts, nodes, worths)
    ensures Shared(nodeTrans, accounts, fulltrans, AllChosen(picks))
    // Row by row, what the account nets and what the faucet pays it.
    ensures Rows(deltas, faucettrans, accounts, faucet, Senders(nodes, nodenos), AllChosen(picks), surplusCredit)
    // The lists, the rows and the payments agree with the full list alone.
    ensures DistinctAddresses(accounts) ==>
              forall i :: 0 <= i < |accounts| ==>
                && nodeTrans[i].transactions == ListedFrom(fulltrans, accounts[i].address)
                && deltas[i].transDebit.v == PaidFrom(fulltrans, accounts[i].address)
                && deltas[i].transCredit.v == PaidTo(fulltrans, accounts[i].address)
                && faucettrans[i].amount.v == PaidFrom(fulltrans, accounts[i].address) + surplusCredit
  {
    ghost var ts := AllChosen(picks);
    var surplusCreditBig := new BigInt(surplusCredit);
    var credits, debits, nums := NewNumbers(|accounts|);
    fulltrans, nodeTrans, worths := TransferLoop(accounts, nodes, picks, credits, debits, nums);
    faucettrans, deltas := DeltaLoop(accounts, faucet, nodes, nodenos, credits, debits, surplusCreditBig, ts);
  }

  /** Zeros for `n` accounts, appended as the network file is read. */
  method NewNumbers(n: nat) returns (credits: seq<BigInt>, debits: seq<BigInt>, ghost nums: set<BigInt>)
    ensures |credits| == |debits| == n && fresh(nums)
    ensures forall i :: 0 <= i < n ==> credits[i] in nums && debits[i] in nums
    ensures Distinct(credits, debits) && Tallied(credits, debits, [])
  {
    credits, debits, nums := [], [], {};
    var i := 0;
    while i < n
      invariant 0 <= i == |credits| == |debits| <= n && fresh(nums)
      invariant forall j :: 0 <= j < i ==> credits[j] in nums && debits[j] in nums
      invariant Distinct(credits, debits) && Tallied(credits, debits, [])
    {
      var credit := new BigInt(0);
      var debit := new BigInt(0);
      credits := credits + [credit];
      debits := debits + [debit];
      nums := nums + {credit, debit};
      i := i + 1;
    }
  }
}
