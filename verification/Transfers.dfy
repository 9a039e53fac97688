/** Lists of transfers between numbered accounts: what each account receives
    and spends, and what executing them does to balances. */
module Transfers {
  import opened Options
  import opened Sequences

  datatype Transfer = Transfer(from: nat, to: nat, amount: nat)

  /** Between two different accounts of 1, ..., n - 1; account 0 is the faucet. */
  predicate Proper(ts: seq<Transfer>, n: nat) {
    forall k :: 0 <= k < |ts| ==> 1 <= ts[k].from < n && 1 <= ts[k].to < n && ts[k].from != ts[k].to
  }

  function Spent(ts: seq<Transfer>, i: nat): nat {
    if ts == [] then 0
    else Spent(ts[..|ts| - 1], i) + if ts[|ts| - 1].from == i then ts[|ts| - 1].amount else 0
  }

  function Received(ts: seq<Transfer>, i: nat): nat {
    if ts == [] then 0
    else Received(ts[..|ts| - 1], i) + if ts[|ts| - 1].to == i then ts[|ts| - 1].amount else 0
  }

  /** The transfers of account `i`, in order. */
  function Own(ts: seq<Transfer>, i: nat): seq<Transfer> {
    if ts == [] then []
    else Own(ts[..|ts| - 1], i) + if ts[|ts| - 1].from == i then [ts[|ts| - 1]] else []
  }

  function Total(ts: seq<Transfer>): nat {
    if ts == [] then 0 else Total(ts[..|ts| - 1]) + ts[|ts| - 1].amount
  }

  function AllSpent(ts: seq<Transfer>, n: nat): nat {
    if n <= 1 then 0 else AllSpent(ts, n - 1) + Spent(ts, n - 1)
  }

  function AllReceived(ts: seq<Transfer>, n: nat): nat {
    if n <= 1 then 0 else AllReceived(ts, n - 1) + Received(ts, n - 1)
  }

  lemma {:induction false} SpentIsOwn(ts: seq<Transfer>, i: nat)
    ensures Spent(ts, i) == Total(Own(ts, i))
  {
    if ts != [] {
      var n := |ts| - 1;
      SpentIsOwn(ts[..n], i);
      if ts[n].from == i {
        assert Own(ts, i)[..|Own(ts, i)| - 1] == Own(ts[..n], i);
      } else {
        assert Own(ts, i) == Own(ts[..n], i);
      }
    }
  }

  lemma {:induction false} AllSpentStep(ts: seq<Transfer>, t: Transfer, n: nat)
    ensures AllSpent(ts + [t], n) == AllSpent(ts, n) + if 1 <= t.from < n then t.amount else 0
    ensures AllReceived(ts + [t], n) == AllReceived(ts, n) + if 1 <= t.to < n then t.amount else 0
  {
    assert (ts + [t])[..|ts|] == ts;
    if n > 1 {
      AllSpentStep(ts, t, n - 1);
    }
  }

  lemma {:induction false} NothingSpent(n: nat)
    ensures AllSpent([], n) == 0 && AllReceived([], n) == 0
  {
    if n > 1 {
      NothingSpent(n - 1);
    }
  }

  /** Conservation: what the accounts spend together is what they receive. */
  lemma {:induction false} Conservation(ts: seq<Transfer>, n: nat)
    requires Proper(ts, n)
    ensures AllReceived(ts, n) == AllSpent(ts, n) == Total(ts)
  {
    if ts == [] {
      NothingSpent(n);
    } else {
      var k := |ts| - 1;
      Conservation(ts[..k], n);
      AllSpentStep(ts[..k], ts[k], n);
      assert ts == ts[..k] + [ts[k]];
    }
  }

  lemma {:induction false} Prefix(ts: seq<Transfer>, k: nat, i: nat)
    requires k <= |ts|
    ensures Spent(ts[..k], i) <= Spent(ts, i)
    decreases |ts| - k
  {
    if k == |ts| {
      assert ts[..k] == ts;
    } else {
      assert ts[..k + 1][..k] == ts[..k];
      Prefix(ts, k + 1, i);
    }
  }

  lemma {:induction false} Concat(a: seq<Transfer>, b: seq<Transfer>, i: nat)
    ensures Spent(a + b, i) == Spent(a, i) + Spent(b, i)
    ensures Received(a + b, i) == Received(a, i) + Received(b, i)
  {
    if b == [] {
      assert a + b == a;
    } else {
      var n := |b| - 1;
      Concat(a, b[..n], i);
      assert (a + b)[..|a| + n] == a + b[..n];
    }
  }

  /** Sums do not depend on the order. */
  lemma {:induction false} Reordered(p: seq<Transfer>, q: seq<Transfer>, i: nat)
    requires multiset(p) == multiset(q)
    ensures Spent(p, i) == Spent(q, i) && Received(p, i) == Received(q, i)
    decreases |p|
  {
    if p == [] {
      assert |multiset(q)| == 0;
    } else {
      var n := |p| - 1;
      var t := p[n];
      assert p == p[..n] + [t];
      assert t in multiset(q);
      var j :| 0 <= j < |q| && q[j] == t;
      var a, b := q[..j], q[j + 1..];
      assert q == a + [t] + b;
      assert multiset(p) == multiset(p[..n]) + multiset{t};
      assert multiset(q) == multiset(a + b) + multiset{t};
      CancelOne(multiset(p[..n]), multiset(a + b), t);
      Reordered(p[..n], a + b, i);
      Concat(a + [t], b, i);
      Concat(a, [t], i);
      Concat(a, b, i);
      assert [t][..0] == [];
    }
  }

  // ---- Executing transfers.

  /** Refused when the balance is too low. */
  function Pay(balances: seq<nat>, t: Transfer): Option<seq<nat>>
    requires t.from < |balances| && t.to < |balances|
  {
    if balances[t.from] < t.amount then None
    else
      var b := balances[t.from := balances[t.from] - t.amount];
      Some(b[t.to := b[t.to] + t.amount])
  }

  predicate InRange(ts: seq<Transfer>, n: nat) {
    forall k :: 0 <= k < |ts| ==> ts[k].from < n && ts[k].to < n
  }

  function Execute(balances: seq<nat>, ts: seq<Transfer>): (r: Option<seq<nat>>)
    requires InRange(ts, |balances|)
    ensures r.Some? ==> |r.value| == |balances|
  {
    if ts == [] then Some(balances)
    else
      match Execute(balances, ts[..|ts| - 1])
      case None => None
      case Some(b) => Pay(b, ts[|ts| - 1])
  }

  lemma {:induction false} ExecuteConcat(balances: seq<nat>, a: seq<Transfer>, b: seq<Transfer>)
    requires InRange(a, |balances|) && InRange(b, |balances|)
    ensures InRange(a + b, |balances|)
    ensures Execute(balances, a + b)
         == if Execute(balances, a).None? then None else Execute(Execute(balances, a).value, b)
  {
    if b == [] {
      assert a + b == a;
    } else {
      var n := |b| - 1;
      ExecuteConcat(balances, a, b[..n]);
      assert (a + b)[..|a| + n] == a + b[..n];
    }
  }

  /** The faucet's payments: to each account what it is going to spend. */
  function Funding(ts: seq<Transfer>, n: nat): seq<Transfer> {
    if n <= 1 then [] else Funding(ts, n - 1) + [Transfer(0, n - 1, Spent(ts, n - 1))]
  }

  lemma {:induction false} FundingAt(ts: seq<Transfer>, n: nat)
    requires n > 0
    ensures |Funding(ts, n)| == n - 1
    ensures forall k :: 0 <= k < n - 1 ==> Funding(ts, n)[k] == Transfer(0, k + 1, Spent(ts, k + 1))
  {
    if n > 1 {
      FundingAt(ts, n - 1);
    }
  }

  lemma {:induction false} FundingInRange(ts: seq<Transfer>, n: nat, m: nat)
    requires n <= m && 0 < m
    ensures InRange(Funding(ts, n), m)
  {
    if n > 1 {
      FundingInRange(ts, n - 1, m);
    }
  }

  /** The faucet's payments go through exactly when it holds what the accounts
      spend together. */
  lemma {:induction false} FundingGoesThroughWhen(balances: seq<nat>, ts: seq<Transfer>, n: nat)
    requires 0 < n <= |balances| && InRange(Funding(ts, n), |balances|)
    ensures Execute(balances, Funding(ts, n)).Some? <==> AllSpent(ts, n) <= balances[0]
    ensures Execute(balances, Funding(ts, n)).Some? ==>
              var b := Execute(balances, Funding(ts, n)).value;
              && b[0] == balances[0] - AllSpent(ts, n)
              && forall i :: 1 <= i < |balances| ==> b[i] == balances[i] + if i < n then Spent(ts, i) else 0
  {
    if n > 1 {
      assert Funding(ts, n)[..|Funding(ts, n)| - 1] == Funding(ts, n - 1);
      FundingInRange(ts, n - 1, |balances|);
      FundingGoesThroughWhen(balances, ts, n - 1);
    }
  }

  /** Accounts that hold what they are going to spend never run short, in
      whatever order the transfers come. */
  lemma {:induction false} NeverShort(balances: seq<nat>, ts: seq<Transfer>)
    requires balances != [] && Proper(ts, |balances|)
    requires forall i :: 1 <= i < |balances| ==> Spent(ts, i) <= balances[i]
    ensures InRange(ts, |balances|) && Execute(balances, ts).Some?
    ensures var b := Execute(balances, ts).value;
            && b[0] == balances[0]
            && forall i :: 1 <= i < |balances| ==> b[i] == balances[i] + Received(ts, i) - Spent(ts, i)
  {
    if ts != [] {
      var n := |ts| - 1;
      forall i | 1 <= i < |balances| ensures Spent(ts[..n], i) <= balances[i] {
        Prefix(ts, n, i);
      }
      NeverShort(balances, ts[..n]);
      assert Spent(ts, ts[n].from) == Spent(ts[..n], ts[n].from) + ts[n].amount;
    }
  }

  /** Solvency: fund first, then run the transfers in any order. Nothing is
      refused, and every account ends at its funded balance plus what it
      received minus what it spent. */
  lemma Solvency(balances: seq<nat>, ts: seq<Transfer>, order: seq<Transfer>)
    requires balances != [] && Proper(ts, |balances|) && multiset(order) == multiset(ts)
    requires AllSpent(ts, |balances|) <= balances[0]
    ensures InRange(Funding(ts, |balances|) + order, |balances|)
    ensures var r := Execute(balances, Funding(ts, |balances|) + order);
            && r.Some?
            && r.value[0] == balances[0] - AllSpent(ts, |balances|)
            && forall i :: 1 <= i < |balances| ==>
                 r.value[i] == balances[i] + Spent(ts, i) + (Received(ts, i) - Spent(ts, i))
  {
    var n := |balances|;
    FundingInRange(ts, n, n);
    FundingGoesThroughWhen(balances, ts, n);
    var funded := Execute(balances, Funding(ts, n)).value;
    forall i ensures Spent(order, i) == Spent(ts, i) && Received(order, i) == Received(ts, i) {
      Reordered(order, ts, i);
    }
    ProperReordered(ts, order, n);
    NeverShort(funded, order);
    ExecuteConcat(balances, Funding(ts, n), order);
  }

  // ---- The funding is as small as it can be.

  function Others(ts: seq<Transfer>, i: nat): seq<Transfer> {
    if ts == [] then []
    else Others(ts[..|ts| - 1], i) + if ts[|ts| - 1].from == i then [] else [ts[|ts| - 1]]
  }

  lemma {:induction false} OwnAndOthers(ts: seq<Transfer>, i: nat)
    ensures multiset(Own(ts, i) + Others(ts, i)) == multiset(ts)
  {
    if ts != [] {
      SplitLast(ts);
      OwnAndOthers(ts[..|ts| - 1], i);
    }
  }

  lemma ProperReordered(ts: seq<Transfer>, order: seq<Transfer>, n: nat)
    requires Proper(ts, n) && multiset(order) == multiset(ts)
    ensures Proper(order, n) && InRange(order, n)
  {
    forall k | 0 <= k < |order| ensures order[k] in ts {
      assert order[k] in multiset(ts);
    }
  }

  /** An account that only pays ends with what is left, if it has enough. */
  lemma {:induction false} PaysOnly(balances: seq<nat>, own: seq<Transfer>, i: nat)
    requires i < |balances| && InRange(own, |balances|)
    requires forall k :: 0 <= k < |own| ==> own[k].from == i && own[k].to != i
    ensures Execute(balances, own).Some? ==> Execute(balances, own).value[i] == balances[i] - Total(own)
  {
    if own != [] {
      PaysOnly(balances, own[..|own| - 1], i);
    }
  }

  lemma {:induction false} OwnPays(ts: seq<Transfer>, n: nat, i: nat)
    requires Proper(ts, n)
    ensures forall k :: 0 <= k < |Own(ts, i)| ==> Own(ts, i)[k].from == i && Own(ts, i)[k].to != i
    ensures InRange(Own(ts, i), n)
  {
    if ts != [] {
      OwnPays(ts[..|ts| - 1], n, i);
    }
  }

  /** No order of the transfers is ever refused. */
  ghost predicate Carefree(balances: seq<nat>, ts: seq<Transfer>)
    requires Proper(ts, |balances|)
  {
    forall order :: multiset(order) == multiset(ts) ==> InRange(order, |balances|) && Execute(balances, order).Some?
  }

  /** Every order goes through if and only if each account holds beforehand all
      it is going to spend: no smaller funding will do. */
  lemma CarefreeExactlyWhen(balances: seq<nat>, ts: seq<Transfer>)
    requires balances != [] && Proper(ts, |balances|)
    ensures Carefree(balances, ts) <==> forall i :: 1 <= i < |balances| ==> Spent(ts, i) <= balances[i]
  {
    if Carefree(balances, ts) {
      forall i | 1 <= i < |balances| ensures Spent(ts, i) <= balances[i] {
        OwnAndOthers(ts, i);
        OwnPays(ts, |balances|, i);
        PaysOnly(balances, Own(ts, i), i);
        ProperReordered(ts, Own(ts, i) + Others(ts, i), |balances|);
        assert InRange(Others(ts, i), |balances|) by {
          forall k | 0 <= k < |Others(ts, i)|
            ensures Others(ts, i)[k].from < |balances| && Others(ts, i)[k].to < |balances|
          {
            assert Others(ts, i)[k] == (Own(ts, i) + Others(ts, i))[|Own(ts, i)| + k];
          }
        }
        ExecuteConcat(balances, Own(ts, i), Others(ts, i));
        SpentIsOwn(ts, i);
      }
    } else {
      var order :| multiset(order) == multiset(ts) && !(InRange(order, |balances|) && Execute(balances, order).Some?);
      ProperReordered(ts, order, |balances|);
      forall i ensures Spent(order, i) == Spent(ts, i) {
        Reordered(order, ts, i);
      }
      if forall i :: 1 <= i < |balances| ==> Spent(order, i) <= balances[i] {
        NeverShort(balances, order);
      }
    }
  }
}
