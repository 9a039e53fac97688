/** The bridge between consensus and contract: committing a block applies its
    transactions, then answers join and leave requests and ejects validators
    from the resulting whitelist. */
module Bridge {
  import opened Protocol
  import opened Options
  import opened Sequences
  import opened Councils
  import opened Ledgers
  import opened Elections
  import Rounds
  import opened Contract
  import opened Coinbase

  type PubKey = seq<int>

  datatype Peer = Peer(pubKey: PubKey, moniker: string)

  /** A transaction that calls the contract, or one that leaves it alone
      because it goes elsewhere or fails. */
  datatype Transaction = ToContract(call: Call) | Elsewhere

  datatype InternalTransaction = PeerAdd(peer: Peer) | PeerRemove(peer: Peer)

  datatype Receipt = Receipt(tx: InternalTransaction, accepted: bool)

  datatype Block = Block(transactions: seq<Transaction>, internal: seq<InternalTransaction>, hash32: uint32)

  /** `GetValidatorSet` for the block's round, when there is a Babble node. */
  datatype Lookup = NoBabble | LookupError | Found(validators: seq<Peer>)

  /** What the libraries answer while a block is committed: the address of a
      public key, if it unmarshals; the validators; and which authorisation
      checks and whether the state commit fail. */
  datatype Libraries = Libraries(
    address: PubKey -> Option<Address>,
    validatorSet: Lookup,
    checkFails: Address -> bool,
    commitFails: bool)

  /** `Crashed` is a run-time panic. */
  datatype Response = Error | Crashed | Committed(receipts: seq<Receipt>)

  // ---- What a commit does.

  datatype CoinbaseResult = NoCoinbase(response: Response) | Coinbase(address: Address)

  function CoinbaseOf(block: Block, libs: Libraries): CoinbaseResult {
    match libs.validatorSet
    case NoBabble => Coinbase(ZERO_ADDRESS)
    case LookupError => NoCoinbase(Error)
    case Found(validators) =>
      if |validators| % TWO_32 == 0 then NoCoinbase(Crashed)
      else match libs.address(validators[Pick(block.hash32, |validators|)].pubKey)
        case None => NoCoinbase(Error)
        case Some(a) => Coinbase(a)
  }

  function ContractCalls(txs: seq<Transaction>): seq<Call> {
    if txs == [] then []
    else
      var tx := txs[|txs| - 1];
      ContractCalls(txs[..|txs| - 1]) + if tx.ToContract? then [tx.call] else []
  }

  /** The peer's key gives an address, the check works, and it is a member. */
  predicate Authorised(members: seq<Address>, libs: Libraries, p: Peer) {
    && libs.address(p.pubKey).Some?
    && !libs.checkFails(libs.address(p.pubKey).value)
    && libs.address(p.pubKey).value in members
  }

  predicate Unauthorised(members: seq<Address>, libs: Libraries, p: Peer) {
    && libs.address(p.pubKey).Some?
    && !libs.checkFails(libs.address(p.pubKey).value)
    && libs.address(p.pubKey).value !in members
  }

  function Answer(members: seq<Address>, libs: Libraries, tx: InternalTransaction): Receipt {
    Receipt(tx, tx.PeerRemove? || Authorised(members, libs, tx.peer))
  }

  /** One receipt per request in order, unless a join request carries a key
      that does not unmarshal: dereferencing it panics. */
  function Answers(members: seq<Address>, libs: Libraries, txs: seq<InternalTransaction>): Option<seq<Receipt>> {
    if exists i :: 0 <= i < |txs| && txs[i].PeerAdd? && libs.address(txs[i].peer.pubKey).None? then None
    else Some(AnswerEach(members, libs, txs))
  }

  function AnswerEach(members: seq<Address>, libs: Libraries, txs: seq<InternalTransaction>): (r: seq<Receipt>)
    ensures |r| == |txs| && forall i :: 0 <= i < |txs| ==> r[i] == Answer(members, libs, txs[i])
  {
    seq(|txs|, i requires 0 <= i < |txs| => Answer(members, libs, txs[i]))
  }

  function Ejections(members: seq<Address>, libs: Libraries, validators: seq<Peer>): seq<Receipt> {
    if validators == [] then []
    else
      var p := validators[|validators| - 1];
      Ejections(members, libs, validators[..|validators| - 1])
      + if Unauthorised(members, libs, p) then [Receipt(PeerRemove(p), true)] else []
  }

  function CurrentValidators(libs: Libraries): seq<Peer> {
    if libs.validatorSet.Found? then libs.validatorSet.validators else []
  }

  /** The ledger after the block, and the response. */
  function Commit(l: Ledger, block: Block, libs: Libraries): (Ledger, Response) {
    match CoinbaseOf(block, libs)
    case NoCoinbase(response) => (l, response)
    case Coinbase(_) =>
      var l' := Last(l, ContractCalls(block.transactions));
      if libs.commitFails then (l', Error)
      else match Answers(l'.members, libs, block.internal)
        case None => (l', Crashed)
        case Some(receipts) => (l', Committed(receipts + Ejections(l'.members, libs, CurrentValidators(libs))))
  }

  lemma CallsNext(txs: seq<Transaction>, i: nat)
    requires i < |txs|
    ensures ContractCalls(txs[..i + 1]) == ContractCalls(txs[..i]) + if txs[i].ToContract? then [txs[i].call] else []
    ensures txs[i].Elsewhere? ==> ContractCalls(txs[..i + 1]) == ContractCalls(txs[..i])
  {
    assert txs[..i + 1][..i] == txs[..i];
  }

  /** From `start` and `log`, the calls have led to `view`, with these replies and
      this log. */
  ghost predicate Follows(start: Ledger, log: seq<Event>, calls: seq<Call>,
                          view: Ledger, replies: seq<Reply>, log': seq<Event>)
  {
    var t := Run(Ledger.Step, start, calls);
    view == t.last && replies == t.replies && log' == log + t.events
  }

  lemma FollowsNext(start: Ledger, log: seq<Event>, calls: seq<Call>,
                    view: Ledger, replies: seq<Reply>, log': seq<Event>, c: Call)
    requires Follows(start, log, calls, view, replies, log')
    ensures var o := Ledger.Step(view, c);
            Follows(start, log, calls + [c], o.next, replies + [o.reply], log' + o.events)
  {
    RunSnoc(Ledger.Step, start, calls, c);
    ConcatAssoc(log, Run(Ledger.Step, start, calls).events, Ledger.Step(view, c).events);
  }

  class InmemProxy {
    const poa: Poa

    constructor (poa: Poa)
      ensures this.poa == poa
    {
      this.poa := poa;
    }

    /** Also returns the coinbase, which the transactions' fees go to. */
    method CommitBlock(block: Block, libs: Libraries) returns (r: Response, coinbase: CoinbaseResult)
      requires poa.Sound()
      modifies poa
      ensures poa.Sound()
      ensures (poa.View(), r) == Commit(old(poa.View()), block, libs) && coinbase == CoinbaseOf(block, libs)
      ensures poa.log == old(poa.log) + if coinbase.NoCoinbase? then []
                                        else Events(old(poa.View()), ContractCalls(block.transactions))
    {
      coinbase := GetCoinbase(block, libs);
      if coinbase.NoCoinbase? {
        return coinbase.response, coinbase;
      }
      var _ := ApplyTransactions(block.transactions);
      if libs.commitFails {
        return Error, coinbase;
      }
      var internalReceipts := ProcessInternalTransactions(block.internal, libs);
      if internalReceipts.None? {
        return Crashed, coinbase;
      }
      var evictionReceipts := ProcessEvictions(libs);
      return Committed(internalReceipts.value + evictionReceipts), coinbase;
    }

    /** The zero address without a Babble node; otherwise the address of the validator
        at the hash modulo the length, as 32-bit numbers; an error or a panic if the
        lookup fails, the key does not unmarshal or the length is zero. */
    method GetCoinbase(block: Block, libs: Libraries) returns (r: CoinbaseResult)
      ensures libs.validatorSet.NoBabble? ==> r == Coinbase(ZERO_ADDRESS)
      ensures libs.validatorSet.LookupError? ==> r == NoCoinbase(Error)
      ensures libs.validatorSet.Found? ==>
                var validators, n := libs.validatorSet.validators, |libs.validatorSet.validators| % TWO_32;
                if n == 0 then r == NoCoinbase(Crashed)
                else var a := libs.address(validators[block.hash32 % n].pubKey);
                     r == if a.None? then NoCoinbase(Error) else Coinbase(a.value)
      ensures r == CoinbaseOf(block, libs)
    {
      var coinbaseAddress := ZERO_ADDRESS;
      if !libs.validatorSet.NoBabble? {
        if libs.validatorSet.LookupError? {
          return NoCoinbase(Error);
        }
        var babbleValidators := libs.validatorSet.validators;
        if |babbleValidators| % TWO_32 == 0 {
          return NoCoinbase(Crashed);
        }
        var coinbaseValidator := babbleValidators[Pick(block.hash32, |babbleValidators|)];
        var coinbasePubKey := libs.address(coinbaseValidator.pubKey);
        if coinbasePubKey.None? {
          return NoCoinbase(Error);
        }
        coinbaseAddress := coinbasePubKey.value;
      }
      return Coinbase(coinbaseAddress);
    }

    /** The loop over a block's transactions. Any calls whatever can be in a block:
        the contract answers, logs and ends as the ledger does and as the set
        machine does. */
    method ApplyTransactions(txs: seq<Transaction>) returns (replies: seq<Reply>)
      requires poa.Sound()
      modifies poa
      ensures poa.Sound()
      ensures var t := Run(Ledger.Step, old(poa.View()), ContractCalls(txs));
              poa.View() == t.last && replies == t.replies && poa.log == old(poa.log) + t.events
      ensures var u := Run(Council.Step, old(poa.View()).Council(), ContractCalls(txs));
              poa.View().Council() == u.last && replies == u.replies && poa.log == old(poa.log) + u.events
    {
      replies := [];
      var i := 0;
      while i < |txs|
        invariant 0 <= i <= |txs| && poa.Sound()
        invariant Follows(old(poa.View()), old(poa.log), ContractCalls(txs[..i]), poa.View(), replies, poa.log)
      {
        CallsNext(txs, i);
        match txs[i] {
          case ToContract(call) =>
            FollowsNext(old(poa.View()), old(poa.log), ContractCalls(txs[..i]), poa.View(), replies, poa.log, call);
            var reply := poa.Apply(call);
            replies := replies + [reply];
          case Elsewhere =>
        }
        i := i + 1;
      }
      assert txs[..i] == txs;
      RunRefines(old(poa.View()), ContractCalls(txs));
    }

    method ProcessInternalTransactions(txs: seq<InternalTransaction>, libs: Libraries) returns (r: Option<seq<Receipt>>)
      requires poa.Sound()
      ensures r == Answers(poa.View().members, libs, txs)
    {
      var receipts := [];
      var i := 0;
      while i < |txs|
        invariant 0 <= i <= |txs| && |receipts| == i
        invariant forall j :: 0 <= j < i ==> receipts[j] == Answer(poa.View().members, libs, txs[j])
        invariant forall j :: 0 <= j < i ==> txs[j].PeerAdd? ==> libs.address(txs[j].peer.pubKey).Some?
      {
        match txs[i] {
          case PeerAdd(peer) =>
            var pk := libs.address(peer.pubKey);
            if pk.None? {
              return None;
            }
            if libs.checkFails(pk.value) {
              receipts := receipts + [Receipt(txs[i], false)];
            } else if poa.IsWhitelisted(pk.value) {
              receipts := receipts + [Receipt(txs[i], true)];
            } else {
              receipts := receipts + [Receipt(txs[i], false)];
            }
          case PeerRemove(_) =>
            receipts := receipts + [Receipt(txs[i], true)];
        }
        i := i + 1;
      }
      assert receipts == AnswerEach(poa.View().members, libs, txs);
      return Some(receipts);
    }

    method ProcessEvictions(libs: Libraries) returns (receipts: seq<Receipt>)
      requires poa.Sound()
      ensures receipts == Ejections(poa.View().members, libs, CurrentValidators(libs))
    {
      receipts := [];
      if libs.validatorSet.Found? {
        var validators := libs.validatorSet.validators;
        var i := 0;
        while i < |validators|
          invariant 0 <= i <= |validators|
          invariant receipts == Ejections(poa.View().members, libs, validators[..i])
        {
          assert validators[..i + 1][..i] == validators[..i];
          var pk := libs.address(validators[i].pubKey);
          if pk.Some? && !libs.checkFails(pk.value) && !poa.IsWhitelisted(pk.value) {
            receipts := receipts + [Receipt(PeerRemove(validators[i]), true)];
          }
          i := i + 1;
        }
        assert validators[..i] == validators;
      }
    }
  }

  // ---- Who gets the fees.

  /** How many of the first `bound` hashes make `a` the coinbase of the block. */
  function CoinbaseHits(block: Block, libs: Libraries, a: Address, bound: nat): nat
    requires bound <= TWO_32
  {
    if bound == 0 then 0
    else
      CoinbaseHits(block, libs, a, bound - 1)
      + if CoinbaseOf(block.(hash32 := bound - 1), libs) == Coinbase(a) then 1 else 0
  }

  /** The validators' keys give pairwise different addresses. */
  ghost predicate DifferentAddresses(validators: seq<Peer>, address: PubKey -> Option<Address>) {
    && (forall i :: 0 <= i < |validators| ==> address(validators[i].pubKey).Some?)
    && (forall i, j :: 0 <= i < j < |validators| ==> address(validators[i].pubKey) != address(validators[j].pubKey))
  }

  /** Whatever the hash, the coinbase is the validator at that position of the list. */
  lemma CoinbaseIs(block: Block, libs: Libraries)
    requires libs.validatorSet.Found? && 0 < |libs.validatorSet.validators| < TWO_32
    requires DifferentAddresses(libs.validatorSet.validators, libs.address)
    ensures var validators := libs.validatorSet.validators;
            CoinbaseOf(block, libs) == Coinbase(libs.address(validators[block.hash32 % |validators|].pubKey).value)
  {
    assert |libs.validatorSet.validators| % TWO_32 == |libs.validatorSet.validators|;
  }

  lemma {:induction false} HitsAreCoinbases(block: Block, libs: Libraries, k: nat, bound: nat)
    requires libs.validatorSet.Found? && k < |libs.validatorSet.validators| < TWO_32 && bound <= TWO_32
    requires DifferentAddresses(libs.validatorSet.validators, libs.address)
    ensures var validators := libs.validatorSet.validators;
            CoinbaseHits(block, libs, libs.address(validators[k].pubKey).value, bound) == Hits(|validators|, k, bound)
  {
    if bound > 0 {
      HitsAreCoinbases(block, libs, k, bound - 1);
      CoinbaseIs(block.(hash32 := bound - 1), libs);
    }
  }

  /** Of all the 2^32 hashes, each validator gets the fees for its share, rounded
      down or up. */
  lemma CoinbaseIsFair(block: Block, libs: Libraries, k: nat)
    requires libs.validatorSet.Found? && k < |libs.validatorSet.validators| < TWO_32
    requires DifferentAddresses(libs.validatorSet.validators, libs.address)
    ensures var validators := libs.validatorSet.validators;
            var hits := CoinbaseHits(block, libs, libs.address(validators[k].pubKey).value, TWO_32);
            TWO_32 / |validators| <= hits <= TWO_32 / |validators| + if TWO_32 % |validators| == 0 then 0 else 1
  {
    HitsAreCoinbases(block, libs, k, TWO_32);
    EvenlyPicked(|libs.validatorSet.validators|, k);
  }

  // ---- The receipts of a block.

  /** How many of the first `j` validators are to be ejected. */
  function Leaving(members: seq<Address>, libs: Libraries, validators: seq<Peer>, j: nat): nat
    requires j <= |validators|
  {
    if j == 0 then 0
    else Leaving(members, libs, validators, j - 1) + if Unauthorised(members, libs, validators[j - 1]) then 1 else 0
  }

  lemma EjectionsNext(members: seq<Address>, libs: Libraries, validators: seq<Peer>, j: nat)
    requires j < |validators|
    ensures Ejections(members, libs, validators[..j + 1]) == Ejections(members, libs, validators[..j])
              + if Unauthorised(members, libs, validators[j]) then [Receipt(PeerRemove(validators[j]), true)] else []
  {
    assert validators[..j + 1][..j] == validators[..j];
  }

  lemma {:induction false} EjectionsInOrder(members: seq<Address>, libs: Libraries, validators: seq<Peer>, k: nat)
    requires k <= |validators|
    ensures |Ejections(members, libs, validators[..k])| == Leaving(members, libs, validators, k)
    ensures forall j :: 0 <= j < k && Unauthorised(members, libs, validators[j]) ==>
              && Leaving(members, libs, validators, j) < Leaving(members, libs, validators, k)
              && Ejections(members, libs, validators[..k])[Leaving(members, libs, validators, j)]
                   == Receipt(PeerRemove(validators[j]), true)
  {
    if k > 0 {
      EjectionsInOrder(members, libs, validators, k - 1);
      EjectionsNext(members, libs, validators, k - 1);
    }
  }

  /** An answer to each request in order, a join accepted exactly for a whitelisted
      address that could be checked. */
  ghost predicate AnswersInOrder(receipts: seq<Receipt>, txs: seq<InternalTransaction>, members: seq<Address>,
                                 libs: Libraries)
    requires |txs| <= |receipts|
  {
    forall i :: 0 <= i < |txs| ==>
      var tx, a := txs[i], libs.address(txs[i].peer.pubKey);
      && receipts[i].tx == tx
      && (receipts[i].accepted <==> tx.PeerRemove? || (a.Some? && a.value in members && !libs.checkFails(a.value)))
  }

  /** The removals of the validators found off the whitelist, in order. */
  ghost predicate RemovalsInOrder(receipts: seq<Receipt>, validators: seq<Peer>, members: seq<Address>, libs: Libraries)
  {
    && |receipts| == Leaving(members, libs, validators, |validators|)
    && forall j :: 0 <= j < |validators| && Unauthorised(members, libs, validators[j]) ==>
         && Leaving(members, libs, validators, j) < |receipts|
         && receipts[Leaving(members, libs, validators, j)] == Receipt(PeerRemove(validators[j]), true)
  }

  /** The receipts of a committed block, one by one. */
  lemma ReceiptsInOrder(l: Ledger, block: Block, libs: Libraries)
    requires Commit(l, block, libs).1.Committed?
    ensures var members, n := Last(l, ContractCalls(block.transactions)).members, |block.internal|;
            var receipts := Commit(l, block, libs).1.receipts;
            && n <= |receipts| && AnswersInOrder(receipts, block.internal, members, libs)
            && RemovalsInOrder(receipts[n..], CurrentValidators(libs), members, libs)
  {
    var members, validators := Last(l, ContractCalls(block.transactions)).members, CurrentValidators(libs);
    var answers, removals := AnswerEach(members, libs, block.internal), Ejections(members, libs, validators);
    EjectionsInOrder(members, libs, validators, |validators|);
    assert validators[..|validators|] == validators;
    assert (answers + removals)[|answers|..] == removals;
  }

  /** When a commit is an error and when it panics. */
  lemma FailsWhen(l: Ledger, block: Block, libs: Libraries)
    ensures libs.validatorSet.Found? ==>
              var validators, response := libs.validatorSet.validators, Commit(l, block, libs).1;
              var n := |validators| % TWO_32;
              && (response == Error <==>
                    n != 0 && (libs.address(validators[block.hash32 % n].pubKey).None? || libs.commitFails))
              && (response == Crashed <==>
                    || n == 0
                    || (&& libs.address(validators[block.hash32 % n].pubKey).Some? && !libs.commitFails
                        && !JoinKeysUnmarshal(block, libs.address)))
    ensures libs.validatorSet.LookupError? ==> Commit(l, block, libs) == (l, Error)
    ensures libs.validatorSet.NoBabble? ==>
              var response := Commit(l, block, libs).1;
              && (response == Error <==> libs.commitFails)
              && (response == Crashed <==> !libs.commitFails && !JoinKeysUnmarshal(block, libs.address))
  {
  }

  // ---- The validator set over blocks.

  /** Babble's reaction to one receipt: an accepted join adds the peer unless
      its key is there already, an accepted leave drops its key. */
  function ApplyReceipt(validators: seq<Peer>, r: Receipt): seq<Peer> {
    if !r.accepted then validators
    else match r.tx
      case PeerAdd(p) => if HasKey(validators, p.pubKey) then validators else validators + [p]
      case PeerRemove(p) => DropKey(validators, p.pubKey)
  }

  predicate HasKey(validators: seq<Peer>, key: PubKey) {
    exists i :: 0 <= i < |validators| && validators[i].pubKey == key
  }

  function DropKey(validators: seq<Peer>, key: PubKey): (r: seq<Peer>)
    ensures forall p :: p in r <==> p in validators && p.pubKey != key
  {
    if validators == [] then []
    else
      var n := |validators| - 1;
      assert validators == validators[..n] + [validators[n]];
      DropKey(validators[..n], key) + if validators[n].pubKey == key then [] else [validators[n]]
  }

  function ApplyReceipts(validators: seq<Peer>, receipts: seq<Receipt>): seq<Peer> {
    if receipts == [] then validators
    else ApplyReceipt(ApplyReceipts(validators, receipts[..|receipts| - 1]), receipts[|receipts| - 1])
  }

  lemma {:induction false} ApplyConcat(validators: seq<Peer>, first: seq<Receipt>, second: seq<Receipt>)
    ensures ApplyReceipts(validators, first + second) == ApplyReceipts(ApplyReceipts(validators, first), second)
  {
    if second == [] {
      assert first + second == first;
    } else {
      var n := |second| - 1;
      ApplyConcat(validators, first, second[..n]);
      assert (first + second)[..|first| + n] == first + second[..n];
    }
  }

  /** Where a validator comes from: it was there, or an accepted join brought
      it in. */
  lemma {:induction false} Origin(validators: seq<Peer>, receipts: seq<Receipt>, p: Peer)
    requires p in ApplyReceipts(validators, receipts)
    ensures p in validators || Receipt(PeerAdd(p), true) in receipts
  {
    if receipts != [] {
      var n := |receipts| - 1;
      var before := ApplyReceipts(validators, receipts[..n]);
      if p in before {
        Origin(validators, receipts[..n], p);
      } else {
        assert receipts[n] == Receipt(PeerAdd(p), true);
      }
    }
  }

  lemma {:induction false} EjectionsAre(members: seq<Address>, libs: Libraries, validators: seq<Peer>)
    ensures forall r :: r in Ejections(members, libs, validators) <==>
              r.accepted && r.tx.PeerRemove? && r.tx.peer in validators && Unauthorised(members, libs, r.tx.peer)
  {
    if validators != [] {
      var n := |validators| - 1;
      EjectionsAre(members, libs, validators[..n]);
      assert validators == validators[..n] + [validators[n]];
    }
  }

  /** A key dropped by some receipt, and joined by none, is gone. */
  lemma {:induction false} Dropped(validators: seq<Peer>, receipts: seq<Receipt>, p: Peer)
    requires exists r :: r in receipts && r.accepted && r.tx.PeerRemove? && r.tx.peer.pubKey == p.pubKey
    requires forall r :: r in receipts && r.accepted && r.tx.PeerAdd? ==> r.tx.peer.pubKey != p.pubKey
    ensures p !in ApplyReceipts(validators, receipts)
  {
    var n := |receipts| - 1;
    var last := receipts[n];
    if !(last.accepted && last.tx.PeerRemove? && last.tx.peer.pubKey == p.pubKey) {
      assert receipts == receipts[..n] + [last];
      Dropped(validators, receipts[..n], p);
    }
  }

  /** A validator no receipt asks to remove stays. */
  lemma {:induction false} Kept(validators: seq<Peer>, receipts: seq<Receipt>, p: Peer)
    requires p in validators
    requires forall r :: r in receipts && r.accepted && r.tx.PeerRemove? ==> r.tx.peer.pubKey != p.pubKey
    ensures p in ApplyReceipts(validators, receipts)
  {
    if receipts != [] {
      Kept(validators, receipts[..|receipts| - 1], p);
    }
  }

  /** After a committed block whose receipts are applied, every validator is a
      whitelisted address, except one that was there before and could not be
      checked: its key does not unmarshal or the check failed. */
  lemma BlockIsSafe(l: Ledger, block: Block, libs: Libraries, p: Peer)
    requires libs.validatorSet.Found? && Commit(l, block, libs).1.Committed?
    requires p in ApplyReceipts(libs.validatorSet.validators, Commit(l, block, libs).1.receipts)
    ensures var members := Commit(l, block, libs).0.members;
            || Authorised(members, libs, p)
            || (p in libs.validatorSet.validators && !Unauthorised(members, libs, p))
  {
    var validators := libs.validatorSet.validators;
    var members := Commit(l, block, libs).0.members;
    var answers := Answers(members, libs, block.internal).value;
    var ejections := Ejections(members, libs, validators);
    ApplyConcat(validators, answers, ejections);
    Origin(validators, answers + ejections, p);
    EjectionsAre(members, libs, validators);
    if p in validators && Unauthorised(members, libs, p) {
      assert Receipt(PeerRemove(p), true) in ejections;
      Dropped(ApplyReceipts(validators, answers), ejections, p);
    }
  }

  /** A whitelisted validator stays unless the block asks for its removal. */
  lemma MembersStay(l: Ledger, block: Block, libs: Libraries, p: Peer)
    requires libs.validatorSet.Found? && Commit(l, block, libs).1.Committed?
    requires p in libs.validatorSet.validators && Authorised(Commit(l, block, libs).0.members, libs, p)
    requires forall tx :: tx in block.internal && tx.PeerRemove? ==> tx.peer.pubKey != p.pubKey
    ensures p in ApplyReceipts(libs.validatorSet.validators, Commit(l, block, libs).1.receipts)
  {
    var members := Commit(l, block, libs).0.members;
    EjectionsAre(members, libs, libs.validatorSet.validators);
    Kept(libs.validatorSet.validators, Commit(l, block, libs).1.receipts, p);
  }

  /** The block has a leave request for this key. */
  predicate AsksRemoval(block: Block, key: PubKey) {
    exists i :: 0 <= i < |block.internal| && block.internal[i].PeerRemove? && block.internal[i].peer.pubKey == key
  }

  lemma AskedIsDropped(l: Ledger, block: Block, libs: Libraries, p: Peer)
    requires libs.validatorSet.Found? && Commit(l, block, libs).1.Committed? && libs.address(p.pubKey).Some?
    requires libs.address(p.pubKey).value !in Commit(l, block, libs).0.members && AsksRemoval(block, p.pubKey)
    ensures p !in ApplyReceipts(libs.validatorSet.validators, Commit(l, block, libs).1.receipts)
  {
    var members := Commit(l, block, libs).0.members;
    var answers := AnswerEach(members, libs, block.internal);
    var receipts := Commit(l, block, libs).1.receipts;
    EjectionsAre(members, libs, libs.validatorSet.validators);
    var i :| 0 <= i < |block.internal| && block.internal[i].PeerRemove? && block.internal[i].peer.pubKey == p.pubKey;
    assert answers[i] in receipts && answers[i].accepted;
    Dropped(libs.validatorSet.validators, receipts, p);
  }

  /** A validator that is not on the new whitelist outlasts a committed block
      exactly when its check fails and the block does not ask for its removal. */
  lemma OutsiderStaysWhen(l: Ledger, block: Block, libs: Libraries, p: Peer)
    requires libs.validatorSet.Found? && Commit(l, block, libs).1.Committed?
    requires p in libs.validatorSet.validators && libs.address(p.pubKey).Some?
    requires libs.address(p.pubKey).value !in Commit(l, block, libs).0.members
    ensures p in ApplyReceipts(libs.validatorSet.validators, Commit(l, block, libs).1.receipts)
       <==> libs.checkFails(libs.address(p.pubKey).value) && !AsksRemoval(block, p.pubKey)
  {
    if AsksRemoval(block, p.pubKey) {
      AskedIsDropped(l, block, libs, p);
    } else if libs.checkFails(libs.address(p.pubKey).value) {
      EjectionsAre(Commit(l, block, libs).0.members, libs, libs.validatorSet.validators);
      Kept(libs.validatorSet.validators, Commit(l, block, libs).1.receipts, p);
    } else {
      if p in ApplyReceipts(libs.validatorSet.validators, Commit(l, block, libs).1.receipts) {
        BlockIsSafe(l, block, libs, p);
      }
    }
  }

  /** The block has a join request for this key. */
  predicate AsksJoin(block: Block, key: PubKey) {
    exists i :: 0 <= i < |block.internal| && block.internal[i].PeerAdd? && block.internal[i].peer.pubKey == key
  }

  /** A key joined by some receipt, and dropped by none, is there. */
  lemma {:induction false} Entered(validators: seq<Peer>, receipts: seq<Receipt>, key: PubKey)
    requires exists r :: r in receipts && r.accepted && r.tx.PeerAdd? && r.tx.peer.pubKey == key
    requires forall r :: r in receipts && r.accepted && r.tx.PeerRemove? ==> r.tx.peer.pubKey != key
    ensures HasKey(ApplyReceipts(validators, receipts), key)
  {
    var n := |receipts| - 1;
    var last, before := receipts[n], ApplyReceipts(validators, receipts[..n]);
    if HasKey(before, key) {
      KeyStays(before, last, key);
    } else if last.accepted && last.tx.PeerAdd? && last.tx.peer.pubKey == key {
      assert (before + [last.tx.peer])[|before|].pubKey == key;
    } else {
      assert receipts == receipts[..n] + [last];
      Entered(validators, receipts[..n], key);
    }
  }

  lemma KeyStays(validators: seq<Peer>, r: Receipt, key: PubKey)
    requires HasKey(validators, key) && !(r.accepted && r.tx.PeerRemove? && r.tx.peer.pubKey == key)
    ensures HasKey(ApplyReceipt(validators, r), key)
  {
    var i :| 0 <= i < |validators| && validators[i].pubKey == key;
    assert validators[i] in ApplyReceipt(validators, r) by {
      if r.accepted && r.tx.PeerAdd? && !HasKey(validators, r.tx.peer.pubKey) {
        assert (validators + [r.tx.peer])[i] == validators[i];
      }
    }
  }

  lemma CameByJoin(validators: seq<Peer>, receipts: seq<Receipt>, key: PubKey) returns (p: Peer)
    requires HasKey(ApplyReceipts(validators, receipts), key) && !HasKey(validators, key)
    ensures p.pubKey == key && Receipt(PeerAdd(p), true) in receipts
  {
    var after := ApplyReceipts(validators, receipts);
    var j :| 0 <= j < |after| && after[j].pubKey == key;
    p := after[j];
    Origin(validators, receipts, p);
  }

  /** A newcomer whose removal nobody asks for becomes a validator in a committed
      block exactly when the block has a join request for its key, its address is
      whitelisted after the block's transactions, and its check works. */
  lemma NewcomerEntersWhen(l: Ledger, block: Block, libs: Libraries, key: PubKey)
    requires libs.validatorSet.Found? && Commit(l, block, libs).1.Committed?
    requires !HasKey(libs.validatorSet.validators, key) && !AsksRemoval(block, key)
    ensures HasKey(ApplyReceipts(libs.validatorSet.validators, Commit(l, block, libs).1.receipts), key)
       <==> && AsksJoin(block, key) && libs.address(key).Some? && !libs.checkFails(libs.address(key).value)
            && libs.address(key).value in Last(l, ContractCalls(block.transactions)).members
  {
    var members, validators := Last(l, ContractCalls(block.transactions)).members, libs.validatorSet.validators;
    var answers, receipts := AnswerEach(members, libs, block.internal), Commit(l, block, libs).1.receipts;
    EjectionsAre(members, libs, validators);
    if i :| 0 <= i < |block.internal| && block.internal[i].PeerAdd? && block.internal[i].peer.pubKey == key
            && answers[i].accepted {
      assert answers[i] in receipts;
      Entered(validators, receipts, key);
    }
    if HasKey(ApplyReceipts(validators, receipts), key) {
      var p := CameByJoin(validators, receipts, key);
      assert Receipt(PeerAdd(p), true) in answers;
    }
  }

  datatype Network = Network(ledger: Ledger, validators: seq<Peer>)

  /** One block and the failures that occur while it is committed. */
  datatype Round = Round(block: Block, checkFails: Address -> bool, commitFails: bool)

  function Libs(net: Network, e: Round, address: PubKey -> Option<Address>): Libraries {
    Libraries(address, Found(net.validators), e.checkFails, e.commitFails)
  }

  function Advance(net: Network, e: Round, address: PubKey -> Option<Address>): Network {
    var (l, response) := Commit(net.ledger, e.block, Libs(net, e, address));
    Network(l, if response.Committed? then ApplyReceipts(net.validators, response.receipts) else net.validators)
  }

  function Chain(net: Network, rounds: seq<Round>, address: PubKey -> Option<Address>): Network {
    if rounds == [] then net
    else Advance(Chain(net, rounds[..|rounds| - 1], address), rounds[|rounds| - 1], address)
  }

  /** Every validator's address is whitelisted. */
  ghost predicate Safe(net: Network, address: PubKey -> Option<Address>) {
    forall p :: p in net.validators ==> address(p.pubKey).Some? && address(p.pubKey).value in net.ledger.members
  }

  /** Every join request carries a key that unmarshals. */
  predicate JoinKeysUnmarshal(block: Block, address: PubKey -> Option<Address>) {
    forall i :: 0 <= i < |block.internal| && block.internal[i].PeerAdd? ==> address(block.internal[i].peer.pubKey).Some?
  }

  /** The ledger after the block's transactions, if there are validators enough to
      pick a coinbase from (and not a multiple of 2^32). */
  function Voted(net: Network, e: Round): Ledger {
    if |net.validators| % TWO_32 == 0 then net.ledger else Last(net.ledger, ContractCalls(e.block.transactions))
  }

  /** If the votes in the block leave a validator off the whitelist, the state commit
      works, the join keys unmarshal, and the block asks for that validator's removal
      or its check works. */
  ghost predicate Contained(net: Network, e: Round, address: PubKey -> Option<Address>) {
    forall p :: p in net.validators && address(p.pubKey).Some? && address(p.pubKey).value !in Voted(net, e).members ==>
      && !e.commitFails && JoinKeysUnmarshal(e.block, address)
      && (AsksRemoval(e.block, p.pubKey) || !e.checkFails(address(p.pubKey).value))
  }

  /** In a safe network the coinbase is always found, so that a block is committed
      exactly when the state commit works and the join keys unmarshal. */
  lemma CommittedWhen(net: Network, e: Round, address: PubKey -> Option<Address>)
    requires Safe(net, address)
    ensures var (l, response) := Commit(net.ledger, e.block, Libs(net, e, address));
            && l == Voted(net, e)
            && (response.Committed? <==>
                  |net.validators| % TWO_32 != 0 && !e.commitFails && JoinKeysUnmarshal(e.block, address))
  {
    if |net.validators| % TWO_32 != 0 {
      assert net.validators[Pick(e.block.hash32, |net.validators|)] in net.validators;
    }
  }

  lemma AdvanceIsSafeIf(net: Network, e: Round, address: PubKey -> Option<Address>)
    requires Safe(net, address) && Contained(net, e, address)
    ensures Safe(Advance(net, e, address), address)
  {
    CommittedWhen(net, e, address);
    var net' := Advance(net, e, address);
    forall p | p in net'.validators
      ensures address(p.pubKey).Some? && address(p.pubKey).value in net'.ledger.members
    {
      if Commit(net.ledger, e.block, Libs(net, e, address)).1.Committed? {
        BlockIsSafe(net.ledger, e.block, Libs(net, e, address), p);
        if p in net.validators && address(p.pubKey).value !in net'.ledger.members {
          OutsiderStaysWhen(net.ledger, e.block, Libs(net, e, address), p);
        }
      }
    }
  }

  /** From a safe network, the next one is safe exactly when the round is
      contained. */
  lemma AdvanceIsSafeWhen(net: Network, e: Round, address: PubKey -> Option<Address>)
    requires Safe(net, address)
    ensures Safe(Advance(net, e, address), address) <==> Contained(net, e, address)
  {
    CommittedWhen(net, e, address);
    if Contained(net, e, address) {
      AdvanceIsSafeIf(net, e, address);
    } else {
      var p :| p in net.validators && address(p.pubKey).Some? && address(p.pubKey).value !in Voted(net, e).members
               && !(!e.commitFails && JoinKeysUnmarshal(e.block, address)
                    && (AsksRemoval(e.block, p.pubKey) || !e.checkFails(address(p.pubKey).value)));
      if Commit(net.ledger, e.block, Libs(net, e, address)).1.Committed? {
        OutsiderStaysWhen(net.ledger, e.block, Libs(net, e, address), p);
      }
      assert p in Advance(net, e, address).validators;
    }
  }

  /** Safe at the start and after every round. */
  ghost predicate SafeThroughout(net: Network, rounds: seq<Round>, address: PubKey -> Option<Address>) {
    && Safe(Chain(net, rounds, address), address)
    && (rounds != [] ==> SafeThroughout(net, rounds[..|rounds| - 1], address))
  }

  /** Every round is contained in the network it starts from. */
  ghost predicate ContainedThroughout(net: Network, rounds: seq<Round>, address: PubKey -> Option<Address>) {
    rounds != [] ==>
      var n := |rounds| - 1;
      && ContainedThroughout(net, rounds[..n], address)
      && Contained(Chain(net, rounds[..n], address), rounds[n], address)
  }

  /** From validators that are whitelisted, whatever is voted, requested or sent,
      the validators are whitelisted after every block if and only if every round
      is contained. */
  lemma {:induction false} NetworkSafety(net: Network, rounds: seq<Round>, address: PubKey -> Option<Address>)
    requires Safe(net, address)
    ensures SafeThroughout(net, rounds, address) <==> ContainedThroughout(net, rounds, address)
  {
    if rounds != [] {
      var n := |rounds| - 1;
      NetworkSafety(net, rounds[..n], address);
      if SafeThroughout(net, rounds[..n], address) {
        AdvanceIsSafeWhen(Chain(net, rounds[..n], address), rounds[n], address);
      }
    }
  }

  /** The only member votes itself out. It stays a validator if the state commit
      fails, a join key does not unmarshal, or its check fails and nobody asks for
      its removal; and only then. */
  lemma FailedRound(a: Address, p: Peer, e: Round, address: PubKey -> Option<Address>)
    requires a != ZERO_ADDRESS && address(p.pubKey) == Some(a)
    requires e.block.transactions
          == [ToContract(Call.SubmitEviction(a, a)), ToContract(CastEvictionVote(a, a, true))]
    ensures var net := Network(Genesis([a]), [p]);
            && Safe(net, address)
            && (Safe(Advance(net, e, address), address) <==>
                  && !e.commitFails && JoinKeysUnmarshal(e.block, address)
                  && (AsksRemoval(e.block, p.pubKey) || !e.checkFails(a)))
  {
    var net := Network(Genesis([a]), [p]);
    var txs := e.block.transactions;
    CallsNext(txs, 0);
    CallsNext(txs, 1);
    assert txs[..2] == txs && txs[..0] == [];
    GenesisInv([a]);
    var leave := [Call.SubmitEviction(a, a), CastEvictionVote(a, a, true)];
    Rounds.LastMemberLeavesForever(Genesis([a]), a, []);
    assert leave + [] == leave == ContractCalls(txs);
    AdvanceIsSafeWhen(net, e, address);
    assert p in net.validators;
  }

  /** One join request with a bad key is enough, though nothing else fails. */
  lemma BadJoinKeyRound(a: Address, p: Peer, joiner: Peer, e: Round, address: PubKey -> Option<Address>)
    requires a != ZERO_ADDRESS && address(p.pubKey) == Some(a) && address(joiner.pubKey) == None
    requires e.block.transactions
          == [ToContract(Call.SubmitEviction(a, a)), ToContract(CastEvictionVote(a, a, true))]
    requires e.block.internal == [PeerAdd(joiner)] && !e.commitFails && forall b: Address :: !e.checkFails(b)
    ensures var net := Network(Genesis([a]), [p]);
            && Safe(net, address) && !Safe(Advance(net, e, address), address)
            && Commit(net.ledger, e.block, Libs(net, e, address)).1 == Crashed
  {
    FailedRound(a, p, e, address);
    assert e.block.internal[0] == PeerAdd(joiner);
  }

  /** A round whose votes remove no member, and without requests, changes only the
      ledger. */
  lemma QuietRound(net: Network, e: Round, address: PubKey -> Option<Address>)
    requires Safe(net, address) && e.block.internal == []
    requires forall a :: a in net.ledger.members ==> a in Voted(net, e).members
    ensures Advance(net, e, address) == Network(Voted(net, e), net.validators)
  {
    CommittedWhen(net, e, address);
    NoEjections(Voted(net, e).members, Libs(net, e, address), net.validators);
  }

  lemma {:induction false} NoEjections(members: seq<Address>, libs: Libraries, validators: seq<Peer>)
    requires forall p :: p in validators ==> !Unauthorised(members, libs, p)
    ensures Ejections(members, libs, validators) == []
  {
    if validators != [] {
      NoEjections(members, libs, validators[..|validators| - 1]);
    }
  }

  lemma ChainNext(net: Network, rounds: seq<Round>, address: PubKey -> Option<Address>, i: nat)
    requires i < |rounds|
    ensures Chain(net, rounds[..0], address) == net
    ensures Chain(net, rounds[..i + 1], address) == Advance(Chain(net, rounds[..i], address), rounds[i], address)
  {
    assert rounds[..i + 1][..i] == rounds[..i];
  }

  lemma OutsidersHaveNoKey(net: Network, address: PubKey -> Option<Address>, key: PubKey)
    requires Safe(net, address) && address(key).Some? && address(key).value !in net.ledger.members
    ensures !HasKey(net.validators, key)
  {
    forall i | 0 <= i < |net.validators| ensures net.validators[i].pubKey != key {
      assert net.validators[i] in net.validators;
    }
  }

  /** From nomination to validation: admitted by all members in one round, a nominee
      that asks to join in the next is a validator after it, and the network is
      still safe. */
  lemma NomineeBecomesValidator(net: Network, vote: Round, ask: Round, address: PubKey -> Option<Address>,
                                a: Address, key: PubKey, proposer: Address, moniker: bytes32, voters: seq<Address>,
                                rounds: seq<Round>)
    requires rounds == [vote, ask]
    requires net.ledger.Inv() && Safe(net, address) && |net.validators| % TWO_32 != 0
    requires a != ZERO_ADDRESS && a !in net.ledger.members && a !in net.ledger.ballots
    requires NoDup(voters) && Elems(voters) == Elems(net.ledger.members) && address(key) == Some(a)
    requires ContractCalls(vote.block.transactions)
          == [Call.SubmitNominee(proposer, a, moniker)] + Rounds.YesVotes(voters, a)
    requires vote.block.internal == [] && ContractCalls(ask.block.transactions) == []
    requires AsksJoin(ask.block, key) && !AsksRemoval(ask.block, key) && JoinKeysUnmarshal(ask.block, address)
    requires !ask.commitFails && !ask.checkFails(a)
    ensures var net' := Chain(net, rounds, address);
            HasKey(net'.validators, key) && a in net'.ledger.members && Safe(net', address)
  {
    assert net.validators[0] in net.validators;
    Rounds.Joined(net.ledger, a, proposer, moniker, voters);
    QuietRound(net, vote, address);
    ChainNext(net, rounds, address, 0);
    ChainNext(net, rounds, address, 1);
    assert rounds[..2] == rounds;
    var mid := Advance(net, vote, address);
    assert mid.ledger.members == net.ledger.members + [a] && mid.ledger.members[|net.ledger.members|] == a;
    assert forall b :: b in net.ledger.members ==> b in mid.ledger.members;
    CommittedWhen(mid, ask, address);
    AdvanceIsSafeWhen(mid, ask, address);
    OutsidersHaveNoKey(net, address, key);
    NewcomerEntersWhen(mid.ledger, ask.block, Libs(mid, ask, address), key);
  }

  /** With no validators left every commit panics and nothing changes any more. */
  lemma {:induction false} NoValidatorsForever(net: Network, rounds: seq<Round>, address: PubKey -> Option<Address>)
    requires net.validators == []
    ensures Chain(net, rounds, address) == net
    ensures forall e: Round :: Commit(net.ledger, e.block, Libs(net, e, address)) == (net.ledger, Crashed)
  {
    if rounds != [] {
      NoValidatorsForever(net, rounds[..|rounds| - 1], address);
    }
  }
}
