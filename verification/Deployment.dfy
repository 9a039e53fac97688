/** The contract as the genesis file deploys it: the storage decoded into the
    contract's variables, and when the result is a sound contract. */
module Deployment {
  import opened Protocol
  import opened Options
  import opened Sequences
  import opened Ledgers
  import opened Contract
  import opened GenesisStorage
  import opened Hex

  function Moniker(m: map<Address, bytes32>, a: Address): bytes32 {
    if a in m then m[a] else 0
  }

  /** The members of an election record, but for its votes and array items. */
  ghost predicate DecodesRecord(e: NomineeElection, storage: Storage, keccak: Keccak, list: uint256, a: Address) {
    && e.nominee == Low160(Word(storage, Field(keccak, list, a, 0)))
    && e.proposer == Low160(Word(storage, Field(keccak, list, a, 1)))
    && e.yesVotes == Word(storage, Field(keccak, list, a, 2))
    && e.noVotes == Word(storage, Field(keccak, list, a, 3))
    && |e.yesArray| == Word(storage, Field(keccak, list, a, 5))
    && |e.noArray| == Word(storage, Field(keccak, list, a, 6))
  }

  /** The contract's variables hold what their slots say. */
  ghost predicate Decodes(p: Poa, storage: Storage, keccak: Keccak)
    reads p
  {
    && p.whiteListCount == Word(storage, WHITE_LIST_COUNT)
    && p.whiteListArray == ReadArray(storage, keccak, WHITE_LIST_ARRAY)
    && p.nomineeArray == ReadArray(storage, keccak, NOMINEE_ARRAY)
    && p.evictionArray == ReadArray(storage, keccak, EVICTION_ARRAY)
    && (forall a: Address :: Person(p.whiteList, a).person == Low160(Word(storage, Entry(keccak, WHITE_LIST, a))))
    && (forall a: Address :: Moniker(p.monikerList, a) == Word(storage, Entry(keccak, MONIKER_LIST, a)))
    && (forall a: Address :: DecodesRecord(Election(p.nomineeList, a), storage, keccak, NOMINEE_LIST, a))
    && (forall a: Address :: DecodesRecord(Election(p.evictionList, a), storage, keccak, EVICTION_LIST, a))
  }

  /** No voter's slot is set in any record. */
  ghost predicate NoVotes(m: Records) {
    forall a: Address, v: Address {:trigger Slot(Election(m, a).vote, v)} ::
      Slot(Election(m, a).vote, v).voter == ZERO_ADDRESS
  }

  lemma RecordsAreTidy(m: Records, storage: Storage, keccak: Keccak, list: uint256)
    requires IsElections(list) && NoVotes(m)
    requires forall a: Address, k: nat {:trigger Field(keccak, list, a, k)} ::
               k < 7 ==> Word(storage, Field(keccak, list, a, k)) == 0
    requires forall a: Address :: DecodesRecord(Election(m, a), storage, keccak, list, a)
    ensures Tidy(m) && Open(m) == map[]
  {
    forall a | a in m ensures m[a].BallotBox() && m[a].noArray == [] == m[a].yesArray && m[a].nominee == ZERO_ADDRESS {
      assert DecodesRecord(Election(m, a), storage, keccak, list, a);
    }
  }

  /** The whitelist entries of exactly the addresses of `listed` read as them. */
  ghost predicate EntriesAgree(storage: Storage, keccak: Keccak, listed: seq<Address>) {
    forall a: Address :: Low160(Word(storage, Entry(keccak, WHITE_LIST, a))) == if a in listed then a else ZERO_ADDRESS
  }

  ghost predicate OthersReadZero(storage: Storage, keccak: Keccak, keys: seq<uint256>) {
    forall a: Address :: a !in keys ==> Word(storage, Entry(keccak, WHITE_LIST, a)) == 0
  }

  lemma {:induction false} LastOf(s: seq<uint256>, x: uint256) returns (i: nat)
    requires x in s
    ensures i < |s| && s[i] == x && x !in s[i + 1..]
  {
    var n := |s| - 1;
    if s[n] == x {
      i := n;
    } else {
      SplitLast(s);
      i := LastOf(s[..n], x);
      assert s[i + 1..] == s[..n][i + 1..] + [s[n]];
    }
  }

  /** A listed address whose entry reads as it is some peer's key and item. */
  lemma KeyOfEntry(storage: Storage, keccak: Keccak, keys: seq<uint256>, listed: seq<Address>, a: Address)
    returns (j: nat)
    requires |keys| == |listed| && EntriesRead(storage, keccak, keys, listed) && OthersReadZero(storage, keccak, keys)
    requires Low160(Word(storage, Entry(keccak, WHITE_LIST, a))) == a != ZERO_ADDRESS
    ensures j < |keys| && keys[j] == a == listed[j]
  {
    j := LastOf(keys, a);
  }

  lemma EntryOf(storage: Storage, keccak: Keccak, keys: seq<uint256>, listed: seq<Address>, a: Address)
    requires |keys| == |listed| && EntriesRead(storage, keccak, keys, listed) && OthersReadZero(storage, keccak, keys)
    requires forall i :: 0 <= i < |keys| ==> listed[i] == keys[i]
    ensures Low160(Word(storage, Entry(keccak, WHITE_LIST, a))) == if a in listed then a else ZERO_ADDRESS
  {
    if i :| 0 <= i < |keys| && listed[i] == a {
      assert a in keys;
      var j := LastOf(keys, a);
      assert listed[j] == a;
    } else {
      assert a !in keys;
    }
  }

  lemma AgreeIf(storage: Storage, keccak: Keccak, keys: seq<uint256>, listed: seq<Address>)
    requires |keys| == |listed| && EntriesRead(storage, keccak, keys, listed) && OthersReadZero(storage, keccak, keys)
    requires forall i :: 0 <= i < |keys| ==> listed[i] == keys[i]
    ensures EntriesAgree(storage, keccak, listed)
  {
    forall a: Address
      ensures Low160(Word(storage, Entry(keccak, WHITE_LIST, a))) == if a in listed then a else ZERO_ADDRESS
    {
      EntryOf(storage, keccak, keys, listed, a);
    }
  }

  /** Every peer's entries read back as the peer's own key, no two peers have the
      same one, and none has zero. */
  ghost predicate GoodPeers(peers: seq<MinimalPeerRecord>) {
    && (forall i :: 0 <= i < |peers| ==> ListedAddress(peers[i]) == MappingKey(peers[i]) > 0)
    && NoDup(MappingKeys(peers))
  }

  /** The array is free of duplicates and zero, and the mapping agrees with it. */
  ghost predicate ListAgrees(storage: Storage, keccak: Keccak, listed: seq<Address>) {
    NoDup(listed) && ZERO_ADDRESS !in listed && EntriesAgree(storage, keccak, listed)
  }

  lemma AgreeOnlyIf(storage: Storage, keccak: Keccak, keys: seq<uint256>, listed: seq<Address>, i: nat)
    requires |keys| == |listed| && EntriesRead(storage, keccak, keys, listed) && OthersReadZero(storage, keccak, keys)
    requires ListAgrees(storage, keccak, listed) && i < |keys|
    ensures listed[i] == keys[i] > 0
  {
    var a := listed[i];
    assert Low160(Word(storage, Entry(keccak, WHITE_LIST, a))) == a;
    var j := KeyOfEntry(storage, keccak, keys, listed, a);
  }

  lemma GoodOnlyIf(storage: Storage, keccak: Keccak, peers: seq<MinimalPeerRecord>)
    requires EntriesRead(storage, keccak, MappingKeys(peers), ListedAddresses(peers))
    requires OthersReadZero(storage, keccak, MappingKeys(peers))
    requires ListAgrees(storage, keccak, ListedAddresses(peers))
    ensures GoodPeers(peers)
  {
    var keys, listed := MappingKeys(peers), ListedAddresses(peers);
    forall i | 0 <= i < |peers| ensures listed[i] == keys[i] > 0 {
      AgreeOnlyIf(storage, keccak, keys, listed, i);
    }
    SameDuplicates(keys, listed);
  }

  lemma SameDuplicates(keys: seq<uint256>, listed: seq<Address>)
    requires |keys| == |listed| && forall i :: 0 <= i < |keys| ==> listed[i] == keys[i]
    ensures NoDup(keys) <==> NoDup(listed)
    ensures ZERO_ADDRESS !in listed <==> forall i :: 0 <= i < |keys| ==> keys[i] > 0
  {
    assert NoDup(listed) <==> forall i, j :: 0 <= i < j < |keys| ==> keys[i] != keys[j];
  }

  lemma GoodIf(storage: Storage, keccak: Keccak, peers: seq<MinimalPeerRecord>)
    requires EntriesRead(storage, keccak, MappingKeys(peers), ListedAddresses(peers))
    requires OthersReadZero(storage, keccak, MappingKeys(peers)) && GoodPeers(peers)
    ensures ListAgrees(storage, keccak, ListedAddresses(peers))
  {
    AgreeIf(storage, keccak, MappingKeys(peers), ListedAddresses(peers));
  }

  lemma MembersAgreeWhen(p: Poa, storage: Storage, keccak: Keccak, peers: seq<MinimalPeerRecord>)
    requires Decodes(p, storage, keccak) && Deployed(storage, keccak, peers)
    ensures p.MembersAgree() <==> GoodPeers(peers)
  {
    var listed := ListedAddresses(peers);
    assert OthersReadZero(storage, keccak, MappingKeys(peers)) by {
      assert IsMapping(WHITE_LIST);
    }
    assert p.MembersAgree() <==> ListAgrees(storage, keccak, listed);
    if GoodPeers(peers) {
      GoodIf(storage, keccak, peers);
    } else if p.MembersAgree() {
      GoodOnlyIf(storage, keccak, peers);
    }
  }

  /** The genesis file starts the contract with the peers as its members in order,
      and the contract is sound exactly when the peers are good. */
  lemma GenesisIsGoodWhen(p: Poa, storage: Storage, keccak: Keccak, peers: seq<MinimalPeerRecord>)
    requires MonikersFit(peers) && Spread(keccak, MappingKeys(peers))
    requires storage == Stored(keccak, peers, |peers|)
    requires Decodes(p, storage, keccak) && NoVotes(p.nomineeList) && NoVotes(p.evictionList)
    ensures p.View() == Genesis(ListedAddresses(peers))
    ensures p.Sound() <==> GoodPeers(peers)
  {
    GenesisReads(storage, keccak, peers);
    StartsEmpty(p, storage, keccak, peers);
    MembersAgreeWhen(p, storage, keccak, peers);
    GenesisInv(ListedAddresses(peers));
  }

  lemma StartsEmpty(p: Poa, storage: Storage, keccak: Keccak, peers: seq<MinimalPeerRecord>)
    requires Decodes(p, storage, keccak) && NoVotes(p.nomineeList) && NoVotes(p.evictionList)
    requires Deployed(storage, keccak, peers)
    ensures Tidy(p.nomineeList) && Tidy(p.evictionList) && p.View() == Genesis(ListedAddresses(peers))
  {
    RecordsAreTidy(p.nomineeList, storage, keccak, NOMINEE_LIST);
    RecordsAreTidy(p.evictionList, storage, keccak, EVICTION_LIST);
  }

  /** The peers' addresses are written with these digits. */
  ghost predicate Spelled(peers: seq<MinimalPeerRecord>, texts: seq<string>) {
    |texts| == |peers| && forall i :: 0 <= i < |peers| ==> Spells(peers[i].address, texts[i])
  }

  /** For hexadecimal addresses: at least forty digits, a value that is an
      address and not zero, and no value twice. */
  lemma GoodHexPeersWhen(peers: seq<MinimalPeerRecord>, texts: seq<string>)
    requires Spelled(peers, texts)
    ensures GoodPeers(peers) <==>
              && (forall i :: 0 <= i < |texts| ==> |texts[i]| >= 40 && 0 < Parse(texts[i]) % TWO_256 < TWO_160)
              && (forall i, j :: 0 <= i < j < |texts| ==> Parse(texts[i]) % TWO_256 != Parse(texts[j]) % TWO_256)
  {
    forall i | 0 <= i < |peers|
      ensures MappingKey(peers[i]) == Parse(texts[i]) % TWO_256
      ensures ListedAddress(peers[i]) == MappingKey(peers[i])
         <==> |texts[i]| >= 40 && Parse(texts[i]) % TWO_256 < TWO_160
    {
      EntryReadsWhen(peers[i], texts[i]);
    }
    var keys := MappingKeys(peers);
    assert forall i :: 0 <= i < |peers| ==> keys[i] == Parse(texts[i]) % TWO_256;
  }

  lemma FortyDigitPeers(peers: seq<MinimalPeerRecord>, texts: seq<string>, members: seq<Address>)
    requires Spelled(peers, texts) && |members| == |texts|
    requires forall i :: 0 <= i < |texts| ==> |texts[i]| == 40 && members[i] == Parse(texts[i])
    ensures ListedAddresses(peers) == members
    ensures GoodPeers(peers) <==> NoDup(members) && ZERO_ADDRESS !in members
  {
    forall i | 0 <= i < |peers| ensures ListedAddress(peers[i]) == MappingKey(peers[i]) == members[i] {
      FortyDigits(peers[i], texts[i]);
    }
    assert ListedAddresses(peers) == members;
    SameDuplicates(MappingKeys(peers), members);
  }

  /** Addresses of forty digits, the way go-ethereum prints them: the contract starts
      with the numbers they write, in order, as its members, and is sound exactly
      when these are distinct and not zero. */
  lemma GenesisOfAddresses(p: Poa, storage: Storage, keccak: Keccak, peers: seq<MinimalPeerRecord>,
                           texts: seq<string>, members: seq<Address>)
    requires MonikersFit(peers) && Spread(keccak, MappingKeys(peers))
    requires storage == Stored(keccak, peers, |peers|)
    requires Decodes(p, storage, keccak) && NoVotes(p.nomineeList) && NoVotes(p.evictionList)
    requires Spelled(peers, texts) && |members| == |texts|
    requires forall i :: 0 <= i < |texts| ==> |texts[i]| == 40 && members[i] == Parse(texts[i])
    ensures p.View() == Genesis(members)
    ensures p.Sound() <==> NoDup(members) && ZERO_ADDRESS !in members
  {
    GenesisIsGoodWhen(p, storage, keccak, peers);
    FortyDigitPeers(peers, texts, members);
  }
}
