# Governance, membership, genesis and transaction sets of a BOTCoin network

A Dafny 4.11 model of the parts of the node that decide who may validate, and of
the two transaction-set generators. `dafny verify dfyconfig.toml` checks all of it.

**The contract, three times.** `Contract.Poa` (`Poa.dfy`) is the
proof-of-authority contract on its storage: the whitelist as mapping, counter and
array, the two mappings of election records, the arrays that list them, and the
per-voter slots that neither `delete` nor a struct assignment reaches. Its loops
are the contract's search, swap-remove and clearing loops; counters are 256-bit,
so every increment, decrement and `whiteListCount - 1` is shown not to wrap. Each
public method is proved to take one step of `Ledgers.Ledger` (`Ledger.dfy`), the
state as the index-based getters show it: three address sequences and, per open
election, the voters in `yesArray`. `Ledger` in turn simulates
`Councils.Council` (`Council.dfy`), the governance rules on nothing but sets,
with the same replies and the same events for every sequence of calls.

**What the votes mean.** `Elections.dfy` settles the promise that "everyone on the
whitelist needs to cast a yes vote" (`docs/poa_overview.rst`). It is false as it
stands: votes of members evicted meanwhile still count and can stand in for
missing ones. `UnanimityFails` and `AllButOneFails` are runs that show it, and
`Unanimity` and `AllButOne` prove the promise for every run without an eviction
since the proposal. `NotUnanimousWhen` and `NotAllButOneWhen`, in `Rounds.dfy`,
give the exact condition, on any state and before the remaining members vote:
some vote is a former member's and more than one member (two, for an eviction)
has yet to vote. `Rounds.dfy` also has whole voting rounds in any order, the exact
join/leave round trip, one vote per member, honest replies, and replay of the event
log. An election that every remaining member has voted in cannot be decided by the
next vote, and evictions can lead there (`NoNextVoteDecides`); but while some address
is free (`OutsiderExists`) a newcomer can join and cast the missing vote, so a
nomination can still go either way if and only if there is a member at all, and an
eviction always can. Only the empty whitelist is a dead end. Every reply and every
event of a run is accounted for: which calls revert, what a decision reports, whom a
proposal names and what a decision counts.

**The network.** `Bridge.dfy` commits blocks: coinbase, transactions, answers to
join and leave requests, ejection of validators that are no longer whitelisted.
Its main result is when validators stay within the whitelist: after every block, if
and only if, for each block whose votes leave a validator off the whitelist, the state
commit works, all join keys unmarshal, and the block asks for that validator's removal
or can check it. `FailedRound` and `BadJoinKeyRound` are rounds in which that goes
wrong. `NewcomerEntersWhen` says exactly who becomes a validator, and
`NomineeBecomesValidator` follows an outsider from nomination to validation. Each
validator is the coinbase for its share of the 2^32 hashes (`Coinbase.dfy`).

**Genesis.** `Genesis.dfy` and `Hex.dfy` write the storage section of the genesis
file, hexadecimal printing included, and read it back through the section "Layout
of State Variables in Storage" of the Solidity 0.5.11 documentation.
`Deployment.dfy` decodes it into the contract's variables and says, for any list of
peers, exactly when the result is a sound contract; for addresses as go-ethereum
prints them (`0x` and forty digits), when they are distinct and not zero.

**Transaction sets.** `Solo.dfy` and `Generate.dfy` are the generators' loops over
mutable, shared big integers (`BigInts.dfy`); `Transfers.dfy` holds the facts about
the transfers themselves: conservation, solvency in every order, and that the
faucet's payments are the least that guarantee it.

## Reading notes

- Addresses are numbers below 2^160; a Solidity mapping is a map whose absent keys
  read as zero. A failed `require` is the reply `Reverted`.
- `submitNominee` has no sender check (`poa/poa.sol:207`), although
  `docs/poa_smartcontract.rst` lists one; the model follows the code, so anyone may
  nominate. The zero address can be nominated: it lands in `nomineeArray` each time
  and never becomes a nominee, so claims about that array are about nonzero
  addresses.
- `Poa.Valid` couples the storage with itself; `Poa.Sound` adds `Ledger.Inv`, the
  agreement of the arrays with the mappings. `Apply` keeps `Sound`.
- The calls a contract makes through `CommitBlock` are its transactions: calls of
  the contract, or transactions that leave it alone.
- Libraries are parameters: public keys to addresses, the validator set of a round,
  which authorisation checks fail, whether the state commit fails, Keccak-256, and
  every random choice. Both lookups of the validator set during a block are taken to
  answer alike, because they ask for the same round. Receipts take effect before the
  next block. What EVM-Lite does when its commit fails is not part of this model: it is
  a hypothesis that later checks still read the applied transactions. Where a failed
  commit rolls them back, the ledger and the validators stay as they were.
- `Crashed` is a run-time panic: an empty validator list divides by zero, and a join
  request whose key does not unmarshal dereferences nil.
- `Spread` is the no-collision hypothesis on Keccak, for the peers at hand: the slots
  written for them differ from each other, from the slots of the other variables,
  from the entries of all other addresses and from every word of every election
  record. One side of each excluded pair is a written slot or one of a few constants.
  `SpreadIsPossible` gives a hash that meets it.
- The generators' accounts are numbered, and different numbers are taken to be
  different addresses; `--accounts a,a`, or a faucet among the accounts, is not.
- `--surplus` of `giverny transactions solo` is read and printed
  (`cmd/giverny/commands/transactions/solo.go:67,77`) and enters no amount.

## Model

| member | source | states |
|---|---|---|
| Contract.Poa.constructor | poa/poa.sol:116-123 | a deployed contract with a duplicate-free whitelist of nonzero addresses satisfies the full invariant has no elections and keeps the given monikers |
| Contract.Poa.Apply | poa/poa.sol:207-351 | every transaction keeps the arrays, counters, mappings and slots in agreement, and answers, logs and changes the state as one step of the ledger; each array changes only at its end or by filling a gap from its end, position by position |
| Contract.Poa.SubmitNominee | poa/poa.sol:207-224 | an address that is neither member nor nominee gets a fresh election with that proposer, clean despite surviving slots, and its moniker; anything else changes nothing |
| Contract.Poa.SubmitEviction | poa/poa.sol:229-248 | only members can propose, only members not already accused can be accused, and the eviction starts clean |
| Contract.Poa.CastNomineeVote | poa/poa.sol:258-301 | reverts for outsiders; first votes count once, a no vote rejects, enough yes votes admit; the recomputed result is the ledger's |
| Contract.Poa.CastEvictionVote | poa/poa.sol:309-351 | the same for evictions, with a threshold of the member count less one |
| Contract.Poa.CountNomineeVote | poa/poa.sol:269-288 | the first ballot of a member in an open nomination, through to the decision, keeps ballots and slots in agreement |
| Contract.Poa.CountEvictionVote | poa/poa.sol:319-341 | the first ballot of a member in an open eviction, through to the decision, keeps ballots and slots in agreement |
| Contract.Poa.RecordNomineeVote | poa/poa.sol:271-281 | stores slot, counter and array entry of one ballot and touches no other election |
| Contract.Poa.RecordEvicteeVote | poa/poa.sol:321-331 | stores slot, counter and array entry of one ballot and touches no other election |
| Contract.Poa.CheckForNomineeVoteDecision | poa/poa.sol:360-389 | decided exactly when there is a no vote or the yes votes reach the member count; closes, admits and logs accordingly |
| Contract.Poa.CheckForEvictionVoteDecision | poa/poa.sol:396-425 | decided exactly when there is a no vote or the yes votes reach the member count less one; closes, evicts and logs accordingly |
| Contract.Poa.AcceptNominee | poa/poa.sol:430-443 | appends a non-member to the whitelist, once, in mapping, counter and array, and closes its nomination |
| Contract.Poa.AcceptEviction | poa/poa.sol:447-452 | removes the member by swap with the last and closes the eviction |
| Contract.Poa.DeWhiteList | poa/poa.sol:458-475 | mapping, counter and array still agree; the array keeps every position but the removed one, which gets the last element |
| Contract.Poa.DeclineNominee | poa/poa.sol:482-485 | closes the nomination and delists the nominee |
| Contract.Poa.RemoveNominee | poa/poa.sol:490-505 | clears the slots before the record is deleted; the array keeps every position but that of the first occurrence, which gets the last element |
| Contract.Poa.RemoveNomineeVote | poa/poa.sol:510-523 | the two loops zero the slot of every yes and every no voter and nothing else |
| Contract.Poa.RemoveEvicteeVote | poa/poa.sol:528-541 | the two loops zero the slot of every yes and every no voter and nothing else |
| Contract.Poa.DeclineEviction | poa/poa.sol:548-551 | closes the eviction and delists the evictee |
| Contract.Poa.RemoveEviction | poa/poa.sol:556-573 | clears the slots before the record is deleted; the array keeps every position but that of the first occurrence, which gets the last element |
| Contract.ClearedSlot | poa/poa.sol:515-520 | after clearing, a voter's slot is zero if it was listed and as before if not |
| Contract.ClosedIsClean | poa/poa.sol:490-541 | a closed election has no slot set for any address, so re-nomination starts a clean ballot |
| Contract.VoteCounted | poa/poa.sol:269-287 | one ballot, and possibly the close of its election, keeps every election tidy and changes the open ballots in that one place |
| Contract.AddressesFit | poa/poa.sol:434-436 | a duplicate-free list of addresses is shorter than 2^256 - 1, so member and vote counters cannot wrap |
| Ledgers.VoteOnNomineeInv | poa/poa.sol:258-301 | voting on a nominee keeps whitelist, nominee list and ballots in agreement and nominees apart from members |
| Ledgers.VoteOnEvictionInv | poa/poa.sol:309-351 | voting on an eviction keeps the lists in agreement and evictees among members |
| Sequences.SwapRemoveFillsGap | poa/poa.sol:465-473 | removal by swap keeps every position but that of the first occurrence, which gets the last element |
| Ledgers.StepMoves | poa/poa.sol:207-573 | each call changes each array only by appending its subject or by filling its subject's gap from the end, exactly as the subject's status changes |
| Ledgers.StepInv | poa/poa.sol:160-182 | every call keeps index agreement and status separation |
| Ledgers.RunInv | poa/poa.sol:160-182 | so does every sequence of calls |
| Ledgers.StepRefines | poa/poa.sol:207-351 | each call is one step of the set machine, with equal reply and equal events, counts included |
| Ledgers.RunRefines | poa/poa.sol:207-573 | every run of the ledger is a run of the set machine |
| Rounds.NotUnanimousWhen | poa/poa.sol:373-382 | whatever the order in which the members yet to vote say yes, one of them admits the nominee without some member's vote if and only if, before they vote, a former member's vote counts and more than one of them is left |
| Rounds.NotAllButOneWhen | poa/poa.sol:409-418 | the same for evictions, which may lack one vote: one lacks more if and only if a former member's vote counts and more than two members have yet to vote |
| Elections.UnanimityFails | poa/poa.sol:360-389 | for any three members and an outsider, a run after which the outsider can be admitted without a current member's vote |
| Elections.AllButOneFails | poa/poa.sol:396-425 | for any four members, a run after which one can be evicted with two members not voting |
| Elections.FreshRun | poa/poa.sol:258-351 | without evictions, all voters of an open election stay members and its threshold stays unmet |
| Elections.Unanimity | poa/poa.sol:258-301 | an admission without evictions since the nomination has exactly the members' yes votes, whoever joined meanwhile |
| Elections.AllButOne | poa/poa.sol:309-351 | an eviction without others since its proposal misses exactly one member's vote, or none of a single member |
| Rounds.UnanimousRound | poa/poa.sol:258-301 | in every order of the members' yes votes only the last decides, and the resulting ledger is the same |
| Rounds.RejectedRound | poa/poa.sol:367-372 | one no vote after any yes votes closes the nomination with the members unchanged |
| Rounds.EvictionRound | poa/poa.sol:309-351 | any members numbering all but one evict, and only the last of them decides |
| Rounds.JoinThenLeave | poa/poa.sol:207-573 | admitting an outsider and evicting it again restores every array and every open election exactly |
| Rounds.OneVoteEach | poa/poa.sol:268-288 | over any run, a counted vote on a nominee stays and further votes of that member change nothing, until the election is decided |
| Rounds.OneEvictionVoteEach | poa/poa.sol:318-341 | over any run, a counted vote on an eviction stays and further votes of that member change nothing, until the election is decided |
| Rounds.RejectedThenJoined | poa/poa.sol:207-301 | a rejected nomination restores the ledger, and nominated again the same address is admitted by all members, those included who voted before |
| Rounds.StepReplay | poa/poa.sol:384-387 | a call emits at most one proposal or decision event, and that event tells the change |
| Rounds.RunReplay | poa/poa.sol:215-238 | folding the events over the starting whitelist gives members, nominees and evictees after any run |
| Rounds.EveryRun | poa/poa.sol:207-573 | from any proper whitelist, every run keeps the invariant, agrees with the set machine and is told by its events |
| Rounds.RepliesAreHonest | poa/poa.sol:296-350 | in every run, a reported decision tells whether the nominee is a member, or the evictee no longer one, just after that call |
| Rounds.RevertedWhen | poa/poa.sol:207-351 | in every run exactly the votes and eviction proposals of non-members revert, and they change nothing |
| Rounds.EventsAreAboutCalls | poa/poa.sol:207-425 | every event of a run is about one of its calls: a proposal names its caller, a decision counts the votes cast and the deciding one, and an acceptance meets the threshold |
| Ledgers.ApartKept | poa/poa.sol:160-182 | no call makes a nominee a member while still nominated, or leaves an evictee outside the whitelist |
| Rounds.DecidableWhen | poa/poa.sol:266-288 | the next vote can decide an open nomination if and only if some member has not voted in it |
| Rounds.EvictionDecidableWhen | poa/poa.sol:316-341 | the next vote can decide an open eviction if and only if some member has not voted in it |
| Rounds.NoNextVoteDecides | poa/poa.sol:266-288 | for any three members and an outsider, a run after which no next vote decides the outsider's nomination |
| Rounds.NominationCanBeDecidedWhen | poa/poa.sol:207-301 | as long as an outsider exists, some calls still admit the nominee, and some still reject it, if and only if the whitelist is not empty |
| Rounds.EvictionCanBeDecided | poa/poa.sol:207-351 | as long as an outsider exists, some calls still evict the evictee, and some still let it stay |
| Rounds.LastMemberLeavesForever | poa/poa.sol:396-425 | a sole member can evict itself, and the whitelist stays empty under any further calls |
| Rounds.EmptyForever | poa/poa.sol:134-138 | with no members left, no sequence of calls brings one in or closes a nomination |
| Bridge.InmemProxy.CommitBlock | src/babble/inmem_proxy.go:56-94 | order of coinbase, transactions, commit, answers and ejections, with every error and panic; the contract stays sound and logs what its calls log; also returns the coinbase |
| Bridge.InmemProxy.GetCoinbase | src/babble/inmem_proxy.go:101-124 | the zero address without Babble, otherwise the address of the validator at the hash modulo the length; lookup error, bad key and empty list as error, error and panic |
| Bridge.CoinbaseIsFair | src/babble/inmem_proxy.go:96-113 | of the 2^32 hashes, those that make a given validator the coinbase are 2^32/n, rounded down or up |
| Bridge.FailsWhen | src/babble/inmem_proxy.go:56-94 | on the input, exactly when a commit returns an error and when it panics |
| Bridge.ReceiptsInOrder | src/babble/inmem_proxy.go:82-91 | one receipt per request in order, a join accepted exactly for a whitelisted address that could be checked, then one removal per validator found off the whitelist, in order |
| Bridge.NewcomerEntersWhen | src/babble/inmem_proxy.go:129-162 | a newcomer becomes a validator in a committed block if and only if the block has a join request for its key, its address is whitelisted by then and its check works |
| Bridge.NomineeBecomesValidator | src/babble/inmem_proxy.go:56-209 | an outsider nominated and admitted by all in one round, asking to join in the next, is a validator after it, and the network stays safe |
| Bridge.InmemProxy.ApplyTransactions | src/babble/inmem_proxy.go:71-75 | the contract under any calls whatever: state, replies and log are those of the ledger's run and of the set machine's |
| Bridge.InmemProxy.ProcessInternalTransactions | src/babble/inmem_proxy.go:129-162 | one receipt per request, joins accepted exactly for checked members, leaves always; panics exactly on a bad join key |
| Bridge.InmemProxy.ProcessEvictions | src/babble/inmem_proxy.go:167-209 | one accepted removal for each current validator found not to be whitelisted |
| Bridge.EjectionsAre | src/babble/inmem_proxy.go:177-205 | the ejected are exactly the current validators whose check succeeds and denies membership |
| Bridge.BlockIsSafe | src/babble/inmem_proxy.go:71-93 | after a block every validator is whitelisted, or was there before and could not be checked |
| Bridge.MembersStay | src/babble/inmem_proxy.go:164-209 | a whitelisted validator stays unless the block asks for its removal |
| Bridge.OutsiderStaysWhen | src/babble/inmem_proxy.go:129-205 | a validator off the new whitelist outlasts a committed block if and only if its check fails and the block does not ask for its removal |
| Bridge.AdvanceIsSafeWhen | src/babble/inmem_proxy.go:56-94 | a round keeps the validators whitelisted if and only if, should its votes leave one off the whitelist, the state commit works, the join keys unmarshal, and that validator's removal is asked for or its check works |
| Bridge.NetworkSafety | src/babble/inmem_proxy.go:56-209 | for every sequence of rounds, the validators are within the whitelist throughout if and only if every round is contained in that sense |
| Bridge.FailedRound | src/babble/inmem_proxy.go:77-80 | the sole member votes itself out: the network stays safe if and only if the commit works, the join keys unmarshal, and its removal is asked for or its check works |
| Bridge.BadJoinKeyRound | src/babble/inmem_proxy.go:135-140 | a single join request whose key does not unmarshal panics the commit and leaves an outsider among the validators |
| Bridge.NoValidatorsForever | src/babble/inmem_proxy.go:110-113 | with no validators every commit panics, so no sequence of rounds changes anything |
| Coinbase.Pick | src/babble/inmem_proxy.go:110-113 | the picked position is always in range of the list |
| Coinbase.HitsClosedForm | src/babble/inmem_proxy.go:110-113 | how many hashes below a bound pick a position |
| Coinbase.EvenlyPicked | src/babble/inmem_proxy.go:110-113 | each position is picked by 2^32/n hashes, rounded down or up |
| Coinbase.FairExactlyWhen | src/babble/inmem_proxy.go:110-113 | the pick is fair if and only if the list has fewer than 2^32 validators |
| Hex.ParseDigits | src/genesis/storage.go:27-27 | printing a number in hexadecimal and reading it back gives the number |
| Hex.ParseKey | src/genesis/storage.go:60-60 | different slots have different 64-digit keys |
| Hex.KeyLength | src/genesis/storage.go:60-60 | the key of every slot below 2^256 has 64 digits |
| Hex.LowerReads | src/genesis/storage.go:57-57 | digits in either letter case write the same number |
| Hex.ParseEncode | src/genesis/storage.go:78-78 | encoding bytes in hexadecimal and reading them back gives their big-endian number |
| Hex.HexToHashReads | src/genesis/storage.go:64-64 | `HexToHash` reads what the digits write, odd lengths included |
| GenesisStorage.GetStorage | src/genesis/storage.go:16-84 | fails exactly when a moniker exceeds 32 bytes, and otherwise writes the entries of every peer in order |
| GenesisStorage.SmallSlot | src/genesis/storage.go:21-24 | the decimal slot literals are the hexadecimal keys of those slots |
| GenesisStorage.WritePeer | src/genesis/storage.go:56-81 | one peer's array item, mapping entry and moniker, or the panic of a negative repeat count |
| GenesisStorage.LengthReads | src/genesis/storage.go:26-30 | the length padded to whole bytes reads as the length |
| GenesisStorage.EntryReadsWhen | src/genesis/storage.go:57-67 | a hexadecimal address in either case, bare, after 0x or after 0X, gives the mapping key it writes modulo 2^256, and reads back from behind the byte 94 as that key if and only if it has at least forty digits and a value below 2^160 |
| GenesisStorage.FortyDigits | src/genesis/storage.go:57-67 | forty digits in either case, bare, after 0x or after 0X, are listed and held under the number they write |
| GenesisStorage.KeysAreWhole | src/genesis/storage.go:34-80 | every key of the storage has 64 digits |
| GenesisStorage.ShortAddressFails | cmd/monetd/commands/config/whitelist.go:40-43 | the address 1234 is listed as 0x941234 while its mapping entry is for 0x1234 |
| GenesisStorage.MonikerReads | src/genesis/storage.go:72-80 | a moniker reads back padded with zero bytes |
| GenesisStorage.StoredReads | src/genesis/storage.go:16-84 | after any number of peers, whatever their address texts, the words hold the count, those peers in order, the entries of the last peer of each key, and nothing else |
| GenesisStorage.GenesisReads | src/genesis/storage.go:16-84 | the contract reads the count, the array of the peers in order, each key's entry and moniker, zero for every other address, and no word of any election record |
| Deployment.GenesisIsGoodWhen | src/genesis/storage.go:16-84 | the contract decoded from the file has exactly the listed peers as members and no election, and satisfies its invariant if and only if each peer is listed under its own key and the keys are distinct and nonzero |
| Deployment.GoodHexPeersWhen | src/genesis/storage.go:57-67 | for hexadecimal addresses that condition is: at least forty digits, and numbers that are distinct, nonzero and below 2^160 |
| Deployment.GenesisOfAddresses | src/genesis/genesis.go:57-68 | for addresses of forty digits, with or without 0x, the contract starts with the numbers they write as members, and is sound if and only if these are distinct and nonzero |
| BigInts.BigInt.Add | cmd/giverny/commands/transactions/solo.go:172-172 | the receiver holds the sum even if it is an operand |
| BigInts.Scaled | cmd/giverny/commands/transactions/solo.go:157-159 | a new number of units times 10^16 |
| Solo.TransferOnce | cmd/giverny/commands/transactions/solo.go:157-175 | one transfer keeps every account's credits, debits and delta equal to what it received and spent |
| Solo.TransferLoop | cmd/giverny/commands/transactions/solo.go:142-177 | so does the loop; each account lists exactly its own transfers, nonces 1, 2, ..., next nonce one past the last, amounts never altered later |
| Solo.FaucetLoop | cmd/giverny/commands/transactions/solo.go:181-193 | the faucet pays each account the shared number of its debits, which the faucet's own sums leave intact |
| Solo.FaucetOnce | cmd/giverny/commands/transactions/solo.go:181-193 | one payment hands on the account's own debit number and keeps it intact while the faucet's sums change |
| Solo.SoloTransactions | cmd/giverny/commands/transactions/solo.go:142-193 | each account's list, nonces, amounts and books are those of the picks from it and to it; the deltas of the other accounts cancel out and the faucet's debits are the sum of theirs |
| Solo.GeneratedSetIsSolvent | cmd/giverny/commands/transactions/solo.go:142-193 | with payments first, transfers in any order never overdraw, and each account ends at its balance after the payment plus its delta |
| Transfers.SpentIsOwn | cmd/giverny/commands/transactions/solo.go:163-172 | an account's debits are the sum of its own transactions |
| Transfers.Conservation | cmd/giverny/commands/transactions/solo.go:172-175 | all accounts together receive what they spend |
| Transfers.Reordered | cmd/giverny/commands/transactions/solo.go:163-175 | totals do not depend on the order of the transfers |
| Transfers.FundingGoesThroughWhen | cmd/giverny/commands/transactions/solo.go:181-193 | the faucet payments go through if and only if the faucet holds their sum |
| Transfers.NeverShort | cmd/giverny/commands/transactions/solo.go:142-193 | accounts that hold what they will spend are never refused a transfer |
| Transfers.Solvency | cmd/giverny/commands/transactions/solo.go:142-193 | funding followed by any permutation of the transfers goes through, with the final balances |
| Transfers.CarefreeExactlyWhen | cmd/giverny/commands/transactions/solo.go:181-193 | every order of the transfers goes through if and only if each account holds beforehand all it will spend, so the faucet's payments are the least that do |
| Generate.NewNumbers | cmd/giverny/commands/transactions/generate.go:138-139 | every account starts with its own zero credit and zero debit |
| Generate.Tally | cmd/giverny/commands/transactions/generate.go:202-203 | one transfer updates exactly the two sums it concerns |
| Generate.TransferLoop | cmd/giverny/commands/transactions/generate.go:184-226 | for distinct addresses each account's list is the full list's transactions from its address, its debits what these pay and its credits what the full list pays to it; amounts and parties follow the picks |
| Generate.DeltaLoop | cmd/giverny/commands/transactions/generate.go:228-248 | one payment and one row per account, total net being transfer net plus faucet credit |
| Generate.FundOnce | cmd/giverny/commands/transactions/generate.go:228-248 | one payment covers debits and surplus, in numbers of its own, and the row's nets add up |
| Generate.Partition | cmd/giverny/commands/transactions/generate.go:222-223 | the per-account lists partition the full list |
| Generate.GeneratedSetIsCarefreeWhen | cmd/giverny/commands/transactions/generate.go:231-238 | for every surplus: the payments are accepted (none negative) and accounts that start empty can execute the transfers in every order, if and only if the surplus is not negative |
| Generate.GenerateTransactions | cmd/giverny/commands/transactions/generate.go:174-248 | for distinct addresses, on the full list alone: each account's list, debits and credits are what the full list says of its address, and the faucet pays it these debits plus the surplus |
| Generate.FullListTells | cmd/giverny/commands/transactions/generate.go:202-223 | books and selections by pick are sums and selections by address over the full list |
| Generate.NetsCancel | cmd/giverny/commands/transactions/generate.go:245-245 | the net transfers of all rows sum to zero |
| Generate.FaucetPaysTotals | cmd/giverny/commands/transactions/generate.go:231-248 | the total nets of all rows sum to what the faucet pays out |

## Left out

- The `POA_Error`, `MonikerAnnounce` and vote-cast events, payment value, gas, `init`, `checkAuthorisedPublicKey`, the plain getters and the unused `addToWhitelist`: they do not affect who is a member.
- Array lengths are not bounded to 256 bits: only the nominee array could grow with repeated nominations of the zero address.
- Contract.Poa.Apply: running out of gas and payment to the contract are not modelled.
- Bridge.InmemProxy.CommitBlock: fees, the state hash, logging and what a transaction outside the contract does to balances are not modelled.
- GenesisStorage.GenesisReads: nothing is claimed if hashed slots collide, nor for the `flags` words, which nothing reads.
- Deployment.GenesisIsGoodWhen: that the slots of individual votes are zero is a hypothesis (`NoVotes`), because there are more voter/nominee pairs than slots and none about Keccak can keep all of them clear of the written ones.
- GenesisStorage.EntryReadsWhen: no condition is given for texts that are not hexadecimal, which `monetd config whitelist` passes on unchecked too (`cmd/monetd/commands/config/whitelist.go:40-43`): reading stops at the first pair that is not two digits. GenesisReads and GenesisIsGoodWhen hold for them.
- Keccak-256, key recovery, signatures, Babble and EVM-Lite: parameters with the stated hypotheses.
- Random choice: any picks with different sender and receiver; that the retry loops end is not claimed.
- Generate.GenerateTransactions: the unused `trans` list, reading the network file and writing the output files are not modelled.
- Solo.SoloTransactions: reading key files and writing the output file are not modelled, nor two accounts with one address.
- `giverny parse`, the older contracts, byte code, command line, configuration, Docker, AWS and end-to-end scripts: input and output plumbing.
