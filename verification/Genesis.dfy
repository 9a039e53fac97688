/** The storage section of the genesis file, and what the contract reads back
    from it through Solidity's storage layout: a plain variable at its slot, an
    array's length at its slot and its items from keccak(slot) on, a mapping's
    entry at keccak(key . slot), addresses in the low 160 bits of a word. */
module GenesisStorage {
  import opened Protocol
  import opened Options
  import opened Sequences
  import opened Arithmetic
  import opened Hex

  type Storage = map<string, string>

  /** Keccak-256 of the concatenation of 32-byte words. */
  type Keccak = seq<uint256> -> uint256

  datatype MinimalPeerRecord = MinimalPeerRecord(address: string, moniker: seq<byte>)

  const WHITE_LIST: uint256 := 0
  const WHITE_LIST_COUNT: uint256 := 1
  const WHITE_LIST_ARRAY: uint256 := 2
  const NOMINEE_LIST: uint256 := 3
  const NOMINEE_ARRAY: uint256 := 4
  const MONIKER_LIST: uint256 := 5
  const EVICTION_LIST: uint256 := 6
  const EVICTION_ARRAY: uint256 := 7

  function Trimmed(address: string): string {
    TrimPrefix0x(ToLower(address))
  }

  /** The word under which the mappings hold a peer. */
  function MappingKey(peer: MinimalPeerRecord): uint256 {
    HexToHash(Trimmed(peer.address))
  }

  /** The address that a peer's array item and whitelist entry read as. */
  function ListedAddress(peer: MinimalPeerRecord): Address {
    Low160(HexToHash("94" + Trimmed(peer.address)))
  }

  function MappingKeys(peers: seq<MinimalPeerRecord>): seq<uint256> {
    Map(MappingKey, peers)
  }

  function ListedAddresses(peers: seq<MinimalPeerRecord>): seq<Address> {
    Map(ListedAddress, peers)
  }

  // ---- Writing.

  predicate MonikersFit(peers: seq<MinimalPeerRecord>) {
    forall p :: p in peers ==> |p.moniker| <= 32
  }

  function PaddedMoniker(moniker: seq<byte>): string
    requires |moniker| <= 32
  {
    Encode(moniker) + Zeros(64 - |Encode(moniker)|)
  }

  /** The storage after one peer has been written, its array item at `item`. */
  function WithPeer(storage: Storage, keccak: Keccak, item: nat, peer: MinimalPeerRecord): Storage
    requires |peer.moniker| <= 32
  {
    var entry, a := "94" + Trimmed(peer.address), MappingKey(peer);
    storage[Key(item) := entry][Key(keccak([a, WHITE_LIST])) := entry]
           [Key(keccak([a, MONIKER_LIST])) := PaddedMoniker(peer.moniker)]
  }

  /** `%x` of the number of peers, padded to whole bytes. */
  function LengthHex(n: nat): string {
    if |Digits(n)| % 2 == 1 then "0" + Digits(n) else Digits(n)
  }

  /** The storage after the first `i` peers. */
  function Stored(keccak: Keccak, peers: seq<MinimalPeerRecord>, i: nat): Storage
    requires i <= |peers| && MonikersFit(peers)
  {
    if i == 0 then map[Key(WHITE_LIST_COUNT) := LengthHex(|peers|), Key(WHITE_LIST_ARRAY) := LengthHex(|peers|)]
    else WithPeer(Stored(keccak, peers, i - 1), keccak, Item(keccak, i - 1), peers[i - 1])
  }

  /** The first `i` peers have been written: their monikers fit, and if all do,
      this is the storage. */
  ghost predicate HasWritten(storage: Storage, keccak: Keccak, peers: seq<MinimalPeerRecord>, i: nat) {
    && i <= |peers| && MonikersFit(peers[..i])
    && (MonikersFit(peers) ==> storage == Stored(keccak, peers, i))
  }

  lemma WritesNext(before: Storage, after: Storage, keccak: Keccak, peers: seq<MinimalPeerRecord>, i: nat)
    requires i < |peers| && |peers[i].moniker| <= 32 && HasWritten(before, keccak, peers, i)
    requires after == WithPeer(before, keccak, Item(keccak, i), peers[i])
    ensures HasWritten(after, keccak, peers, i + 1)
  {
    TakeSnoc(peers, i + 1);
  }

  /** Fails (a panic in `strings.Repeat`) exactly when a moniker is longer than
      32 bytes. */
  method GetStorage(peers: seq<MinimalPeerRecord>, keccak: Keccak) returns (r: Option<Storage>)
    ensures r.Some? <==> MonikersFit(peers)
    ensures r.Some? ==> r.value == Stored(keccak, peers, |peers|)
  {
    var storage: Storage := map[];
    var _, slot0 := SmallSlot(0);
    var slot1Key, _ := SmallSlot(1);
    var slot2Key, slot2 := SmallSlot(2);
    var _, slot5 := SmallSlot(5);
    var hexLength := Digits(|peers|);
    if |hexLength| % 2 == 1 {
      hexLength := "0" + hexLength;
    }
    storage := storage[slot1Key := hexLength];
    storage := storage[slot2Key := hexLength];
    var arraySlotCounter: nat := keccak([slot2]);
    var i := 0;
    while i < |peers|
      invariant 0 <= i <= |peers| && arraySlotCounter == Item(keccak, i)
      invariant HasWritten(storage, keccak, peers, i)
    {
      var next := WritePeer(storage, keccak, arraySlotCounter, slot0, slot5, peers[i]);
      if next.None? {
        return None;
      }
      WritesNext(storage, next.value, keccak, peers, i);
      storage := next.value;
      arraySlotCounter := arraySlotCounter + 1;
      i := i + 1;
    }
    assert peers[..i] == peers;
    return Some(storage);
  }

  /** `%064d` of a one-digit slot number, and its 32 bytes. */
  method SmallSlot(d: nat) returns (key: string, word: uint256)
    requires d < 10
    ensures key == Key(d) && word == d
  {
    key := PadTo([Digit(d)], 64);
    word := HexToHash(key);
    ParseKey(d);
    HexToHashReads(key);
  }

  /** One turn of the loop over the peers. */
  method WritePeer(storage: Storage, keccak: Keccak, arraySlotCounter: nat, slot0: uint256, slot5: uint256,
                   peer: MinimalPeerRecord)
    returns (r: Option<Storage>)
    requires slot0 == WHITE_LIST && slot5 == MONIKER_LIST
    ensures r.None? <==> |peer.moniker| > 32
    ensures r.Some? ==> r.value == WithPeer(storage, keccak, arraySlotCounter, peer)
  {
    var addr := TrimPrefix0x(ToLower(peer.address));
    var s := storage[Key(arraySlotCounter) := "94" + addr];
    var addrWord := HexToHash(addr);
    s := s[Key(keccak([addrWord, slot0])) := "94" + addr];
    var moniker := peer.moniker;
    if |moniker| > 64 {
      moniker := moniker[0..63];
    }
    var monikerString := Encode(moniker);
    if |monikerString| > 64 {
      return None;
    }
    s := s[Key(keccak([addrWord, slot5])) := monikerString + Zeros(64 - |monikerString|)];
    return Some(s);
  }

  // ---- Reading.

  function Word(storage: Storage, slot: nat): uint256 {
    if Key(slot) in storage then HexToHash(storage[Key(slot)]) else 0
  }

  function Low160(w: uint256): Address {
    w % TWO_160
  }

  /** A `bytes32` holding the moniker, padded with zero bytes. */
  function MonikerWord(moniker: seq<byte>): nat
    requires |moniker| <= 32
  {
    BytesToNat(moniker + ZeroBytes(32 - |moniker|))
  }

  /** The mappings with one word to an entry. */
  predicate IsMapping(slot: uint256) {
    slot == WHITE_LIST || slot == MONIKER_LIST
  }

  /** The mappings to election records. */
  predicate IsElections(slot: uint256) {
    slot == NOMINEE_LIST || slot == EVICTION_LIST
  }

  predicate IsPlain(slot: nat) {
    slot == WHITE_LIST_COUNT || slot == WHITE_LIST_ARRAY || slot == NOMINEE_ARRAY || slot == EVICTION_ARRAY
  }

  /** The slot of item `i` of the whitelist array. */
  function Item(keccak: Keccak, i: nat): nat {
    keccak([WHITE_LIST_ARRAY]) + i
  }

  /** The slot of the entry for `key` in the mapping at slot `list`. */
  function Entry(keccak: Keccak, list: uint256, key: uint256): nat {
    keccak([key, list])
  }

  /** Word `k` of the election record of `a` in the mapping at slot `list`. */
  function Field(keccak: Keccak, list: uint256, a: Address, k: nat): uint256 {
    (keccak([a, list]) + k) % TWO_256
  }

  ghost predicate InArray(keccak: Keccak, n: nat, slot: nat) {
    Item(keccak, 0) <= slot < Item(keccak, n)
  }

  /** The slots written for the peers with mapping keys `keys`. */
  ghost predicate Written(keccak: Keccak, keys: seq<uint256>, slot: nat) {
    || slot == WHITE_LIST_COUNT || slot == WHITE_LIST_ARRAY
    || InArray(keccak, |keys|, slot)
    || (exists a :: a in keys && (slot == Entry(keccak, WHITE_LIST, a) || slot == Entry(keccak, MONIKER_LIST, a)))
  }

  /** Keys that are written or that an address can read. */
  predicate IsReached(keys: seq<uint256>, key: uint256) {
    key < TWO_160 || key in keys
  }

  /** The slots written for `keys` differ from each other and from the slots of
      all other variables, of the mapping entries of all other addresses, and of
      all election records. */
  ghost predicate Spread(keccak: Keccak, keys: seq<uint256>) {
    && Item(keccak, |keys|) <= TWO_256
    && (forall slot :: InArray(keccak, |keys|, slot) ==> !IsPlain(slot))
    && (forall a, f {:trigger IsMapping(f), Entry(keccak, f, a)} :: IsMapping(f) && IsReached(keys, a) ==>
          !IsPlain(Entry(keccak, f, a)) && !InArray(keccak, |keys|, Entry(keccak, f, a)))
    && (forall a, b, f, g {:trigger IsMapping(f), IsMapping(g), Entry(keccak, f, a), Entry(keccak, g, b)} ::
          (a in keys && IsReached(keys, b) && IsMapping(f) && IsMapping(g)
           && Entry(keccak, f, a) == Entry(keccak, g, b)) ==> a == b && f == g)
    && (forall a: Address, f, k: nat {:trigger Field(keccak, f, a, k)} ::
          IsElections(f) && k < 7 ==> !Written(keccak, keys, Field(keccak, f, a, k)))
  }

  // ---- The hypothesis can be met.

  /** Where a hash that keeps slots apart puts the words of an entry. */
  function Place(list: nat, a: nat): nat {
    a * 128 + list * 8 + 1000
  }

  function Apart(words: seq<uint256>): uint256 {
    if |words| == 2 && words[0] < TWO_160 && words[1] < 8 then Place(words[1], words[0]) else TWO_256 / 2
  }

  lemma PlacesApart(f: nat, a: nat, g: nat, b: nat)
    requires f < 8 && g < 8
    ensures f != g || a != b ==> Place(f, a) + 7 < Place(g, b) || Place(g, b) + 7 < Place(f, a)
  {
  }

  lemma ApartEntry(list: uint256, a: uint256)
    requires list < 8 && a < TWO_160
    ensures Entry(Apart, list, a) == Place(list, a) < TWO_256 / 2 - 8
  {
  }

  lemma ApartItem(n: nat, slot: nat)
    ensures InArray(Apart, n, slot) <==> TWO_256 / 2 <= slot < TWO_256 / 2 + n
  {
  }

  lemma ApartField(keys: seq<uint256>, list: uint256, a: Address, k: nat)
    requires forall b :: b in keys ==> b < TWO_160
    requires IsElections(list) && k < 7
    ensures !Written(Apart, keys, Field(Apart, list, a, k))
  {
    ApartEntry(list, a);
    var slot := Field(Apart, list, a, k);
    assert slot == Place(list, a) + k;
    ApartItem(|keys|, slot);
    forall b | b in keys ensures slot != Entry(Apart, WHITE_LIST, b) && slot != Entry(Apart, MONIKER_LIST, b) {
      ApartEntry(WHITE_LIST, b);
      ApartEntry(MONIKER_LIST, b);
      PlacesApart(list, a, WHITE_LIST, b);
      PlacesApart(list, a, MONIKER_LIST, b);
    }
  }

  lemma ApartEntries(f: uint256, a: uint256, g: uint256, b: uint256)
    requires IsMapping(f) && IsMapping(g) && a < TWO_160 && b < TWO_160
    requires Entry(Apart, f, a) == Entry(Apart, g, b)
    ensures a == b && f == g
  {
    ApartEntry(f, a);
    ApartEntry(g, b);
    PlacesApart(f, a, g, b);
  }

  /** `Spread` can hold, whatever the addresses. */
  lemma SpreadIsPossible(keys: seq<uint256>)
    requires |keys| <= TWO_256 / 2 && forall a :: a in keys ==> a < TWO_160
    ensures Spread(Apart, keys)
  {
    forall slot: nat ensures InArray(Apart, |keys|, slot) ==> !IsPlain(slot) {
      ApartItem(|keys|, slot);
    }
    forall a, f {:trigger IsMapping(f), Entry(Apart, f, a)} | IsMapping(f) && IsReached(keys, a)
      ensures !IsPlain(Entry(Apart, f, a)) && !InArray(Apart, |keys|, Entry(Apart, f, a))
    {
      ApartEntry(f, a);
      ApartItem(|keys|, Entry(Apart, f, a));
    }
    forall a, b, f, g {:trigger IsMapping(f), IsMapping(g), Entry(Apart, f, a), Entry(Apart, g, b)} |
        a in keys && IsReached(keys, b) && IsMapping(f) && IsMapping(g) && Entry(Apart, f, a) == Entry(Apart, g, b)
      ensures a == b && f == g
    {
      ApartEntries(f, a, g, b);
    }
    forall a: Address, f, k: nat {:trigger Field(Apart, f, a, k)} | IsElections(f) && k < 7
      ensures !Written(Apart, keys, Field(Apart, f, a, k))
    {
      ApartField(keys, f, a, k);
    }
  }

  // ---- What a storage says.

  ghost predicate ItemsRead(storage: Storage, keccak: Keccak, listed: seq<Address>) {
    forall i :: 0 <= i < |listed| ==> Low160(Word(storage, Item(keccak, i))) == listed[i]
  }

  /** For the last peer of each key. */
  ghost predicate EntriesRead(storage: Storage, keccak: Keccak, keys: seq<uint256>, listed: seq<Address>)
    requires |keys| == |listed|
  {
    forall i :: 0 <= i < |keys| && keys[i] !in keys[i + 1..] ==>
      Low160(Word(storage, Entry(keccak, WHITE_LIST, keys[i]))) == listed[i]
  }

  ghost predicate MonikersRead(storage: Storage, keccak: Keccak, keys: seq<uint256>, peers: seq<MinimalPeerRecord>)
    requires |keys| == |peers|
  {
    forall i :: 0 <= i < |keys| && keys[i] !in keys[i + 1..] ==>
      |peers[i].moniker| <= 32 && Word(storage, Entry(keccak, MONIKER_LIST, keys[i])) == MonikerWord(peers[i].moniker)
  }

  ghost predicate NothingElse(storage: Storage, keccak: Keccak, keys: seq<uint256>) {
    forall slot {:trigger Written(keccak, keys, slot)} :: !Written(keccak, keys, slot) ==> Word(storage, slot) == 0
  }

  /** What the words of `storage` say: the count, twice; the peers in order;
      their mapping entries and monikers; and nothing anywhere else. */
  ghost predicate Describes(storage: Storage, keccak: Keccak, peers: seq<MinimalPeerRecord>, count: nat) {
    var keys, listed := MappingKeys(peers), ListedAddresses(peers);
    && Word(storage, WHITE_LIST_COUNT) == Word(storage, WHITE_LIST_ARRAY) == count
    && ItemsRead(storage, keccak, listed)
    && EntriesRead(storage, keccak, keys, listed)
    && MonikersRead(storage, keccak, keys, peers)
    && NothingElse(storage, keccak, keys)
  }

  // ---- Why it reads back.

  lemma WordUpdate(storage: Storage, x: nat, v: string, slot: nat)
    ensures Word(storage[Key(x) := v], slot) == if slot == x then HexToHash(v) else Word(storage, slot)
  {
    ParseKey(x);
    ParseKey(slot);
  }

  /** Every key written is 64 digits long. */
  lemma {:induction false} KeysAreWhole(keccak: Keccak, peers: seq<MinimalPeerRecord>, i: nat, key: string)
    requires i <= |peers| && MonikersFit(peers) && Item(keccak, |peers|) <= TWO_256
    requires key in Stored(keccak, peers, i)
    ensures |key| == 64
  {
    if i == 0 {
      KeyLength(WHITE_LIST_COUNT);
      KeyLength(WHITE_LIST_ARRAY);
    } else {
      var a := MappingKey(peers[i - 1]);
      KeyLength(Item(keccak, i - 1));
      KeyLength(Entry(keccak, WHITE_LIST, a));
      KeyLength(Entry(keccak, MONIKER_LIST, a));
      if key in Stored(keccak, peers, i - 1) {
        KeysAreWhole(keccak, peers, i - 1, key);
      }
    }
  }

  lemma LengthIsWhole(n: nat)
    ensures |LengthHex(n)| % 2 == 0
  {
  }

  /** The even-padded length reads as the length. */
  lemma LengthReads(n: nat, hexLength: string)
    requires n < TWO_256 && hexLength == LengthHex(n)
    ensures HexToHash(hexLength) == n
  {
    ParseDigits(n);
    assert Zeros(1) == "0";
    ParseZeros(1, Digits(n));
    HexToHashReads(hexLength);
  }

  lemma EmptyStorage(keccak: Keccak, all: seq<uint256>, n: nat, hexLength: string, storage: Storage)
    requires Spread(keccak, all) && n == |all|
    requires hexLength == LengthHex(n)
    requires storage == map[Key(1) := hexLength, Key(2) := hexLength]
    ensures Describes(storage, keccak, [], n)
  {
    var empty: Storage := map[];
    assert n < TWO_256 by {
      if n == TWO_256 {
        assert InArray(keccak, n, 1) && IsPlain(1);
      }
    }
    LengthReads(n, hexLength);
    forall slot: nat ensures Word(storage, slot) == if slot == 1 || slot == 2 then n else 0 {
      WordUpdate(empty, 1, hexLength, slot);
      WordUpdate(empty[Key(1) := hexLength], 2, hexLength, slot);
      assert storage == empty[Key(1) := hexLength][Key(2) := hexLength];
    }
  }

  lemma ParseEntry(s: string)
    requires IsHex(s)
    ensures IsHex("94" + s) && Parse("94" + s) == 0x94 * Pow16(|s|) + Parse(s)
    ensures Parse(s) < Pow16(|s|)
  {
    ParseConcat(0, "94", s);
    ParseShift(Parse("94"), s);
    assert "94"[1..] == "4" && "4"[1..] == "";
    assert Parse("94") == 0x94;
  }

  lemma {:induction false} PowPositive(k: nat)
    ensures Pow16(k) > 0
  {
    if k > 0 {
      PowPositive(k - 1);
    }
  }

  lemma EntryParses(s: string) returns (y: nat)
    requires IsHex(s)
    ensures Parse(s) < Pow16(|s|) && y == 0x94 * Pow16(|s|) + Parse(s)
    ensures HexToHash("94" + s) == y % TWO_256
  {
    ParseEntry(s);
    HexToHashReads("94" + s);
    y := Parse("94" + s);
  }

  lemma LongEntry(n: nat, x: nat, y: nat, w: nat, m: nat)
    requires m == Pow16(w) && n >= w && y == 0x94 * Pow16(n) + x
    ensures 0 < m && y % m == x % m
  {
    PowPositive(w);
    PowSum(n - w, w);
    SameRemainder(Pow16(n), 0x94, Pow16(n - w), x, m);
  }

  lemma ShortEntry(n: nat, x: nat, y: nat, w: nat, m: nat)
    requires m == Pow16(w) && n < w && x < Pow16(n) && y == 0x94 * Pow16(n) + x
    ensures x < m && y % m != x
  {
    PowSum(n, w - n);
    PowPositive(w - n - 1);
    OtherRemainder(Pow16(n), 0x94, Pow16(w - n - 1), x, y, m);
  }

  lemma ReadsBackWhen(n: nat, x: nat, y: nat, w: nat, m: nat, key: nat, listed: nat)
    requires 0 < m == Pow16(w) && x < Pow16(n) && y == 0x94 * Pow16(n) + x
    requires listed == y % m && key % m == x % m && (x < m ==> key == x)
    ensures listed == key <==> n >= w && key < m
  {
    if n >= w {
      LongEntry(n, x, y, w, m);
      Below(key, m);
    } else {
      ShortEntry(n, x, y, w, m);
    }
  }

  lemma CroppedLow(x: nat)
    ensures (x % TWO_256) % TWO_160 == x % TWO_160
    ensures x < TWO_160 ==> x % TWO_256 == x
  {
    ModTwice(x, TWO_160, TWO_256 / TWO_160);
  }

  /** The text is the digits `s`, perhaps after `0x` or `0X`. */
  ghost predicate Spells(address: string, s: string) {
    IsHex(s) && (address == s || address == "0x" + s || address == "0X" + s)
  }

  lemma PrefixIsTrimmed(s: string)
    requires IsHex(s)
    ensures TrimPrefix0x(s) == s && TrimPrefix0x("0x" + s) == s
  {
    assert ("0x" + s)[2..] == s;
  }

  lemma TrimmedIsLower(address: string, s: string)
    requires Spells(address, s)
    ensures IsHex(ToLower(s)) && Trimmed(address) == ToLower(s) && Parse(ToLower(s)) == Parse(s)
  {
    LowerReads(0, s);
    PrefixIsTrimmed(ToLower(s));
    if address != s {
      assert ToLower(address) == "0x" + ToLower(s);
    }
  }

  /** A hexadecimal address, in either case, with or without the prefix, is the key
      of its mapping entries as a number modulo 2^256. It reads back from behind the
      byte 0x94 as that key exactly when it has forty digits or more, and a value
      that is an address. */
  lemma EntryReadsWhen(peer: MinimalPeerRecord, s: string)
    requires Spells(peer.address, s)
    ensures MappingKey(peer) == Parse(s) % TWO_256
    ensures ListedAddress(peer) == MappingKey(peer) <==> |s| >= 40 && Parse(s) % TWO_256 < TWO_160
  {
    var x := ToLower(s);
    TrimmedIsLower(peer.address, s);
    var y := EntryParses(x);
    HexToHashReads(x);
    CroppedLow(Parse(x));
    CroppedLow(y);
    PowValues();
    ReadsBackWhen(|x|, Parse(x), y, 40, TWO_160, MappingKey(peer), ListedAddress(peer));
  }

  /** Forty digits: the peer is listed, and its entries are held, under the number
      they write. */
  lemma FortyDigits(peer: MinimalPeerRecord, s: string)
    requires Spells(peer.address, s) && |s| == 40
    ensures MappingKey(peer) == ListedAddress(peer) == Parse(s) < TWO_160
  {
    ParseShift(0, s);
    PowValues();
    assert Parse(s) % TWO_256 == Parse(s);
    EntryReadsWhen(peer, s);
  }

  lemma ParseNext(acc: nat, s: string, d: nat, rest: string)
    requires d < 16 && s == [Digit(d)] + rest && IsHex(rest)
    ensures IsHex(s) && ParseFrom(acc, s) == ParseFrom(16 * acc + d, rest)
  {
    assert s[1..] == rest;
  }

  lemma FourDigits(s: string)
    requires s == "1234"
    ensures IsHex(s) && Parse(s) == 0x1234 && Pow16(4) == 0x10000
  {
    ParseNext(0x123, "4", 4, "");
    ParseNext(0x12, "34", 3, "4");
    ParseNext(0x1, "234", 2, "34");
    ParseNext(0, s, 1, "234");
  }

  /** `alice=1234` on the command line: the array says 0x941234, and the mapping
      entry is for 0x1234. */
  lemma ShortAddressFails(alice: MinimalPeerRecord)
    requires alice.address == "1234"
    ensures MappingKey(alice) == 0x1234 && ListedAddress(alice) == 0x941234
  {
    var s := Trimmed(alice.address);
    assert ToLower(alice.address) == alice.address;
    FourDigits(s);
    EntryReadsWhen(alice, s);
    var y := EntryParses(s);
    assert y == 0x941234;
  }

  lemma WordReads(b: seq<byte>)
    requires |b| == 32
    ensures HexToHash(Encode(b)) == BytesToNat(b)
  {
    HexToHashReads(Encode(b));
    ParseEncode(0, b);
    ParseShift(0, Encode(b));
    PowValues();
  }

  lemma MonikerReads(moniker: seq<byte>)
    requires |moniker| <= 32
    ensures HexToHash(PaddedMoniker(moniker)) == MonikerWord(moniker)
  {
    var k := 32 - |moniker|;
    EncodeConcat(moniker, ZeroBytes(k));
    EncodeZeroBytes(k);
    WordReads(moniker + ZeroBytes(k));
  }

  /** The words after the three assignments of one peer. */
  ghost predicate Assigned(before: Storage, after: Storage, item: nat, person: nat, moniker: nat,
                           entry: uint256, name: nat)
  {
    forall slot :: Word(after, slot) == if slot == moniker then name
                                        else if slot == person || slot == item then entry
                                        else Word(before, slot)
  }

  lemma Assign(before: Storage, after: Storage, item: nat, person: nat, moniker: nat, entry: string, name: string)
    requires after == before[Key(item) := entry][Key(person) := entry][Key(moniker) := name]
    ensures Assigned(before, after, item, person, moniker, HexToHash(entry), HexToHash(name))
  {
    forall slot
      ensures Word(after, slot) == if slot == moniker then HexToHash(name)
                                   else if slot == person || slot == item then HexToHash(entry)
                                   else Word(before, slot)
    {
      WordUpdate(before, item, entry, slot);
      WordUpdate(before[Key(item) := entry], person, entry, slot);
      WordUpdate(before[Key(item) := entry][Key(person) := entry], moniker, name, slot);
    }
  }

  /** `keys` and then `a` are the first of `all`. */
  ghost predicate Next(all: seq<uint256>, keys: seq<uint256>, a: uint256) {
    |keys| < |all| && a == all[|keys|] && forall i :: 0 <= i < |keys| ==> keys[i] == all[i]
  }

  lemma NothingElseKept(before: Storage, after: Storage, keccak: Keccak, keys: seq<uint256>, a: uint256,
                        entry: uint256, name: nat)
    requires NothingElse(before, keccak, keys)
    requires Assigned(before, after, Item(keccak, |keys|), Entry(keccak, WHITE_LIST, a), Entry(keccak, MONIKER_LIST, a),
                      entry, name)
    ensures NothingElse(after, keccak, keys + [a])
  {
    forall slot | !Written(keccak, keys + [a], slot) ensures Word(after, slot) == 0 {
      assert a in keys + [a];
      assert InArray(keccak, |keys + [a]|, Item(keccak, |keys|));
      assert forall b :: b in keys ==> b in keys + [a];
      assert !Written(keccak, keys, slot);
    }
  }

  lemma ItemsKept(before: Storage, after: Storage, keccak: Keccak, all: seq<uint256>, keys: seq<uint256>, a: uint256,
                  listed: seq<Address>, entry: uint256, name: nat)
    requires Spread(keccak, all) && Next(all, keys, a) && |listed| == |keys|
    requires ItemsRead(before, keccak, listed)
    requires Assigned(before, after, Item(keccak, |keys|), Entry(keccak, WHITE_LIST, a), Entry(keccak, MONIKER_LIST, a),
                      entry, name)
    ensures ItemsRead(after, keccak, listed + [Low160(entry)])
  {
    assert IsMapping(WHITE_LIST) && IsMapping(MONIKER_LIST) && IsReached(all, a);
    forall i | 0 <= i <= |listed| ensures Low160(Word(after, Item(keccak, i))) == (listed + [Low160(entry)])[i] {
      assert InArray(keccak, |all|, Item(keccak, i));
    }
  }

  lemma EntriesKept(before: Storage, after: Storage, keccak: Keccak, all: seq<uint256>, keys: seq<uint256>, a: uint256,
                    listed: seq<Address>, entry: uint256, name: nat)
    requires Spread(keccak, all) && Next(all, keys, a) && |listed| == |keys|
    requires EntriesRead(before, keccak, keys, listed)
    requires Assigned(before, after, Item(keccak, |keys|), Entry(keccak, WHITE_LIST, a), Entry(keccak, MONIKER_LIST, a),
                      entry, name)
    ensures EntriesRead(after, keccak, keys + [a], listed + [Low160(entry)])
  {
    assert IsMapping(WHITE_LIST) && IsMapping(MONIKER_LIST) && IsReached(all, a);
    assert InArray(keccak, |all|, Item(keccak, |keys|));
    forall i | 0 <= i <= |keys| && (keys + [a])[i] !in (keys + [a])[i + 1..]
      ensures Low160(Word(after, Entry(keccak, WHITE_LIST, (keys + [a])[i]))) == (listed + [Low160(entry)])[i]
    {
      if i < |keys| {
        LastInPrefix(keys, a, i);
        assert IsReached(all, keys[i]);
        assert Entry(keccak, WHITE_LIST, keys[i]) != Entry(keccak, WHITE_LIST, a);
        assert Entry(keccak, WHITE_LIST, keys[i]) != Entry(keccak, MONIKER_LIST, a);
      }
    }
  }

  lemma LastInPrefix(keys: seq<uint256>, a: uint256, i: nat)
    requires i < |keys| && (keys + [a])[i] !in (keys + [a])[i + 1..]
    ensures keys[i] !in keys[i + 1..] && keys[i] != a
  {
    assert (keys + [a])[i + 1..] == keys[i + 1..] + [a];
  }

  lemma MonikersKept(before: Storage, after: Storage, keccak: Keccak, all: seq<uint256>, keys: seq<uint256>, a: uint256,
                     peers: seq<MinimalPeerRecord>, peer: MinimalPeerRecord, entry: uint256)
    requires Spread(keccak, all) && Next(all, keys, a) && |peers| == |keys| && |peer.moniker| <= 32
    requires MonikersRead(before, keccak, keys, peers)
    requires Assigned(before, after, Item(keccak, |keys|), Entry(keccak, WHITE_LIST, a), Entry(keccak, MONIKER_LIST, a),
                      entry, MonikerWord(peer.moniker))
    ensures MonikersRead(after, keccak, keys + [a], peers + [peer])
  {
    assert IsMapping(WHITE_LIST) && IsMapping(MONIKER_LIST) && IsReached(all, a);
    assert InArray(keccak, |all|, Item(keccak, |keys|));
    forall i | 0 <= i < |keys| && (keys + [a])[i] !in (keys + [a])[i + 1..]
      ensures |peers[i].moniker| <= 32
      ensures Word(after, Entry(keccak, MONIKER_LIST, keys[i])) == MonikerWord(peers[i].moniker)
    {
      LastInPrefix(keys, a, i);
      assert IsReached(all, keys[i]);
      assert Entry(keccak, MONIKER_LIST, keys[i]) != Entry(keccak, MONIKER_LIST, a);
      assert Entry(keccak, MONIKER_LIST, keys[i]) != Entry(keccak, WHITE_LIST, a);
    }
  }

  lemma CountKept(before: Storage, after: Storage, keccak: Keccak, all: seq<uint256>, keys: seq<uint256>, a: uint256,
                  entry: uint256, name: nat)
    requires Spread(keccak, all) && Next(all, keys, a)
    requires Assigned(before, after, Item(keccak, |keys|), Entry(keccak, WHITE_LIST, a), Entry(keccak, MONIKER_LIST, a),
                      entry, name)
    ensures forall slot :: IsPlain(slot) ==> Word(after, slot) == Word(before, slot)
  {
    assert IsMapping(WHITE_LIST) && IsMapping(MONIKER_LIST) && IsReached(all, a);
    assert InArray(keccak, |all|, Item(keccak, |keys|));
  }

  lemma DescribesKept(before: Storage, after: Storage, keccak: Keccak, all: seq<uint256>,
                      peers: seq<MinimalPeerRecord>, peer: MinimalPeerRecord, a: uint256, entry: uint256)
    requires a == MappingKey(peer) && Low160(entry) == ListedAddress(peer) && |peer.moniker| <= 32
    requires Spread(keccak, all) && Next(all, MappingKeys(peers), a) && Describes(before, keccak, peers, |all|)
    requires Assigned(before, after, Item(keccak, |peers|), Entry(keccak, WHITE_LIST, a),
                      Entry(keccak, MONIKER_LIST, a), entry, MonikerWord(peer.moniker))
    ensures Describes(after, keccak, peers + [peer], |all|)
  {
    var keys, listed, name := MappingKeys(peers), ListedAddresses(peers), MonikerWord(peer.moniker);
    assert MappingKeys(peers + [peer]) == keys + [a];
    assert ListedAddresses(peers + [peer]) == listed + [Low160(entry)];
    CountKept(before, after, keccak, all, keys, a, entry, name);
    assert IsPlain(WHITE_LIST_COUNT) && IsPlain(WHITE_LIST_ARRAY);
    ItemsKept(before, after, keccak, all, keys, a, listed, entry, name);
    EntriesKept(before, after, keccak, all, keys, a, listed, entry, name);
    MonikersKept(before, after, keccak, all, keys, a, peers, peer, entry);
    NothingElseKept(before, after, keccak, keys, a, entry, name);
  }

  lemma AddPeer(before: Storage, after: Storage, keccak: Keccak, all: seq<uint256>,
                peers: seq<MinimalPeerRecord>, peer: MinimalPeerRecord)
    requires |peer.moniker| <= 32
    requires Spread(keccak, all) && Next(all, MappingKeys(peers), MappingKey(peer))
    requires Describes(before, keccak, peers, |all|)
    requires after == WithPeer(before, keccak, Item(keccak, |peers|), peer)
    ensures Describes(after, keccak, peers + [peer], |all|)
  {
    MonikerReads(peer.moniker);
    var a, entry, name := MappingKey(peer), "94" + Trimmed(peer.address), PaddedMoniker(peer.moniker);
    Assign(before, after, Item(keccak, |peers|), Entry(keccak, WHITE_LIST, a), Entry(keccak, MONIKER_LIST, a),
           entry, name);
    DescribesKept(before, after, keccak, all, peers, peer, a, HexToHash(entry));
  }

  lemma StoredNone(storage: Storage, keccak: Keccak, peers: seq<MinimalPeerRecord>)
    requires MonikersFit(peers) && Spread(keccak, MappingKeys(peers))
    requires storage == Stored(keccak, peers, 0)
    ensures Describes(storage, keccak, [], |peers|)
  {
    EmptyStorage(keccak, MappingKeys(peers), |peers|, LengthHex(|peers|), storage);
  }

  lemma StoredStep(before: Storage, after: Storage, keccak: Keccak, peers: seq<MinimalPeerRecord>, i: nat,
                   init: seq<MinimalPeerRecord>, longer: seq<MinimalPeerRecord>)
    requires 0 < i <= |peers| && MonikersFit(peers) && Spread(keccak, MappingKeys(peers))
    requires init == peers[..i - 1] && longer == peers[..i]
    requires Describes(before, keccak, init, |peers|)
    requires after == WithPeer(before, keccak, Item(keccak, i - 1), peers[i - 1])
    ensures Describes(after, keccak, longer, |peers|)
  {
    TakeSnoc(peers, i);
    assert Next(MappingKeys(peers), MappingKeys(init), MappingKey(peers[i - 1]));
    AddPeer(before, after, keccak, MappingKeys(peers), init, peers[i - 1]);
  }

  /** What is written can be read back, if hashed slots do not collide. */
  lemma {:induction false} StoredReads(keccak: Keccak, peers: seq<MinimalPeerRecord>, i: nat)
    requires i <= |peers| && MonikersFit(peers) && Spread(keccak, MappingKeys(peers))
    ensures Describes(Stored(keccak, peers, i), keccak, peers[..i], |peers|)
    decreases i
  {
    if i == 0 {
      StoredNone(Stored(keccak, peers, 0), keccak, peers);
    } else {
      StoredReads(keccak, peers, i - 1);
      StoredStep(Stored(keccak, peers, i - 1), Stored(keccak, peers, i), keccak, peers, i, peers[..i - 1], peers[..i]);
    }
  }

  // ---- What the contract reads.

  function ReadArray(storage: Storage, keccak: Keccak, slot: uint256): (r: seq<Address>)
    ensures |r| == Word(storage, slot)
    ensures forall i :: 0 <= i < |r| ==> r[i] == Low160(Word(storage, keccak([slot]) + i))
  {
    seq<Address>(Word(storage, slot),
                 i requires 0 <= i < Word(storage, slot) => Low160(Word(storage, keccak([slot]) + i)))
  }

  lemma UnwrittenEntry(storage: Storage, keccak: Keccak, keys: seq<uint256>, list: uint256, a: Address)
    requires Spread(keccak, keys) && NothingElse(storage, keccak, keys) && IsMapping(list) && a !in keys
    ensures Word(storage, Entry(keccak, list, a)) == 0
  {
    assert IsMapping(WHITE_LIST) && IsMapping(MONIKER_LIST) && IsReached(keys, a);
    assert !Written(keccak, keys, Entry(keccak, list, a));
  }

  lemma UnwrittenArray(storage: Storage, keccak: Keccak, keys: seq<uint256>, slot: uint256)
    requires Spread(keccak, keys) && NothingElse(storage, keccak, keys)
    requires slot == NOMINEE_ARRAY || slot == EVICTION_ARRAY
    ensures Word(storage, slot) == 0
  {
    assert IsPlain(slot) && IsMapping(WHITE_LIST) && IsMapping(MONIKER_LIST);
    assert forall a :: a in keys ==> IsReached(keys, a);
    assert !Written(keccak, keys, slot);
  }

  /** What the deployed contract reads: the count and the array of the peers in
      order; the whitelist entry and the moniker of the last peer of each key;
      zero for every other address; and no trace of an election. */
  ghost predicate Deployed(storage: Storage, keccak: Keccak, peers: seq<MinimalPeerRecord>) {
    var keys, listed := MappingKeys(peers), ListedAddresses(peers);
    && Word(storage, WHITE_LIST_COUNT) == |peers|
    && ReadArray(storage, keccak, WHITE_LIST_ARRAY) == listed
    && ReadArray(storage, keccak, NOMINEE_ARRAY) == [] == ReadArray(storage, keccak, EVICTION_ARRAY)
    && EntriesRead(storage, keccak, keys, listed)
    && MonikersRead(storage, keccak, keys, peers)
    && (forall a: Address, f {:trigger Entry(keccak, f, a)} ::
          IsMapping(f) && a !in keys ==> Word(storage, Entry(keccak, f, a)) == 0)
    && (forall a: Address, f, k: nat {:trigger Field(keccak, f, a, k)} ::
          IsElections(f) && k < 7 ==> Word(storage, Field(keccak, f, a, k)) == 0)
  }

  lemma ArrayReads(storage: Storage, keccak: Keccak, listed: seq<Address>)
    requires ItemsRead(storage, keccak, listed) && Word(storage, WHITE_LIST_ARRAY) == |listed|
    ensures ReadArray(storage, keccak, WHITE_LIST_ARRAY) == listed
  {
    var r := ReadArray(storage, keccak, WHITE_LIST_ARRAY);
    forall i | 0 <= i < |listed| ensures r[i] == listed[i] {
      assert r[i] == Low160(Word(storage, Item(keccak, i)));
    }
  }

  lemma DescribedIsDeployed(storage: Storage, keccak: Keccak, peers: seq<MinimalPeerRecord>)
    requires Spread(keccak, MappingKeys(peers)) && Describes(storage, keccak, peers, |peers|)
    ensures Deployed(storage, keccak, peers)
  {
    var keys := MappingKeys(peers);
    UnwrittenArray(storage, keccak, keys, NOMINEE_ARRAY);
    UnwrittenArray(storage, keccak, keys, EVICTION_ARRAY);
    forall a: Address, f | IsMapping(f) && a !in keys ensures Word(storage, Entry(keccak, f, a)) == 0 {
      UnwrittenEntry(storage, keccak, keys, f, a);
    }
    ArrayReads(storage, keccak, ListedAddresses(peers));
  }

  lemma GenesisReads(storage: Storage, keccak: Keccak, peers: seq<MinimalPeerRecord>)
    requires MonikersFit(peers) && Spread(keccak, MappingKeys(peers))
    requires storage == Stored(keccak, peers, |peers|)
    ensures Deployed(storage, keccak, peers)
  {
    assert peers[..|peers|] == peers;
    StoredReads(keccak, peers, |peers|);
    DescribedIsDeployed(storage, keccak, peers);
  }
}
