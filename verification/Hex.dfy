/** Printing and reading hexadecimal: `%x`, `%064x`, `hex.EncodeToString`,
    `ToLower`, and go-ethereum's `HexToHash`. */
module Hex {
  import opened Protocol
  import opened Sequences

  type byte = b: int | 0 <= b < 256

  predicate IsDigit(c: char) {
    '0' <= c <= '9' || 'a' <= c <= 'f' || 'A' <= c <= 'F'
  }

  function Value(c: char): (d: nat)
    requires IsDigit(c)
    ensures d < 16
  {
    if c <= '9' then c as int - '0' as int
    else if c <= 'F' then c as int - 'A' as int + 10
    else c as int - 'a' as int + 10
  }

  function Digit(d: nat): (c: char)
    requires d < 16
    ensures IsDigit(c) && Value(c) == d && LowerChar(c) == c
  {
    if d < 10 then '0' + d as char else 'a' + (d - 10) as char
  }

  predicate IsHex(s: string) {
    forall i :: 0 <= i < |s| ==> IsDigit(s[i])
  }

  /** Reads digits left to right into an accumulator. */
  function ParseFrom(acc: nat, s: string): nat
    requires IsHex(s)
    decreases |s|
  {
    if s == [] then acc else ParseFrom(16 * acc + Value(s[0]), s[1..])
  }

  function Parse(s: string): nat
    requires IsHex(s)
  {
    ParseFrom(0, s)
  }

  function BytesFrom(acc: nat, b: seq<byte>): nat
    decreases |b|
  {
    if b == [] then acc else BytesFrom(256 * acc + b[0], b[1..])
  }

  /** A big-endian byte string as a number. */
  function BytesToNat(b: seq<byte>): nat {
    BytesFrom(0, b)
  }

  function Pow16(k: nat): nat {
    if k == 0 then 1 else 16 * Pow16(k - 1)
  }

  // ---- Printing.

  /** `%x`. */
  function Digits(n: nat): (s: string)
    ensures |s| > 0 && IsHex(s)
  {
    if n < 16 then [Digit(n)] else Digits(n / 16) + [Digit(n % 16)]
  }

  function Zeros(k: nat): (s: string)
    ensures |s| == k && IsHex(s) && forall i :: 0 <= i < k ==> s[i] == '0'
  {
    seq(k, _ => '0')
  }

  /** `%0<width>x` or `%0<width>d`. */
  function PadTo(s: string, width: nat): string {
    if |s| < width then Zeros(width - |s|) + s else s
  }

  function Pair(b: byte): (s: string)
    ensures |s| == 2 && IsHex(s)
  {
    [Digit(b / 16), Digit(b % 16)]
  }

  function Encode(b: seq<byte>): (s: string)
    ensures |s| == 2 * |b| && IsHex(s)
  {
    if b == [] then [] else Pair(b[0]) + Encode(b[1..])
  }

  /** The 64-digit key of a storage slot. */
  function Key(slot: nat): string {
    PadTo(Digits(slot), 64)
  }

  // ---- Reading.

  predicate HasPrefix0x(s: string) {
    |s| >= 2 && s[0] == '0' && (s[1] == 'x' || s[1] == 'X')
  }

  /** Pairs of digits up to the first that is not one. */
  function DecodePairs(s: string): seq<byte> {
    if |s| < 2 || !IsDigit(s[0]) || !IsDigit(s[1]) then []
    else [16 * Value(s[0]) + Value(s[1])] + DecodePairs(s[2..])
  }

  function FromHex(s: string): seq<byte> {
    var t := if HasPrefix0x(s) then s[2..] else s;
    DecodePairs(if |t| % 2 == 1 then "0" + t else t)
  }

  /** The 256-bit word: short input is padded, long input cropped on the left. */
  function HexToHash(s: string): uint256 {
    BytesToNat(FromHex(s)) % TWO_256
  }

  function LowerChar(c: char): char {
    if 'A' <= c <= 'Z' then c - 'A' + 'a' else c
  }

  function ToLower(s: string): (r: string)
    ensures |r| == |s| && forall i :: 0 <= i < |s| ==> r[i] == LowerChar(s[i])
  {
    seq(|s|, i requires 0 <= i < |s| => LowerChar(s[i]))
  }

  function TrimPrefix0x(s: string): string {
    if |s| >= 2 && s[0] == '0' && s[1] == 'x' then s[2..] else s
  }

  // ---- Round trips.

  lemma {:induction false} ParseConcat(acc: nat, s: string, t: string)
    requires IsHex(s) && IsHex(t)
    ensures IsHex(s + t) && ParseFrom(acc, s + t) == ParseFrom(ParseFrom(acc, s), t)
    decreases |s|
  {
    if s == [] {
      assert s + t == t;
    } else {
      ParseConcat(16 * acc + Value(s[0]), s[1..], t);
      assert (s + t)[1..] == s[1..] + t;
    }
  }

  lemma Distribute(acc: nat, v: nat, p: nat)
    requires v < 16
    ensures (16 * acc + v) * p == acc * (16 * p) + v * p && v * p <= 15 * p
  {
    assert (15 - v) * p >= 0;
  }

  lemma {:induction false} ParseShift(acc: nat, s: string)
    requires IsHex(s)
    ensures ParseFrom(acc, s) == acc * Pow16(|s|) + Parse(s)
    ensures Parse(s) < Pow16(|s|)
    decreases |s|
  {
    if s != [] {
      var v, p := Value(s[0]), Pow16(|s| - 1);
      ParseShift(16 * acc + v, s[1..]);
      ParseShift(v, s[1..]);
      Distribute(acc, v, p);
    }
  }

  lemma {:induction false} ParseZeros(k: nat, s: string)
    requires IsHex(s)
    ensures IsHex(Zeros(k) + s) && Parse(Zeros(k) + s) == Parse(s)
  {
    if k == 0 {
      assert Zeros(0) + s == s;
    } else {
      ParseZeros(k - 1, s);
      assert (Zeros(k) + s)[1..] == Zeros(k - 1) + s;
    }
  }

  lemma {:induction false} ParseDigits(n: nat)
    ensures Parse(Digits(n)) == n
  {
    if n < 16 {
      assert ParseFrom(n, [Digit(n)][1..]) == n;
    } else {
      ParseDigits(n / 16);
      ParseConcat(0, Digits(n / 16), [Digit(n % 16)]);
      assert ParseFrom(n, [Digit(n % 16)][1..]) == n;
    }
  }

  /** Slots have distinct keys. */
  lemma ParseKey(slot: nat)
    ensures IsHex(Key(slot)) && Parse(Key(slot)) == slot
  {
    ParseDigits(slot);
    var s := Digits(slot);
    if |s| < 64 {
      ParseZeros(64 - |s|, s);
    }
  }

  lemma {:induction false} DigitsLength(n: nat, k: nat)
    requires 0 < k && n < Pow16(k)
    ensures |Digits(n)| <= k
  {
    if n >= 16 {
      assert k > 1 by {
        assert Pow16(1) == 16 * Pow16(0);
      }
      assert n / 16 < Pow16(k - 1);
      DigitsLength(n / 16, k - 1);
    }
  }

  /** The key of a slot is 64 digits long. */
  lemma KeyLength(slot: nat)
    requires slot < TWO_256
    ensures |Key(slot)| == 64
  {
    PowValues();
    DigitsLength(slot, 64);
  }

  /** Letter case does not matter. */
  lemma {:induction false} LowerReads(acc: nat, s: string)
    requires IsHex(s)
    ensures IsHex(ToLower(s)) && ParseFrom(acc, ToLower(s)) == ParseFrom(acc, s)
    decreases |s|
  {
    if s != [] {
      LowerReads(16 * acc + Value(s[0]), s[1..]);
      assert ToLower(s)[1..] == ToLower(s[1..]);
    }
  }

  lemma {:induction false} ParseEncode(acc: nat, b: seq<byte>)
    ensures ParseFrom(acc, Encode(b)) == BytesFrom(acc, b)
    decreases |b|
  {
    if b != [] {
      var s := Encode(b);
      assert s[1..][1..] == Encode(b[1..]);
      ParseEncode(256 * acc + b[0], b[1..]);
      assert 16 * (16 * acc + b[0] / 16) + b[0] % 16 == 256 * acc + b[0];
    }
  }

  function ZeroBytes(k: nat): (b: seq<byte>)
    ensures |b| == k && forall i :: 0 <= i < k ==> b[i] == 0
  {
    seq(k, _ => 0)
  }

  lemma {:induction false} EncodeZeroBytes(k: nat)
    ensures Encode(ZeroBytes(k)) == Zeros(2 * k)
  {
    if k != 0 {
      EncodeZeroBytes(k - 1);
      assert ZeroBytes(k)[1..] == ZeroBytes(k - 1);
      assert Digit(0) == '0';
      assert Zeros(2 * k) == ['0', '0'] + Zeros(2 * (k - 1));
    }
  }

  lemma {:induction false} EncodeConcat(b: seq<byte>, c: seq<byte>)
    ensures Encode(b + c) == Encode(b) + Encode(c)
  {
    if b == [] {
      assert b + c == c;
    } else {
      EncodeConcat(b[1..], c);
      assert (b + c)[1..] == b[1..] + c;
      ConcatAssoc(Pair(b[0]), Encode(b[1..]), Encode(c));
    }
  }

  lemma {:induction false} ParsePairs(acc: nat, s: string)
    requires IsHex(s) && |s| % 2 == 0
    ensures BytesFrom(acc, DecodePairs(s)) == ParseFrom(acc, s)
    decreases |s|
  {
    if s != [] {
      ParsePairs(256 * acc + 16 * Value(s[0]) + Value(s[1]), s[2..]);
      assert s[1..][1..] == s[2..];
      assert 16 * (16 * acc + Value(s[0])) + Value(s[1]) == 256 * acc + 16 * Value(s[0]) + Value(s[1]);
    }
  }

  /** On digits `HexToHash` reads the number they write, modulo 2^256. */
  lemma HexToHashReads(s: string)
    requires IsHex(s)
    ensures HexToHash(s) == Parse(s) % TWO_256
  {
    if |s| % 2 == 1 {
      assert Zeros(1) + s == "0" + s;
      ParseZeros(1, s);
      ParsePairs(0, "0" + s);
    } else {
      ParsePairs(0, s);
    }
  }

  lemma {:induction false} PowSum(j: nat, k: nat)
    ensures Pow16(j + k) == Pow16(j) * Pow16(k)
  {
    if j != 0 {
      PowSum(j - 1, k);
      assert 16 * (Pow16(j - 1) * Pow16(k)) == 16 * Pow16(j - 1) * Pow16(k);
    }
  }

  lemma PowValues()
    ensures Pow16(40) == TWO_160 && Pow16(64) == TWO_256
  {
    assert Pow16(4) == 0x1_0000;
    PowSum(4, 4);
    assert Pow16(8) == 0x1_0000_0000;
    PowSum(8, 8);
    PowSum(16, 16);
    assert Pow16(32) == 0x1_0000_0000_0000_0000_0000_0000_0000_0000;
    PowSum(32, 8);
    PowSum(32, 32);
  }
}
