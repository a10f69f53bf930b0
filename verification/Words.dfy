/** Fixed-width words and the little-endian byte order every guest structure uses. */
module Words {
  type u8 = x: int | 0 <= x < 0x100
  type u16 = x: int | 0 <= x < 0x1_0000
  type u32 = x: int | 0 <= x < 0x1_0000_0000
  type u64 = x: int | 0 <= x < 0x1_0000_0000_0000_0000

  datatype Option<+T> = None | Some(value: T)

  /** C addition on unsigned words: a sum past the top of the range wraps round. */
  function Add16(a: u16, b: u16): u16 {
    var sum := a as int + b as int;
    if sum < 0x1_0000 then sum else sum - 0x1_0000
  }

  function Add32(a: u32, b: u32): u32 {
    var sum := a as int + b as int;
    if sum < 0x1_0000_0000 then sum else sum - 0x1_0000_0000
  }

  function Add64(a: u64, b: u64): u64 {
    var sum := a as int + b as int;
    if sum < 0x1_0000_0000_0000_0000 then sum else sum - 0x1_0000_0000_0000_0000
  }

  lemma TwiceAndBit(x: nat, bit: nat)
    requires bit < 2
    ensures (2 * x + bit) % 2 == bit && (2 * x + bit) / 2 == x
  {
  }

  /** Bitwise `a & ~b`. */
  function AndNot(a: nat, b: nat): (r: nat)
    ensures r <= a
    ensures r % 2 == 1 <==> a % 2 == 1 && b % 2 == 0
  {
    if a == 0 then 0
    else
      var high, low := AndNot(a / 2, b / 2), if a % 2 == 1 && b % 2 == 0 then 1 else 0;
      TwiceAndBit(high, low);
      2 * high + low
  }

  predicate Bit(x: nat, i: nat) {
    if i == 0 then x % 2 == 1 else Bit(x / 2, i - 1)
  }

  lemma {:induction false} AndNotBits(a: nat, b: nat, i: nat)
    ensures Bit(AndNot(a, b), i) <==> Bit(a, i) && !Bit(b, i)
  {
    if i == 0 || a == 0 {
      NoBits(i);
    } else {
      TwiceAndBit(AndNot(a / 2, b / 2), if a % 2 == 1 && b % 2 == 0 then 1 else 0);
      AndNotBits(a / 2, b / 2, i - 1);
    }
  }

  lemma {:induction false} NoBits(i: nat)
    ensures !Bit(0, i)
  {
    if i > 0 {
      NoBits(i - 1);
    }
  }

  /** Bitwise `a | 1`. */
  function WithBit0(a: u32): (r: u32)
    ensures r % 2 == 1 && r / 2 == a / 2
  {
    if a % 2 == 1 then a else a + 1
  }

  function Load16(b: seq<u8>): u16
    requires |b| == 2
  {
    b[0] as int + 0x100 * b[1] as int
  }

  function Load32(b: seq<u8>): u32
    requires |b| == 4
  {
    Load16(b[..2]) as int + 0x1_0000 * Load16(b[2..]) as int
  }

  function Load64(b: seq<u8>): u64
    requires |b| == 8
  {
    Load32(b[..4]) as int + 0x1_0000_0000 * Load32(b[4..]) as int
  }

  function Store16(v: u16): (b: seq<u8>)
    ensures |b| == 2 && Load16(b) == v
  {
    [v % 0x100, v / 0x100]
  }

  function Store32(v: u32): (b: seq<u8>)
    ensures |b| == 4 && Load32(b) == v
  {
    var b := Store16(v % 0x1_0000) + Store16(v / 0x1_0000);
    assert b[..2] == Store16(v % 0x1_0000) && b[2..] == Store16(v / 0x1_0000);
    b
  }

  function Store64(v: u64): (b: seq<u8>)
    ensures |b| == 8 && Load64(b) == v
  {
    var b := Store32(v % 0x1_0000_0000) + Store32(v / 0x1_0000_0000);
    assert b[..4] == Store32(v % 0x1_0000_0000) && b[4..] == Store32(v / 0x1_0000_0000);
    b
  }

  /** The number that bytes spell, the first the least significant. */
  function Little(b: seq<u8>): nat {
    if b == [] then 0 else b[0] + 0x100 * Little(b[1..])
  }

  lemma TwoMore(a: u8, b: u8, rest: seq<u8>)
    ensures Little([a, b] + rest) == a + 0x100 * b as int + 0x1_0000 * Little(rest)
  {
    assert ([a, b] + rest)[1..] == [b] + rest && ([b] + rest)[1..] == rest;
  }

  /** Every word is read least significant byte first. */
  lemma LoadsAreLittle(b: seq<u8>)
    ensures |b| == 2 ==> Load16(b) == Little(b)
    ensures |b| == 4 ==> Load32(b) == Little(b)
    ensures |b| == 8 ==> Load64(b) == Little(b)
  {
    hide Little;
    NoBytes();
    if |b| == 2 {
      TwoMore(b[0], b[1], []);
      assert [b[0], b[1]] + [] == b;
    } else if |b| == 4 {
      FourMore(b, []);
      assert b + [] == b;
    } else if |b| == 8 {
      FourMore(b[..4], b[4..]);
      FourMore(b[4..], []);
      assert b[4..] + [] == b[4..] && b[..4] + b[4..] == b;
    }
  }

  lemma NoBytes()
    ensures Little([]) == 0
  {
  }

  lemma FourMore(a: seq<u8>, rest: seq<u8>)
    requires |a| == 4
    ensures Little(a + rest) == Load32(a) + 0x1_0000_0000 * Little(rest)
  {
    hide Little;
    TwoMore(a[0], a[1], [a[2], a[3]] + rest);
    TwoMore(a[2], a[3], rest);
    assert [a[0], a[1]] + ([a[2], a[3]] + rest) == a + rest;
  }
}
