/** An ATA task file: one-byte registers, most of them two deep, and the address and sector count that a
    drive reads from them (ATA/ATAPI-6, sections 6.2 and 6.20). */
module IdeRegisters {
  /** The registers that remember one earlier value. */
  datatype Block = Block(nsector: nat, sector: nat, lcyl: nat, hcyl: nat)

  datatype TaskFile = TaskFile(now: Block, before: Block, select: nat)

  const LBA28_LIMIT := 0x1000_0000
  const LBA48_LIMIT := 0x1_0000_0000_0000

  /** Bitwise or. */
  function Or(a: nat, b: nat): nat {
    if a == 0 && b == 0 then 0
    else 2 * Or(a / 2, b / 2) + if a % 2 == 1 || b % 2 == 1 then 1 else 0
  }

  predicate LbaBit(select: nat) {
    select / 64 % 2 == 1
  }

  /** What a command addresses: its first sector and how many follow. */
  datatype Extent = Extent(first: int, count: nat)

  function Low24(b: Block): nat {
    b.sector + 0x100 * b.lcyl + 0x1_0000 * b.hcyl
  }

  function Decode48(tf: TaskFile): Extent {
    var n := tf.now.nsector + 0x100 * tf.before.nsector;
    Extent(Low24(tf.now) + 0x100_0000 * Low24(tf.before), if n == 0 then 0x1_0000 else n)
  }

  function Count28(tf: TaskFile): nat {
    if tf.now.nsector == 0 then 0x100 else tf.now.nsector
  }

  function Decode28(tf: TaskFile): Extent {
    Extent(Low24(tf.now) + 0x100_0000 * (tf.select % 16), Count28(tf))
  }

  /** heads and sects are the geometry in force. */
  function DecodeChs(tf: TaskFile, heads: nat, sects: nat): Extent {
    var cyl := tf.now.lcyl + 0x100 * tf.now.hcyl;
    Extent((cyl * heads + tf.select % 16) * sects + tf.now.sector - 1, Count28(tf))
  }

  /** ext tells the commands of the 48-bit feature set from the others. */
  function Decode(tf: TaskFile, ext: bool, heads: nat, sects: nat): Extent {
    if ext then Decode48(tf) else if LbaBit(tf.select) then Decode28(tf) else DecodeChs(tf, heads, sects)
  }

  /** What is left of a value in an 8-bit register. */
  function Low(x: nat): nat {
    x % 0x100
  }

  /** The device side of a host adapter. */
  class Hwif {
    var tf: TaskFile

    constructor (tf: TaskFile)
      ensures this.tf == tf
    {
      this.tf := tf;
    }

    method OutNsector(v: nat)
      modifies this
      ensures tf.now == old(tf.now).(nsector := Low(v))
      ensures tf.before == old(tf.before).(nsector := old(tf.now.nsector)) && tf.select == old(tf.select)
    {
      tf := tf.(now := tf.now.(nsector := Low(v)), before := tf.before.(nsector := tf.now.nsector));
    }

    method OutSector(v: nat)
      modifies this
      ensures tf.now == old(tf.now).(sector := Low(v))
      ensures tf.before == old(tf.before).(sector := old(tf.now.sector)) && tf.select == old(tf.select)
    {
      tf := tf.(now := tf.now.(sector := Low(v)), before := tf.before.(sector := tf.now.sector));
    }

    method OutLcyl(v: nat)
      modifies this
      ensures tf.now == old(tf.now).(lcyl := Low(v))
      ensures tf.before == old(tf.before).(lcyl := old(tf.now.lcyl)) && tf.select == old(tf.select)
    {
      tf := tf.(now := tf.now.(lcyl := Low(v)), before := tf.before.(lcyl := tf.now.lcyl));
    }

    method OutHcyl(v: nat)
      modifies this
      ensures tf.now == old(tf.now).(hcyl := Low(v))
      ensures tf.before == old(tf.before).(hcyl := old(tf.now.hcyl)) && tf.select == old(tf.select)
    {
      tf := tf.(now := tf.now.(hcyl := Low(v)), before := tf.before.(hcyl := tf.now.hcyl));
    }

    method OutSelect(v: nat)
      modifies this
      ensures tf == old(tf).(select := Low(v))
    {
      tf := tf.(select := Low(v));
    }
  }

  lemma Nibble(x: nat, q: nat, r: nat)
    requires x == 16 * q + r && r < 16
    ensures x % 16 == r && (x < 16 ==> q == 0)
  {
  }

  lemma OrHalf(h: nat, s: nat, s': nat) returns (h': nat, bit: nat)
    requires s == 2 * s'
    ensures h == 2 * h' + bit && bit <= 1
    ensures Or(h, s) == 2 * Or(h', s') + bit
  {
    h', bit := h / 2, h % 2;
  }

  lemma {:induction false} OrZero(b: nat)
    ensures Or(0, b) == b
  {
    if b > 0 {
      OrZero(b / 2);
    }
  }

  /** Or-ing into a byte whose low nibble is clear. */
  lemma OrLow(h: nat, s: nat)
    requires s % 16 == 0
    ensures Or(h, s) % 16 == h % 16
    ensures h < 16 ==> Or(h, s) == s + h
  {
    hide Or;
    var k: nat := s / 16;
    var h1: nat, b0 := OrHalf(h, s, 8 * k);
    var h2: nat, b1 := OrHalf(h1, 8 * k, 4 * k);
    var h3: nat, b2 := OrHalf(h2, 4 * k, 2 * k);
    var h4: nat, b3 := OrHalf(h3, 2 * k, k);
    var low: nat := 8 * b3 + 4 * b2 + 2 * b1 + b0;
    Nibble(h, h4, low);
    Nibble(Or(h, s), Or(h4, k), low);
    if h < 16 {
      OrZero(k);
    }
  }

  function Pow2(k: nat): nat {
    if k == 0 then 1 else 2 * Pow2(k - 1)
  }

  lemma {:induction false} OrBound(a: nat, b: nat, k: nat)
    requires a < Pow2(k) && b < Pow2(k)
    ensures Or(a, b) < Pow2(k)
  {
    if k > 0 {
      OrBound(a / 2, b / 2, k - 1);
    }
  }

  /** Bytes stay bytes. */
  lemma OrByte(a: nat, b: nat)
    requires a < 256 && b < 256
    ensures Or(a, b) < 256
  {
    assert Pow2(8) == 256 by {
      assert Pow2(4) == 16;
    }
    OrBound(a, b, 8);
  }

  /** Shifting right by k bytes. */
  function Shift(x: nat, k: nat): nat {
    if k == 0 then x else Shift(x, k - 1) / 0x100
  }

  lemma SplitByte(x: nat, k: nat)
    ensures Shift(x, k) == Low(Shift(x, k)) + 0x100 * Shift(x, k + 1)
  {
  }

  lemma Bytes4(x: nat)
    ensures x == Low(Shift(x, 0)) + 0x100 * Low(Shift(x, 1)) + 0x1_0000 * Low(Shift(x, 2)) + 0x100_0000 * Shift(x, 3)
    ensures x < LBA28_LIMIT ==> Shift(x, 3) < 16
  {
    SplitByte(x, 0);
    SplitByte(x, 1);
    SplitByte(x, 2);
  }

  lemma Bytes6(x: nat)
    requires x < LBA48_LIMIT
    ensures x == Low(Shift(x, 0)) + 0x100 * Low(Shift(x, 1)) + 0x1_0000 * Low(Shift(x, 2))
                 + 0x100_0000 * (Low(Shift(x, 3)) + 0x100 * Low(Shift(x, 4)) + 0x1_0000 * Low(Shift(x, 5)))
  {
    Bytes4(x);
    hide Low, Shift;
    SplitByte(x, 3);
    SplitByte(x, 4);
    SplitByte(x, 5);
  }

  /** A four-byte value has no fifth and sixth byte. */
  lemma FourBytes(x: nat)
    requires x < 0x1_0000_0000
    ensures Low(Shift(x, 4)) == Low(0) && Low(Shift(x, 5)) == Low(0)
  {
    Bytes4(x);
    SplitByte(x, 3);
    assert Shift(x, 4) == 0;
    assert Shift(x, 5) == 0 / 0x100;
  }

  /** A sector count survives the two registers exactly up to 0x10000, and one register up to 0x100. */
  lemma Counts(nr: nat)
    ensures var n := nr % 0x1_0000; var c := Low(n) + 0x100 * Low(n / 0x100);
            ((if c == 0 then 0x1_0000 else c) == nr) <==> 0 < nr <= 0x1_0000
    ensures var c := Low(nr % 0x1_0000);
            ((if c == 0 then 0x100 else c) == nr) <==> 0 < nr <= 0x100
  {
    var n := nr % 0x1_0000;
    SplitByte(n, 0);
    assert Low(n / 0x100) == n / 0x100;
    if nr < 0x1_0000 {
      assert n == nr;
    }
  }
}
