/** Addressing in the newer IDE disk driver: the capacity and the addressing mode that set-up chooses, and
    the registers and commands that a request turns into. */
module IdeAddressing {
  import opened Wrappers
  import opened Arith
  import opened IdeRegisters

  /** The transfer commands, EXT or not. */
  datatype Kind = Dma | Pio | Multi
  datatype Command = Command(write: bool, ext: bool, kind: Kind)

  /** The words of the identify data that set-up looks at. */
  datatype Id = Id(cyls: nat, heads: nat, sectors: nat, curCyls: nat, lbaCapacity: nat, capability: nat,
                   commandSet1: nat, cfsEnable1: nat, commandSet2: nat, cfsEnable2: nat, lbaCapacity2: nat)
  {
    predicate SupportsHpa() {
      commandSet1 / 0x400 % 2 == 1 && cfsEnable1 / 0x400 % 2 == 1
    }

    predicate SupportsLba48() {
      commandSet2 / 0x400 % 2 == 1 && cfsEnable2 / 0x400 % 2 == 1 && lbaCapacity2 > 0
    }
  }

  const TWO32 := 0x1_0000_0000

  /** The sector count that survives the 8-bit register. */
  function Kept28(nr: nat): nat {
    if nr % 0x100 == 0 then 0x100 else nr % 0x100
  }

  /** A maximum address in the registers: three bytes and a nibble, or two times three bytes. */
  method AddressRegisters(a: nat, ext: bool) returns (tf: TaskFile)
    requires a < if ext then LBA48_LIMIT else LBA28_LIMIT
    ensures (if ext then Decode48(tf) else Decode28(tf)).first == a
  {
    Bytes4(a);
    if ext {
      Bytes6(a);
      hide Low, Shift;
      tf := TaskFile(Block(0, Low(Shift(a, 0)), Low(Shift(a, 1)), Low(Shift(a, 2))),
                     Block(0, Low(Shift(a, 3)), Low(Shift(a, 4)), Low(Shift(a, 5))), 0x40);
    } else {
      hide Low, Shift;
      tf := TaskFile(Block(0, Low(Shift(a, 0)), Low(Shift(a, 1)), Low(Shift(a, 2))), Block(0, 0, 0, 0),
                     Shift(a, 3) % 16 + 0x40);
    }
  }

  /** The drive's side of the host protected area: the last sector it has, the last it admits to, and
      whether it obeys. */
  class Disk {
    const nativeMax: nat
    const readOk: bool
    const setOk: bool
    var maxAddress: nat

    constructor (nativeMax: nat, readOk: bool, setOk: bool)
    {
      this.nativeMax, this.readOk, this.setOk := nativeMax, readOk, setOk;
      maxAddress := nativeMax;
    }

    /** READ NATIVE MAX ADDRESS, or EXT: the registers that come back. */
    method NativeMaxRegisters(ext: bool) returns (tf: TaskFile)
      requires nativeMax < if ext then LBA48_LIMIT else LBA28_LIMIT
      ensures (if ext then Decode48(tf).first else Decode28(tf).first) == nativeMax
    {
      tf := AddressRegisters(nativeMax, ext);
    }

    /** SET MAX ADDRESS, or EXT: the drive takes the address from the registers. */
    method SetMax(tf: TaskFile, ext: bool)
      requires setOk && 0 <= (if ext then Decode48(tf) else Decode28(tf)).first
      modifies this
      ensures maxAddress == (if ext then Decode48(tf) else Decode28(tf)).first
    {
      maxAddress := (if ext then Decode48(tf) else Decode28(tf)).first;
    }

    /** idedisk_read_native_max_address, or ..._ext: the native capacity, or 0. */
    method ReadNativeMaxAddress(ext: bool) returns (addr: nat)
      requires nativeMax < if ext then LBA48_LIMIT else LBA28_LIMIT
      ensures addr == if readOk then nativeMax + 1 else 0
    {
      addr := 0;
      if readOk {
        var tf := NativeMaxRegisters(ext);
        addr := (if ext then Decode48(tf) else Decode28(tf)).first;
        addr := addr + 1;
      }
    }

    /** idedisk_set_max_address, or ..._ext. */
    method SetMaxAddress(ext: bool, addrReq: nat) returns (addrSet: nat)
      requires 0 < addrReq <= if ext then LBA48_LIMIT else LBA28_LIMIT
      modifies this
      ensures if setOk then addrSet == addrReq && maxAddress + 1 == addrReq
              else addrSet == 0 && maxAddress == old(maxAddress)
    {
      addrSet := 0;
      var tf := AddressRegisters(addrReq - 1, ext);
      if setOk {
        SetMax(tf, ext);
        addrSet := (if ext then Decode48(tf) else Decode28(tf)).first;
        addrSet := addrSet + 1;
      }
    }
  }

  /** The capacity computed from the geometry, in 32-bit unsigned arithmetic. */
  function ChsSects(id: Id): nat {
    id.cyls * id.heads * id.sectors % TWO32
  }

  /** Drives whose geometry says nothing about the capacity. */
  predicate Trusted(id: Id) {
    || id.cyls == 0
    || (&& (id.cyls == 16383 || (id.cyls == 4092 && id.curCyls == 16383))
        && id.sectors == 63 && (id.heads == 15 || id.heads == 16) && id.lbaCapacity >= 16383 * 63 * id.heads)
  }

  lemma KeptExactly(nr: nat)
    ensures nr > 0 ==> (Kept28(nr) == nr <==> nr <= 0x100)
    ensures Kept28(257) == 1
  {
  }

  lemma Low16(nr: nat)
    ensures Low(nr % 0x1_0000) == nr % 0x100
  {
  }

  predicate Near(lba: nat, chs: nat) {
    (lba - chs) % TWO32 < chs / 10
  }

  function SwapWords(x: nat): nat {
    x / 0x1_0000 % 0x1_0000 + x % 0x1_0000 * 0x1_0000
  }

  /** The 28-bit capacity, its words put in order, if the geometry does not speak against it. */
  function Sensible(id: Id): Option<nat> {
    if Trusted(id) || Near(id.lbaCapacity, ChsSects(id)) then Some(id.lbaCapacity)
    else if Near(SwapWords(id.lbaCapacity), ChsSects(id)) then Some(SwapWords(id.lbaCapacity))
    else None
  }

  /** The capacity that the identify data give for LBA, if the drive has it. */
  function Identified(id: Id): Option<nat> {
    if id.SupportsLba48() then Some(id.lbaCapacity2)
    else if id.capability / 2 % 2 == 1 then Sensible(id)
    else None
  }

  lemma ChsCapacity(cyl: nat, head: nat, sect: nat)
    requires cyl < 0x1_0000 && head < 256 && sect < 256
    ensures cyl * head * sect < TWO32
  {
    TripleBound(cyl, head, sect, 0xFFFF, 255, 255);
  }

  /** Sectors count from one. */
  datatype Chs = Chs(cyl: nat, head: nat, sect: nat)

  function ChsOf(block: nat, sects: nat, heads: nat): (p: Chs)
    requires sects > 0 && heads > 0
    ensures p.head < heads && 0 < p.sect <= sects
  {
    Chs(block / sects / heads, block / sects % heads, block % sects + 1)
  }

  method ToChs(block: nat, sects: nat, heads: nat) returns (p: Chs)
    requires sects > 0 && heads > 0
    ensures p == ChsOf(block, sects, heads)
  {
    var track := block / sects;
    var sect := block % sects + 1;
    var head := track % heads;
    var cyl := track / heads;
    p := Chs(cyl, head, sect);
  }

  lemma ByteItself(v: nat)
    requires v < 0x100
    ensures Low(v) == v
  {
  }

  lemma ShiftOnce(c: nat)
    requires c < 0x1_0000
    ensures Low(c) + 0x100 * Low(c / 0x100) == c
  {
  }

  lemma LbaOf(k: nat, h: nat)
    requires h < 16
    ensures LbaBit(16 * k + h) == (k / 4 % 2 == 1)
  {
    assert (16 * k + h) / 64 == k / 4;
  }

  lemma AddLba(u: nat)
    requires u < 16 && u / 4 % 2 == 0
    ensures (u + 4) / 4 % 2 == 1 && u + 4 < 16
  {
  }

  lemma SelectBits(u: nat, h: nat, lba: bool)
    requires h < 16 && u < 16 && !LbaBit(16 * u)
    ensures var k := u + if lba then 4 else 0; LbaBit(16 * k + h) == lba && k < 16
  {
    LbaOf(u, 0);
    AddLba(u);
    LbaOf(u, h);
    LbaOf(u + 4, h);
  }

  lemma SelectWith(h: nat, unit: nat, lba: bool)
    requires h < 16 && unit % 16 == 0 && unit < 256 && !LbaBit(unit)
    ensures var s := unit + if lba then 64 else 0;
            && h % 16 == h && Or(h, s) == s + h < 256 && Low(s + h) == s + h
            && LbaBit(s + h) == lba && (s + h) % 16 == h
  {
    var u := unit / 16;
    assert unit == 16 * u;
    hide LbaBit, Or, Low;
    SelectBits(u, h, lba);
    var k: nat := u + if lba then 4 else 0;
    Nibble(16 * k, k, 0);
    OrLow(h, 16 * k);
    Nibble(16 * k + h, k, h);
    Nibble(h, 0, h);
    ByteItself(16 * k + h);
  }

  lemma ChsSelect(h: nat, unit: nat)
    requires h < 256 && unit % 16 == 0 && unit < 256 && !LbaBit(unit)
    ensures Low(Or(h, unit)) % 16 == h % 16
    ensures h < 16 ==> !LbaBit(Low(Or(h, unit)))
  {
    OrByte(h, unit);
    OrLow(h, unit);
    ByteItself(Or(h, unit));
    if h < 16 {
      SelectWith(h, unit, false);
    }
  }

  /** The first sector a drive finds in a head field of four bits. */
  function FourBitHead(p: Chs, heads: nat, sects: nat): int {
    (p.cyl * heads + p.head % 16) * sects + p.sect - 1
  }

  lemma ChsExact(block: nat, sects: nat, heads: nat)
    requires heads > 0 && sects > 0
    ensures var p := ChsOf(block, sects, heads); (p.cyl * heads + p.head) * sects + p.sect - 1 == block
    ensures heads <= 16 ==> FourBitHead(ChsOf(block, sects, heads), heads, sects) == block
  {
    var track := block / sects;
    assert track * sects + block % sects == block;
    assert track / heads * heads + track % heads == track;
  }

  /** A sector inside a geometry lies on one of its cylinders; with sixteen heads it fits an int. */
  lemma InGeometry(block: nat, cyls: nat, heads: nat, sects: nat)
    requires heads > 0 && sects > 0 && block < cyls * heads * sects
    ensures ChsOf(block, sects, heads).cyl < cyls
    ensures cyls < 0x1_0000 && heads <= 16 && sects < 256 ==> block < 0x8000_0000
  {
    var p := ChsOf(block, sects, heads);
    ChsExact(block, sects, heads);
    if p.cyl >= cyls {
      Scale(cyls, p.cyl, heads);
      Scale(cyls * heads, p.cyl * heads + p.head, sects);
      assert false;
    }
    if cyls < 0x1_0000 && heads <= 16 && sects < 256 {
      TripleBound(cyls, heads, sects, 0xFFFF, 16, 255);
    }
  }

  /** After set-up every request that the queue admits has the right length exactly if its requests are short,
      or all go out in the 48-bit form. */
  lemma LengthsRightIff(d: Drive)
    requires d.SetupOk()
    ensures d.LengthsRight()
       <==> (d.maxSectors <= 0x100 || d.capacity64 <= 0x100)
            || (d.addressing == 1 && !(d.noLba48Dma && d.usingDma)
                && (d.maxSectors <= 0x1_0000 || d.capacity64 <= 0x1_0000))
  {
    if d.maxSectors > 0x100 && d.capacity64 > 0x100 {
      assert d.Admitted(0, 257);
      if d.addressing == 1 && !(d.noLba48Dma && d.usingDma) {
        if d.maxSectors > 0x1_0000 && d.capacity64 > 0x1_0000 {
          assert d.Admitted(0, 0x1_0001);
        }
      } else {
        assert !d.Form48(0, 257);
      }
    }
  }

  /** As set-up leaves them, a drive's lengths are right exactly if 48-bit addressing is out of the question,
      or the adapter limits requests to 256 sectors, or it can do 48-bit DMA, or the drive is beyond the
      28-bit range and does not use DMA. Otherwise a request of 257 sectors is admitted and transfers one. */
  lemma LengthsAfterSetup(d: Drive, lba48: bool)
    requires d.SetupOk() && d.capacity64 > 0x100
    requires d.addressing == 1 <==> lba48 && !(d.noLba48Dma && d.capacity64 <= LBA28_LIMIT)
    requires d.maxSectors == if !lba48 then 0x100 else if 2048 > d.rqsize then d.rqsize else 2048
    ensures d.LengthsRight()
       <==> !lba48 || d.rqsize <= 0x100 || !d.noLba48Dma || (d.capacity64 > LBA28_LIMIT && !d.usingDma)
    ensures !d.LengthsRight() ==> d.Admitted(0, 257) && !d.Form48(0, 257) && Kept28(257) == 1
  {
    LengthsRightIff(d);
  }

  class Drive {
    const hwif: Hwif
    const noLba48: bool
    const noLba48Dma: bool
    const rqsize: nat
    const wideSector: bool // sector_t has eight bytes, not four
    const cyl: nat
    const head: nat
    const sect: nat
    var unit: nat          // select.all without its LBA bit
    var lba: bool          // select.b.lba
    var addressing: nat
    var capacity64: nat
    var usingDma: bool
    var vdma: bool
    var multCount: nat
    var maxSectors: nat    // the queue's limit on a request
    var id: Id

    /** The select byte names a drive and nothing else. */
    predicate SelectOk()
      reads this
    {
      unit % 16 == 0 && unit < 256 && !LbaBit(unit)
    }

    predicate GeometryOk() {
      0 < head < 256 && 0 < sect < 256 && cyl < 0x1_0000
    }

    constructor (hwif: Hwif, noLba48: bool, noLba48Dma: bool, rqsize: nat, wideSector: bool, id: Id,
                 cyl: nat, head: nat, sect: nat)
      requires 0 < head < 256 && 0 < sect < 256 && cyl < 0x1_0000
      ensures SelectOk() && GeometryOk() && !lba && this.id == id
    {
      this.hwif, this.noLba48, this.noLba48Dma, this.rqsize, this.wideSector, this.id :=
        hwif, noLba48, noLba48Dma, rqsize, wideSector, id;
      this.cyl, this.head, this.sect := cyl, head, sect;
      unit, lba, addressing, capacity64, usingDma, vdma, multCount := 0xA0, false, 0, 0, false, false, 0;
      maxSectors := 256;
    }

    function SelectAll(): nat
      reads this
    {
      unit + if lba then 64 else 0
    }

    /** A sector number is a sector_t. */
    predicate SectorFits(block: nat) {
      wideSector || block < TWO32
    }

    /** The 48-bit form is used. */
    predicate Form48(block: nat, nr: nat)
      reads this
    {
      lba && addressing == 1 && !(noLba48Dma && usingDma && block + nr <= LBA28_LIMIT)
    }

    /** The longest request that its form can express. */
    function Limit(block: nat, nr: nat): nat
      reads this
    {
      if Form48(block, nr) then 0x1_0000 else 0x100
    }

    /** A request that the queue passes on. */
    predicate Admitted(block: nat, nr: nat)
      reads this
    {
      0 < nr <= maxSectors && block + nr <= capacity64 && SectorFits(block)
    }

    /** Every admitted request is programmed with its own length. */
    ghost predicate LengthsRight()
      reads this
    {
      forall block: nat, nr: nat :: Admitted(block, nr) ==> nr <= Limit(block, nr)
    }

    method Write48(block: nat, nr: nat)
      requires SelectOk() && lba && block < LBA48_LIMIT && SectorFits(block)
      modifies hwif
      ensures Decode48(hwif.tf).first == block
      ensures Decode48(hwif.tf).count == nr <==> 0 < nr <= 0x1_0000
    {
      hide Low, Shift, LbaBit;
      var nsectors := nr % 0x1_0000;
      if !wideSector {
        FourBytes(block);
      }
      hwif.OutNsector(nsectors / 0x100);
      hwif.OutSector(Shift(block, 3));
      hwif.OutLcyl(if wideSector then Shift(block, 4) else 0);
      hwif.OutHcyl(if wideSector then Shift(block, 5) else 0);
      hwif.OutNsector(nsectors);
      hwif.OutSector(Shift(block, 0));
      hwif.OutLcyl(Shift(block, 1));
      hwif.OutHcyl(Shift(block, 2));
      hwif.OutSelect(SelectAll());
      Bytes6(block);
      Counts(nr);
    }

    method Write28(block: nat, nr: nat)
      requires SelectOk() && lba && block < LBA28_LIMIT
      modifies hwif
      ensures LbaBit(hwif.tf.select) && Decode28(hwif.tf).first == block
      ensures Decode28(hwif.tf).count == Kept28(nr)
    {
      var b := block;
      Bytes4(block);
      Low16(nr);
      SelectWith(Shift(block, 3), unit, true);
      assert Shift(block, 1) == block / 0x100 && Shift(block, 2) == block / 0x100 / 0x100
          && Shift(block, 3) == block / 0x100 / 0x100 / 0x100;
      hide Low, Shift, LbaBit, Or;
      hwif.OutNsector(nr % 0x1_0000);
      hwif.OutSector(b);
      b := b / 0x100;
      hwif.OutLcyl(b);
      b := b / 0x100;
      hwif.OutHcyl(b);
      hwif.OutSelect(Or(b / 0x100 % 16, SelectAll()));
    }

    /** Cylinder, head and sector, the head up to the width of its field. */
    method WriteChs(block: nat, nr: nat)
      requires SelectOk() && !lba && GeometryOk() && block < 0x8000_0000 && ChsOf(block, sect, head).cyl < 0x1_0000
      modifies hwif
      ensures var p := ChsOf(block, sect, head);
              && hwif.tf.now.lcyl + 0x100 * hwif.tf.now.hcyl == p.cyl
              && hwif.tf.select % 16 == p.head % 16 && hwif.tf.now.sector == p.sect
              && (p.head < 16 ==> !LbaBit(hwif.tf.select))
      ensures Count28(hwif.tf) == Kept28(nr)
    {
      hide LbaBit, Or, Shift, Low, ChsOf;
      var p := ToChs(block, sect, head);
      ChsSelect(p.head, unit);
      ByteItself(p.sect);
      ShiftOnce(p.cyl);
      Low16(nr);
      hwif.OutSector(p.sect);
      hwif.OutNsector(nr % 0x1_0000);
      hwif.OutLcyl(p.cyl);
      hwif.OutHcyl(p.cyl / 0x100);
      hwif.OutSelect(Or(p.head, SelectAll()));
    }

    /** What set-up leaves behind. */
    ghost predicate SetupOk()
      reads this
    {
      && SelectOk() && GeometryOk() && capacity64 <= LBA48_LIMIT
      && (addressing == 1 ==> lba) && (addressing != 1 ==> capacity64 <= LBA28_LIMIT)
      && (!lba ==> capacity64 <= cyl * head * sect)
    }

    /** The register writes of __ide_do_rw_disk; lba48 is the form chosen. */
    method WriteAddress(lba48: bool, block: nat, nr: nat)
      requires SelectOk() && GeometryOk() && SectorFits(block) && (lba48 ==> lba && block < LBA48_LIMIT)
      requires lba && !lba48 ==> block < LBA28_LIMIT
      requires !lba ==> !lba48 && block < cyl * head * sect && block < 0x8000_0000
      modifies hwif
      ensures lba || head <= 16 ==> Decode(hwif.tf, lba48, head, sect).first == block
      ensures lba48 ==> (Decode(hwif.tf, lba48, head, sect).count == nr <==> 0 < nr <= 0x1_0000)
      ensures !lba48 ==> Count28(hwif.tf) == Kept28(nr)
      ensures !lba48 && (lba || head <= 16) ==> Decode(hwif.tf, lba48, head, sect).count == Count28(hwif.tf)
    {
      hide LbaBit, ChsOf;
      if lba {
        if lba48 {
          Write48(block, nr);
        } else {
          Write28(block, nr);
        }
      } else {
        InGeometry(block, cyl, head, sect);
        ChsExact(block, sect, head);
        WriteChs(block, nr);
      }
    }

    /** __ide_do_rw_disk, for a request inside the capacity. The drive finds the first sector of the request,
        and its length exactly when the form chosen has room for it. */
    method DoRwDisk(write: bool, block: nat, nr: nat, dmaSetupOk: bool) returns (command: Command)
      requires SetupOk() && nr > 0 && block + nr <= capacity64 && SectorFits(block) && (!lba ==> block < 0x8000_0000)
      modifies hwif
      ensures command.write == write
      ensures command.ext == (lba && addressing == 1 && !(noLba48Dma && usingDma && block + nr <= 0x1000_0000))
      ensures lba || head <= 16 ==>
                && Decode(hwif.tf, command.ext, head, sect).first == block
                && (Decode(hwif.tf, command.ext, head, sect).count == nr <==> nr <= Limit(block, nr))
      ensures (lba || head <= 16) && !command.ext ==> Decode(hwif.tf, false, head, sect).count == Kept28(nr)
      ensures usingDma && dmaSetupOk && !(noLba48Dma && command.ext) ==> command.kind == if vdma then Pio else Dma
      ensures !(usingDma && dmaSetupOk) || (noLba48Dma && command.ext) ==>
                command.kind == if multCount > 0 then Multi else Pio
    {
      hide Decode;
      KeptExactly(nr);
      var dma := usingDma;
      var lba48 := addressing == 1;
      if noLba48Dma && lba48 && dma {
        if block + nr > LBA28_LIMIT {
          dma := false;
        } else {
          lba48 := false;
        }
      }
      WriteAddress(lba48, block, nr);
      if dma && dmaSetupOk {
        command := Command(write, lba48, if vdma then Pio else Dma);
      } else {
        command := Command(write, lba48, if multCount > 0 then Multi else Pio);
      }
    }

    /** set_lba_addressing. */
    method SetLbaAddressing(arg: nat) returns (ok: bool)
      modifies this`addressing
      ensures var lba48 := id.commandSet2 / 0x400 % 2 == 1 && id.cfsEnable2 / 0x400 % 2 == 1 && id.lbaCapacity2 > 0;
              ok == (noLba48 || lba48) && addressing == if !noLba48 && lba48 then arg else 0
    {
      addressing := 0;
      if noLba48 {
        return true;
      }
      if !id.SupportsLba48() {
        return false;
      }
      addressing := arg;
      ok := true;
    }

    /** lba_capacity_is_ok: 28-bit capacity words, maybe in the wrong order, against the geometry. */
    method LbaCapacityIsOk() returns (ok: bool)
      requires id.lbaCapacity < TWO32
      modifies this`id
      ensures ok == Sensible(old(id)).Some?
      ensures id == if ok then old(id).(lbaCapacity := Sensible(old(id)).value) else old(id)
      ensures id.lbaCapacity < TWO32
    {
      if Trusted(id) {
        return true;
      }
      var lbaSects, chsSects := id.lbaCapacity, ChsSects(id);
      if (lbaSects - chsSects) % TWO32 < chsSects / 10 {
        return true;
      }
      var head, tail := lbaSects / 0x1_0000 % 0x1_0000, lbaSects % 0x1_0000;
      lbaSects := head + tail * 0x1_0000;
      if (lbaSects - chsSects) % TWO32 < chsSects / 10 {
        id := id.(lbaCapacity := lbaSects);
        return true;
      }
      ok := false;
    }

    /** idedisk_check_hpa: a protected area is unlocked, and then the capacity is the native one. */
    method CheckHpa(disk: Disk)
      requires disk.nativeMax < if id.SupportsLba48() then LBA48_LIMIT else LBA28_LIMIT
      modifies this`capacity64, disk
      ensures capacity64 == if disk.readOk && disk.setOk && disk.nativeMax >= old(capacity64) then disk.nativeMax + 1
                            else old(capacity64)
      ensures disk.maxAddress == if capacity64 > old(capacity64) then disk.nativeMax else old(disk.maxAddress)
    {
      var lba48 := id.SupportsLba48();
      var setMax := disk.ReadNativeMaxAddress(lba48);
      if setMax <= capacity64 {
        return;
      }
      setMax := disk.SetMaxAddress(lba48, setMax);
      if setMax > 0 {
        capacity64 := setMax;
      }
    }

    /** init_idedisk_capacity. */
    method InitCapacity(disk: Disk)
      requires GeometryOk() && !lba && id.lbaCapacity < TWO32 && id.lbaCapacity2 <= LBA48_LIMIT
      requires disk.nativeMax < if id.SupportsLba48() then LBA48_LIMIT else LBA28_LIMIT
      modifies this`capacity64, this`lba, this`id, disk
      ensures var i, s := old(id), Sensible(old(id));
              var hpa := i.commandSet1 / 0x400 % 2 == 1 && i.cfsEnable1 / 0x400 % 2 == 1;
              var lba48 := i.commandSet2 / 0x400 % 2 == 1 && i.cfsEnable2 / 0x400 % 2 == 1 && i.lbaCapacity2 > 0;
              && lba == (lba48 || (i.capability / 2 % 2 == 1 && s.Some?))
              && (!lba ==> capacity64 == cyl * head * sect)
              && (lba ==> var c := if lba48 then i.lbaCapacity2 else s.value;
                          capacity64 == if hpa && disk.readOk && disk.setOk && disk.nativeMax >= c
                                        then disk.nativeMax + 1 else c)
      ensures id.SupportsLba48() == old(id).SupportsLba48()
      ensures capacity64 <= LBA48_LIMIT && (!id.SupportsLba48() ==> capacity64 < TWO32)
    {
      var hpa := id.SupportsHpa();
      if id.SupportsLba48() {
        lba := true;
        capacity64 := id.lbaCapacity2;
        if hpa {
          CheckHpa(disk);
        }
        return;
      }
      var ok := id.capability / 2 % 2 == 1;
      if ok {
        ok := LbaCapacityIsOk();
      }
      if ok {
        lba := true;
        capacity64 := id.lbaCapacity;
        if hpa {
          CheckHpa(disk);
        }
      } else {
        ChsCapacity(cyl, head, sect);
        capacity64 := cyl * head * sect;
      }
    }

    /** idedisk_setup, as far as addressing goes. */
    method Setup(disk: Disk)
      requires SelectOk() && GeometryOk() && !lba && id.lbaCapacity < TWO32 && id.lbaCapacity2 <= LBA48_LIMIT
      requires disk.nativeMax < if id.SupportsLba48() then LBA48_LIMIT else LBA28_LIMIT
      modifies this`addressing, this`capacity64, this`lba, this`id, this`maxSectors, disk
      ensures SetupOk()
      ensures lba == Identified(old(id)).Some?
      ensures var c, lba48 := Identified(old(id)), !noLba48 && old(id).SupportsLba48();
              var full := if c.None? then cyl * head * sect
                          else if old(id).SupportsHpa() && disk.readOk && disk.setOk && disk.nativeMax >= c.value
                               then disk.nativeMax + 1
                          else c.value;
              capacity64 == if !lba48 && full > 0x1000_0000 then 0x1000_0000 else full
      ensures addressing == 1 || addressing == 0
      ensures addressing == 1
         <==> !noLba48 && old(id).SupportsLba48() && !(noLba48Dma && capacity64 <= LBA28_LIMIT)
      ensures maxSectors == if noLba48 || !old(id).SupportsLba48() then old(maxSectors)
                            else if 2048 > rqsize then rqsize else 2048
      ensures old(maxSectors) == 0x100 && capacity64 > 0x100 ==>
                (LengthsRight() <==> noLba48 || !old(id).SupportsLba48() || rqsize <= 0x100 || !noLba48Dma
                                     || (capacity64 > LBA28_LIMIT && !usingDma))
    {
      hide LengthsRight;
      ghost var lba48, usual := !noLba48 && id.SupportsLba48(), maxSectors == 0x100;
      var _ := SetLbaAddressing(1);
      if addressing == 1 {
        maxSectors := if 2048 > rqsize then rqsize else 2048;
      }
      InitCapacity(disk);
      if addressing == 0 && capacity64 > LBA28_LIMIT {
        capacity64 := LBA28_LIMIT;
      }
      if noLba48Dma && addressing > 0 {
        if capacity64 <= LBA28_LIMIT {
          addressing := 0;
        }
      }
      if usual && capacity64 > 0x100 {
        LengthsAfterSetup(this, lba48);
      }
    }
  }

  /** Near means what it says, when the geometry leaves room below the 32-bit limit. */
  lemma NearMeans(lba: nat, chs: nat)
    requires lba < TWO32 && chs + chs / 10 <= TWO32
    ensures Near(lba, chs) <==> chs <= lba < chs + chs / 10
  {
    if lba < chs {
      assert (lba - chs) % TWO32 == lba - chs + TWO32;
    }
  }

  lemma ChsItself(id: Id)
    requires id.cyls * id.heads * id.sectors < TWO32
    ensures ChsSects(id) == id.cyls * id.heads * id.sectors
  {
  }

  lemma SensibleNear(id: Id, chs: nat, swapped: nat)
    requires ChsSects(id) == chs && SwapWords(id.lbaCapacity) == swapped
    requires id.lbaCapacity < TWO32 && swapped < TWO32 && chs + chs / 10 <= TWO32
    ensures Sensible(id) == if || id.cyls == 0
                               || (&& (id.cyls == 16383 || (id.cyls == 4092 && id.curCyls == 16383))
                                   && id.sectors == 63 && (id.heads == 15 || id.heads == 16)
                                   && id.lbaCapacity >= 1032129 * id.heads)
                               || chs <= id.lbaCapacity < chs + chs / 10 then Some(id.lbaCapacity)
                            else if chs <= swapped < chs + chs / 10 then Some(swapped)
                            else None
  {
    hide ChsSects, SwapWords, Near;
    NearMeans(id.lbaCapacity, chs);
    NearMeans(swapped, chs);
  }

  lemma SwapsWords(x: nat, h: nat, t: nat)
    requires h < 0x1_0000 && t < 0x1_0000 && x == h * 0x1_0000 + t
    ensures SwapWords(x) == t * 0x1_0000 + h
  {
    assert x / 0x1_0000 == h && x % 0x1_0000 == t;
  }

  /** The sanity test in numbers; h and t are the two words of the capacity. */
  lemma SensibleMeans(id: Id, h: nat, t: nat)
    requires h < 0x1_0000 && t < 0x1_0000 && id.lbaCapacity == h * 0x1_0000 + t
    requires id.cyls * id.heads * id.sectors + id.cyls * id.heads * id.sectors / 10 <= TWO32
    ensures var chs, swapped := id.cyls * id.heads * id.sectors, t * 0x1_0000 + h;
            Sensible(id) == if || id.cyls == 0
                               || (&& (id.cyls == 16383 || (id.cyls == 4092 && id.curCyls == 16383))
                                   && id.sectors == 63 && (id.heads == 15 || id.heads == 16)
                                   && id.lbaCapacity >= 1032129 * id.heads)
                               || chs <= id.lbaCapacity < chs + chs / 10 then Some(id.lbaCapacity)
                            else if chs <= swapped < chs + chs / 10 then Some(swapped)
                            else None
  {
    hide Near, ChsSects, SwapWords, Sensible;
    var chs: nat := id.cyls * id.heads * id.sectors;
    ChsItself(id);
    SwapsWords(id.lbaCapacity, h, t);
    SensibleNear(id, chs, t * 0x1_0000 + h);
  }

  lemma SwapTwice(x: nat)
    requires x < TWO32
    ensures SwapWords(SwapWords(x)) == x
  {
    var h, t := x / 0x1_0000, x % 0x1_0000;
    assert h % 0x1_0000 == h;
    var y := h + t * 0x1_0000;
    assert y / 0x1_0000 == t && y % 0x1_0000 == h;
  }

  lemma Grows(a: nat, b: nat)
    requires a > 0
    ensures a * b >= b
  {
  }

  lemma Sixteenth(cyls: nat, heads: nat, sects: nat)
    requires cyls > 0 && heads > 16 && sects > 0
    ensures 16 * sects < cyls * heads * sects
    ensures ChsOf(16 * sects, sects, heads) == Chs(0, 16, 1)
  {
    ModUnique(16 * sects, 16, 0, sects);
    assert 16 * sects / sects == 16;
    ModUnique(16, 0, 16, heads);
    assert 16 / heads == 0;
    Grows(cyls, heads);
    assert cyls * heads * sects >= heads * sects by { Scale(heads, cyls * heads, sects); }
    Scale(17, heads, sects);
  }

  /** Every sector of a disk with this geometry is addressable exactly up to sixteen heads. */
  lemma ChsAddressable(cyls: nat, heads: nat, sects: nat)
    requires cyls > 0 && heads > 0 && sects > 0
    ensures (forall block: nat :: block < cyls * heads * sects ==>
               FourBitHead(ChsOf(block, sects, heads), heads, sects) == block)
       <==> heads <= 16
  {
    if heads <= 16 {
      forall block: nat | block < cyls * heads * sects
        ensures FourBitHead(ChsOf(block, sects, heads), heads, sects) == block
      {
        ChsExact(block, sects, heads);
      }
    } else {
      var block: nat := 16 * sects;
      Sixteenth(cyls, heads, sects);
      assert FourBitHead(ChsOf(block, sects, heads), heads, sects) != block;
    }
  }
}
