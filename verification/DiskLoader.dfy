/** Reading the kernel from a floppy, one sector at a time: cylinder, head and
    sector registers that step through the disk. */
module DiskLoader {
  import opened Machine

  const SECTORS_PER_TRACK: int := 18
  const HEADS: int := 2
  const SECTOR_BYTES: int := 512
  const TEMP_KERNEL: int := 0x1_0000

  /** A disk position: sectors count from 1. */
  datatype Chs = Chs(cylinder: int, head: int, sector: int)

  /** One read request: where on the disk and to which address. */
  datatype Read = Read(at: Chs, address: int)

  predicate OnDisk(c: Chs) {
    0 <= c.cylinder && 0 <= c.head < HEADS && 1 <= c.sector <= SECTORS_PER_TRACK
  }

  /** The zero-based sector number of a position. */
  function Lba(c: Chs): (n: int) {
    36 * c.cylinder + 18 * c.head + (c.sector - 1)
  }

  function ChsOf(lba: nat): (c: Chs) {
    Chs(lba / 18 / 2, lba / 18 % 2, lba % 18 + 1)
  }

  /** The conversion and the numbering are inverse to each other. */
  lemma ConversionRoundTrip(lba: nat, c: Chs)
    ensures OnDisk(ChsOf(lba)) && Lba(ChsOf(lba)) == lba
    ensures OnDisk(c) ==> Lba(c) >= 0 && ChsOf(Lba(c)) == c
  {
    if OnDisk(c) {
      var n := Lba(c);
      var track := 2 * c.cylinder + c.head;
      assert n == 18 * track + (c.sector - 1);
      assert n / 18 == track && n % 18 == c.sector - 1;
    }
  }

  /** Sectors are numbered by cylinder first, then head, then sector, 18 to a
      track and two tracks to a cylinder. */
  lemma SectorOrder(c: Chs, d: Chs)
    requires 0 <= c.cylinder && 0 <= c.head < 2 && 1 <= c.sector <= 18
    requires 0 <= d.cylinder && 0 <= d.head < 2 && 1 <= d.sector <= 18
    ensures Lba(c) < Lba(d) <==>
            || c.cylinder < d.cylinder
            || (c.cylinder == d.cylinder && c.head < d.head)
            || (c.cylinder == d.cylinder && c.head == d.head && c.sector < d.sector)
    ensures Lba(Chs(0, 0, 1)) == 0
  {
  }

  /** The stepping after one sector: sector, then head, then cylinder. */
  function Step(c: Chs): (r: Chs) {
    if c.sector + 1 != SECTORS_PER_TRACK + 1 then c.(sector := c.sector + 1)
    else if c.head + 1 != HEADS then Chs(c.cylinder, c.head + 1, 1)
    else Chs(c.cylinder + 1, 0, 1)
  }

  lemma StepIsNextSector(c: Chs)
    requires OnDisk(c)
    ensures OnDisk(Step(c)) && Lba(Step(c)) == Lba(c) + 1
  {
  }

  /** The address of the k-th read: the 16-bit offset register wraps. */
  function ReadAddress(k: nat): (a: int) {
    TEMP_KERNEL + SECTOR_BYTES * k % 0x1_0000
  }

  /** A position in the loader's registers: the cylinder keeps eight bits. */
  function InRegisters(c: Chs): (r: Chs) {
    c.(cylinder := c.cylinder % 0x100)
  }

  /** Only the cylinder loses anything: all but its low eight bits. */
  lemma RegistersKeepLowByte(c: Chs)
    requires c.cylinder >= 0
    ensures InRegisters(c).head == c.head && InRegisters(c).sector == c.sector
    ensures 0 <= InRegisters(c).cylinder < 256
    ensures exists n: nat :: c.cylinder == 256 * n + InRegisters(c).cylinder
  {
    assert c.cylinder == 256 * (c.cylinder / 256) + InRegisters(c).cylinder;
  }

  /** The registers name the right sector exactly below cylinder 256. */
  lemma RegistersNameSector(lba: nat)
    ensures OnDisk(InRegisters(ChsOf(lba)))
    ensures Lba(InRegisters(ChsOf(lba))) == lba <==> lba < 36 * 256
  {
    ConversionRoundTrip(lba, ChsOf(lba));
    CylinderByte(ChsOf(lba).cylinder);
  }

  lemma CylinderByte(cylinder: nat)
    ensures cylinder % 0x100 == cylinder <==> cylinder < 256
  {
  }

  /** Stepping through the sector numbers is converting the next number. */
  lemma StepConverts(lba: nat)
    ensures Step(ChsOf(lba)) == ChsOf(lba + 1)
  {
    ConversionRoundTrip(lba, ChsOf(lba));
    StepIsNextSector(ChsOf(lba));
    ConversionRoundTrip(lba + 1, Step(ChsOf(lba)));
  }

  /** The loading loop, from a one-based start sector: the sectors are requested
      once each and in order, as the registers can name them. */
  method LoadKernel(start: nat, sectors: nat) returns (log: seq<Read>)
    requires 1 <= start < 0x1_0000 && sectors < 0x1_0000
    ensures |log| == sectors
    ensures forall k :: 0 <= k < sectors ==>
              log[k] == Read(InRegisters(ChsOf(start - 1 + k)), ReadAddress(k))
  {
    hide ChsOf;
    hide InRegisters;
    hide ReadAddress;
    var cylinder, head, sector := Convert(start);
    var bx, left := 0, sectors;
    FirstAddress();
    log := [];
    while left != 0
      invariant 0 <= left <= sectors && |log| == sectors - left
      invariant InRegisters(ChsOf(start - 1 + |log|)) == Chs(cylinder, head, sector)
      invariant TEMP_KERNEL + bx == ReadAddress(|log|)
      invariant forall k :: 0 <= k < |log| ==> log[k] == Read(InRegisters(ChsOf(start - 1 + k)), ReadAddress(k))
      decreases left
    {
      log := log + [Read(Chs(cylinder, head, sector), TEMP_KERNEL + bx)];
      ghost var lba := start - 1 + (|log| - 1);
      RegistersNameSector(lba);
      StepConverts(lba);
      NextAddress(|log| - 1);
      bx := (bx + SECTOR_BYTES) % 0x1_0000;
      left := left - 1;
      cylinder, head, sector := Advance(cylinder, head, sector, ChsOf(lba));
    }
  }

  lemma FirstAddress()
    ensures ReadAddress(0) == 0x1_0000
  {
  }

  /** Each read goes 512 bytes further, and from the end of the 64 KiB window back
      to its start. */
  lemma NextAddress(k: nat)
    ensures ReadAddress(k + 1) == if ReadAddress(k) + 512 < 0x2_0000 then ReadAddress(k) + 512 else 0x1_0000
    ensures 0x1_0000 <= ReadAddress(k) <= 0x1_FE00
  {
    var q, r := k / 128, k % 128;
    AddressInWindow(k, q, r);
    if r < 127 {
      AddressInWindow(k + 1, q, r + 1);
    } else {
      AddressInWindow(k + 1, q + 1, 0);
    }
  }

  lemma AddressInWindow(k: nat, q: nat, r: nat)
    requires k == 128 * q + r && r < 128
    ensures ReadAddress(k) == 0x1_0000 + 512 * r
  {
    assert 512 * k == 0x1_0000 * q + 512 * r;
  }

  /** lba_to_chs_from_kernel_start, with the cylinder truncated to a byte. */
  method Convert(start: nat) returns (cylinder: int, head: int, sector: int)
    requires 1 <= start < 0x1_0000
    ensures Chs(cylinder, head, sector) == InRegisters(ChsOf(start - 1))
  {
    var ax := start - 1;
    sector := ax % SECTORS_PER_TRACK + 1;
    ax := ax / SECTORS_PER_TRACK;
    cylinder, head := ax / HEADS % 0x100, ax % HEADS;
  }

  /** Incrementing the byte registers follows the step of the position. */
  method Advance(cylinder: int, head: int, sector: int, ghost c: Chs) returns (cylinder': int, head': int, sector': int)
    requires OnDisk(InRegisters(c)) && Chs(cylinder, head, sector) == InRegisters(c)
    ensures Chs(cylinder', head', sector') == InRegisters(Step(c))
  {
    cylinder', head', sector' := cylinder, head, (sector + 1) % 0x100;
    if sector' == SECTORS_PER_TRACK + 1 {
      sector' := 1;
      head' := (head + 1) % 0x100;
      if head' == HEADS {
        head' := 0;
        cylinder' := (cylinder + 1) % 0x100;
      }
    }
  }

  /** The sectors land in consecutive, distinct places for loads of up to 128
      sectors, and only for those: the 129th overwrites the first. */
  lemma DestinationsDistinctIffSmall(sectors: nat)
    ensures (forall i, j :: 0 <= i < j < sectors ==> ReadAddress(i) != ReadAddress(j)) <==> sectors <= 128
    ensures sectors <= 128 ==> forall k :: 0 <= k < sectors ==> ReadAddress(k) == TEMP_KERNEL + SECTOR_BYTES * k
  {
    if sectors > 128 {
      assert ReadAddress(0) == ReadAddress(128);
    }
  }
}
