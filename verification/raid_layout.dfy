/**
  Address translation of the RAID-5 simulator (ex2.c).

  N devices form one logical sector space. A logical sector lives in a block of
  `SectorsPerBlock` consecutive sectors; the blocks of one stripe are spread over
  the N - 1 data devices, and the remaining device of the stripe holds parity.
  The parity device rotates with the stripe number.
*/
module RaidLayout {
  import opened Arith

  /** Consecutive logical sectors that one data device holds in one stripe. */
  const SectorsPerBlock: nat := 4
  /** Bytes per sector. */
  const SectorSize: nat := 4096

  /** Where a sector lives on the devices: PhysicalLocation in ex2.c. */
  datatype Location = Location(device: nat, stripe: nat, place: nat, isParity: bool)

  /** The devices a sequence of locations touches. */
  function DevicesOf(locs: seq<Location>): set<nat>
  {
    set i | 0 <= i < |locs| :: locs[i].device
  }

  // ---------------------------------------------------------------------------
  // Translation (ex2.c:39-67)
  // ---------------------------------------------------------------------------

  /** The stripe of a logical sector (get_logical_sector_stripe). */
  function StripeOf(n: nat, ls: nat): nat
    requires n >= 2
  {
    (ls / (n - 1)) / SectorsPerBlock
  }

  /** The parity device of a stripe (get_parity_index_in_stripe). */
  function ParityDevice(n: nat, stripe: nat): (p: nat)
    requires n >= 2
    ensures p < n
  {
    n - 1 - stripe % n
  }

  /**
    The device holding a logical sector's block (get_sector_index_in_stripe):
    the block's slot among the data devices, shifted past the parity device.
  */
  function DataDevice(n: nat, ls: nat, parity: nat): nat
    requires n >= 2
  {
    var slot := (ls / SectorsPerBlock) % (n - 1);
    if slot >= parity then slot + 1 else slot
  }

  /** get_physical_sector: the data location of a logical sector. */
  function Locate(n: nat, ls: nat): (loc: Location)
    requires n >= 2
    ensures loc.device < n && loc.place < SectorsPerBlock && !loc.isParity
    ensures loc.device != ParityDevice(n, loc.stripe)
  {
    var stripe := StripeOf(n, ls);
    Location(DataDevice(n, ls, ParityDevice(n, stripe)), stripe, ls % SectorsPerBlock, false)
  }

  /** get_relevant_parity_sector: the parity location covering a location. */
  function ParityLocation(n: nat, loc: Location): (p: Location)
    requires n >= 2
    ensures p.device < n && p.isParity
    ensures p.stripe == loc.stripe && p.place == loc.place
    ensures p.device == ParityDevice(n, loc.stripe)
    ensures forall ls: nat :: loc == Locate(n, ls) ==> p.device != loc.device
  {
    Location(ParityDevice(n, loc.stripe), loc.stripe, loc.place, true)
  }

  // ---------------------------------------------------------------------------
  // The inverse mapping and the bijection between logical sectors and data locations
  // ---------------------------------------------------------------------------

  /** A data location's slot among the N - 1 data devices of its stripe. */
  function SlotOf(n: nat, loc: Location): nat
    requires n >= 2
  {
    if loc.device > ParityDevice(n, loc.stripe) then loc.device - 1 else loc.device
  }

  /** The logical sector a data location holds. */
  function LogicalOf(n: nat, loc: Location): nat
    requires n >= 2
  {
    (loc.stripe * (n - 1) + SlotOf(n, loc)) * SectorsPerBlock + loc.place
  }

  /** A location that holds data: on a device other than its stripe's parity device. */
  predicate IsDataLocation(n: nat, loc: Location)
    requires n >= 2
  {
    loc.device < n && loc.device != ParityDevice(n, loc.stripe)
    && loc.place < SectorsPerBlock && !loc.isParity
  }

  /** Translating a logical sector and reading it back gives the sector again. */
  lemma LocateRoundTrip(n: nat, ls: nat)
    requires n >= 2
    ensures IsDataLocation(n, Locate(n, ls))
    ensures LogicalOf(n, Locate(n, ls)) == ls
  {
    var loc := Locate(n, ls);
    var b := ls / SectorsPerBlock;
    StripeOfBlock(n, ls);
    SlotOfLocate(n, ls);
    assert b == loc.stripe * (n - 1) + b % (n - 1);
    assert ls == b * SectorsPerBlock + loc.place;
  }

  /** The stripe is the block number divided by the number of data devices. */
  lemma StripeOfBlock(n: nat, ls: nat)
    requires n >= 2
    ensures StripeOf(n, ls) == (ls / SectorsPerBlock) / (n - 1)
  {
    DivDiv(ls, n - 1, SectorsPerBlock);
    DivDiv(ls, SectorsPerBlock, n - 1);
  }

  /** Removing the parity shift recovers the block's slot among the data devices. */
  lemma SlotOfLocate(n: nat, ls: nat)
    requires n >= 2
    ensures SlotOf(n, Locate(n, ls)) == (ls / SectorsPerBlock) % (n - 1)
  {
    var p := ParityDevice(n, StripeOf(n, ls));
    assert Locate(n, ls).device == DataDevice(n, ls, p);
  }

  /** Every data location holds exactly the logical sector LogicalOf names. */
  lemma LogicalOfRoundTrip(n: nat, loc: Location)
    requires n >= 2 && IsDataLocation(n, loc)
    ensures Locate(n, LogicalOf(n, loc)) == loc
  {
    var slot := SlotOf(n, loc);
    assert slot < n - 1;
    var b := loc.stripe * (n - 1) + slot;
    var ls := LogicalOf(n, loc);
    DivModUnique(ls, SectorsPerBlock, b, loc.place);
    DivModUnique(b, n - 1, loc.stripe, slot);
    DivDiv(ls, n - 1, SectorsPerBlock);
    DivDiv(ls, SectorsPerBlock, n - 1);
    assert StripeOf(n, ls) == loc.stripe;
  }

  /** Distinct logical sectors never share a (device, stripe, place) triple. */
  lemma LocateInjective(n: nat, a: nat, b: nat)
    requires n >= 2 && a != b
    ensures Locate(n, a) != Locate(n, b)
  {
    LocateRoundTrip(n, a);
    LocateRoundTrip(n, b);
  }

  // ---------------------------------------------------------------------------
  // On-device addressing (ex2.c:93-99)
  // ---------------------------------------------------------------------------

  /** physical_location_to_sector: the sector index inside the device. */
  function DeviceSector(loc: Location): nat
  {
    loc.stripe * SectorsPerBlock + loc.place
  }

  /**
    physical_location_to_offset with the product taken in the width of off_t:
    the byte offset of the location inside its device.
  */
  function ByteOffset(loc: Location): nat
  {
    DeviceSector(loc) * SectorSize
  }

  /** A logical sector's device sector never exceeds the logical sector itself. */
  lemma DeviceSectorAtMost(n: nat, ls: nat)
    requires n >= 2
    ensures DeviceSector(Locate(n, ls)) <= ls
  {
    var loc := Locate(n, ls);
    var b := ls / SectorsPerBlock;
    assert loc.stripe == b / (n - 1) by {
      DivDiv(ls, n - 1, SectorsPerBlock);
      DivDiv(ls, SectorsPerBlock, n - 1);
    }
    assert loc.stripe <= b by {
      DivAtMost(b, n - 1);
    }
    assert loc.stripe * SectorsPerBlock <= b * SectorsPerBlock;
    assert ls == b * SectorsPerBlock + loc.place;
  }

  /**
    For every logical sector an `int` can name, the byte offset fits a signed
    64-bit off_t.
  */
  lemma ByteOffsetFitsOffT(n: nat, ls: nat)
    requires n >= 2 && ls < 0x8000_0000
    ensures ByteOffset(Locate(n, ls)) < 0x8000_0000_0000_0000
  {
    DeviceSectorAtMost(n, ls);
  }

  /** A two's-complement 32-bit `int` holding the low 32 bits of x. */
  function WrapInt32(x: int): (r: int)
    ensures -0x8000_0000 <= r < 0x8000_0000
    ensures 0 <= x < 0x8000_0000 ==> r == x
  {
    var m := x % 0x1_0000_0000;
    if m >= 0x8000_0000 then m - 0x1_0000_0000 else m
  }

  /**
    physical_location_to_offset as written: the sector index and SECTOR_SIZE
    are both `int`, so their product is formed in 32 bits before it is widened
    to off_t.
  */
  function ByteOffsetAsWritten(loc: Location): int
  {
    WrapInt32(DeviceSector(loc) * SectorSize)
  }

  /** The as-written offset is right exactly for the first 2^19 device sectors (2 GiB). */
  lemma ByteOffsetAsWrittenCorrectBelow2GiB(loc: Location)
    ensures ByteOffsetAsWritten(loc) == ByteOffset(loc) <==> DeviceSector(loc) < 0x8_0000
  {
    if DeviceSector(loc) >= 0x8_0000 {
      assert ByteOffset(loc) >= 0x8000_0000;
    }
  }

  /**
    Device sector 2^19 (stripe 131072, place 0) lies 2 GiB into the device, but
    the as-written offset is negative, so the seek cannot land there.
  */
  lemma ByteOffsetAsWrittenOverflows()
    ensures ByteOffset(Location(0, 131072, 0, false)) == 0x8000_0000
    ensures ByteOffsetAsWritten(Location(0, 131072, 0, false)) == -0x8000_0000
  {
  }

  /**
    Past 2 GiB the as-written offset goes wrong in two ways: device sectors
    2^19 .. 2^20 - 1 get a negative offset, which lseek rejects, and device
    sector 2^20 wraps round to offset 0, the first sector of the device.
  */
  lemma ByteOffsetAsWrittenWraps(loc: Location)
    ensures 0x8_0000 <= DeviceSector(loc) < 0x10_0000 ==> ByteOffsetAsWritten(loc) < 0
    ensures DeviceSector(loc) == 0x10_0000 ==> ByteOffsetAsWritten(loc) == 0
  {
    var x := DeviceSector(loc) * SectorSize;
    if 0x8_0000 <= DeviceSector(loc) < 0x10_0000 {
      assert 0x8000_0000 <= x < 0x1_0000_0000;
      assert x % 0x1_0000_0000 == x;
    }
  }

  // ---------------------------------------------------------------------------
  // Translation of a signed sector in C arithmetic (ex2.c:39-67, ex2.c:335)
  // ---------------------------------------------------------------------------

  /** C's `/` on int: the quotient truncated toward zero. */
  function CDiv(a: int, b: int): int
    requires b > 0
  {
    if a >= 0 then a / b else -((-a) / b)
  }

  /** C's `%` on int: the remainder carries the sign of the dividend. */
  function CMod(a: int, b: int): int
    requires b > 0
  {
    a - CDiv(a, b) * b
  }

  /** A PhysicalLocation as the C struct holds it: every field a signed int. */
  datatype CLocation = CLocation(device: int, stripe: int, place: int)

  /**
    get_physical_sector on any int the command parser hands it, with C's
    truncating division and remainder.
  */
  function LocateAsWritten(n: nat, ls: int): CLocation
    requires n >= 2
  {
    var stripe := CDiv(CDiv(ls, n - 1), SectorsPerBlock);
    var parity := n - 1 - CMod(stripe, n);
    var slot := CMod(CDiv(ls, SectorsPerBlock), n - 1);
    CLocation(if slot >= parity then slot + 1 else slot, stripe, CMod(ls, SectorsPerBlock))
  }

  /** On non-negative sectors the C arithmetic computes exactly Locate. */
  lemma LocateAsWrittenAgrees(n: nat, ls: nat)
    requires n >= 2
    ensures LocateAsWritten(n, ls) == CLocation(Locate(n, ls).device, Locate(n, ls).stripe, Locate(n, ls).place)
  {
    CArithNonNegative(ls, n - 1);
    CArithNonNegative(ls / (n - 1), SectorsPerBlock);
    CArithNonNegative(StripeOf(n, ls), n);
    CArithNonNegative(ls, SectorsPerBlock);
    CArithNonNegative(ls / SectorsPerBlock, n - 1);
  }

  /** On a non-negative dividend C's `/` and `%` agree with Euclidean division. */
  lemma CArithNonNegative(a: nat, b: nat)
    requires b > 0
    ensures CDiv(a, b) == a / b && CMod(a, b) == a % b
  {
  }

  /**
    Negative sectors leave the layout. With four devices, sector -1 maps to
    device 0, stripe 0 and place -1, so its device sector is -1 (offset -4096);
    sector -5 maps to device index -1, outside the device table.
  */
  lemma NegativeSectorsEscape()
    ensures LocateAsWritten(4, -1) == CLocation(0, 0, -1)
    ensures LocateAsWritten(4, -1).stripe * SectorsPerBlock + LocateAsWritten(4, -1).place == -1
    ensures LocateAsWritten(4, -5).device == -1
  {
  }

  /** Two logical sectors stored on the same device occupy different device sectors. */
  lemma DeviceSectorsDistinct(n: nat, a: nat, b: nat)
    requires n >= 2 && a != b
    requires Locate(n, a).device == Locate(n, b).device
    ensures DeviceSector(Locate(n, a)) != DeviceSector(Locate(n, b))
  {
    var la, lb := Locate(n, a), Locate(n, b);
    if DeviceSector(la) == DeviceSector(lb) {
      DivModUnique(DeviceSector(la), SectorsPerBlock, la.stripe, la.place);
      DivModUnique(DeviceSector(lb), SectorsPerBlock, lb.stripe, lb.place);
      LocateInjective(n, a, b);
      assert false;
    }
  }

  /** A data sector never lands on a device sector that holds parity for some stripe. */
  lemma DataNeverOnParity(n: nat, ls: nat, stripe: nat, place: nat)
    requires n >= 2 && place < SectorsPerBlock
    requires Locate(n, ls).device == ParityDevice(n, stripe)
    ensures DeviceSector(Locate(n, ls)) != DeviceSector(Location(ParityDevice(n, stripe), stripe, place, true))
  {
    var loc := Locate(n, ls);
    if DeviceSector(loc) == stripe * SectorsPerBlock + place {
      DivModUnique(DeviceSector(loc), SectorsPerBlock, loc.stripe, loc.place);
      DivModUnique(DeviceSector(loc), SectorsPerBlock, stripe, place);
      assert false;
    }
  }

  /** Byte ranges of distinct device sectors do not overlap. */
  lemma ByteRangesDisjoint(a: Location, b: Location)
    requires DeviceSector(a) < DeviceSector(b)
    ensures ByteOffset(a) + SectorSize <= ByteOffset(b)
  {
    assert (DeviceSector(b) - DeviceSector(a)) * SectorSize >= SectorSize;
  }

  // ---------------------------------------------------------------------------
  // Parity rotation (ex2.c:43-45)
  // ---------------------------------------------------------------------------

  /** The parity device repeats with period N. */
  lemma ParityPeriodic(n: nat, stripe: nat)
    requires n >= 2
    ensures ParityDevice(n, stripe + n) == ParityDevice(n, stripe)
  {
    DivModUnique(stripe + n, n, stripe / n + 1, stripe % n);
  }

  /** The parity devices of the N consecutive stripes starting at `first`. */
  function ParityWindow(n: nat, first: nat): (w: seq<int>)
    requires n >= 2
    ensures |w| == n
  {
    seq(n, k requires 0 <= k < n => ParityDevice(n, first + k))
  }

  /** Device d is the parity device of some stripe in the window. */
  lemma ParityWindowHits(n: nat, first: nat, d: nat)
    requires n >= 2 && d < n
    ensures d in ParityWindow(n, first)
  {
    var w := ParityWindow(n, first);
    var t, m, q := n - 1 - d, first % n, first / n;
    if t >= m {
      DivModUnique(first + (t - m), n, q, t);
      assert w[t - m] == ParityDevice(n, first + (t - m)) == d;
    } else {
      DivModUnique(first + (t - m + n), n, q + 1, t);
      assert w[t - m + n] == ParityDevice(n, first + (t - m + n)) == d;
    }
  }

  /** Two different stripes of one window have different parity devices. */
  lemma ParityWindowDistinct(n: nat, first: nat, j: nat, k: nat)
    requires n >= 2 && j < k < n
    ensures ParityWindow(n, first)[j] != ParityWindow(n, first)[k]
  {
    var w := ParityWindow(n, first);
    assert w[j] == ParityDevice(n, first + j) && w[k] == ParityDevice(n, first + k);
    var q, r := (first + j) / n, (first + j) % n;
    assert first + k == q * n + (r + (k - j));
    if r + (k - j) < n {
      DivModUnique(first + k, n, q, r + (k - j));
    } else {
      assert first + k == (q + 1) * n + (r + (k - j) - n);
      DivModUnique(first + k, n, q + 1, r + (k - j) - n);
    }
  }

  /** Over any N consecutive stripes every device is parity exactly once. */
  lemma ParityRotation(n: nat, first: nat)
    requires n >= 2
    ensures forall d: nat | d < n :: d in ParityWindow(n, first)
    ensures forall j, k | 0 <= j < k < n :: ParityWindow(n, first)[j] != ParityWindow(n, first)[k]
  {
    forall d: nat | d < n
      ensures d in ParityWindow(n, first)
    {
      ParityWindowHits(n, first, d);
    }
    forall j, k | 0 <= j < k < n
      ensures ParityWindow(n, first)[j] != ParityWindow(n, first)[k]
    {
      ParityWindowDistinct(n, first, j, k);
    }
  }

  // ---------------------------------------------------------------------------
  // Backup set (ex2.c:79-91)
  // ---------------------------------------------------------------------------

  /**
    get_backup_sectors: the locations of the same stripe and place on every
    device except `bad`, in ascending device order, each flagged as parity
    exactly when it is the stripe's parity device.
  */
  function BackupSet(n: nat, bad: Location): (backups: seq<Location>)
    requires n >= 2 && bad.device < n
    ensures |backups| == n - 1
    ensures forall i | 0 <= i < |backups| ::
      && backups[i].device < n
      && backups[i].device != bad.device
      && backups[i].stripe == bad.stripe
      && backups[i].place == bad.place
      && (backups[i].isParity <==> backups[i].device == ParityDevice(n, bad.stripe))
    ensures forall i, j | 0 <= i < j < |backups| :: backups[i].device < backups[j].device
    ensures forall d: nat | d < n && d != bad.device :: d in DevicesOf(backups)
  {
    var parity := ParityDevice(n, bad.stripe);
    var backups := seq(n - 1, i requires 0 <= i < n - 1 =>
      Location(SkipDevice(bad.device, i), bad.stripe, bad.place, SkipDevice(bad.device, i) == parity));
    SkipCovers(n, bad, backups);
    backups
  }

  /** The i-th device other than `bad`, counting from 0 upwards. */
  function SkipDevice(bad: nat, i: nat): (d: nat)
    ensures d != bad
    ensures d == i || d == i + 1
  {
    if i < bad then i else i + 1
  }

  /** A sequence whose devices skip `bad` reaches every other device below n. */
  lemma SkipCovers(n: nat, bad: Location, backups: seq<Location>)
    requires n >= 2 && bad.device < n && |backups| == n - 1
    requires forall i | 0 <= i < |backups| :: backups[i].device == SkipDevice(bad.device, i)
    ensures forall d: nat | d < n && d != bad.device :: d in DevicesOf(backups)
  {
    forall d: nat | d < n && d != bad.device
      ensures d in DevicesOf(backups)
    {
      var i := if d < bad.device then d else d - 1;
      assert backups[i].device == d;
    }
  }

  /** When `bad` holds data, exactly one member of its backup set is the parity location. */
  lemma BackupSetHasOneParity(n: nat, bad: Location)
    requires n >= 2 && IsDataLocation(n, bad)
    ensures exists i :: 0 <= i < n - 1 && BackupSet(n, bad)[i].isParity
    ensures forall i, j | 0 <= i < j < n - 1 :: !(BackupSet(n, bad)[i].isParity && BackupSet(n, bad)[j].isParity)
  {
    var backups := BackupSet(n, bad);
    var p := ParityDevice(n, bad.stripe);
    assert p in DevicesOf(backups);
  }

  /**
    The loop of get_backup_sectors, with its running device counter that skips
    the bad device once: it computes exactly BackupSet.
  */
  method GetBackupSectors(n: nat, bad: Location) returns (backups: seq<Location>)
    requires n >= 2 && bad.device < n
    ensures backups == BackupSet(n, bad)
  {
    var parity := ParityDevice(n, bad.stripe);
    ghost var all := BackupSet(n, bad);
    backups := [];
    var i, current := 0, 0;
    while i < n - 1
      invariant 0 <= i <= n - 1
      invariant current == if i <= bad.device then i else i + 1
      invariant backups == all[..i]
    {
      if current == bad.device {
        current := current + 1;
      }
      BackupSetAt(n, bad, i);
      assert all[..i + 1] == all[..i] + [all[i]];
      backups := backups + [Location(current, bad.stripe, bad.place, parity == current)];
      i, current := i + 1, current + 1;
    }
    assert all[..n - 1] == all;
  }

  /** The i-th member of the backup set sits on the i-th device other than the bad one. */
  lemma BackupSetAt(n: nat, bad: Location, i: nat)
    requires n >= 2 && bad.device < n && i < n - 1
    ensures BackupSet(n, bad)[i] ==
      Location(SkipDevice(bad.device, i), bad.stripe, bad.place, SkipDevice(bad.device, i) == ParityDevice(n, bad.stripe))
  {
  }
}
