/**
  The fault-tolerant sector engine of the RAID-5 simulator (ex2.c): the device
  table, single-sector I/O that closes a device on its first failure, and the
  READ, WRITE, KILL and REPAIR commands.

  The engine is a state record threaded through pure functions. What a backing
  device answers to one seek-and-transfer is supplied by a `Disk` oracle; the
  payload bytes are not modelled, because the simulator never computes parity
  data.
*/
module RaidEngine {
  import opened RaidLayout

  /** One slot of g_dev_status: an open file descriptor or INVALID_DEVICE (-1). */
  datatype Handle = Invalid | Fd(fd: nat)

  /** The integer the C table stores for a handle. */
  function HandleValue(h: Handle): int
  {
    match h
    case Invalid => -1
    case Fd(fd) => fd
  }

  /** The close() calls that closing a handle issues: none for an invalid slot. */
  function ClosesOf(h: Handle): seq<int>
  {
    match h
    case Invalid => []
    case Fd(fd) => [fd]
  }

  datatype IoKind = Read | Write

  /** One planned sector transfer. */
  datatype Access = Access(kind: IoKind, loc: Location)

  /** What an open device answers: the seek landed and the full sector moved, or not. */
  datatype Response = Complete | SeekMismatch | ShortTransfer

  /** How one io_operation call ended. */
  datatype Outcome = Done | AlreadyInvalid | SeekFailed | ShortIo

  /** One io_operation call, as it appears in the trace. */
  datatype Step = Step(kind: IoKind, loc: Location, outcome: Outcome)

  /**
    The engine state: the device table (g_dev_status), the last device an I/O
    failed on (g_last_bad_device), every io_operation call so far, and every
    argument passed to close().
  */
  datatype Raid = Raid(handles: seq<Handle>, lastBad: int, trace: seq<Step>, closes: seq<int>)

  /** The result of an operation: whether it succeeded, and the state after it. */
  datatype Run = Run(ok: bool, raid: Raid)

  /**
    The backing devices: the answer to the I/O with the given position in the
    trace, of the given kind, on the given device at the given byte offset.
  */
  type Disk = (nat, IoKind, nat, nat) -> Response

  /** No slot that was invalid before is open after. */
  predicate NoReopen(before: seq<Handle>, after: seq<Handle>)
  {
    |before| == |after| && forall j | 0 <= j < |before| :: before[j].Invalid? ==> after[j].Invalid?
  }

  /** The last element of a non-empty sequence. */
  function Last<T>(s: seq<T>): T
    requires |s| > 0
  {
    s[|s| - 1]
  }

  // ---------------------------------------------------------------------------
  // Device table: KILL (ex2.c:101-108)
  // ---------------------------------------------------------------------------

  /** close_device: close an open slot and mark it invalid; an invalid slot is left alone. */
  function CloseDevice(st: Raid, i: nat): (r: Raid)
    requires i < |st.handles|
    ensures r.handles == st.handles[i := Invalid]
    ensures r.closes == st.closes + ClosesOf(st.handles[i])
    ensures r.lastBad == st.lastBad && r.trace == st.trace
  {
    if st.handles[i].Invalid? then st
    else st.(handles := st.handles[i := Invalid], closes := st.closes + [st.handles[i].fd])
  }

  /** Killing a device twice is killing it once: the second call closes nothing. */
  lemma CloseIdempotent(st: Raid, i: nat)
    requires i < |st.handles|
    ensures CloseDevice(CloseDevice(st, i), i) == CloseDevice(st, i)
    ensures |CloseDevice(st, i).closes| <= |st.closes| + 1
  {
  }

  // ---------------------------------------------------------------------------
  // Sector transport (ex2.c:119-154)
  // ---------------------------------------------------------------------------

  /** How an io_operation call ends in state st. */
  function Classify(st: Raid, a: Access, disk: Disk): Outcome
    requires a.loc.device < |st.handles|
  {
    if st.handles[a.loc.device].Invalid? then AlreadyInvalid
    else match disk(|st.trace|, a.kind, a.loc.device, ByteOffset(a.loc))
      case Complete => Done
      case SeekMismatch => SeekFailed
      case ShortTransfer => ShortIo
  }

  /**
    io_operation: one sector transfer. An invalid device fails at once and is
    recorded as the last bad device; a failed seek or a short transfer also
    closes the device. A completed transfer changes nothing but the trace.
  */
  function Io(st: Raid, a: Access, disk: Disk): (r: Run)
    requires a.loc.device < |st.handles|
    ensures |r.raid.trace| == |st.trace| + 1
    ensures r.raid.trace == st.trace + [Step(a.kind, a.loc, Last(r.raid.trace).outcome)]
    ensures r.ok <==> Last(r.raid.trace).outcome == Done
    ensures r.ok <==> st.handles[a.loc.device].Fd?
                      && disk(|st.trace|, a.kind, a.loc.device, ByteOffset(a.loc)) == Complete
    ensures st.handles[a.loc.device].Invalid? ==>
      Last(r.raid.trace).outcome == AlreadyInvalid && r.raid.handles == st.handles && r.raid.closes == st.closes
    ensures r.ok ==> r.raid.handles == st.handles && r.raid.lastBad == st.lastBad && r.raid.closes == st.closes
    ensures !r.ok ==> r.raid.lastBad == a.loc.device
                      && r.raid.handles == st.handles[a.loc.device := Invalid]
                      && r.raid.closes == st.closes + ClosesOf(st.handles[a.loc.device])
  {
    var outcome := Classify(st, a, disk);
    var st' := st.(trace := st.trace + [Step(a.kind, a.loc, outcome)]);
    if outcome == Done then Run(true, st')
    else if outcome == AlreadyInvalid then Run(false, st'.(lastBad := a.loc.device))
    else Run(false, CloseDevice(st'.(lastBad := a.loc.device), a.loc.device))
  }

  /**
    `steps` carry out `plan` in order and stop at the first failure: every step
    but the last completed, and `ok` holds exactly when the whole plan completed.
  */
  predicate Performs(steps: seq<Step>, plan: seq<Access>, ok: bool)
  {
    && |steps| <= |plan|
    && (forall i | 0 <= i < |steps| :: steps[i].kind == plan[i].kind && steps[i].loc == plan[i].loc)
    && (forall i | 0 <= i < |steps| - 1 :: steps[i].outcome == Done)
    && (ok ==> |steps| == |plan| && forall i | 0 <= i < |steps| :: steps[i].outcome == Done)
    && (!ok ==> |steps| > 0 && Last(steps).outcome != Done)
  }

  /** Every access of a plan names a device of the table. */
  predicate Fits(plan: seq<Access>, n: nat)
  {
    forall i | 0 <= i < |plan| :: plan[i].loc.device < n
  }

  /**
    Carry out a plan of transfers in order, giving up at the first failure: the
    loops of read_backup and error_state_write and the four steps of
    standard_write.
  */
  function RunPlan(st: Raid, plan: seq<Access>, disk: Disk): (r: Run)
    requires Fits(plan, |st.handles|)
    ensures |st.trace| <= |r.raid.trace| && r.raid.trace[..|st.trace|] == st.trace
    ensures Performs(r.raid.trace[|st.trace|..], plan, r.ok)
    ensures r.ok ==> r.raid.handles == st.handles && r.raid.lastBad == st.lastBad && r.raid.closes == st.closes
    ensures !r.ok ==> 0 <= r.raid.lastBad < |st.handles|
                      && r.raid.lastBad == Last(r.raid.trace).loc.device
                      && r.raid.handles == st.handles[r.raid.lastBad := Invalid]
                      && r.raid.closes == st.closes + ClosesOf(st.handles[r.raid.lastBad])
    decreases |plan|
  {
    if |plan| == 0 then Run(true, st)
    else
      var head := Io(st, plan[0], disk);
      if !head.ok then head
      else
        var rest := RunPlan(head.raid, plan[1..], disk);
        TraceSplit(st.trace, head.raid.trace, rest.raid.trace);
        PerformsCons(Last(head.raid.trace), rest.raid.trace[|head.raid.trace|..], plan, rest.ok);
        rest
  }

  /** Traces that extend each other split at the intermediate length. */
  lemma TraceSplit(a: seq<Step>, b: seq<Step>, c: seq<Step>)
    requires |b| == |a| + 1 && b[..|a|] == a
    requires |b| <= |c| && c[..|b|] == b
    ensures |a| <= |c| && c[..|a|] == a
    ensures c[|a|..] == [Last(b)] + c[|b|..]
  {
    assert c[..|a|] == b[..|a|];
    assert c[|a|..] == c[|a|..|b|] + c[|b|..];
    assert c[|a|..|b|] == [c[|a|]] == [b[|a|]];
  }

  /** A completed first step followed by a run of the rest of the plan is a run of the plan. */
  lemma PerformsCons(first: Step, steps: seq<Step>, plan: seq<Access>, ok: bool)
    requires |plan| > 0 && first.kind == plan[0].kind && first.loc == plan[0].loc && first.outcome == Done
    requires Performs(steps, plan[1..], ok)
    ensures Performs([first] + steps, plan, ok)
  {
    var all := [first] + steps;
    assert forall i | 1 <= i < |all| :: all[i] == steps[i - 1];
  }

  // ---------------------------------------------------------------------------
  // READ (ex2.c:156-181)
  // ---------------------------------------------------------------------------

  /** Read every location, in order. */
  function ReadPlan(locs: seq<Location>): (plan: seq<Access>)
  {
    seq(|locs|, i requires 0 <= i < |locs| => Access(Read, locs[i]))
  }

  /** read_backup: read the whole backup set of a location, giving up at the first failure. */
  function ReadBackup(st: Raid, loc: Location, disk: Disk): (r: Run)
    requires |st.handles| >= 2 && loc.device < |st.handles|
    ensures |st.trace| <= |r.raid.trace| && r.raid.trace[..|st.trace|] == st.trace
    ensures Performs(r.raid.trace[|st.trace|..], ReadPlan(BackupSet(|st.handles|, loc)), r.ok)
    ensures NoReopen(st.handles, r.raid.handles)
    ensures !r.ok ==> r.raid.lastBad == Last(r.raid.trace).loc.device
  {
    RunPlan(st, ReadPlan(BackupSet(|st.handles|, loc)), disk)
  }

  /**
    read_operation: read the sector where it lives; only if that fails, read
    its backup set instead. The read succeeds when the direct read completed or
    every backup read completed.
  */
  function ReadOperation(st: Raid, ls: nat, disk: Disk): (r: Run)
    requires |st.handles| >= 2
    ensures |st.trace| < |r.raid.trace| && r.raid.trace[..|st.trace|] == st.trace
    ensures !r.ok ==> r.raid.lastBad == Last(r.raid.trace).loc.device
    ensures r.raid.trace[|st.trace|].kind == Read && r.raid.trace[|st.trace|].loc == Locate(|st.handles|, ls)
    ensures r.raid.trace[|st.trace|].outcome == Done ==> r.ok && |r.raid.trace| == |st.trace| + 1
    ensures r.raid.trace[|st.trace|].outcome != Done ==>
      Performs(r.raid.trace[|st.trace| + 1..], ReadPlan(BackupSet(|st.handles|, Locate(|st.handles|, ls))), r.ok)
    ensures NoReopen(st.handles, r.raid.handles)
  {
    var loc := Locate(|st.handles|, ls);
    var direct := Io(st, Access(Read, loc), disk);
    if direct.ok then direct
    else
      var backup := ReadBackup(direct.raid, loc, disk);
      TraceSplit(st.trace, direct.raid.trace, backup.raid.trace);
      assert backup.raid.trace[|st.trace|] == Last(direct.raid.trace);
      backup
  }

  // ---------------------------------------------------------------------------
  // WRITE (ex2.c:183-267)
  // ---------------------------------------------------------------------------

  /**
    The four transfers of a write while target and parity are both open:
    read then write the location on the lower device, then read then write the
    one on the higher device.
  */
  function StandardPlan(loc: Location, parity: Location): (plan: seq<Access>)
    requires loc.device != parity.device
    ensures |plan| == 4
    ensures plan[0].kind == Read && plan[1].kind == Write && plan[2].kind == Read && plan[3].kind == Write
    ensures plan[0].loc == plan[1].loc && plan[2].loc == plan[3].loc
    ensures plan[0].loc.device < plan[2].loc.device
    ensures {plan[0].loc, plan[2].loc} == {loc, parity}
  {
    var lower := if loc.device < parity.device then loc else parity;
    var higher := if loc.device > parity.device then loc else parity;
    [Access(Read, lower), Access(Write, lower), Access(Read, higher), Access(Write, higher)]
  }

  /**
    standard_write: with the parity device open, carry out the four transfers
    of StandardPlan; with it invalid, write the target alone.
  */
  function StandardWrite(st: Raid, loc: Location, parity: Location, disk: Disk): (r: Run)
    requires loc.device < |st.handles| && parity.device < |st.handles|
    requires st.handles[parity.device].Fd? ==> loc.device != parity.device
    ensures |st.trace| < |r.raid.trace| && r.raid.trace[..|st.trace|] == st.trace
    ensures st.handles[parity.device].Fd? ==>
      Performs(r.raid.trace[|st.trace|..], StandardPlan(loc, parity), r.ok)
    ensures st.handles[parity.device].Invalid? ==>
      r.raid.trace == st.trace + [Step(Write, loc, Last(r.raid.trace).outcome)]
      && (r.ok <==> Last(r.raid.trace).outcome == Done)
    ensures NoReopen(st.handles, r.raid.handles)
  {
    if st.handles[parity.device].Fd? then RunPlan(st, StandardPlan(loc, parity), disk)
    else Io(st, Access(Write, loc), disk)
  }

  /** Write the parity member of a backup set and read every data member, in order. */
  function DegradedPlan(locs: seq<Location>): (plan: seq<Access>)
  {
    seq(|locs|, i requires 0 <= i < |locs| => Access(if locs[i].isParity then Write else Read, locs[i]))
  }

  /**
    error_state_write: the target cannot be written, so touch the rest of the
    stripe instead, giving up at the first failure.
  */
  function ErrorStateWrite(st: Raid, loc: Location, disk: Disk): (r: Run)
    requires |st.handles| >= 2 && loc.device < |st.handles|
    ensures |st.trace| <= |r.raid.trace| && r.raid.trace[..|st.trace|] == st.trace
    ensures Performs(r.raid.trace[|st.trace|..], DegradedPlan(BackupSet(|st.handles|, loc)), r.ok)
    ensures NoReopen(st.handles, r.raid.handles)
    ensures !r.ok ==> r.raid.lastBad == Last(r.raid.trace).loc.device
  {
    RunPlan(st, DegradedPlan(BackupSet(|st.handles|, loc)), disk)
  }

  /** The standard write of a logical sector, with the parity location that covers it. */
  function StandardWriteOf(st: Raid, ls: nat, disk: Disk): (r: Run)
    requires |st.handles| >= 2
    ensures |st.trace| < |r.raid.trace| && r.raid.trace[..|st.trace|] == st.trace
    ensures NoReopen(st.handles, r.raid.handles)
  {
    var loc := Locate(|st.handles|, ls);
    StandardWrite(st, loc, ParityLocation(|st.handles|, loc), disk)
  }

  /** A degraded write touches at least one sector. */
  lemma DegradedGrows(st: Raid, loc: Location, disk: Disk)
    requires |st.handles| >= 2 && loc.device < |st.handles|
    ensures |ErrorStateWrite(st, loc, disk).raid.trace| > |st.trace|
  {
    var r := ErrorStateWrite(st, loc, disk);
    assert Performs(r.raid.trace[|st.trace|..], DegradedPlan(BackupSet(|st.handles|, loc)), r.ok);
  }

  lemma PrefixTrans(a: seq<Step>, b: seq<Step>, c: seq<Step>)
    requires |a| < |b| && b[..|a|] == a
    requires |b| <= |c| && c[..|b|] == b
    ensures |a| < |c| && c[..|a|] == a
  {
    assert c[..|a|] == c[..|b|][..|a|];
  }

  /**
    write_operation: a standard write when the target device is open; a
    degraded write when it is invalid or the standard write failed.
  */
  function WriteOperation(st: Raid, ls: nat, disk: Disk): (r: Run)
    requires |st.handles| >= 2
    ensures |st.trace| < |r.raid.trace| && r.raid.trace[..|st.trace|] == st.trace
    ensures NoReopen(st.handles, r.raid.handles)
    ensures !r.ok ==> r.raid.lastBad == Last(r.raid.trace).loc.device
    ensures st.handles[Locate(|st.handles|, ls).device].Invalid? ==>
      Performs(r.raid.trace[|st.trace|..], DegradedPlan(BackupSet(|st.handles|, Locate(|st.handles|, ls))), r.ok)
    ensures st.handles[Locate(|st.handles|, ls).device].Fd? ==>
      var standard := StandardWriteOf(st, ls, disk);
      && |standard.raid.trace| <= |r.raid.trace|
      && r.raid.trace[..|standard.raid.trace|] == standard.raid.trace
      && (standard.ok ==> r == standard)
      && (!standard.ok ==> Performs(r.raid.trace[|standard.raid.trace|..], DegradedPlan(BackupSet(|st.handles|, Locate(|st.handles|, ls))), r.ok))
  {
    var loc := Locate(|st.handles|, ls);
    if st.handles[loc.device].Invalid? then
      DegradedGrows(st, loc, disk);
      ErrorStateWrite(st, loc, disk)
    else
      var standard := StandardWriteOf(st, ls, disk);
      if standard.ok then standard
      else
        var degraded := ErrorStateWrite(standard.raid, loc, disk);
        PrefixTrans(st.trace, standard.raid.trace, degraded.raid.trace);
        degraded
  }

  // ---------------------------------------------------------------------------
  // REPAIR (ex2.c:269-292)
  // ---------------------------------------------------------------------------

  /**
    repair_device with the intended failure path: a successful reopen installs
    the new handle and closes the old one (close(-1) when the slot was
    invalid); a failed reopen leaves the table as it was.
  */
  function RepairDevice(st: Raid, i: nat, reopened: Handle): (r: Raid)
    requires i < |st.handles|
    ensures |r.handles| == |st.handles|
    ensures forall j | 0 <= j < |st.handles| && j != i :: r.handles[j] == st.handles[j]
    ensures reopened.Fd? ==> r.handles[i] == reopened && r.closes == st.closes + [HandleValue(st.handles[i])]
    ensures reopened.Invalid? ==> r == st
    ensures r.lastBad == st.lastBad && r.trace == st.trace
  {
    if reopened.Invalid? then st
    else st.(handles := st.handles[i := reopened], closes := st.closes + [HandleValue(st.handles[i])])
  }

  /** A repair never turns an open slot invalid, and a successful one always leaves the slot open. */
  lemma RepairKeepsWorkingHandles(st: Raid, i: nat, reopened: Handle)
    requires i < |st.handles|
    ensures forall j | 0 <= j < |st.handles| :: st.handles[j].Fd? ==> RepairDevice(st, i, reopened).handles[j].Fd?
    ensures reopened.Fd? ==> RepairDevice(st, i, reopened).handles[i].Fd?
  {
  }

  /**
    repair_device as written: open_device stores the result of open() in the
    slot before it is checked, and the restoring statement at ex2.c:286 is a
    comparison, so a failed reopen leaves the slot invalid and the old
    descriptor unreachable.
  */
  function RepairAsWritten(st: Raid, i: nat, reopened: Handle): (r: Raid)
    requires i < |st.handles|
    ensures r.handles == st.handles[i := reopened]
    ensures reopened.Invalid? ==> r.closes == st.closes
  {
    var previous := st.handles[i];
    var st' := st.(handles := st.handles[i := reopened]);
    if reopened.Invalid? then st' else st'.(closes := st.closes + [HandleValue(previous)])
  }

  /** A failed reopen of a working device: as written the slot is lost, as intended it is kept. */
  lemma RepairAsWrittenLosesHandle()
    ensures var st := Raid([Fd(3), Fd(4), Fd(5)], 0, [], []);
      && RepairAsWritten(st, 0, Invalid).handles[0] == Invalid
      && RepairDevice(st, 0, Invalid).handles[0] == Fd(3)
  {
  }

  /** The assertion of open_device and repair_device (ex2.c:270, ex2.c:281): 0 <= i <= N. */
  predicate DeviceGuardAsWritten(n: nat, i: int)
  {
    0 <= i <= n
  }

  /** The table has slots 0 .. N - 1 only. */
  predicate DeviceIndexValid(n: nat, i: int)
  {
    0 <= i < n
  }

  /** The as-written guard admits exactly one index more than the table has: N itself. */
  lemma DeviceGuardOffByOne(n: nat)
    ensures forall i: int :: DeviceGuardAsWritten(n, i) <==> DeviceIndexValid(n, i) || i == n
    ensures DeviceGuardAsWritten(n, n) && !DeviceIndexValid(n, n)
  {
  }

  // ---------------------------------------------------------------------------
  // Worked examples: four devices, every transfer completes
  // ---------------------------------------------------------------------------

  /** Backing devices on which every seek lands and every transfer is complete. */
  function Healthy(): Disk
  {
    (step: nat, kind: IoKind, device: nat, offset: nat) => Complete
  }

  /** Four open devices and an empty history. */
  function FourOpen(): Raid
  {
    Raid([Fd(3), Fd(4), Fd(5), Fd(6)], 0, [], [])
  }

  /** KILL 0 then READ 0: the direct read fails and devices 1, 2 and 3 are read instead. */
  lemma KillThenReadReconstructs()
    ensures var st := CloseDevice(FourOpen(), 0);
      var r := ReadOperation(st, 0, Healthy());
      && r.ok
      && r.raid.trace == [Step(Read, Location(0, 0, 0, false), AlreadyInvalid),
                          Step(Read, Location(1, 0, 0, false), Done),
                          Step(Read, Location(2, 0, 0, false), Done),
                          Step(Read, Location(3, 0, 0, true), Done)]
  {
    var st := CloseDevice(FourOpen(), 0);
    var loc := Location(0, 0, 0, false);
    assert Locate(4, 0) == loc;
    var backups := BackupSet(4, loc);
    assert backups == [Location(1, 0, 0, false), Location(2, 0, 0, false), Location(3, 0, 0, true)];
    var direct := Io(st, Access(Read, loc), Healthy());
    var plan := ReadPlan(backups);
    var s1 := Io(direct.raid, plan[0], Healthy());
    var s2 := Io(s1.raid, plan[1], Healthy());
    var s3 := Io(s2.raid, plan[2], Healthy());
    assert RunPlan(s3.raid, plan[3..], Healthy()) == Run(true, s3.raid);
    assert RunPlan(s2.raid, plan[2..], Healthy()) == Run(true, s3.raid);
    assert RunPlan(s1.raid, plan[1..], Healthy()) == Run(true, s3.raid);
    assert RunPlan(direct.raid, plan, Healthy()) == Run(true, s3.raid);
  }

  /** KILL 0 then WRITE 0: device 3 holds parity and is written, devices 1 and 2 are read. */
  lemma KillThenWriteDegrades()
    ensures var st := CloseDevice(FourOpen(), 0);
      var r := WriteOperation(st, 0, Healthy());
      && r.ok
      && r.raid.trace == [Step(Read, Location(1, 0, 0, false), Done),
                          Step(Read, Location(2, 0, 0, false), Done),
                          Step(Write, Location(3, 0, 0, true), Done)]
  {
    var st := CloseDevice(FourOpen(), 0);
    var loc := Location(0, 0, 0, false);
    assert Locate(4, 0) == loc;
    var backups := BackupSet(4, loc);
    assert backups == [Location(1, 0, 0, false), Location(2, 0, 0, false), Location(3, 0, 0, true)];
    var plan := DegradedPlan(backups);
    var s1 := Io(st, plan[0], Healthy());
    var s2 := Io(s1.raid, plan[1], Healthy());
    var s3 := Io(s2.raid, plan[2], Healthy());
    assert RunPlan(s3.raid, plan[3..], Healthy()) == Run(true, s3.raid);
    assert RunPlan(s2.raid, plan[2..], Healthy()) == Run(true, s3.raid);
    assert RunPlan(s1.raid, plan[1..], Healthy()) == Run(true, s3.raid);
    assert RunPlan(st, plan, Healthy()) == Run(true, s3.raid);
  }
}
