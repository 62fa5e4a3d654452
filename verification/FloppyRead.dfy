/**
  * Reading from a floppy disk under transfer errors (cmd/fdc.c, `fdc_read_data` and the block addressing
  * of `fdc_issue_cmd`).  The controller is given by what it does at each command; all hardware polling is
  * left out.
  */
module FloppyRead {
  import opened Arithmetic
  import opened Bytes

  const FDC_RW_RETRIES := 3
  const FDC_CAL_RETRIES := 3

  /** `FD_GEO_STRUCT`: sectors per track, heads, tracks and bytes per sector. */
  datatype Geometry = Geometry(sect: nat, head: nat, track: nat, sectSize: nat) {
    /** A drive has one or two heads, and track and sector numbers fit a controller register. */
    predicate Valid() {
      0 < sect < 256 && 0 < head <= 2 && 0 < track <= 256 && 0 < sectSize
    }

    function Blocks(): nat {
      sect * head * track
    }

    /** The bytes of `n` sectors. */
    function Span(n: nat): nat {
      if n == 0 then 0 else Span(n - 1) + sectSize
    }
  }

  /** The registers of a read command: side select bit, track, head, first sector, last sector of the track. */
  datatype ReadCommand = ReadCommand(side: bool, track: Byte, head: Byte, sector: Byte, endOfTrack: Byte)

  /** `fdc_issue_cmd`: block number to track, head and 1-based sector, truncated to register size. */
  function Registers(g: Geometry, blnr: nat): ReadCommand
    requires g.Valid()
  {
    var rest := blnr % (g.sect * g.head);
    var head := rest / g.sect;
    ReadCommand(head != 0, blnr / (g.sect * g.head) % 256, head % 256, (rest % g.sect + 1) % 256, g.sect)
  }

  /** The block that the controller finds at a sector address. */
  function BlockAt(g: Geometry, c: ReadCommand): int {
    (c.track * g.head + c.head) * g.sect + c.sector - 1
  }

  lemma ChsParts(blnr: nat, sect: nat, head: nat, track: nat)
    requires sect > 0 && head > 0 && blnr < sect * head * track
    ensures var n := sect * head;
      n > 0 && blnr == n * (blnr / n) + blnr % n && 0 <= blnr % n < n && 0 <= blnr / n < track
  {
    var n := sect * head;
    MulOrder(sect, head);
    DivMod(blnr, n);
    DivBelow(blnr, n, track);
  }

  lemma Regroup(sect: int, head: int, t: int, h: int)
    ensures sect * head * t + sect * h == sect * (head * t + h)
    ensures (t * head + h) * sect == sect * (head * t + h)
  {
    assert sect * head * t == sect * (head * t);
    assert sect * (head * t) + sect * h == sect * (head * t + h);
    assert t * head == head * t;
  }

  /** The registers address the block they were computed from, and its position on the track is `blnr % sect`. */
  lemma RegistersExact(g: Geometry, blnr: nat)
    requires g.Valid() && blnr < g.Blocks()
    ensures var c := Registers(g, blnr);
      && BlockAt(g, c) == blnr && c.sector - 1 == blnr % g.sect && c.track < g.track && c.head < g.head
      && c.side == (c.head == 1) && c.endOfTrack == g.sect
  {
    var n := g.sect * g.head;
    ChsParts(blnr, g.sect, g.head, g.track);
    var t, rest := blnr / n, blnr % n;
    DivMod(rest, g.sect);
    DivBelow(rest, g.sect, g.head);
    var h, s := rest / g.sect, rest % g.sect;
    Regroup(g.sect, g.head, t, h);
    assert blnr == g.sect * (g.head * t + h) + s;
    assert g.head * t + h >= 0 by { assert g.head * t >= 0; }
    DivUnique(blnr, g.sect, g.head * t + h, s);
    assert Registers(g, blnr) == ReadCommand(h != 0, t, h, s + 1, g.sect);
  }

  // ----- the controller

  /** What happens to a read command: all bytes arrive, or the transfer breaks off early. */
  datatype Transfer = Complete | Broken(at: nat)

  /** What happens to a seek: done, command timeout, or done with an error status. */
  datatype Seek = SeekDone | SeekTimeout | SeekStatus

  /**
    * The controller's behaviour at the i-th read, read command issue, seek and recalibration, and the
    * contents of the disk.
    */
  datatype Drive = Drive(transfer: nat -> Transfer, issued: nat -> bool, seek: nat -> Seek, recal: nat -> bool,
                         disk: seq<Byte>)

  /** Why `fdc_read_data` returned. */
  datatype Exit = Done | FirstSeek | FirstStatus | NotIssued | TooManyErrors | NotRecalibrated | LaterSeek | LaterStatus

  /** The state of the machine that the routine touches besides the buffer. */
  class Machine {
    var blnr: nat
    var motor: bool
    var interrupts: bool

    constructor (b: nat, irq: bool)
      ensures blnr == b && interrupts == irq && !motor
    {
      blnr, motor, interrupts := b, false, irq;
    }

    /** `stop_fdc_drive` and `if (flags) enable_interrupts()` */
    method Leave(flags: bool)
      modifies this`motor, this`interrupts
      ensures !motor && interrupts == (old(interrupts) || flags)
    {
      motor := false;
      if flags {
        interrupts := true;
      }
    }
  }

  // ----- counting

  /** How many of the first `n` transfers break off. */
  function Breaks(d: Drive, n: nat): nat {
    if n == 0 then 0 else Breaks(d, n - 1) + if d.transfer(n - 1).Broken? then 1 else 0
  }

  lemma {:induction false} BreaksGrow(d: Drive, m: nat, n: nat)
    requires m <= n
    ensures Breaks(d, m) <= Breaks(d, n) <= Breaks(d, m) + (n - m)
  {
    if m < n {
      BreaksGrow(d, m, n - 1);
    }
  }

  /** How many blocks the next read command asks for: at most to the end of the track. */
  function ChunkSize(g: Geometry, blnr: nat, blocks: nat): (r: nat)
    requires g.Valid()
    ensures r <= blocks && blnr % g.sect + r <= g.sect
    ensures blocks > 0 ==> r > 0
  {
    var left := g.sect - blnr % g.sect;
    if left > blocks then blocks else left
  }

  /** How many read commands it takes if all succeed. */
  function Chunks(g: Geometry, blnr: nat, blocks: nat): nat
    requires g.Valid()
    decreases blocks
  {
    if blocks == 0 then 0
    else 1 + Chunks(g, blnr + ChunkSize(g, blnr, blocks), blocks - ChunkSize(g, blnr, blocks))
  }

  lemma EndOfTrack(g: Geometry, blnr: nat, blocks: nat)
    requires g.Valid() && ChunkSize(g, blnr, blocks) < blocks
    ensures (blnr + ChunkSize(g, blnr, blocks)) % g.sect == 0
  {
    DivMod(blnr, g.sect);
    assert blnr + ChunkSize(g, blnr, blocks) == g.sect * (blnr / g.sect + 1) + 0;
    DivUnique(blnr + ChunkSize(g, blnr, blocks), g.sect, blnr / g.sect + 1, 0);
  }

  // ----- one read command

  lemma {:induction false} SpanAdd(g: Geometry, a: nat, b: nat)
    ensures g.Span(a + b) == g.Span(a) + g.Span(b)
  {
    if b > 0 {
      SpanAdd(g, a, b - 1);
    }
  }

  lemma {:induction false} SpanIsProduct(g: Geometry, n: nat)
    ensures g.Span(n) == n * g.sectSize
  {
    if n > 0 {
      SpanIsProduct(g, n - 1);
    }
  }

  /** The bytes of `n` blocks of the disk. */
  function DiskBytes(g: Geometry, d: Drive, blnr: nat, n: nat): (bytes: seq<Byte>)
    requires |d.disk| == g.Span(g.Blocks()) && blnr + n <= g.Blocks()
    ensures |bytes| == g.Span(n)
  {
    SpanAdd(g, blnr, n);
    SpanAdd(g, blnr + n, g.Blocks() - blnr - n);
    d.disk[g.Span(blnr)..g.Span(blnr) + g.Span(n)]
  }

  lemma DiskBytesAdd(g: Geometry, d: Drive, blnr: nat, m: nat, n: nat)
    requires |d.disk| == g.Span(g.Blocks()) && blnr + m + n <= g.Blocks()
    ensures DiskBytes(g, d, blnr, m + n) == DiskBytes(g, d, blnr, m) + DiskBytes(g, d, blnr + m, n)
  {
    SpanAdd(g, blnr, m);
    SpanAdd(g, m, n);
    SpanAdd(g, blnr, m + n);
    SpanAdd(g, blnr + m + n, g.Blocks() - blnr - m - n);
  }

  /** Some read command the controller served: its registers and the number of blocks asked for. */
  datatype Served = Served(cmd: ReadCommand, blocks: nat)

  /** The command asks for sectors of one head's track only. */
  predicate OnOneTrack(s: Served) {
    1 <= s.cmd.sector && s.cmd.sector - 1 + s.blocks <= s.cmd.endOfTrack
  }

  lemma DiskByte(g: Geometry, d: Drive, blnr: nat, n: nat)
    requires |d.disk| == g.Span(g.Blocks()) && blnr + n <= g.Blocks()
    ensures g.Span(blnr) + g.Span(n) <= |d.disk|
    ensures forall i :: 0 <= i < g.Span(n) ==> DiskBytes(g, d, blnr, n)[i] == d.disk[g.Span(blnr) + i]
  {
    SpanAdd(g, blnr, n);
    SpanAdd(g, blnr + n, g.Blocks() - blnr - n);
  }

  /** How many of `len` bytes arrive. */
  function Delivered(outcome: Transfer, len: nat): (n: nat)
    ensures n <= len && (n == len <==> outcome.Complete? || len == 0)
  {
    if outcome.Complete? || len == 0 then len else outcome.at % len
  }

  /**
    * The data phase of a read: the controller delivers the sectors of the addressed track one after the
    * other. Returns the index of the first missing byte, or `len`.
    */
  method TransferBytes(g: Geometry, d: Drive, served: Served, buffer: array<Byte>, offset: nat, len: nat,
                       outcome: Transfer)
    returns (i: nat)
    requires g.Valid() && |d.disk| == g.Span(g.Blocks()) && OnOneTrack(served)
    requires 0 <= BlockAt(g, served.cmd) && BlockAt(g, served.cmd) + served.blocks <= g.Blocks()
    requires len == g.Span(served.blocks) && offset + len <= buffer.Length
    modifies buffer
    ensures i == len <==> outcome.Complete? || len == 0
    ensures i <= len
    ensures buffer[offset..offset + i] == DiskBytes(g, d, BlockAt(g, served.cmd), served.blocks)[..i]
    ensures buffer[..offset] == old(buffer[..offset]) && buffer[offset + len..] == old(buffer[offset + len..])
  {
    hide BlockAt;
    hide OnOneTrack;
    var block := BlockAt(g, served.cmd);
    ghost var bytes := DiskBytes(g, d, block, served.blocks);
    var from := g.Span(block);
    DiskByte(g, d, block, served.blocks);
    hide DiskBytes;
    hide Geometry.Span;
    var stop := Delivered(outcome, len);
    i := 0;
    while i < stop
      invariant 0 <= i <= stop <= len
      invariant buffer[offset..offset + i] == bytes[..i]
      invariant buffer[..offset] == old(buffer[..offset]) && buffer[offset + len..] == old(buffer[offset + len..])
    {
      buffer[offset + i] := d.disk[from + i];
      i := i + 1;
    }
  }

  // ----- the whole read

  /** What the disk, the geometry and the request must be like. */
  ghost predicate Request(g: Geometry, d: Drive, size: nat, blnr: nat, blocks: nat) {
    && g.Valid() && |d.disk| == g.Span(g.Blocks())
    && blnr < g.Blocks() && blnr + blocks <= g.Blocks() && g.Span(blocks) <= size
  }

  /** The working variables of `fdc_read_data`, with the number of read commands and errors so far. */
  datatype Job = Job(blnr: nat, blocks: nat, readblk: nat, offset: nat, rw: nat, cal: nat, attempts: nat, errors: nat)

  /** The blocks before `blnr` are in the buffer, and the next command will ask for `readblk` more. */
  ghost predicate Loaded(g: Geometry, d: Drive, buf: seq<Byte>, start: nat, total: nat, j: Job)
    requires Request(g, d, |buf|, start, total)
  {
    && j.blocks <= total && j.blnr == start + total - j.blocks && j.offset == g.Span(total - j.blocks)
    && j.readblk == ChunkSize(g, j.blnr, j.blocks) && (j.blocks > 0 || total == 0)
    && j.offset <= |buf| && buf[..j.offset] == DiskBytes(g, d, start, total - j.blocks)
  }

  /** Transfer errors so far are what the two retry counters add up to; all other commands moved a chunk. */
  ghost predicate Counted(g: Geometry, d: Drive, start: nat, total: nat, j: Job)
    requires g.Valid()
  {
    && j.rw <= FDC_RW_RETRIES + 1 && j.cal <= FDC_CAL_RETRIES + 1 && j.errors == 5 * j.cal + j.rw
    && (total > 0 ==>
          && Breaks(d, j.attempts) == j.errors <= j.attempts
          && j.attempts - j.errors + Chunks(g, j.blnr, j.blocks) == Chunks(g, start, total))
  }

  /** Everything is in the buffer. */
  ghost predicate AllLoaded(g: Geometry, d: Drive, buf: seq<Byte>, start: nat, total: nat, blnr: nat)
    requires Request(g, d, |buf|, start, total)
  {
    blnr == start + total && buf[..g.Span(total)] == DiskBytes(g, d, start, total)
  }

  /** How the transfers of a call end it, and how many errors it has seen then. */
  ghost predicate Verdict(g: Geometry, d: Drive, start: nat, total: nat, exit: Exit, errors: nat)
    requires g.Valid()
  {
    && errors <= 25
    && (total > 0 && exit == Done ==> errors <= 24 && Breaks(d, Chunks(g, start, total) + 24) <= 24)
    && (total > 0 && exit == TooManyErrors ==> errors == 25 && Breaks(d, Chunks(g, start, total) + 24) > 24)
  }

  // ----- which drives cost the caller its interrupts

  /** The seeks made by the time of `n` read commands: the first, one after each chunk, one after each fifth error. */
  function SeeksBy(d: Drive, n: nat): int {
    1 + n - Breaks(d, n) + Breaks(d, n) / 5
  }

  /** Read command number `n` is followed by a seek, the first to fail, and it fails with an error status. */
  ghost predicate LosesAt(g: Geometry, d: Drive, start: nat, total: nat, n: nat)
    requires g.Valid()
  {
    && 0 < n && Breaks(d, n) <= 24 && n - Breaks(d, n) < Chunks(g, start, total)
    && (forall k: nat :: k < n ==> d.issued(k)) && (forall r: nat :: r < Breaks(d, n) / 5 ==> d.recal(r))
    && SeeksBy(d, n) == SeeksBy(d, n - 1) + 1 && SeeksBy(d, n - 1) >= 1
    && d.seek(SeeksBy(d, n - 1)).SeekStatus? && DoneBefore(d, SeeksBy(d, n - 1))
  }

  ghost predicate DoneBefore(d: Drive, n: int) {
    forall k: nat :: k < n ==> d.seek(k).SeekDone?
  }

  ghost predicate LosesInterrupts(g: Geometry, d: Drive, start: nat, total: nat)
    requires g.Valid()
  {
    exists n: nat :: LosesAt(g, d, start, total, n)
  }

  /** Every command so far was issued, every seek and recalibration so far went well. */
  ghost predicate Sound(d: Drive, total: nat, j: Job, seeks: nat) {
    && seeks > 0 && (total > 0 ==> seeks == SeeksBy(d, j.attempts)) && DoneBefore(d, seeks)
    && (forall k: nat :: k < j.attempts ==> d.issued(k)) && (forall r: nat :: r < j.cal ==> d.recal(r))
  }

  lemma {:induction false} SeeksGrow(d: Drive, m: nat, n: nat)
    requires m <= n
    ensures 1 <= SeeksBy(d, m) <= SeeksBy(d, n) && m - Breaks(d, m) <= n - Breaks(d, n)
  {
    BreaksGrow(d, 0, m);
    if m < n {
      SeeksGrow(d, m, n - 1);
    }
  }

  /** As long as all is well no earlier command can have been the one. */
  lemma NotYetLost(g: Geometry, d: Drive, start: nat, total: nat, j: Job, seeks: nat, n: nat)
    requires g.Valid() && total > 0 && Sound(d, total, j, seeks) && n <= j.attempts
    ensures !LosesAt(g, d, start, total, n)
  {
    if n > 0 {
      SeeksGrow(d, n, j.attempts);
    }
  }

  /** Why a read command can end the call: what the drive did then. */
  ghost predicate Reason(g: Geometry, d: Drive, start: nat, total: nat, j: Job, exit: Exit)
    requires g.Valid()
  {
    var n := j.attempts + 1;
    match exit
    case NotIssued => !d.issued(j.attempts)
    case Done => n - Breaks(d, n) >= Chunks(g, start, total)
    case TooManyErrors => Breaks(d, n) > 24
    case NotRecalibrated => Breaks(d, n) / 5 > j.cal && !d.recal(j.cal)
    case _ => false
  }

  /** No exit of a read command leaves interrupts disabled. */
  lemma StopKeeps(g: Geometry, d: Drive, start: nat, total: nat, j: Job, seeks: nat, exit: Exit)
    requires g.Valid() && total > 0 && Sound(d, total, j, seeks) && Reason(g, d, start, total, j, exit)
    ensures !LosesInterrupts(g, d, start, total)
  {
    forall n: nat
      ensures !LosesAt(g, d, start, total, n)
    {
      if n <= j.attempts {
        NotYetLost(g, d, start, total, j, seeks, n);
      } else {
        BreaksGrow(d, j.attempts + 1, n);
        SeeksGrow(d, j.attempts + 1, n);
      }
    }
  }

  /** A seek that fails after a read command costs interrupts exactly if it fails with a status. */
  lemma SeekDecides(g: Geometry, d: Drive, start: nat, total: nat, j: Job, j': Job, seeks: nat)
    requires g.Valid() && total > 0 && Sound(d, total, j, seeks) && !d.seek(seeks).SeekDone?
    requires Counted(g, d, start, total, j') && j'.attempts == j.attempts + 1 && j'.blocks > 0
    requires d.issued(j.attempts) && (forall r: nat :: r < j'.cal ==> d.recal(r))
    requires SeeksBy(d, j'.attempts) == seeks + 1 && j'.cal <= FDC_CAL_RETRIES + 1 && j'.rw <= FDC_RW_RETRIES + 1
    ensures LosesInterrupts(g, d, start, total) <==> d.seek(seeks).SeekStatus?
  {
    var n := j'.attempts;
    ChunksPositive(g, j'.blnr, j'.blocks);
    if d.seek(seeks).SeekStatus? {
      assert LosesAt(g, d, start, total, n);
    } else {
      forall k: nat
        ensures !LosesAt(g, d, start, total, k)
      {
        if k < n {
          NotYetLost(g, d, start, total, j, seeks, k);
        } else if k > n {
          SeeksGrow(d, n, k - 1);
        }
      }
    }
  }

  lemma ChunksPositive(g: Geometry, blnr: nat, blocks: nat)
    requires g.Valid() && blocks > 0
    ensures Chunks(g, blnr, blocks) > 0
  {
  }

  lemma FirstSeekKeeps(g: Geometry, d: Drive, start: nat, total: nat)
    requires g.Valid() && !d.seek(0).SeekDone?
    ensures !LosesInterrupts(g, d, start, total)
  {
  }

  lemma NothingToRead(g: Geometry, d: Drive, start: nat)
    requires g.Valid()
    ensures !LosesInterrupts(g, d, start, 0)
  {
    forall n: nat
      ensures !LosesAt(g, d, start, 0, n)
    {
      BreaksGrow(d, 0, n);
    }
  }

  /**
    * Without transfer errors and with every command issued, interrupts are lost exactly if the first seek
    * after the initial one that does not succeed ends with an error status and comes before the last chunk.
    */
  lemma CleanTransfersLose(g: Geometry, d: Drive, start: nat, total: nat)
    requires g.Valid() && (forall k: nat :: d.transfer(k).Complete?) && (forall k: nat :: d.issued(k))
    ensures LosesInterrupts(g, d, start, total) <==>
            exists i: nat :: 0 < i < Chunks(g, start, total) && d.seek(i).SeekStatus? && DoneBefore(d, i)
  {
    forall n: nat
      ensures Breaks(d, n) == 0
    {
      NoBreaks(d, n);
    }
    if i: nat :| 0 < i < Chunks(g, start, total) && d.seek(i).SeekStatus? && DoneBefore(d, i) {
      assert LosesAt(g, d, start, total, i);
    }
  }

  lemma {:induction false} NoBreaks(d: Drive, n: nat)
    requires forall k: nat :: d.transfer(k).Complete?
    ensures Breaks(d, n) == 0
  {
    if n > 0 {
      NoBreaks(d, n - 1);
    }
  }

  /** Two blocks on two tracks, and the seek between them ends with an error status. */
  lemma SecondTrackLosesInterrupts(d: Drive)
    requires (forall k: nat :: d.transfer(k).Complete?) && (forall k: nat :: d.issued(k))
    requires d.seek(0) == SeekDone && d.seek(1) == SeekStatus
    ensures LosesInterrupts(Geometry(1, 1, 2, 512), d, 0, 2)
  {
    var g := Geometry(1, 1, 2, 512);
    TwoChunks(g);
    CleanTransfersLose(g, d, 0, 2);
    hide *;
    OnlyFirst(d);
  }

  lemma TwoChunks(g: Geometry)
    requires g.Valid() && g.sect == 1
    ensures Chunks(g, 0, 2) == 2
  {
    assert ChunkSize(g, 0, 2) == 1 && ChunkSize(g, 1, 1) == 1;
    assert Chunks(g, 1, 1) == 1 + Chunks(g, 2, 0);
  }

  lemma OnlyFirst(d: Drive)
    requires d.seek(0).SeekDone?
    ensures DoneBefore(d, 1)
  {
  }

  /** How many blocks are asked for at the start of a track. */
  function FullTrack(g: Geometry, left: nat): nat {
    if g.sect > left then left else g.sect
  }

  /** The variables after a chunk has arrived, and after a transfer error of each kind. */
  function Advance(g: Geometry, j: Job): Job
    requires j.readblk <= j.blocks
  {
    j.(blnr := j.blnr + j.readblk, blocks := j.blocks - j.readblk, readblk := FullTrack(g, j.blocks - j.readblk),
       offset := j.offset + g.Span(j.readblk), attempts := j.attempts + 1)
  }

  function Retry(j: Job): Job {
    j.(rw := j.rw + 1, attempts := j.attempts + 1, errors := j.errors + 1)
  }

  function Recalibrate(j: Job): Job {
    j.(rw := 0, cal := j.cal + 1, attempts := j.attempts + 1, errors := j.errors + 1)
  }

  lemma JobStart(g: Geometry, d: Drive, buf: seq<Byte>, start: nat, total: nat)
    requires Request(g, d, |buf|, start, total)
    ensures var j := Job(start, total, ChunkSize(g, start, total), 0, 0, 0, 0, 0);
      Loaded(g, d, buf, start, total, j) && Counted(g, d, start, total, j)
  {
  }

  /** A complete chunk: either everything is there, or the next chunk starts a track. */
  lemma AdvanceLoaded(g: Geometry, d: Drive, before: seq<Byte>, buf: seq<Byte>, start: nat, total: nat, j: Job)
    requires |before| == |buf| && Request(g, d, |buf|, start, total) && Loaded(g, d, before, start, total, j)
    requires j.offset + g.Span(j.readblk) <= |buf| && buf[..j.offset] == before[..j.offset]
    requires buf[j.offset..j.offset + g.Span(j.readblk)] == DiskBytes(g, d, j.blnr, j.readblk)
    ensures j.readblk == ChunkSize(g, j.blnr, j.blocks) && (j.blocks > 0 || total == 0)
    ensures j.readblk == j.blocks ==> AllLoaded(g, d, buf, start, total, Advance(g, j).blnr)
    ensures j.readblk < j.blocks ==> Loaded(g, d, buf, start, total, Advance(g, j))
  {
    PrefixLoaded(g, d, before, buf, start, total, j);
    if j.readblk < j.blocks {
      EndOfTrack(g, j.blnr, j.blocks);
    }
    hide Geometry.Span;
    hide DiskBytes;
  }

  lemma PrefixLoaded(g: Geometry, d: Drive, before: seq<Byte>, buf: seq<Byte>, start: nat, total: nat, j: Job)
    requires |before| == |buf| && Request(g, d, |buf|, start, total) && Loaded(g, d, before, start, total, j)
    requires j.offset + g.Span(j.readblk) <= |buf| && buf[..j.offset] == before[..j.offset]
    requires buf[j.offset..j.offset + g.Span(j.readblk)] == DiskBytes(g, d, j.blnr, j.readblk)
    ensures var done := total - j.blocks + j.readblk;
      && j.offset + g.Span(j.readblk) == g.Span(done) <= |buf| && start + done <= g.Blocks()
      && buf[..g.Span(done)] == DiskBytes(g, d, start, done)
  {
    var done := total - j.blocks;
    SpanAdd(g, done, j.readblk);
    DiskBytesAdd(g, d, start, done, j.readblk);
    hide Geometry.Span;
    hide DiskBytes;
    hide ChunkSize;
    Joined(buf, j.offset, g.Span(j.readblk));
  }

  lemma Joined(buf: seq<Byte>, offset: nat, len: nat)
    requires offset + len <= |buf|
    ensures buf[..offset + len] == buf[..offset] + buf[offset..offset + len]
  {
  }

  lemma AdvanceCounted(g: Geometry, d: Drive, start: nat, total: nat, j: Job)
    requires g.Valid() && Counted(g, d, start, total, j)
             && (total > 0 ==> j.blocks > 0 && d.transfer(j.attempts).Complete?)
    requires j.readblk == ChunkSize(g, j.blnr, j.blocks)
    ensures Counted(g, d, start, total, Advance(g, j))
    ensures j.readblk == j.blocks ==> Verdict(g, d, start, total, Done, j.errors)
  {
    if total > 0 && j.readblk == j.blocks {
      BreaksGrow(d, j.attempts + 1, Chunks(g, start, total) + 24);
    }
  }

  /** A broken transfer overwrites only what is not loaded yet. */
  lemma BrokenOk(g: Geometry, d: Drive, before: seq<Byte>, buf: seq<Byte>, start: nat, total: nat, j: Job)
    requires |before| == |buf| && Request(g, d, |buf|, start, total) && Loaded(g, d, before, start, total, j)
    requires Counted(g, d, start, total, j) && total > 0 && d.transfer(j.attempts).Broken?
    requires j.offset <= |buf| && buf[..j.offset] == before[..j.offset]
    ensures j.rw <= FDC_RW_RETRIES ==>
            Loaded(g, d, buf, start, total, Retry(j)) && Counted(g, d, start, total, Retry(j))
    ensures j.rw > FDC_RW_RETRIES && j.cal <= FDC_CAL_RETRIES ==>
      Loaded(g, d, buf, start, total, Recalibrate(j)) && Counted(g, d, start, total, Recalibrate(j))
    ensures j.rw > FDC_RW_RETRIES && j.cal <= FDC_CAL_RETRIES ==>
            Verdict(g, d, start, total, NotRecalibrated, j.errors + 1)
    ensures j.rw > FDC_RW_RETRIES && j.cal > FDC_CAL_RETRIES ==>
            Verdict(g, d, start, total, TooManyErrors, j.errors + 1)
  {
    var limit := Chunks(g, start, total) + 24;
    if j.attempts < limit {
      BreaksGrow(d, j.attempts + 1, limit);
    }
  }

  /** One read command with its data phase. */
  method ReadChunk(g: Geometry, d: Drive, buffer: array<Byte>, ghost start: nat, ghost total: nat, j: Job)
    returns (complete: bool, served: Served)
    requires Request(g, d, buffer.Length, start, total) && Loaded(g, d, buffer[..], start, total, j)
    modifies buffer
    ensures OnOneTrack(served) && complete == (d.transfer(j.attempts).Complete? || total == 0)
    ensures j.offset + g.Span(j.readblk) <= buffer.Length && buffer[..j.offset] == old(buffer[..])[..j.offset]
    ensures complete ==> j.blnr + j.readblk <= g.Blocks()
    ensures complete ==> buffer[j.offset..j.offset + g.Span(j.readblk)] == DiskBytes(g, d, j.blnr, j.readblk)
    ensures buffer[g.Span(total)..] == old(buffer[g.Span(total)..])
  {
    hide Registers;
    hide BlockAt;
    RegistersExact(g, j.blnr);
    ghost var done := total - j.blocks;
    SpanAdd(g, done, j.readblk);
    SpanAdd(g, done + j.readblk, j.blocks - j.readblk);
    SpanPositive(g, j.readblk);
    hide Geometry.Span;
    hide DiskBytes;
    served := Served(Registers(g, j.blnr), j.readblk);
    var len := g.Span(j.readblk);
    ghost var before, e := buffer[..], g.Span(total);
    var i := TransferBytes(g, d, served, buffer, j.offset, len, d.transfer(j.attempts));
    complete := i == len;
    TailKept(before, buffer[..], j.offset, len, e);
  }

  lemma TailKept(before: seq<Byte>, buf: seq<Byte>, offset: nat, len: nat, e: nat)
    requires offset + len <= e <= |buf| == |before|
    requires buf[..offset] == before[..offset] && buf[offset + len..] == before[offset + len..]
    ensures buf[e..] == before[e..]
  {
    assert buf[e..] == buf[offset + len..][e - offset - len..];
    assert before[e..] == before[offset + len..][e - offset - len..];
  }

  lemma SpanPositive(g: Geometry, n: nat)
    requires g.Valid()
    ensures n > 0 <==> g.Span(n) > 0
  {
  }

  /** Nothing but data transfers can go wrong. */
  ghost predicate OnlyTransfersFail(d: Drive) {
    && (forall i: nat :: d.issued(i)) && (forall i: nat :: d.seek(i) == SeekDone) && (forall i: nat :: d.recal(i))
  }

  /** What the loop does next. */
  datatype Turn = Again | Reseek | Stop(exit: Exit)

  /** A turn that goes on: its command was issued, and whether a seek is due agrees with the count of seeks. */
  ghost predicate Moved(g: Geometry, d: Drive, j: Job, j': Job, turn: Turn) {
    && j'.attempts == j.attempts + 1 && j'.blocks > 0 && d.issued(j.attempts)
    && SeeksBy(d, j'.attempts) == SeeksBy(d, j.attempts) + (if turn.Reseek? then 1 else 0)
    && j.cal <= j'.cal <= j.cal + 1 && (j'.cal == j.cal + 1 ==> d.recal(j.cal))
  }

  lemma MovedOn(g: Geometry, d: Drive, start: nat, total: nat, j: Job, j': Job, turn: Turn)
    requires g.Valid() && total > 0 && Counted(g, d, start, total, j) && d.issued(j.attempts) && j'.blocks > 0
    requires j'.attempts == j.attempts + 1 && j'.rw <= FDC_RW_RETRIES + 1 && !turn.Stop?
    requires if d.transfer(j.attempts).Complete? then j'.cal == j.cal && turn.Reseek?
             else if turn.Again? then j'.cal == j.cal && j.rw <= FDC_RW_RETRIES
             else j'.cal == j.cal + 1 && j.rw == FDC_RW_RETRIES + 1 && d.recal(j.cal)
    ensures Moved(g, d, j, j', turn)
  {
    assert (5 * j.cal + j.rw) / 5 == j.cal;
    assert j.rw <= FDC_RW_RETRIES ==> (5 * j.cal + j.rw + 1) / 5 == j.cal;
    assert j.rw == FDC_RW_RETRIES + 1 ==> (5 * j.cal + j.rw + 1) / 5 == j.cal + 1;
  }

  lemma StopReason(g: Geometry, d: Drive, start: nat, total: nat, j: Job, exit: Exit)
    requires g.Valid() && total > 0 && Counted(g, d, start, total, j)
    requires match exit
             case NotIssued => !d.issued(j.attempts)
             case Done => d.transfer(j.attempts).Complete? && j.blocks > 0 && ChunkSize(g, j.blnr, j.blocks) == j.blocks
             case TooManyErrors => d.transfer(j.attempts).Broken? && j.rw > FDC_RW_RETRIES && j.cal > FDC_CAL_RETRIES
             case NotRecalibrated => d.transfer(j.attempts).Broken? && j.rw > FDC_RW_RETRIES && !d.recal(j.cal)
             case _ => false
    ensures Reason(g, d, start, total, j, exit)
  {
    if exit == Done {
      assert Chunks(g, j.blnr, j.blocks) == 1 + Chunks(g, j.blnr + j.blocks, 0);
    } else if exit == NotRecalibrated {
      assert (5 * j.cal + j.rw + 1) / 5 == j.cal + 1;
    }
  }

  /** The decision after a data phase, complete or broken, and the variables it leaves. */
  function Decide(g: Geometry, d: Drive, j: Job, complete: bool): (r: (Turn, Job))
    requires j.readblk <= j.blocks
  {
    if complete then (if j.readblk == j.blocks then Stop(Done) else Reseek, Advance(g, j))
    else if j.rw <= FDC_RW_RETRIES then (Again, Retry(j))
    else
      var turn := if j.cal > FDC_CAL_RETRIES then Stop(TooManyErrors)
                  else if !d.recal(j.cal) then Stop(NotRecalibrated) else Reseek;
      (turn, Recalibrate(j))
  }

  /** What one turn of the loop owes to the next, or to the caller. */
  ghost predicate TurnOk(g: Geometry, d: Drive, buf: seq<Byte>, start: nat, total: nat, j: Job, turn: Turn, j': Job)
    requires Request(g, d, |buf|, start, total)
  {
    if turn.Stop? then
      && Verdict(g, d, start, total, turn.exit, j'.errors) && turn.exit != LaterStatus
      && (turn.exit == Done ==> AllLoaded(g, d, buf, start, total, j'.blnr))
      && (OnlyTransfersFail(d) ==> turn.exit == Done || turn.exit == TooManyErrors)
      && (total > 0 ==> Reason(g, d, start, total, j, turn.exit))
    else
      && total > 0 && Moved(g, d, j, j', turn)
      && Loaded(g, d, buf, start, total, j') && Counted(g, d, start, total, j')
      && (j'.blocks < j.blocks || (j'.blocks == j.blocks && (j'.cal > j.cal || (j'.cal == j.cal && j'.rw > j.rw))))
  }

  lemma CompleteTurn(g: Geometry, d: Drive, before: seq<Byte>, buf: seq<Byte>, start: nat, total: nat, j: Job)
    requires |before| == |buf| && Request(g, d, |buf|, start, total) && Loaded(g, d, before, start, total, j)
    requires Counted(g, d, start, total, j) && d.issued(j.attempts) && (d.transfer(j.attempts).Complete? || total == 0)
    requires j.offset + g.Span(j.readblk) <= |buf| && buf[..j.offset] == before[..j.offset]
    requires buf[j.offset..j.offset + g.Span(j.readblk)] == DiskBytes(g, d, j.blnr, j.readblk)
    ensures j.readblk <= j.blocks
    ensures var r := Decide(g, d, j, true); TurnOk(g, d, buf, start, total, j, r.0, r.1)
  {
    hide Loaded;
    hide AllLoaded;
    hide DiskBytes;
    ChunkPositive(g, d, before, start, total, j);
    AdvanceLoaded(g, d, before, buf, start, total, j);
    AdvanceCounted(g, d, start, total, j);
    VerdictOther(g, d, start, total, j);
    hide Counted;
    hide Moved;
    hide Reason;
    hide Verdict;
    var (turn, j') := Decide(g, d, j, true);
    if total > 0 {
      if turn.Stop? {
        StopReason(g, d, start, total, j, Done);
      } else {
        MovedOn(g, d, start, total, j, j', turn);
      }
    }
  }

  lemma BrokenTurn(g: Geometry, d: Drive, before: seq<Byte>, buf: seq<Byte>, start: nat, total: nat, j: Job)
    requires |before| == |buf| && Request(g, d, |buf|, start, total) && Loaded(g, d, before, start, total, j)
    requires Counted(g, d, start, total, j) && d.issued(j.attempts) && d.transfer(j.attempts).Broken? && total > 0
    requires j.offset <= |buf| && buf[..j.offset] == before[..j.offset]
    ensures j.readblk <= j.blocks
    ensures var r := Decide(g, d, j, false); TurnOk(g, d, buf, start, total, j, r.0, r.1)
  {
    hide Loaded;
    hide AllLoaded;
    hide DiskBytes;
    ChunkPositive(g, d, before, start, total, j);
    BrokenOk(g, d, before, buf, start, total, j);
    VerdictOther(g, d, start, total, j);
    hide Counted;
    hide Moved;
    hide Reason;
    hide Verdict;
    var (turn, j') := Decide(g, d, j, false);
    if turn.Stop? {
      StopReason(g, d, start, total, j, turn.exit);
    } else {
      MovedOn(g, d, start, total, j, j', turn);
    }
  }

  lemma NotIssuedTurn(g: Geometry, d: Drive, buf: seq<Byte>, start: nat, total: nat, j: Job)
    requires Request(g, d, |buf|, start, total) && Counted(g, d, start, total, j) && !d.issued(j.attempts)
    ensures TurnOk(g, d, buf, start, total, j, Stop(NotIssued), j)
  {
    VerdictOther(g, d, start, total, j);
    hide Verdict;
    if total > 0 {
      StopReason(g, d, start, total, j, NotIssued);
    }
  }

  /** One turn of the loop: a read command, and what its outcome makes of the retry counters. */
  method ReadTurn(g: Geometry, d: Drive, buffer: array<Byte>, ghost start: nat, ghost total: nat, j: Job)
    returns (turn: Turn, j': Job, served: seq<Served>)
    requires Request(g, d, buffer.Length, start, total) && Loaded(g, d, buffer[..], start, total, j)
    requires Counted(g, d, start, total, j)
    modifies buffer
    ensures forall s :: s in served ==> OnOneTrack(s)
    ensures buffer[g.Span(total)..] == old(buffer[g.Span(total)..])
    ensures TurnOk(g, d, buffer[..], start, total, j, turn, j')
  {
    hide Loaded;
    hide Counted;
    hide DiskBytes;
    hide TurnOk;
    hide Decide;
    turn, j', served := Stop(NotIssued), j, [];
    if d.issued(j.attempts) {
      ghost var before := buffer[..];
      var complete, s := ReadChunk(g, d, buffer, start, total, j);
      served := [s];
      if complete {
        CompleteTurn(g, d, before, buffer[..], start, total, j);
      } else {
        BrokenTurn(g, d, before, buffer[..], start, total, j);
      }
      var r := Decide(g, d, j, complete);
      turn, j' := r.0, r.1;
    } else {
      NotIssuedTurn(g, d, buffer[..], start, total, j);
    }
  }

  lemma ChunkPositive(g: Geometry, d: Drive, buf: seq<Byte>, start: nat, total: nat, j: Job)
    requires Request(g, d, |buf|, start, total) && Loaded(g, d, buf, start, total, j)
    ensures (j.blocks > 0 ==> j.readblk > 0) && (j.blocks == 0 <==> total == 0)
    ensures j.readblk == ChunkSize(g, j.blnr, j.blocks) && j.readblk <= j.blocks
  {
  }

  lemma VerdictOther(g: Geometry, d: Drive, start: nat, total: nat, j: Job)
    requires g.Valid() && Counted(g, d, start, total, j)
    ensures forall exit :: exit != Done && exit != TooManyErrors ==> Verdict(g, d, start, total, exit, j.errors)
    ensures j.rw <= FDC_RW_RETRIES + 1 && j.cal <= FDC_CAL_RETRIES + 1
  {
  }

  lemma SoundStart(d: Drive, total: nat, j: Job)
    requires j.attempts == 0 && j.cal == 0 && d.seek(0).SeekDone?
    ensures Sound(d, total, j, 1)
  {
  }

  /** The next command finds all well again, unless the seek before it fails. */
  lemma SoundStep(g: Geometry, d: Drive, start: nat, total: nat, j: Job, j': Job, turn: Turn, seeks: nat)
    requires g.Valid() && total > 0 && Sound(d, total, j, seeks) && Counted(g, d, start, total, j') && !turn.Stop?
    requires Moved(g, d, j, j', turn)
    ensures turn.Again? ==> Sound(d, total, j', seeks)
    ensures turn.Reseek? && d.seek(seeks).SeekDone? ==> Sound(d, total, j', seeks + 1)
    ensures turn.Reseek? && !d.seek(seeks).SeekDone? ==>
      (LosesInterrupts(g, d, start, total) <==> d.seek(seeks).SeekStatus?)
  {
    hide Breaks;
    hide Chunks;
    hide SeeksBy;
    hide LosesInterrupts;
    if turn.Reseek? && !d.seek(seeks).SeekDone? {
      SeekDecides(g, d, start, total, j, j', seeks);
    }
  }

  /** The loop of `fdc_read_data`, from the first read command on. */
  method ReadLoop(g: Geometry, d: Drive, buffer: array<Byte>, total: nat, m: Machine)
    returns (exit: Exit, errors: nat, log: seq<Served>)
    requires Request(g, d, buffer.Length, m.blnr, total) && d.seek(0).SeekDone?
    modifies buffer, m`blnr
    ensures forall s :: s in log ==> OnOneTrack(s)
    ensures exit == Done ==> AllLoaded(g, d, buffer[..], old(m.blnr), total, m.blnr)
    ensures buffer[g.Span(total)..] == old(buffer[g.Span(total)..])
    ensures Verdict(g, d, old(m.blnr), total, exit, errors)
    ensures OnlyTransfersFail(d) ==> exit == Done || exit == TooManyErrors
    ensures exit == LaterStatus <==> LosesInterrupts(g, d, old(m.blnr), total)
  {
    hide Loaded;
    hide Counted;
    hide Verdict;
    hide AllLoaded;
    hide LosesInterrupts;
    hide Sound;
    hide Moved;
    hide Reason;
    NothingToRead(g, d, m.blnr);
    ghost var start := m.blnr;
    JobStart(g, d, buffer[..], start, total);
    var readblk: nat := g.sect - m.blnr % g.sect;
    if readblk > total {
      readblk := total;
    }
    var j, seeks: nat := Job(m.blnr, total, readblk, 0, 0, 0, 0, 0), 1;
    SoundStart(d, total, j);
    log := [];
    while true
      invariant Loaded(g, d, buffer[..], start, total, j) && Counted(g, d, start, total, j)
      invariant buffer[g.Span(total)..] == old(buffer[g.Span(total)..]) && Sound(d, total, j, seeks)
      invariant forall s :: s in log ==> OnOneTrack(s)
      decreases j.blocks, 10 - j.cal, 10 - j.rw
    {
      VerdictOther(g, d, start, total, j);
      ghost var j0 := j;
      var turn, served;
      turn, j, served := ReadTurn(g, d, buffer, start, total, j);
      m.blnr := j.blnr;
      log := log + served;
      if turn.Stop? {
        if total > 0 {
          StopKeeps(g, d, start, total, j0, seeks, turn.exit);
        }
        return turn.exit, j.errors, log;
      }
      VerdictOther(g, d, start, total, j);
      SoundStep(g, d, start, total, j0, j, turn, seeks);
      if turn.Reseek? {
        if d.seek(seeks) != SeekDone {
          return if d.seek(seeks).SeekTimeout? then LaterSeek else LaterStatus, j.errors, log;
        }
        seeks := seeks + 1;
      }
    }
  }

  /**
    * `fdc_read_data`: reads blocks in track-bounded chunks. Each transfer error costs a retry, every fifth
    * one a recalibration; 24 errors are absorbed in a call and the 25th ends it. Every exit stops the
    * motor, and the caller loses its interrupts for exactly the drives that `LosesInterrupts` describes.
    */
  method ReadData(g: Geometry, d: Drive, buffer: array<Byte>, total: nat, m: Machine)
    returns (exit: Exit, errors: nat, log: seq<Served>)
    requires Request(g, d, buffer.Length, m.blnr, total)
    modifies buffer, m
    ensures forall s :: s in log ==> OnOneTrack(s)
    ensures exit == Done ==> AllLoaded(g, d, buffer[..], old(m.blnr), total, m.blnr)
    ensures buffer[g.Span(total)..] == old(buffer[g.Span(total)..])
    ensures Verdict(g, d, old(m.blnr), total, exit, errors)
    ensures OnlyTransfersFail(d) ==> exit == Done || exit == TooManyErrors
    ensures !m.motor && m.interrupts == (old(m.interrupts) && !LosesInterrupts(g, d, old(m.blnr), total))
  {
    hide Verdict;
    hide AllLoaded;
    var flags := m.interrupts;
    m.interrupts := false;
    m.motor := true;
    exit, errors, log := FirstSeek, 0, [];
    NoErrorYet(g, d, m.blnr, total);
    if !d.seek(0).SeekDone? {
      FirstSeekKeeps(g, d, m.blnr, total);
    }
    hide LosesInterrupts;
    if d.seek(0).SeekTimeout? {
      m.Leave(flags);
    } else if d.seek(0).SeekStatus? {
      m.Leave(flags);
      exit := FirstStatus;
    } else {
      exit, errors, log := ReadLoop(g, d, buffer, total, m);
      m.Leave(flags && exit != LaterStatus);
    }
  }

  lemma NoErrorYet(g: Geometry, d: Drive, start: nat, total: nat)
    requires g.Valid()
    ensures Verdict(g, d, start, total, FirstSeek, 0) && Verdict(g, d, start, total, FirstStatus, 0)
  {
  }
}
