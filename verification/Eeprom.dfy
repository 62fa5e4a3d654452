/**
  * EEPROM access in page-bounded transfers (cmd/eeprom.c), on a device whose address counter wraps
  * inside a write page.
  */
module Eeprom {
  import opened Arithmetic
  import opened Bytes

  const I2C_RXTX_LEN := 128

  type Cell = (int, int)
  type Cells = map<Cell, Byte>

  /** The build-time choices: address octets sent to the chip (1 or 2) and log2 of the write page. */
  datatype Config = Config(addrLen: nat, pageBits: nat) {
    predicate Valid() {
      1 <= addrLen <= 2
    }
    function Window(): (w: int)
      ensures w == 256 || w == 65536
    {
      if addrLen == 1 then 256 else 65536
    }
    function Page(): (p: int)
      ensures p > 0
    {
      Pow2(pageBits)
    }
  }

  // ----- addresses and lengths

  function Or(a: nat, b: nat): nat {
    if a == 0 && b == 0 then 0
    else (if a % 2 == 1 || b % 2 == 1 then 1 else 0) + 2 * Or(a / 2, b / 2)
  }

  /** No bit is set in both. */
  predicate Apart(a: nat, b: nat) {
    (a == 0 && b == 0) || (!(a % 2 == 1 && b % 2 == 1) && Apart(a / 2, b / 2))
  }

  lemma {:induction false} OrApart(a: nat, b: nat)
    requires Apart(a, b)
    ensures Or(a, b) == a + b
  {
    if a != 0 || b != 0 {
      OrApart(a / 2, b / 2);
    }
  }

  /** `eeprom_addr`: the bus address carries the block number and the device address, in one octet. */
  function Chip(c: Config, dev: nat, offset: nat): int {
    Or(offset / c.Window() % 256, dev) % 256
  }

  function Register(c: Config, offset: nat): int {
    offset % c.Window()
  }

  function CellAt(c: Config, dev: nat, offset: nat): Cell {
    (Chip(c, dev, offset), Register(c, offset))
  }

  function Min(a: int, b: int): int {
    if a <= b then a else b
  }

  /** `eeprom_len`. */
  function Len(c: Config, offset: nat, end: nat): (n: nat)
    requires offset < end
    ensures 0 < n <= I2C_RXTX_LEN && offset + n <= end
  {
    var blkOff := offset % 256;
    var page := c.Page();
    InPage(blkOff, page);
    Min(end - offset, Min(page - blkOff % page, I2C_RXTX_LEN))
  }

  lemma InPage(x: int, page: int)
    requires page > 0
    ensures 0 <= x % page < page
  {
  }

  /** The addresses start to start + n - 1 lie in one write page. */
  predicate OnePage(c: Config, start: nat, n: nat) {
    start % c.Page() + n <= c.Page()
  }

  lemma Pow8()
    ensures Pow2(8) == 256
  {
    assert Pow2(4) == 16;
    Pow2Add(4, 4);
  }

  /** A page of at most 2^8 bytes divides the 256-byte block and the 64-kbyte one. */
  lemma PageDivides(c: Config) returns (q: nat)
    requires c.pageBits <= 8
    ensures q > 0 && c.Page() * q == 256 && c.Page() * (256 * q) == 65536
  {
    q := Pow2(8 - c.pageBits);
    Pow2Add(c.pageBits, 8 - c.pageBits);
    Pow8();
    assert c.Page() * (256 * q) == 256 * (c.Page() * q);
  }

  lemma {:induction false} PowBig(n: nat)
    requires n >= 9
    ensures Pow2(n) >= 512 && Pow2(n) % 512 == 0
  {
    if n == 9 {
      Pow8();
    } else {
      PowBig(n - 1);
    }
  }

  /** No transfer crosses a write page, wherever it starts, exactly when a page has at most 2^8 bytes. */
  lemma PagesKeptExactly(c: Config)
    ensures (forall offset: nat, end: nat | offset < end :: OnePage(c, offset, Len(c, offset, end))) <==>
            c.pageBits <= 8
  {
    if c.pageBits <= 8 {
      forall offset: nat, end: nat | offset < end
        ensures OnePage(c, offset, Len(c, offset, end))
      {
        LenInPage(c, offset, end);
      }
    } else {
      LenLeavesPage(c);
    }
  }

  lemma LenInPage(c: Config, offset: nat, end: nat)
    requires c.pageBits <= 8 && offset < end
    ensures OnePage(c, offset, Len(c, offset, end))
  {
    hide Pow2;
    var q := PageDivides(c);
    ModTwice(offset, c.Page(), q);
  }

  /** With larger pages the code sees only the low octet of the offset, and the last byte of a page gives it away. */
  lemma LenLeavesPage(c: Config)
    requires c.pageBits > 8
    ensures var last := c.Page() - 1; !OnePage(c, last, Len(c, last, last + 128))
  {
    hide Pow2;
    PowBig(c.pageBits);
    var page := c.Page();
    assert (page - 1) % 256 == 255;
    DivUnique(page - 1, page, 0, page - 1);
    DivUnique(255, page, 0, 255);
  }

  // ----- the device

  /** The address counter counts inside a page only. */
  function Next(c: Config, reg: int): int {
    reg - reg % c.Page() + (reg + 1) % c.Page()
  }

  function Get(m: Cells, a: Cell): Byte {
    if a in m then m[a] else 255
  }

  /** A write transaction: the address, then data octets into consecutive counter positions. */
  function DeviceWrite(c: Config, m: Cells, chip: int, reg: int, data: seq<Byte>): Cells
    decreases |data|
  {
    if data == [] then m
    else DeviceWrite(c, m[(chip, reg) := data[0]], chip, Next(c, reg), data[1..])
  }

  function DeviceRead(c: Config, m: Cells, chip: int, reg: int, n: nat): (data: seq<Byte>)
    ensures |data| == n
    decreases n
  {
    if n == 0 then [] else [Get(m, (chip, reg))] + DeviceRead(c, m, chip, Next(c, reg), n - 1)
  }

  // ----- the linear meaning

  /** Byte `i` goes to the cell of address x + i. */
  function Store(c: Config, m: Cells, dev: nat, x: nat, data: seq<Byte>): Cells
    decreases |data|
  {
    if data == [] then m else Store(c, m[CellAt(c, dev, x) := data[0]], dev, x + 1, data[1..])
  }

  function Fetch(c: Config, m: Cells, dev: nat, x: nat, n: nat): (data: seq<Byte>)
    ensures |data| == n
    ensures forall i :: 0 <= i < n ==> data[i] == Get(m, CellAt(c, dev, x + i))
  {
    if n == 0 then [] else Fetch(c, m, dev, x, n - 1) + [Get(m, CellAt(c, dev, x + n - 1))]
  }

  /** Inside a page the next address is the next counter position of the same chip. */
  lemma StepInPage(c: Config, dev: nat, x: nat)
    requires c.Valid() && c.pageBits <= 8 && OnePage(c, x, 2)
    ensures Chip(c, dev, x + 1) == Chip(c, dev, x) && Next(c, Register(c, x)) == Register(c, x + 1)
    ensures (x + 1) % c.Page() == x % c.Page() + 1
  {
    hide Pow2;
    hide Or;
    var q := PageDivides(c);
    StepFacts(x, c.Page(), q);
    StepFacts(x, c.Page(), 256 * q);
  }

  lemma StepFacts(x: nat, p: nat, q: nat)
    requires p > 0 && q > 0 && p * q > 0 && x % p + 2 <= p
    ensures var w := p * q;
      && (x + 1) / w == x / w && (x + 1) % w == x % w + 1 && (x + 1) % p == x % p + 1
      && x % w - x % w % p + (x % w + 1) % p == (x + 1) % w
  {
    var w := p * q;
    ModTwice(x, p, q);
    NotLast(x, p, q);
    ModNext(x, p);
    ModNext(x, w);
    ModNext(x % w, p);
  }

  /** An address that is not the last of its page is not the last of its block. */
  lemma NotLast(x: nat, p: nat, q: nat)
    requires p > 0 && q > 0 && p * q > 0 && x % p + 2 <= p
    ensures x % (p * q) + 1 < p * q
  {
    var w := p * q;
    DivMod(x, w);
    ModTwice(x, p, q);
    LastOfBlock(p, q);
  }

  lemma LastOfBlock(p: nat, q: nat)
    requires p > 0 && q > 0 && p * q > 0
    ensures (p * q - 1) % p == p - 1
  {
    assert p * q - 1 == p * (q - 1) + (p - 1);
    DivUnique(p * q - 1, p, q - 1, p - 1);
  }

  lemma ModNext(x: nat, n: nat)
    requires n > 0 && x % n + 1 < n
    ensures (x + 1) % n == x % n + 1 && (x + 1) / n == x / n
  {
    DivMod(x, n);
    DivUnique(x + 1, n, x / n, x % n + 1);
  }

  /** A write that stays in its page is a linear copy. */
  lemma {:induction false} WriteLinear(c: Config, m: Cells, dev: nat, x: nat, data: seq<Byte>)
    requires c.Valid() && c.pageBits <= 8 && OnePage(c, x, |data|)
    ensures DeviceWrite(c, m, Chip(c, dev, x), Register(c, x), data) == Store(c, m, dev, x, data)
    decreases |data|
  {
    hide Chip;
    hide Register;
    hide Next;
    if |data| > 1 {
      StepInPage(c, dev, x);
      WriteLinear(c, m[CellAt(c, dev, x) := data[0]], dev, x + 1, data[1..]);
    }
  }

  lemma {:induction false} ReadLinear(c: Config, m: Cells, dev: nat, x: nat, n: nat)
    requires c.Valid() && c.pageBits <= 8 && OnePage(c, x, n)
    ensures DeviceRead(c, m, Chip(c, dev, x), Register(c, x), n) == Fetch(c, m, dev, x, n)
    decreases n
  {
    hide Chip;
    hide Register;
    hide Next;
    if n == 1 {
      assert DeviceRead(c, m, Chip(c, dev, x), Next(c, Register(c, x)), 0) == [];
    } else if n > 1 {
      StepInPage(c, dev, x);
      ReadLinear(c, m, dev, x + 1, n - 1);
      FetchSplit(c, m, dev, x, 1, n - 1);
    }
  }

  lemma {:induction false} StoreConcat(c: Config, m: Cells, dev: nat, x: nat, a: seq<Byte>, b: seq<Byte>)
    ensures Store(c, m, dev, x, a + b) == Store(c, Store(c, m, dev, x, a), dev, x + |a|, b)
    decreases |a|
  {
    hide CellAt;
    if a == [] {
      assert a + b == b;
    } else {
      assert (a + b)[1..] == a[1..] + b;
      StoreConcat(c, m[CellAt(c, dev, x) := a[0]], dev, x + 1, a[1..], b);
    }
  }

  lemma FetchSplit(c: Config, m: Cells, dev: nat, x: nat, k: nat, n: nat)
    ensures Fetch(c, m, dev, x, k + n) == Fetch(c, m, dev, x, k) + Fetch(c, m, dev, x + k, n)
  {
    hide CellAt;
    var all, parts := Fetch(c, m, dev, x, k + n), Fetch(c, m, dev, x, k) + Fetch(c, m, dev, x + k, n);
    forall i | 0 <= i < k + n
      ensures all[i] == parts[i]
    {
      if i >= k {
        assert x + i == x + k + (i - k);
      }
    }
  }

  // ----- the round trip

  /** Different addresses of the range get different cells. */
  ghost predicate Distinct(c: Config, dev: nat, x: nat, n: nat) {
    forall a: nat, b: nat :: x <= a < b < x + n ==> CellAt(c, dev, a) != CellAt(c, dev, b)
  }

  /** Cells of no address in the range keep their contents. */
  lemma {:induction false} StoreFrame(c: Config, m: Cells, dev: nat, x: nat, data: seq<Byte>, a: Cell)
    requires forall y: nat :: x <= y < x + |data| ==> CellAt(c, dev, y) != a
    ensures Get(Store(c, m, dev, x, data), a) == Get(m, a)
    decreases |data|
  {
    hide CellAt;
    if data != [] {
      StoreFrame(c, m[CellAt(c, dev, x) := data[0]], dev, x + 1, data[1..], a);
    }
  }

  /** The byte in the cell of address y is the last one stored there. */
  lemma StoreAt(c: Config, m: Cells, dev: nat, x: nat, data: seq<Byte>, y: nat)
    requires x <= y < x + |data|
    requires forall z: nat :: y < z < x + |data| ==> CellAt(c, dev, z) != CellAt(c, dev, y)
    ensures Get(Store(c, m, dev, x, data), CellAt(c, dev, y)) == data[y - x]
  {
    hide CellAt;
    var k := y - x;
    assert data == data[..k] + data[k..];
    StoreConcat(c, m, dev, x, data[..k], data[k..]);
    var mid := Store(c, m, dev, x, data[..k]);
    StoreFrame(c, mid[CellAt(c, dev, y) := data[k]], dev, y + 1, data[k..][1..], CellAt(c, dev, y));
  }

  /**
    * Writing and reading back returns every buffer exactly when no two addresses of the range share a cell.
    */
  lemma RoundTripExact(c: Config, m: Cells, dev: nat, x: nat, n: nat)
    ensures (forall data: seq<Byte> | |data| == n :: Fetch(c, Store(c, m, dev, x, data), dev, x, n) == data)
            <==> Distinct(c, dev, x, n)
  {
    if Distinct(c, dev, x, n) {
      forall data: seq<Byte> | |data| == n
        ensures Fetch(c, Store(c, m, dev, x, data), dev, x, n) == data
      {
        RoundTrip(c, m, dev, x, data);
      }
    } else {
      var a: nat, b: nat :| x <= a < b < x + n && CellAt(c, dev, a) == CellAt(c, dev, b);
      var data := seq(n, i => if i == b - x then 1 else 0);
      Clobbered(c, m, dev, x, data, a, b);
      assert |data| == n && Fetch(c, Store(c, m, dev, x, data), dev, x, n) != data;
    }
  }

  lemma RoundTrip(c: Config, m: Cells, dev: nat, x: nat, data: seq<Byte>)
    requires Distinct(c, dev, x, |data|)
    ensures Fetch(c, Store(c, m, dev, x, data), dev, x, |data|) == data
  {
    hide Store;
    hide Register;
    hide Chip;
    forall i | 0 <= i < |data|
      ensures Fetch(c, Store(c, m, dev, x, data), dev, x, |data|)[i] == data[i]
    {
      StoreAt(c, m, dev, x, data, x + i);
    }
  }

  /** A byte whose cell is written again later in the range reads back as the later one. */
  lemma Clobbered(c: Config, m: Cells, dev: nat, x: nat, data: seq<Byte>, a: nat, b: nat)
    requires x <= a < b < x + |data| && CellAt(c, dev, a) == CellAt(c, dev, b)
    requires forall i :: 0 <= i < |data| ==> data[i] == if i == b - x then 1 else 0
    ensures Fetch(c, Store(c, m, dev, x, data), dev, x, |data|) != data
  {
    hide Store;
    hide CellAt;
    var out := Fetch(c, Store(c, m, dev, x, data), dev, x, |data|);
    var last := LastAlias(c, dev, x + |data|, b);
    StoreAt(c, m, dev, x, data, last);
    assert out[a - x] == out[b - x] == data[last - x];
    assert data[a - x] != data[b - x];
  }

  /** The last address below `end` that shares the cell of address b. */
  lemma {:induction false} LastAlias(c: Config, dev: nat, end: nat, b: nat) returns (last: nat)
    requires b < end
    ensures b <= last < end && CellAt(c, dev, last) == CellAt(c, dev, b)
    ensures forall z: nat :: last < z < end ==> CellAt(c, dev, z) != CellAt(c, dev, last)
  {
    hide CellAt;
    if CellAt(c, dev, end - 1) == CellAt(c, dev, b) {
      last := end - 1;
    } else {
      last := LastAlias(c, dev, end - 1, b);
    }
  }

  /**
    * It is enough that the block numbers fit beside the device address: no block of the range has a bit in
    * common with it, and the block number does not run past its octet.
    */
  lemma BesideDevice(c: Config, dev: nat, x: nat, n: nat)
    requires c.Valid() && dev < 256 && x + n <= 256 * c.Window()
    requires forall y: nat :: x <= y < x + n ==> Apart(y / c.Window(), dev) && y / c.Window() + dev < 256
    ensures Distinct(c, dev, x, n)
  {
    hide Apart;
    hide Chip;
    forall a: nat, b: nat | x <= a < b < x + n
      ensures CellAt(c, dev, a) != CellAt(c, dev, b)
    {
      ChipIs(c, dev, a);
      ChipIs(c, dev, b);
      if Register(c, a) == Register(c, b) {
        BlocksDiffer(c, a, b);
      }
    }
  }

  lemma ChipIs(c: Config, dev: nat, y: nat)
    requires Apart(y / c.Window(), dev) && y / c.Window() + dev < 256
    ensures Chip(c, dev, y) == y / c.Window() + dev
  {
    hide Apart;
    var block := y / c.Window();
    OrApart(block, dev);
    hide Or;
    assert block % 256 == block;
  }

  lemma BlocksDiffer(c: Config, a: nat, b: nat)
    requires a < b && Register(c, a) == Register(c, b)
    ensures a / c.Window() != b / c.Window()
  {
    DivMod(a, c.Window());
    DivMod(b, c.Window());
  }

  // ----- whole calls, block by block, on a bus that may refuse any transfer

  datatype Transfer = Transfer(start: nat, len: nat)

  /** The transfers of one call. */
  function Transfers(c: Config, x: nat, end: nat): seq<Transfer>
    decreases end - x
  {
    if x >= end then [] else
      var n := Len(c, x, end);
      [Transfer(x, n)] + Transfers(c, x + n, end)
  }

  /** Consecutive pieces that begin at x, stop at end, and each obey the bus and page limits. */
  ghost predicate Tiles(c: Config, ts: seq<Transfer>, x: nat, end: nat) {
    if ts == [] then x == end
    else
      && ts[0].start == x && 0 < ts[0].len <= I2C_RXTX_LEN && OnePage(c, x, ts[0].len)
      && Tiles(c, ts[1..], x + ts[0].len, end)
  }

  lemma {:induction false} TransfersTile(c: Config, x: nat, end: nat)
    requires c.pageBits <= 8 && x <= end
    ensures Tiles(c, Transfers(c, x, end), x, end)
    decreases end - x
  {
    hide OnePage;
    hide Len;
    if x < end {
      var n := Len(c, x, end);
      LenInPage(c, x, end);
      TransfersTile(c, x + n, end);
      TransfersStep(c, x, end);
      hide Transfers;
      assert Transfers(c, x, end)[1..] == Transfers(c, x + n, end);
    }
  }

  /** What a write leaves behind when the transfers from number k on succeed or fail as `fails` says. */
  function Written(c: Config, m: Cells, dev: nat, x: nat, data: seq<Byte>, fails: nat -> bool, k: nat): Cells
    decreases |data|
  {
    if data == [] then m else
      var n := Len(c, x, x + |data|);
      var m' := if fails(k) then m else DeviceWrite(c, m, Chip(c, dev, x), Register(c, x), data[..n]);
      Written(c, m', dev, x + n, data[n..], fails, k + 1)
  }

  /** What a read leaves in a buffer that held `data`. */
  function Filled(c: Config, m: Cells, dev: nat, x: nat, data: seq<Byte>, fails: nat -> bool, k: nat): (out: seq<Byte>)
    ensures |out| == |data|
    decreases |data|
  {
    if data == [] then [] else
      var n := Len(c, x, x + |data|);
      var head := if fails(k) then data[..n] else DeviceRead(c, m, Chip(c, dev, x), Register(c, x), n);
      head + Filled(c, m, dev, x + n, data[n..], fails, k + 1)
  }

  ghost predicate NoFailure(fails: nat -> bool, k: nat, n: nat) {
    forall i: nat :: k <= i < k + n ==> !fails(i)
  }

  /** If no transfer of the call fails, a write is the linear copy. */
  lemma {:induction false} WrittenLinear(c: Config, m: Cells, dev: nat, x: nat, data: seq<Byte>, fails: nat -> bool,
                                         k: nat)
    requires c.Valid() && c.pageBits <= 8 && NoFailure(fails, k, |Transfers(c, x, x + |data|)|)
    ensures Written(c, m, dev, x, data, fails, k) == Store(c, m, dev, x, data)
    decreases |data|
  {
    hide Store;
    hide DeviceWrite;
    hide Len;
    if data == [] {
      StoreNothing(c, m, dev, x);
    } else {
      var end := x + |data|;
      var n := Len(c, x, end);
      LenInPage(c, x, end);
      TransfersStep(c, x, end);
      hide Transfers;
      assert data == data[..n] + data[n..];
      StoreConcat(c, m, dev, x, data[..n], data[n..]);
      WriteLinear(c, m, dev, x, data[..n]);
      assert !fails(k);
      WrittenLinear(c, Store(c, m, dev, x, data[..n]), dev, x + n, data[n..], fails, k + 1);
    }
  }

  lemma StoreNothing(c: Config, m: Cells, dev: nat, x: nat)
    ensures Store(c, m, dev, x, []) == m
  {
  }

  lemma {:induction false} FilledLinear(c: Config, m: Cells, dev: nat, x: nat, data: seq<Byte>, fails: nat -> bool,
                                        k: nat)
    requires c.Valid() && c.pageBits <= 8 && NoFailure(fails, k, |Transfers(c, x, x + |data|)|)
    ensures Filled(c, m, dev, x, data, fails, k) == Fetch(c, m, dev, x, |data|)
    decreases |data|
  {
    hide Fetch;
    hide DeviceRead;
    hide Len;
    if data != [] {
      var end := x + |data|;
      var n := Len(c, x, end);
      LenInPage(c, x, end);
      TransfersStep(c, x, end);
      hide Transfers;
      assert !fails(k);
      ReadLinear(c, m, dev, x, n);
      FilledLinear(c, m, dev, x + n, data[n..], fails, k + 1);
      FetchSplit(c, m, dev, x, n, |data| - n);
    }
  }

  /** Memory, buffer and bus traffic at one moment. */
  datatype Snapshot = Snapshot(cells: Cells, buf: seq<Byte>, sent: nat, trace: seq<Transfer>)

  /** One call: `now` follows `was` after `at` of its `moved` bytes. */
  datatype Call = Call(c: Config, fails: nat -> bool, dev: nat, read: bool, offset: nat, end: nat, moved: nat,
                       was: Snapshot)

  ghost predicate Counted(k: Call, now: Snapshot, at: nat, rcode: int) {
    && at <= k.moved && (k.end == k.offset + k.moved || (k.moved == 0 && k.end <= k.offset))
    && now.trace + Transfers(k.c, k.offset + at, k.end) == k.was.trace + Transfers(k.c, k.offset, k.end)
    && now.sent + |Transfers(k.c, k.offset + at, k.end)| == k.was.sent + |Transfers(k.c, k.offset, k.end)|
    && now.sent >= k.was.sent && rcode == if now.sent > k.was.sent && k.fails(now.sent - 1) then 1 else 0
  }

  ghost predicate Copied(k: Call, now: Snapshot, at: nat) {
    && at <= k.moved <= |k.was.buf| == |now.buf| && now.buf[at..] == k.was.buf[at..]
    && var data := k.was.buf[..k.moved];
       if k.read then
         now.cells == k.was.cells && Filled(k.c, k.was.cells, k.dev, k.offset, data, k.fails, k.was.sent)
         == now.buf[..at] + Filled(k.c, now.cells, k.dev, k.offset + at, data[at..], k.fails, now.sent)
       else
         now.buf == k.was.buf && Written(k.c, k.was.cells, k.dev, k.offset, data, k.fails, k.was.sent)
         == Written(k.c, now.cells, k.dev, k.offset + at, data[at..], k.fails, now.sent)
  }

  /** The effect of one transfer. */
  ghost predicate Turn(k: Call, s: Snapshot, s': Snapshot, x: nat, at: nat, len: nat, rcode: int) {
    var chip, reg := Chip(k.c, k.dev, x), Register(k.c, x);
    && len > 0 && at + len <= |s.buf| == |s'.buf| && s'.sent == s.sent + 1 && s'.trace == s.trace + [Transfer(x, len)]
    && rcode == (if k.fails(s.sent) then 1 else 0)
    && s'.cells == (if k.read || rcode != 0 then s.cells else DeviceWrite(k.c, s.cells, chip, reg, s.buf[at..at + len]))
    && s'.buf[..at] == s.buf[..at] && s'.buf[at + len..] == s.buf[at + len..]
    && s'.buf[at..at + len]
       == if k.read && rcode == 0 then DeviceRead(k.c, s.cells, chip, reg, len) else s.buf[at..at + len]
  }

  lemma StillToMove(k: Call, now: Snapshot, at: nat, rcode: int)
    requires Counted(k, now, at, rcode) && Copied(k, now, at) && k.offset + at < k.end
    ensures k.end == k.offset + k.moved && at < k.moved <= |now.buf|
  {
  }

  lemma CountedTurn(k: Call, s: Snapshot, s': Snapshot, at: nat, len: nat, rcode0: int, rcode: int)
    requires Counted(k, s, at, rcode0) && k.offset + at < k.end && len == Len(k.c, k.offset + at, k.end)
    requires Turn(k, s, s', k.offset + at, at, len, rcode)
    ensures Counted(k, s', at + len, rcode)
  {
    hide Len;
    hide DeviceWrite;
    hide DeviceRead;
    hide Chip;
    hide Register;
    var x := k.offset + at;
    TransfersStep(k.c, x, k.end);
    hide Transfers;
    var rest := Transfers(k.c, x + len, k.end);
    assert s.trace + ([Transfer(x, len)] + rest) == (s.trace + [Transfer(x, len)]) + rest;
  }

  lemma TransfersStep(c: Config, x: nat, end: nat)
    requires x < end
    ensures var n := Len(c, x, end);
      Transfers(c, x, end) == [Transfer(x, n)] + Transfers(c, x + n, end)
  {
  }

  lemma WrittenStep(c: Config, m: Cells, dev: nat, x: nat, data: seq<Byte>, fails: nat -> bool, k: nat)
    requires data != []
    ensures var n := Len(c, x, x + |data|);
      var m' := if fails(k) then m else DeviceWrite(c, m, Chip(c, dev, x), Register(c, x), data[..n]);
      Written(c, m, dev, x, data, fails, k) == Written(c, m', dev, x + n, data[n..], fails, k + 1)
  {
  }

  lemma WroteTurn(k: Call, s: Snapshot, s': Snapshot, at: nat, len: nat, rcode: int)
    requires Copied(k, s, at) && !k.read && k.offset + at < k.end == k.offset + k.moved
             && len == Len(k.c, k.offset + at, k.end)
    requires Turn(k, s, s', k.offset + at, at, len, rcode)
    ensures Copied(k, s', at + len)
  {
    hide Len;
    hide DeviceWrite;
    hide DeviceRead;
    hide Chip;
    hide Register;
    hide Written;
    hide Filled;
    var data := k.was.buf[..k.moved];
    WrittenStep(k.c, s.cells, k.dev, k.offset + at, data[at..], k.fails, s.sent);
    Slices(k.was.buf, s.buf, s'.buf, k.moved, at, len);
    Rejoin(s.buf, s'.buf, at, len);
  }

  lemma Rejoin(a: seq<Byte>, b: seq<Byte>, at: nat, len: nat)
    requires at + len <= |a| == |b|
    requires a[..at] == b[..at] && a[at..at + len] == b[at..at + len] && a[at + len..] == b[at + len..]
    ensures a == b
  {
    assert a == a[..at] + a[at..at + len] + a[at + len..];
    assert b == b[..at] + b[at..at + len] + b[at + len..];
  }

  lemma FilledStep(c: Config, m: Cells, dev: nat, x: nat, data: seq<Byte>, fails: nat -> bool, k: nat)
    requires data != []
    ensures var n := Len(c, x, x + |data|);
      Filled(c, m, dev, x, data, fails, k) ==
      (if fails(k) then data[..n] else DeviceRead(c, m, Chip(c, dev, x), Register(c, x), n))
      + Filled(c, m, dev, x + n, data[n..], fails, k + 1)
  {
    hide DeviceRead;
    hide Len;
  }

  lemma ReadTurn(k: Call, s: Snapshot, s': Snapshot, at: nat, len: nat, rcode: int)
    requires Copied(k, s, at) && k.read && k.offset + at < k.end == k.offset + k.moved
             && len == Len(k.c, k.offset + at, k.end)
    requires Turn(k, s, s', k.offset + at, at, len, rcode)
    ensures Copied(k, s', at + len)
  {
    hide Len;
    hide DeviceWrite;
    hide DeviceRead;
    hide Chip;
    hide Register;
    hide Filled;
    hide Written;
    var data := k.was.buf[..k.moved];
    FilledStep(k.c, s.cells, k.dev, k.offset + at, data[at..], k.fails, s.sent);
    Slices(k.was.buf, s.buf, s'.buf, k.moved, at, len);
    var rest := Filled(k.c, s'.cells, k.dev, k.offset + at + len, data[at + len..], k.fails, s'.sent);
    Associate(s.buf[..at], s'.buf[at..at + len], rest);
  }

  lemma Associate(a: seq<Byte>, b: seq<Byte>, d: seq<Byte>)
    ensures a + (b + d) == (a + b) + d
  {
  }

  lemma Slices(was: seq<Byte>, buf: seq<Byte>, buf': seq<Byte>, moved: nat, at: nat, len: nat)
    requires at + len <= moved <= |was| == |buf| == |buf'|
    requires buf[at..] == was[at..] && buf'[..at] == buf[..at] && buf'[at + len..] == buf[at + len..]
    ensures was[..moved][at..][..len] == buf[at..at + len] && was[..moved][at..][len..] == was[..moved][at + len..]
    ensures buf'[at + len..] == was[at + len..] && buf'[..at + len] == buf[..at] + buf'[at..at + len]
  {
    assert was[at..][..len] == was[at..at + len] && buf[at..][..len] == buf[at..at + len];
    assert was[at..][len..] == was[at + len..] && buf[at..][len..] == buf[at + len..];
  }

  /** The bus with one device family on it; transfer number i is refused when fails(i). */
  class Bus {
    const c: Config
    const fails: nat -> bool
    var cells: Cells
    var sent: nat
    var trace: seq<Transfer>

    constructor (c: Config, cells: Cells, fails: nat -> bool)
      ensures this.c == c && this.cells == cells && this.fails == fails && sent == 0 && trace == []
    {
      this.c, this.cells, this.fails := c, cells, fails;
      sent, trace := 0, [];
    }

    ghost function Now(buffer: array<Byte>): Snapshot
      reads this, buffer
    {
      Snapshot(cells, buffer[..], sent, trace)
    }

    /** `eeprom_rw_block`: one bus transfer for buffer[at..at + len]. */
    method RwBlock(offset: nat, chip: int, reg: int, buffer: array<Byte>, at: nat, len: nat, read: bool, ghost k: Call)
      returns (ret: int)
      requires 0 < len && at + len <= buffer.Length && k.c == c && k.fails == fails && k.read == read
      requires chip == Chip(c, k.dev, offset) && reg == Register(c, offset)
      modifies this, buffer
      ensures Turn(k, old(Now(buffer)), Now(buffer), offset, at, len, ret)
    {
      hide Chip;
      hide Register;
      ret := if fails(sent) then 1 else 0;
      if ret == 0 {
        if read {
          var data := DeviceRead(c, cells, chip, reg, len);
          forall i | 0 <= i < len {
            buffer[at + i] := data[i];
          }
        } else {
          cells := DeviceWrite(c, cells, chip, reg, buffer[at..at + len]);
        }
      }
      sent, trace := sent + 1, trace + [Transfer(offset, len)];
    }

    /**
      * `eeprom_rw`. The transfers are those of the spec, a write leaves what `Written` says and a read what
      * `Filled` says; the result is the status of the last transfer alone. An end that wraps past 2^32
      * makes the call do nothing and report success.
      */
    method Rw(dev: nat, offset: nat, buffer: array<Byte>, cnt: nat, read: bool) returns (rcode: int)
      requires dev < WORD && offset < WORD && cnt < WORD && cnt <= buffer.Length
      modifies this, buffer
      ensures Performed(Requested(c, fails, dev, read, offset, cnt, old(Now(buffer))), Now(buffer), rcode)
    {
      hide Turn;
      hide Counted;
      hide Copied;
      hide Performed;
      hide Len;
      var end := (offset + cnt) % WORD;
      rcode := 0;
      var x, at := offset, 0;
      ghost var k := Requested(c, fails, dev, read, offset, cnt, Now(buffer));
      CallStarts(k);
      while x < end
        invariant x == offset + at && Counted(k, Now(buffer), at, rcode) && Copied(k, Now(buffer), at)
        decreases end - x
      {
        ghost var s, rcode0 := Now(buffer), rcode;
        StillToMove(k, s, at, rcode);
        var len;
        len := Len(c, x, end);
        rcode := RwBlock(x, Chip(c, dev, x), Register(c, x), buffer, at, len, read, k);
        CountedTurn(k, s, Now(buffer), at, len, rcode0, rcode);
        if read {
          ReadTurn(k, s, Now(buffer), at, len, rcode);
        } else {
          WroteTurn(k, s, Now(buffer), at, len, rcode);
        }
        at := at + len;
        x := x + len;
      }
      CallEnds(k, Now(buffer), at, rcode);
    }

    /** `eeprom_read`. */
    method Read(dev: nat, offset: nat, buffer: array<Byte>, cnt: nat) returns (ret: int)
      requires dev < WORD && offset < WORD && cnt < WORD && cnt <= buffer.Length
      modifies this, buffer
      ensures var k := Requested(c, fails, dev, true, offset, cnt, old(Now(buffer)));
        Performed(k, Now(buffer), ret) && Linear(k, Now(buffer), ret)
    {
      hide Performed;
      hide Linear;
      ghost var k := Requested(c, fails, dev, true, offset, cnt, Now(buffer));
      ret := Rw(dev, offset, buffer, cnt, true);
      PerformedLinear(k, Now(buffer), ret);
    }

    /** `eeprom_write`. */
    method Write(dev: nat, offset: nat, buffer: array<Byte>, cnt: nat) returns (ret: int)
      requires dev < WORD && offset < WORD && cnt < WORD && cnt <= buffer.Length
      modifies this, buffer
      ensures var k := Requested(c, fails, dev, false, offset, cnt, old(Now(buffer)));
        Performed(k, Now(buffer), ret) && Linear(k, Now(buffer), ret)
    {
      hide Performed;
      hide Linear;
      ghost var k := Requested(c, fails, dev, false, offset, cnt, Now(buffer));
      ret := Rw(dev, offset, buffer, cnt, false);
      PerformedLinear(k, Now(buffer), ret);
    }
  }

  /** A call as its arguments ask for it: if offset + cnt wraps past 2^32, nothing is left to move. */
  function Requested(c: Config, fails: nat -> bool, dev: nat, read: bool, offset: nat, cnt: nat,
                     was: Snapshot): (k: Call)
    requires offset < WORD && cnt < WORD
  {
    Call(c, fails, dev, read, offset, (offset + cnt) % WORD, if offset + cnt < WORD then cnt else 0, was)
  }

  lemma CallStarts(k: Call)
    requires k.moved <= |k.was.buf| && (k.end == k.offset + k.moved || (k.moved == 0 && k.end <= k.offset))
    ensures Counted(k, k.was, 0, 0) && Copied(k, k.was, 0)
  {
    hide Transfers;
    hide Filled;
    hide Written;
    assert k.was.buf[..k.moved][0..] == k.was.buf[..k.moved];
  }

  /** The state after the call. */
  ghost predicate Performed(k: Call, now: Snapshot, rcode: int)
    requires k.moved <= |k.was.buf|
  {
    var ts, data := Transfers(k.c, k.offset, k.end), k.was.buf[..k.moved];
    && now.trace == k.was.trace + ts && now.sent == k.was.sent + |ts|
    && rcode == (if ts != [] && k.fails(now.sent - 1) then 1 else 0)
    && |now.buf| == |k.was.buf| && now.buf[k.moved..] == k.was.buf[k.moved..]
    && now.cells == (if k.read then k.was.cells
                     else Written(k.c, k.was.cells, k.dev, k.offset, data, k.fails, k.was.sent))
    && now.buf[..k.moved] == if !k.read then data
                             else Filled(k.c, k.was.cells, k.dev, k.offset, data, k.fails, k.was.sent)
  }

  lemma CallEnds(k: Call, now: Snapshot, at: nat, rcode: int)
    requires Counted(k, now, at, rcode) && Copied(k, now, at) && k.offset + at >= k.end
    ensures Performed(k, now, rcode)
  {
    assert at == k.moved;
    var data := k.was.buf[..k.moved];
    assert data[at..] == [];
    assert now.buf[..at] + [] == now.buf[..at];
    assert Transfers(k.c, k.offset + at, k.end) == [];
  }

  /** A call none of whose transfers fails succeeds and is the linear copy. */
  ghost predicate Linear(k: Call, now: Snapshot, rcode: int)
    requires k.moved <= |k.was.buf|
  {
    && now.sent >= k.was.sent && |now.buf| == |k.was.buf| && now.buf[k.moved..] == k.was.buf[k.moved..]
    && (k.c.Valid() && k.c.pageBits <= 8 && k.end == k.offset + k.moved
        && NoFailure(k.fails, k.was.sent, now.sent - k.was.sent) ==>
          && rcode == 0
          && now.buf[..k.moved]
             == (if k.read then Fetch(k.c, k.was.cells, k.dev, k.offset, k.moved) else k.was.buf[..k.moved])
          && now.cells == if k.read then k.was.cells
                          else Store(k.c, k.was.cells, k.dev, k.offset, k.was.buf[..k.moved]))
  }

  lemma PerformedLinear(k: Call, now: Snapshot, rcode: int)
    requires k.moved <= |k.was.buf| && Performed(k, now, rcode)
    ensures Linear(k, now, rcode)
  {
    hide Transfers;
    hide Store;
    hide Fetch;
    hide Written;
    hide Filled;
    if k.c.Valid() && k.c.pageBits <= 8 && k.end == k.offset + k.moved
       && NoFailure(k.fails, k.was.sent, now.sent - k.was.sent) {
      var data := k.was.buf[..k.moved];
      if k.read {
        FilledLinear(k.c, k.was.cells, k.dev, k.offset, data, k.fails, k.was.sent);
      } else {
        WrittenLinear(k.c, k.was.cells, k.dev, k.offset, data, k.fails, k.was.sent);
      }
    }
  }

  /**
    * A write followed by a read of the same range returns the written bytes, and every cell that belongs to no
    * address of the range keeps its contents.
    */
  lemma WriteThenRead(w: Call, s: Snapshot, rc1: int, r: Call, t: Snapshot, rc2: int)
    requires w.moved <= |w.was.buf| && r.moved <= |r.was.buf| && Performed(w, s, rc1) && Performed(r, t, rc2)
    requires !w.read && r.read && r.was.cells == s.cells && r.c == w.c && r.dev == w.dev && r.offset == w.offset
    requires w.c.Valid() && w.c.pageBits <= 8 && w.end == r.end == w.offset + w.moved && w.moved == r.moved
    requires NoFailure(w.fails, w.was.sent, |Transfers(w.c, w.offset, w.end)|)
    requires NoFailure(r.fails, r.was.sent, |Transfers(r.c, r.offset, r.end)|)
    requires Distinct(w.c, w.dev, w.offset, w.moved)
    ensures t.buf[..r.moved] == w.was.buf[..w.moved]
    ensures forall a :: (forall y: nat :: w.offset <= y < w.end ==> CellAt(w.c, w.dev, y) != a) ==>
            Get(t.cells, a) == Get(w.was.cells, a)
  {
    hide Transfers;
    hide Store;
    hide Fetch;
    hide Written;
    hide Filled;
    hide CellAt;
    PerformedLinear(w, s, rc1);
    PerformedLinear(r, t, rc2);
    var data := w.was.buf[..w.moved];
    RoundTrip(w.c, w.was.cells, w.dev, w.offset, data);
    forall a | forall y: nat :: w.offset <= y < w.end ==> CellAt(w.c, w.dev, y) != a
      ensures Get(t.cells, a) == Get(w.was.cells, a)
    {
      StoreFrame(w.c, w.was.cells, w.dev, w.offset, data, a);
    }
  }

  /**
    * Only the last transfer speaks for a call. A zero result therefore means, whatever the bus refuses, that
    * every transfer was done exactly for calls that make at most one.
    */
  lemma StatusExact(k: Call)
    requires k.moved <= |k.was.buf|
    ensures (forall fails, now, rcode :: ZeroMeansDone(k, fails, now, rcode)) <==>
            |Transfers(k.c, k.offset, k.end)| <= 1
  {
    hide Transfers;
    hide Performed;
    var n := |Transfers(k.c, k.offset, k.end)|;
    if n > 1 {
      var fails: nat -> bool := i => i == k.was.sent;
      var now := After(k.(fails := fails));
      hide After;
      assert fails(k.was.sent);
      assert !NoFailure(fails, k.was.sent, n);
      assert Performed(k.(fails := fails), now, 0);
      assert !ZeroMeansDone(k, fails, now, 0);
    } else {
      forall fails: nat -> bool, now, rcode
        ensures ZeroMeansDone(k, fails, now, rcode)
      {
        FirstIsLast(k.(fails := fails), now, rcode);
      }
    }
  }

  lemma FirstIsLast(k: Call, now: Snapshot, rcode: int)
    requires k.moved <= |k.was.buf| && |Transfers(k.c, k.offset, k.end)| <= 1
    ensures Performed(k, now, rcode) && rcode == 0 ==> NoFailure(k.fails, k.was.sent, |Transfers(k.c, k.offset, k.end)|)
  {
    hide Transfers;
    hide Written;
    hide Filled;
  }

  ghost predicate ZeroMeansDone(k: Call, fails: nat -> bool, now: Snapshot, rcode: int)
    requires k.moved <= |k.was.buf|
  {
    Performed(k.(fails := fails), now, rcode) && rcode == 0 ==>
      NoFailure(fails, k.was.sent, |Transfers(k.c, k.offset, k.end)|)
  }

  /** The state a call leaves behind. */
  function After(k: Call): (now: Snapshot)
    requires k.moved <= |k.was.buf|
    ensures var n := |Transfers(k.c, k.offset, k.end)|;
      Performed(k, now, if n > 0 && k.fails(k.was.sent + n - 1) then 1 else 0)
  {
    var ts, data := Transfers(k.c, k.offset, k.end), k.was.buf[..k.moved];
    var head := if k.read then Filled(k.c, k.was.cells, k.dev, k.offset, data, k.fails, k.was.sent) else data;
    var cells := if k.read then k.was.cells else Written(k.c, k.was.cells, k.dev, k.offset, data, k.fails, k.was.sent);
    Snapshot(cells, head + k.was.buf[k.moved..], k.was.sent + |ts|, k.was.trace + ts)
  }

  /** In terms of the request: it is empty or wraps, or it stays within one page and the bus limit. */
  lemma OneTransfer(c: Config, offset: nat, cnt: nat)
    requires c.pageBits <= 8 && offset < WORD && cnt < WORD
    ensures |Transfers(c, offset, (offset + cnt) % WORD)| <= 1 <==>
            cnt == 0 || offset + cnt >= WORD || (cnt <= I2C_RXTX_LEN && OnePage(c, offset, cnt))
  {
    hide OnePage;
    hide Transfers;
    var end := (offset + cnt) % WORD;
    if offset + cnt < WORD {
      assert end == offset + cnt;
    } else {
      assert end == offset + cnt - WORD;
    }
    OneTransferTo(c, offset, end);
    if offset < end {
      LenIs(c, offset, end);
    }
  }

  lemma OneTransferTo(c: Config, offset: nat, end: nat)
    ensures |Transfers(c, offset, end)| <= 1 <==> end <= offset || Len(c, offset, end) == end - offset
  {
    if offset < end {
      TransfersStep(c, offset, end);
      var n := Len(c, offset, end);
      hide Len;
      if offset + n < end {
        TransfersStep(c, offset + n, end);
      } else {
        assert Transfers(c, offset + n, end) == [];
      }
    }
  }

  lemma LenIs(c: Config, offset: nat, end: nat)
    requires c.pageBits <= 8 && offset < end
    ensures Len(c, offset, end) == end - offset <==> end - offset <= I2C_RXTX_LEN && OnePage(c, offset, end - offset)
  {
    hide Pow2;
    var q := PageDivides(c);
    ModTwice(offset, c.Page(), q);
  }

  /** A zero result of a request means that all its bytes were moved. */
  ghost predicate ZeroMeansMoved(c: Config, dev: nat, read: bool, offset: nat, cnt: nat, was: Snapshot,
                                 fails: nat -> bool, now: Snapshot, rcode: int)
    requires offset < WORD && cnt < WORD && cnt <= |was.buf|
  {
    var k := Requested(c, fails, dev, read, offset, cnt, was);
    Performed(k, now, rcode) && rcode == 0 ==>
      k.moved == cnt && NoFailure(fails, was.sent, |Transfers(c, offset, k.end)|)
  }

  /**
    * Whatever the bus refuses, a zero result means that all bytes were moved exactly for requests that are empty or
    * stay within the 32-bit offsets, one page and the bus limit.
    */
  lemma RequestExact(c: Config, dev: nat, read: bool, offset: nat, cnt: nat, was: Snapshot)
    requires c.pageBits <= 8 && offset < WORD && cnt < WORD && cnt <= |was.buf|
    ensures (forall fails, now, rcode :: ZeroMeansMoved(c, dev, read, offset, cnt, was, fails, now, rcode)) <==>
            cnt == 0 || (offset + cnt < WORD && cnt <= I2C_RXTX_LEN && OnePage(c, offset, cnt))
  {
    hide Transfers;
    hide Performed;
    hide OnePage;
    var none: nat -> bool := i => false;
    var k := Requested(c, none, dev, read, offset, cnt, was);
    OneTransfer(c, offset, cnt);
    StatusExact(k);
    if offset + cnt >= WORD {
      var now := After(k);
      hide After;
      assert !ZeroMeansMoved(c, dev, read, offset, cnt, was, none, now, 0);
    } else {
      forall fails: nat -> bool, now, rcode
        ensures ZeroMeansMoved(c, dev, read, offset, cnt, was, fails, now, rcode) <==>
                ZeroMeansDone(k, fails, now, rcode)
      {
        assert k.(fails := fails) == Requested(c, fails, dev, read, offset, cnt, was);
      }
    }
  }

  lemma OtherCells(c: Config)
    requires c.addrLen == 1
    ensures forall y: nat :: 128 <= y < 256 ==> CellAt(c, 0, y) != (0, 0)
  {
  }

  /** Two transfers of 128 bytes, the first refused: the call reports success and the first half is missing. */
  lemma LostTransferReportedAsSuccess(now: Snapshot, rcode: int)
    requires var was := Snapshot(map[], seq(256, i => 1), 0, []);
      Performed(Call(Config(1, 8), i => i == 0, 0, false, 0, 256, 256, was), now, rcode)
    ensures rcode == 0 && Get(now.cells, (0, 0)) == 255
  {
    var data: seq<Byte> := seq(256, i => 1);
    var fails: nat -> bool := i => i == 0;
    assert data[..256] == data;
    SecondHalf(data, fails);
  }

  lemma SecondHalf(data: seq<Byte>, fails: nat -> bool)
    requires |data| == 256 && fails(0) && !fails(1)
    ensures |Transfers(Config(1, 8), 0, 256)| == 2
    ensures Get(Written(Config(1, 8), map[], 0, 0, data, fails, 0), (0, 0)) == 255
  {
    var c := Config(1, 8);
    Pow8();
    assert Len(c, 0, 256) == 128 && Len(c, 128, 256) == 128;
    TransfersStep(c, 0, 256);
    TransfersStep(c, 128, 256);
    assert Transfers(c, 256, 256) == [];
    hide Len;
    hide Transfers;
    hide CellAt;
    hide Store;
    WrittenStep(c, map[], 0, 0, data, fails, 0);
    hide Written;
    WrittenLinear(c, map[], 0, 128, data[128..], fails, 1);
    OtherCells(c);
    StoreFrame(c, map[], 0, 128, data[128..], (0, 0));
  }
}
