/**
  * Motorola S-records over the serial line: `save_serial`, `load_serial` and `read_record` of cmd/load.c
  * with the decoder of common/s_record.c.
  */
module SRecord {
  import opened Arithmetic
  import opened Bytes
  import opened Numbers

  const SREC_MAXRECLEN := 516
  const SREC_BYTES_PER_RECORD := 16

  // ----- hexadecimal text

  function Hex2(b: Byte): string {
    [HexDigit(b / 16, 'A'), HexDigit(b % 16, 'A')]
  }

  function HexBytes(bs: seq<Byte>): string {
    if bs == [] then "" else HexBytes(bs[..|bs| - 1]) + Hex2(bs[|bs| - 1])
  }

  lemma {:induction false} HexBytesConcat(a: seq<Byte>, b: seq<Byte>)
    ensures HexBytes(a + b) == HexBytes(a) + HexBytes(b)
  {
    if b == [] {
      assert a + b == a;
    } else {
      assert (a + b)[..|a + b| - 1] == a + b[..|b| - 1];
      HexBytesConcat(a, b[..|b| - 1]);
    }
  }

  lemma Hex2Chars(b: Byte)
    ensures |Hex2(b)| == 2 && '0' <= Hex2(b)[0] <= 'F' && '0' <= Hex2(b)[1] <= 'F'
  {
  }

  lemma HexBytesPush(bs: seq<Byte>, b: Byte)
    ensures HexBytes(bs + [b]) == HexBytes(bs) + Hex2(b)
  {
    assert (bs + [b])[..|bs|] == bs;
  }

  lemma {:induction false} HexBytesChars(bs: seq<Byte>)
    ensures |HexBytes(bs)| == 2 * |bs|
    ensures forall c :: c in HexBytes(bs) ==> '0' <= c <= 'F'
  {
    hide Hex2;
    if bs != [] {
      HexBytesChars(bs[..|bs| - 1]);
      Hex2Chars(bs[|bs| - 1]);
    }
  }

  /** `hex1_bin` */
  function HexValue(c: char): int {
    if '0' <= c <= '9' then c as int - '0' as int
    else if 'a' <= c <= 'f' then c as int + 10 - 'a' as int
    else if 'A' <= c <= 'F' then c as int + 10 - 'A' as int
    else -1
  }

  /** `hex2_bin`; the end of the string reads as NUL, which is no digit. */
  function Pair(s: string, i: nat): Option<Byte> {
    if i + 1 < |s| && HexValue(s[i]) >= 0 && HexValue(s[i + 1]) >= 0
    then Some(HexValue(s[i]) * 16 + HexValue(s[i + 1]))
    else None
  }

  /** `n` pairs from position `i` on. */
  function Pairs(s: string, i: nat, n: nat): (r: Option<seq<Byte>>)
    ensures r.Some? ==> |r.value| == n
  {
    if n == 0 then Some([])
    else
      var front := Pairs(s, i, n - 1);
      var last := Pair(s, i + 2 * (n - 1));
      if front.None? || last.None? then None else Some(front.value + [last.value])
  }

  lemma HexDigitValue(d: int)
    requires 0 <= d < 16
    ensures HexValue(HexDigit(d, 'A')) == d
  {
  }

  lemma PairOfHex(s: string, i: nat, b: Byte)
    requires i + 2 <= |s| && s[i..i + 2] == Hex2(b)
    ensures Pair(s, i) == Some(b)
  {
    assert s[i] == s[i..i + 2][0] && s[i + 1] == s[i..i + 2][1];
    HexDigitValue(b / 16);
    HexDigitValue(b % 16);
  }

  lemma {:induction false} PairsOfHex(s: string, i: nat, bs: seq<Byte>)
    requires i + 2 * |bs| <= |s| && s[i..i + 2 * |bs|] == HexBytes(bs)
    ensures Pairs(s, i, |bs|) == Some(bs)
  {
    hide Pair;
    if bs != [] {
      var front, b := bs[..|bs| - 1], bs[|bs| - 1];
      var e := i + 2 * |front|;
      HexBytesChars(front);
      assert s[i..e] == s[i..i + 2 * |bs|][..2 * |front|] == HexBytes(front);
      PairsOfHex(s, i, front);
      assert s[e..e + 2] == s[i..i + 2 * |bs|][2 * |front|..] == Hex2(b);
      PairOfHex(s, e, b);
      assert front + [b] == bs;
    }
  }

  /** Big-endian value of some bytes. */
  function BigEndian(bs: seq<Byte>): nat {
    if bs == [] then 0 else BigEndian(bs[..|bs| - 1]) * 256 + bs[|bs| - 1]
  }

  /** The four bytes of a 32-bit address, most significant first. */
  function AddressBytes(a: nat): seq<Byte>
    requires a < WORD
  {
    [a / 0x100_0000, a / 0x1_0000 % 256, a / 256 % 256, a % 256]
  }

  lemma AddressBytesValue(a: nat)
    requires a < WORD
    ensures BigEndian(AddressBytes(a)) == a
  {
    var bs := AddressBytes(a);
    assert bs[..3][..2][..1][..0] == [];
    assert BigEndian(bs[..3][..2][..1]) == bs[0];
    assert BigEndian(bs[..3][..2]) == (bs[0] as int) * 256 + bs[1];
    assert BigEndian(bs[..3]) == ((bs[0] as int) * 256 + bs[1]) * 256 + bs[2];
  }

  // ----- the decoder

  /** A well-formed record (`count` may come out negative), or the decoder's error code. */
  datatype Decoded = Rec(kind: int, addr: nat, count: int, data: seq<Byte>) | Bad(code: int)

  const SREC_EMPTY := 10

  function FirstS(s: string, i: nat): (p: nat)
    requires i <= |s|
    ensures i <= p <= |s|
    decreases |s| - i
  {
    if i == |s| || s[i] == 'S' then i else FirstS(s, i + 1)
  }

  /** Bytes in the address field of a record type. */
  function Width(v: char): nat {
    if v == '0' || v == '1' || v == '5' || v == '9' then 2
    else if v == '2' || v == '8' then 3
    else if v == '3' || v == '7' then 4
    else 0
  }

  /** `srec_decode` */
  function SrecDecode(s: string): Decoded {
    var p := FirstS(s, 0);
    if p + 1 >= |s| then Rec(SREC_EMPTY, 0, 0, [])
    else
      var v := s[p + 1];
      var length := Pair(s, p + 2);
      if length.None? then Bad(-2)
      else if Width(v) == 0 then Bad(-1)
      else
        var count: int := if v == '5' then 0 else length.value - Width(v) - 1;
        var fields := Pairs(s, p + 4, Width(v) + (if count > 0 then count else 0) + 1);
        if fields.None? then Bad(-2)
        else
          var bs := fields.value;
          if bs[|bs| - 1] != 255 - (length.value + Sum(bs[..|bs| - 1])) % 256 then Bad(-3)
          else Rec(v as int - '0' as int, BigEndian(bs[..Width(v)]), count, bs[Width(v)..|bs| - 1])
  }

  // ----- writing

  /** The fields that the length byte counts, but for the check byte. */
  function Fields(addr: nat, data: seq<Byte>): seq<Byte>
    requires addr < WORD
  {
    AddressBytes(addr) + data
  }

  function CheckByte(addr: nat, data: seq<Byte>): Byte
    requires addr < WORD
  {
    255 - (5 + |data| + Sum(Fields(addr, data))) % 256
  }

  /** One S3 record without its line end: length, address, data and check byte in hexadecimal. */
  function Record(addr: nat, data: seq<Byte>): string
    requires addr < WORD && |data| <= 250
  {
    "S3" + Hex2(5 + |data|) + HexBytes(Fields(addr, data) + [CheckByte(addr, data)])
  }

  /** The bytes of every S3 record sum to 0xFF modulo 256. */
  lemma RecordSum(addr: nat, data: seq<Byte>)
    requires addr < WORD && |data| <= 250
    ensures (5 + |data| + Sum(Fields(addr, data) + [CheckByte(addr, data)])) % 256 == 255
  {
    var f, c := Fields(addr, data), CheckByte(addr, data);
    assert (f + [c])[..|f|] == f;
    var t := 5 + |data| + Sum(f);
    assert (t + (255 - t % 256)) % 256 == 255;
  }

  /** The decoder reads a written record back. */
  lemma RecordDecodes(addr: nat, data: seq<Byte>)
    requires addr < WORD && |data| <= 250
    ensures SrecDecode(Record(addr, data)) == Rec(3, addr, |data|, data)
  {
    hide Pair;
    hide Pairs;
    hide HexBytes;
    hide Sum;
    hide BigEndian;
    hide AddressBytes;
    var s := Record(addr, data);
    var f, c := Fields(addr, data), CheckByte(addr, data);
    var bs := f + [c];
    HexBytesChars(bs);
    AddressBytesLength(addr);
    assert s[2..4] == Hex2(5 + |data|);
    PairOfHex(s, 2, 5 + |data|);
    assert s[4..4 + 2 * |bs|] == HexBytes(bs);
    PairsOfHex(s, 4, bs);
    assert FirstS(s, 0) == 0;
    assert bs[..|bs| - 1] == f;
    assert bs[..4] == AddressBytes(addr);
    assert bs[4..|bs| - 1] == data;
    AddressBytesValue(addr);
  }

  lemma AddressBytesLength(a: nat)
    requires a < WORD
    ensures |AddressBytes(a)| == 4
  {
  }

  /** `n` bytes of memory from `addr` on. */
  function Range(src: int -> Byte, addr: int, n: nat): seq<Byte> {
    if n == 0 then [] else Range(src, addr, n - 1) + [src(addr + n - 1)]
  }

  lemma {:induction false} RangeSplit(src: int -> Byte, addr: int, m: nat, n: nat)
    ensures Range(src, addr, m + n) == Range(src, addr, m) + Range(src, addr + m, n)
  {
    if n > 0 {
      RangeSplit(src, addr, m, n - 1);
    }
  }

  lemma {:induction false} RangeLength(src: int -> Byte, addr: int, n: nat)
    ensures |Range(src, addr, n)| == n
    ensures forall k :: 0 <= k < n ==> Range(src, addr, n)[k] == src(addr + k)
  {
    if n > 0 {
      RangeLength(src, addr, n - 1);
    }
  }

  /** The S3 lines for a memory range, sixteen bytes each but the last. */
  function Records(src: int -> Byte, addr: nat, count: nat): string
    requires addr + count <= WORD
    decreases count
  {
    if count == 0 then ""
    else
      var n := if count < SREC_BYTES_PER_RECORD then count else SREC_BYTES_PER_RECORD;
      RangeLength(src, addr, n);
      Record(addr, Range(src, addr, n)) + "\n" + Records(src, addr + n, count - n)
  }

  const SREC3_START := "S0030000FC\n"
  const SREC3_END := "S70500000000FA\n"

  function Saved(src: int -> Byte, addr: nat, count: nat): string
    requires addr + count <= WORD
  {
    SREC3_START + Records(src, addr, count) + SREC3_END
  }

  /**
    * `save_serial`: collects up to sixteen bytes in `data`, writes a record when the line is full or
    * memory is used up, and goes on with the next address.
    */
  method SaveSerial(src: int -> Byte, address0: nat, count0: nat) returns (text: string)
    requires address0 + count0 <= WORD
    ensures text == Saved(src, address0, count0)
  {
    hide Record;
    hide Records;
    hide Sum;
    hide HexBytes;
    hide Range;
    hide Hex2;
    var reclen: nat, checksum: int, address: nat, count: nat := 0, 0, address0, count0;
    var data: seq<char> := "";
    text := SREC3_START;
    ghost var all := Records(src, address0, count0);
    CollectedNone(src, address0);
    while true
      invariant 0 <= reclen < SREC_BYTES_PER_RECORD && (reclen > 0 ==> count > 0)
      invariant address + reclen + count == address0 + count0
      invariant Collected(src, address, reclen, data, checksum)
      invariant text + Records(src, address, reclen + count) == SREC3_START + all
      decreases count
    {
      if count > 0 {
        var c := src(address + reclen);
        CollectedMore(src, address, reclen, data, checksum);
        checksum := checksum + c;
        data := data + Hex2(c);
        reclen := reclen + 1;
        count := count - 1;
      }
      if reclen == SREC_BYTES_PER_RECORD || count == 0 {
        if reclen > 0 {
          RecordsStep(src, address, reclen, count, text);
          var record := FormatRecord(src, address, reclen, data, checksum);
          text := text + record;
        }
        address := address + reclen;
        checksum := 0;
        reclen := 0;
        data := "";
        CollectedNone(src, address);
      }
      if count == 0 { break; }
    }
    RecordsNone(src, address);
    text := text + SREC3_END;
  }

  /** `data` is the text and `checksum` the sum of the `reclen` bytes collected so far. */
  ghost predicate Collected(src: int -> Byte, address: int, reclen: nat, data: string, checksum: int) {
    data == HexBytes(Range(src, address, reclen)) && checksum == Sum(Range(src, address, reclen))
  }

  lemma CollectedNone(src: int -> Byte, address: int)
    ensures Collected(src, address, 0, "", 0)
  {
  }

  lemma CollectedMore(src: int -> Byte, address: int, reclen: nat, data: string, checksum: int)
    requires Collected(src, address, reclen, data, checksum)
    ensures var c := src(address + reclen);
      Collected(src, address, reclen + 1, data + Hex2(c), checksum + c)
  {
    var r := Range(src, address, reclen + 1);
    assert r[..|r| - 1] == Range(src, address, reclen);
  }

  lemma RecordsNone(src: int -> Byte, address: nat)
    requires address <= WORD
    ensures Records(src, address, 0) == ""
  {
  }

  lemma RecordsStep(src: int -> Byte, address: nat, reclen: nat, count: nat, text: string)
    requires 0 < reclen <= SREC_BYTES_PER_RECORD && address + reclen + count <= WORD
    requires reclen == SREC_BYTES_PER_RECORD || count == 0
    ensures |Range(src, address, reclen)| == reclen
    ensures text + Records(src, address, reclen + count) ==
            text + (Record(address, Range(src, address, reclen)) + "\n") + Records(src, address + reclen, count)
  {
    hide Records;
    hide Record;
    hide Range;
    FirstRecord(src, address, reclen, count, "");
    var first, tail := Record(address, Range(src, address, reclen)) + "\n", Records(src, address + reclen, count);
    assert Records(src, address, reclen + count) + "" == Records(src, address, reclen + count);
    assert tail + "" == tail;
    assert text + (first + tail) == text + first + tail;
  }

  /** The check byte from the accumulated sum, and the `sprintf` of the record. */
  method FormatRecord(ghost src: int -> Byte, address: nat, reclen: nat, data: string, sum: int)
    returns (record: string)
    requires 0 < reclen <= SREC_BYTES_PER_RECORD && address + reclen <= WORD
    requires Collected(src, address, reclen, data, sum) && |Range(src, address, reclen)| == reclen
    ensures record == Record(address, Range(src, address, reclen)) + "\n"
  {
    hide Sum;
    hide HexBytes;
    hide Range;
    hide Hex2;
    ghost var bytes := Range(src, address, reclen);
    var length: int, checksum: int := 4 + reclen + 1, sum;
    checksum := checksum + length % 256 + length / 256 % 256;
    var a := AddressBytes(address);
    checksum := checksum + a[3] + a[2] + a[1] + a[0];
    AddressBytesSum(address);
    SumConcat(a, bytes);
    HexBytesConcat(a, bytes);
    var check := 255 - checksum % 256;
    assert check == CheckByte(address, bytes);
    ghost var f := Fields(address, bytes);
    HexBytesPush(f, check);
    var text := HexBytes(a);
    assert HexBytes(f + [check]) == text + data + Hex2(check);
    record := "S3" + Hex2(length) + text + data + Hex2(check) + "\n";
  }

  lemma AddressBytesSum(address: nat)
    requires address < WORD
    ensures var a := AddressBytes(address); Sum(a) == (a[3] as int) + (a[2] as int) + (a[1] as int) + (a[0] as int)
  {
    var a := AddressBytes(address);
    assert a == [a[0]] + [a[1]] + [a[2]] + [a[3]];
    SumConcat([a[0]] + [a[1]] + [a[2]], [a[3]]);
    SumConcat([a[0]] + [a[1]], [a[2]]);
    SumConcat([a[0]], [a[1]]);
  }

  // ----- loading

  /** `read_record`: a line, a NUL or ^C, or the input runs out in the middle of a line. */
  datatype Line = Line(text: string, rest: string) | Stop | Hang

  function ReadRecord(input: string, i: nat): (r: Line)
    requires i <= SREC_MAXRECLEN && i <= |input|
    ensures r.Line? ==> |r.rest| < |input|
    decreases SREC_MAXRECLEN - i
  {
    if i == SREC_MAXRECLEN then Line(input[..i], input[i..])
    else if i == |input| then Hang
    else if input[i] == '\r' || input[i] == '\n' then Line(input[..i], input[i + 1..])
    else if input[i] == '\0' || input[i] == 3 as char then Stop
    else ReadRecord(input, i + 1)
  }

  /** Memory and the lowest and highest address loaded so far. */
  datatype Loading = Loading(mem: map<int, Byte>, start: int, end: int)

  /** Where flash is, and what its driver returns for writing some bytes to an address. */
  datatype Flash = Flash(holds: int -> bool, write: (int, seq<Byte>) -> int) {
    /** The driver refuses to put these bytes there. */
    predicate Refuses(at: int, data: seq<Byte>) {
      holds(at) && write(at, data) != 0
    }
  }

  /** How a load ends; `Wild` stands for a record whose byte count is negative. */
  datatype Loaded = Done(entry: nat, size: int, mem: map<int, Byte>) | Aborted | Waiting | Wild

  function Put(mem: map<int, Byte>, at: int, data: seq<Byte>): map<int, Byte> {
    if data == [] then mem
    else Put(mem, at, data[..|data| - 1])[(at + |data| - 1) % WORD := data[|data| - 1]]
  }

  function Store(st: Loading, at: int, data: seq<Byte>): Loading {
    var last := (at + |data| - 1) % WORD;
    Loading(Put(st.mem, at, data), if at < st.start then at else st.start, if last > st.end then last else st.end)
  }

  predicate IsData(kind: int) {
    kind == 1 || kind == 2 || kind == 3
  }

  predicate IsEnd(kind: int) {
    kind == 7 || kind == 8 || kind == 9
  }

  /** The rest of a download. */
  function Load(input: string, offset: int, flash: Flash, st: Loading): Loaded
    decreases |input|
  {
    match ReadRecord(input, 0)
    case Hang => Waiting
    case Stop => Aborted
    case Line(text, rest) =>
      match SrecDecode(text)
      case Bad(_) => Aborted
      case Rec(kind, addr, count, data) =>
        if IsData(kind) then
          var at := (addr + offset) % WORD;
          if count < 0 then Wild else if flash.Refuses(at, data) then Aborted
          else Load(rest, offset, flash, Store(st, at, data))
        else if IsEnd(kind) then Done(addr, (st.end - st.start + 1) % WORD, st.mem)
        else Load(rest, offset, flash, st)
  }

  const NOTHING_LOADED := WORD - 1

  /** `load_serial` */
  method LoadSerial(input0: string, offset: int, flash: Flash, mem0: map<int, Byte>) returns (r: Loaded)
    ensures r == Load(input0, offset, flash, Loading(mem0, NOTHING_LOADED, 0))
  {
    hide ReadRecord;
    hide SrecDecode;
    hide Put;
    var input, mem, startAddr, endAddr := input0, mem0, NOTHING_LOADED, 0;
    while true
      invariant Load(input, offset, flash, Loading(mem, startAddr, endAddr))
                == Load(input0, offset, flash, Loading(mem0, NOTHING_LOADED, 0))
      decreases |input|
    {
      var line := ReadRecord(input, 0);
      if line.Hang? { return Waiting; }
      if line.Stop? { return Aborted; }
      var record := SrecDecode(line.text);
      if record.Bad? { return Aborted; }
      if IsData(record.kind) {
        if record.count < 0 { return Wild; }
        var storeAddr := (record.addr + offset) % WORD;
        if flash.holds(storeAddr) {
          var rc := flash.write(storeAddr, record.data);
          if rc != 0 { return Aborted; }
        }
        mem := Put(mem, storeAddr, record.data);
        if storeAddr < startAddr {
          startAddr := storeAddr;
        }
        var last := (storeAddr + |record.data| - 1) % WORD;
        if last > endAddr {
          endAddr := last;
        }
      } else if IsEnd(record.kind) {
        return Done(record.addr, (endAddr - startAddr + 1) % WORD, mem);
      }
      input := line.rest;
    }
  }

  // ----- round trip

  lemma {:induction false} ReadLine(text: string, rest: string, i: nat)
    requires i <= |text| < SREC_MAXRECLEN && forall c :: c in text ==> c > '\r'
    ensures ReadRecord(text + "\n" + rest, i) == Line(text, rest)
    decreases |text| - i
  {
    var input := text + "\n" + rest;
    if i < |text| {
      assert input[i] == text[i] && text[i] in text;
      ReadLine(text, rest, i + 1);
    } else {
      assert input[i] == '\n' && input[..i] == text && input[i + 1..] == rest;
    }
  }

  lemma RecordLine(addr: nat, data: seq<Byte>)
    requires addr < WORD && |data| <= SREC_BYTES_PER_RECORD
    ensures |Record(addr, data)| < SREC_MAXRECLEN && forall c :: c in Record(addr, data) ==> c > '\r'
  {
    HexBytesChars(Fields(addr, data) + [CheckByte(addr, data)]);
    HexBytesChars([5 + |data|]);
    assert HexBytes([5 + |data|]) == HexBytes([5 + |data|][..0]) + Hex2(5 + |data|) == Hex2(5 + |data|);
    AddressBytesLength(addr);
  }

  /** What has been loaded when the records before `addr` are in: an unbroken range, if anything. */
  ghost predicate LoadedUpTo(st: Loading, from: int, to: int) {
    if from == to then st.start == NOTHING_LOADED && st.end == 0
    else st.start == from && st.end == to - 1
  }

  lemma {:induction false} PutConcat(mem: map<int, Byte>, at: int, a: seq<Byte>, b: seq<Byte>)
    requires 0 <= at && at + |a| + |b| <= WORD
    ensures Put(mem, at, a + b) == Put(Put(mem, at, a), at + |a|, b)
  {
    if b == [] {
      assert a + b == a;
    } else {
      var front := b[..|b| - 1];
      assert (a + b)[..|a + b| - 1] == a + front && (a + b)[|a + b| - 1] == b[|b| - 1];
      PutConcat(mem, at, a, front);
    }
  }

  /** Loading the lines of a range, shifted by `offset`, copies exactly that range. */
  lemma {:induction false} LoadRecords(src: int -> Byte, from: nat, addr: nat, count: nat, offset: int, flash: Flash,
                                       st: Loading, rest: string)
    returns (st': Loading)
    requires from <= addr && addr + count <= WORD && 0 <= from + offset && addr + count + offset <= WORD
    requires LoadedUpTo(st, from + offset, addr + offset) && forall at, data :: !flash.Refuses(at, data)
    ensures LoadedUpTo(st', from + offset, addr + count + offset)
    ensures st'.mem == Put(st.mem, addr + offset, Range(src, addr, count))
    ensures Load(Records(src, addr, count) + rest, offset, flash, st) == Load(rest, offset, flash, st')
    decreases count
  {
    hide Record;
    hide Records;
    hide Range;
    hide Put;
    hide Load;
    hide LoadedUpTo;
    if count == 0 {
      NothingToLoad(src, addr, offset, flash, st, rest);
      st' := st;
    } else {
      var n := if count < SREC_BYTES_PER_RECORD then count else SREC_BYTES_PER_RECORD;
      RangeLength(src, addr, n);
      var data := Range(src, addr, n);
      var tail := Records(src, addr + n, count - n);
      FirstRecord(src, addr, n, count - n, rest);
      var mid := LoadOne(addr, data, offset, flash, st, tail + rest, from);
      st' := LoadRecords(src, from, addr + n, count - n, offset, flash, mid, rest);
      PutRange(st.mem, src, addr, n, count - n, addr + offset);
    }
  }

  lemma NothingToLoad(src: int -> Byte, addr: nat, offset: int, flash: Flash, st: Loading, rest: string)
    requires addr <= WORD
    ensures Records(src, addr, 0) + rest == rest && st.mem == Put(st.mem, addr + offset, Range(src, addr, 0))
  {
  }

  lemma FirstRecord(src: int -> Byte, addr: nat, n: nat, more: nat, rest: string)
    requires 0 < n <= SREC_BYTES_PER_RECORD && addr + n + more <= WORD && (n == SREC_BYTES_PER_RECORD || more == 0)
    ensures |Range(src, addr, n)| == n
    ensures Records(src, addr, n + more) + rest
            == Record(addr, Range(src, addr, n)) + "\n" + (Records(src, addr + n, more) + rest)
  {
    hide Range;
    hide Record;
    RangeLength(src, addr, n);
  }

  lemma PutRange(mem: map<int, Byte>, src: int -> Byte, addr: int, m: nat, n: nat, at: int)
    requires 0 <= at && at + m + n <= WORD
    ensures Put(mem, at, Range(src, addr, m + n))
            == Put(Put(mem, at, Range(src, addr, m)), at + m, Range(src, addr + m, n))
  {
    hide Put;
    hide Range;
    RangeSplit(src, addr, m, n);
    RangeLength(src, addr, m);
    RangeLength(src, addr + m, n);
    PutConcat(mem, at, Range(src, addr, m), Range(src, addr + m, n));
  }

  lemma LoadOne(addr: nat, data: seq<Byte>, offset: int, flash: Flash, st: Loading, rest: string, from: nat)
    returns (mid: Loading)
    requires 0 < |data| <= SREC_BYTES_PER_RECORD && from <= addr && addr + |data| <= WORD
    requires 0 <= from + offset && addr + |data| + offset <= WORD && LoadedUpTo(st, from + offset, addr + offset)
    requires !flash.Refuses(addr + offset, data)
    ensures mid == Store(st, addr + offset, data) && LoadedUpTo(mid, from + offset, addr + |data| + offset)
    ensures Load(Record(addr, data) + "\n" + rest, offset, flash, st) == Load(rest, offset, flash, mid)
  {
    hide Record;
    hide SrecDecode;
    hide ReadRecord;
    hide Put;
    assert (addr + offset) % WORD == addr + offset;
    RecordLine(addr, data);
    ReadLine(Record(addr, data), rest, 0);
    RecordDecodes(addr, data);
    mid := Store(st, addr + offset, data);
  }

  lemma StartDecodes()
    ensures SrecDecode("S0030000FC") == Rec(0, 0, 0, [])
  {
    hide Sum;
    hide BigEndian;
    hide Pairs;
    var s := "S0030000FC";
    var bs: seq<Byte> := [0, 0, 252];
    ThreePairs(s, 4, 0, 0, 252);
    assert FirstS(s, 0) == 0 && Pair(s, 2) == Some(3);
    assert bs[..2] == [0, 0] && bs[2..2] == [];
    ZeroBytes(2);
  }

  lemma EndDecodes()
    ensures SrecDecode("S70500000000FA") == Rec(7, 0, 0, [])
  {
    hide Sum;
    hide BigEndian;
    hide Pairs;
    var s := "S70500000000FA";
    var bs: seq<Byte> := [0, 0, 0, 0, 250];
    ThreePairs(s, 4, 0, 0, 0);
    FivePairs(s, 4, 0, 0, 0, 0, 250);
    assert FirstS(s, 0) == 0 && Pair(s, 2) == Some(5);
    assert bs[..4] == [0, 0, 0, 0] && bs[4..4] == [];
    ZeroBytes(4);
  }

  /** Zero bytes have sum and value zero, however many. */
  lemma {:induction false} ZeroBytes(n: nat)
    ensures var z: seq<Byte> := seq(n, _ => 0); Sum(z) == 0 && BigEndian(z) == 0
    ensures n == 2 ==> seq(n, _ => 0) == [0, 0]
    ensures n == 4 ==> seq(n, _ => 0) == [0, 0, 0, 0]
  {
    if n > 0 {
      ZeroBytes(n - 1);
      var z: seq<Byte> := seq(n, _ => 0);
      assert z[..n - 1] == seq(n - 1, _ => 0);
    }
  }

  lemma ThreePairs(s: string, i: nat, a: Byte, b: Byte, c: Byte)
    requires Pair(s, i) == Some(a) && Pair(s, i + 2) == Some(b) && Pair(s, i + 4) == Some(c)
    ensures Pairs(s, i, 3) == Some([a, b, c])
  {
    hide Pair;
    assert Pairs(s, i, 0).value == [];
    assert Pairs(s, i, 1).value == [a];
    assert Pairs(s, i, 2).value == [a, b];
    assert Pairs(s, i, 3).value == [a, b, c];
  }

  lemma FivePairs(s: string, i: nat, a: Byte, b: Byte, c: Byte, d: Byte, e: Byte)
    requires Pairs(s, i, 3) == Some([a, b, c]) && Pair(s, i + 6) == Some(d) && Pair(s, i + 8) == Some(e)
    ensures Pairs(s, i, 5) == Some([a, b, c, d, e])
  {
    hide Pair;
    assert Pairs(s, i, 4).value == [a, b, c, d];
    assert Pairs(s, i, 5).value == [a, b, c, d, e];
  }

  /**
    * Round trip: what `save_serial` writes, `load_serial` with an offset puts back byte for byte at the
    * shifted address, and nothing else, as long as the flash driver takes what is meant for flash. The file
    * size it reports is the count in a 32-bit word, but 2 for an empty range.
    */
  lemma SaveLoadRoundTrip(src: int -> Byte, addr: nat, count: nat, offset: int, flash: Flash, mem: map<int, Byte>)
    requires addr + count <= WORD && 0 <= addr + offset && addr + count + offset <= WORD
    requires forall at, data :: !flash.Refuses(at, data)
    ensures var r := Load(Saved(src, addr, count), offset, flash, Loading(mem, NOTHING_LOADED, 0));
      && r.Done? && r.entry == 0
      && r.mem == Put(mem, addr + offset, Range(src, addr, count))
      && r.size == (if count == 0 then 2 else count % WORD)
  {
    hide Records;
    hide Load;
    var st := Loading(mem, NOTHING_LOADED, 0);
    var records := Records(src, addr, count);
    assert Saved(src, addr, count) == "S0030000FC" + "\n" + (records + SREC3_END);
    SkipStart(records + SREC3_END, offset, flash, st);
    var st' := LoadRecords(src, addr, addr, count, offset, flash, st, SREC3_END);
    AtEnd(offset, flash, st');
  }

  /** The first bytes that the flash driver refuses end the download. */
  lemma RefusalAborts(addr: nat, data: seq<Byte>, offset: int, flash: Flash, st: Loading, rest: string)
    requires |data| <= SREC_BYTES_PER_RECORD && addr + |data| <= WORD && addr < WORD
    requires flash.Refuses((addr + offset) % WORD, data)
    ensures Load(Record(addr, data) + "\n" + rest, offset, flash, st) == Aborted
  {
    hide Record;
    hide SrecDecode;
    hide ReadRecord;
    RecordLine(addr, data);
    ReadLine(Record(addr, data), rest, 0);
    RecordDecodes(addr, data);
  }

  lemma SkipStart(rest: string, offset: int, flash: Flash, st: Loading)
    ensures Load("S0030000FC" + "\n" + rest, offset, flash, st) == Load(rest, offset, flash, st)
  {
    hide SrecDecode;
    hide ReadRecord;
    ReadLine("S0030000FC", rest, 0);
    StartDecodes();
  }

  lemma AtEnd(offset: int, flash: Flash, st: Loading)
    ensures Load(SREC3_END, offset, flash, st) == Done(0, (st.end - st.start + 1) % WORD, st.mem)
  {
    hide SrecDecode;
    hide ReadRecord;
    assert SREC3_END == "S70500000000FA" + "\n" + "";
    ReadLine("S70500000000FA", "", 0);
    EndDecodes();
  }

  /** What it means to put bytes: they are there, and every other address is as before. */
  lemma {:induction false} PutExact(mem: map<int, Byte>, at: int, data: seq<Byte>, a: int)
    requires 0 <= at && at + |data| <= WORD
    ensures var m := Put(mem, at, data);
      if at <= a < at + |data| then a in m && m[a] == data[a - at]
      else (a in m <==> a in mem) && (a in mem ==> m[a] == mem[a])
  {
    if data != [] {
      PutExact(mem, at, data[..|data| - 1], a);
    }
  }
}
