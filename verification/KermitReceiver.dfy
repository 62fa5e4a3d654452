/**
  * The receiver of cmd/load.c as it runs: globals, reply buffer and the loop of `k_recv`, driven by the
  * characters that `getc` delivers.  It is proved against the session of `KermitSession`.
  */
module KermitReceiver {
  import opened Bytes
  import opened KermitCoding
  import opened KermitSession
  import opened KermitFrame

  /** How one frame ended in `k_recv`: out of characters, `packet_error`, or check and terminator right. */
  datatype Verdict = OutOfInput | PacketError | Good

  class Receiver {
    const base: int                 // bin_start_address
    var mem: map<int, Byte>
    var addr: int                   // os_data_addr
    var savedAddr: int
    var escape: bool                // k_data_escape
    var savedEscape: bool
    var hisEol: Byte
    var hisPadCount: nat
    var hisPadChar: Byte
    var hisQuote: Byte
    var n: nat
    var lastN: int
    const ab: array<Byte>           // a_b, the reply buffer
    const sendParms: array<Byte>
    var sendPtr: nat
    var sent: seq<Byte>             // everything given to putc

    constructor (start: int, memory: map<int, Byte>)
      ensures Valid() && base == start && mem == memory && sent == [] && fresh(ab) && fresh(sendParms)
    {
      base, mem, addr, savedAddr, escape, savedEscape := start, memory, start, start, false, false;
      hisEol, hisPadCount, hisPadChar, hisQuote := END_CHAR, 0, 0, K_ESCAPE;
      n, lastN, sendPtr, sent := 0, -1, 0, [];
      ab := new Byte[24](_ => 0);
      sendParms := new Byte[SEND_DATA_SIZE](_ => 0);
    }

    ghost predicate Valid()
      reads this
    {
      && ab.Length == 24 && sendParms.Length == SEND_DATA_SIZE && ab != sendParms
      && lastN < 224 && n == if lastN < 0 then 0 else lastN
    }

    function CurrentParms(): Parms
      reads this
    {
      Parms(hisEol, hisPadCount, hisPadChar, hisQuote)
    }

    /** The session these globals stand for. */
    function View(): Session
      reads this
    {
      Session(mem, addr, escape, savedAddr, savedEscape, lastN, CurrentParms())
    }

    method KDataSave()
      modifies this`savedEscape, this`savedAddr
      ensures View() == Save(old(View()))
    {
      savedEscape := escape;
      savedAddr := addr;
    }

    method KDataRestore()
      modifies this`escape, this`addr
      ensures View() == Restore(old(View()))
    {
      escape := savedEscape;
      addr := savedAddr;
    }

    method BinDataChar(c: Byte)
      modifies this`mem, this`addr
      ensures View() == Write(old(View()), c)
    {
      mem := mem[addr := c];
      addr := addr + 1;
    }

    method KDataChar(c: Byte)
      modifies this`mem, this`addr, this`escape
      ensures View() == Char(old(View()), c)
    {
      if escape {
        BinDataChar(KTrans(c));
        escape := false;
      } else {
        if c == hisQuote {
          escape := true;
        } else {
          BinDataChar(c);
        }
      }
    }

    /** Sum up to the NUL, folded to six bits. */
    method Chk1(from: nat, ghost end: nat) returns (r: nat)
      requires from <= end < ab.Length && ab[end] == 0
      requires forall k :: from <= k < end ==> ab[k] != 0
      ensures 32 + r == Check(Sum(ab[from..end]))
    {
      var total: nat, i := 0, from;
      while ab[i] != 0
        invariant from <= i <= end
        invariant total == Sum(ab[from..i])
        decreases end - i
      {
        assert ab[from..i + 1][..i - from] == ab[from..i];
        total := total + ab[i];
        i := i + 1;
      }
      r := (total + (total / 64) % 4) % 64;
    }

    /** `send_pad`, then the reply buffer up to its NUL. */
    method S1SendPacket(ghost end: nat)
      requires end < ab.Length && ab[end] == 0 && forall k :: 0 <= k < end ==> ab[k] != 0
      modifies this`sent
      ensures sent == old(sent) + (Pads(CurrentParms()) + ab[..end])
    {
      var count := hisPadCount;
      ghost var parms := CurrentParms();
      while count > 0
        invariant 0 <= count <= hisPadCount
        invariant sent == old(sent) + Pads(parms)[..hisPadCount - count]
      {
        assert Pads(parms)[..hisPadCount - count + 1] == Pads(parms)[..hisPadCount - count] + [hisPadChar];
        sent := sent + [hisPadChar];
        count := count - 1;
      }
      assert Pads(parms)[..hisPadCount] == Pads(parms);
      ghost var padded := sent;
      var i := 0;
      while ab[i] != 0
        invariant 0 <= i <= end
        invariant sent == padded + ab[..i]
        decreases end - i
      {
        sent := sent + [ab[i]];
        i := i + 1;
      }
    }

    /**
      * The end of every reply: the check goes where the NUL was, then the terminator and the final NUL.
      * `length` is the index of the last byte written.
      */
    method FinishReply(length: nat)
      requires Valid() && 3 <= length && length + 3 < ab.Length
      requires ab[0] == START_CHAR && forall k :: 0 <= k <= length ==> ab[k] != 0
      modifies this`sent, ab
      ensures sent == old(sent) + (Pads(CurrentParms()) + Seal(old(ab[1..length + 1]), hisEol))
    {
      hide Sum;
      ghost var head := ab[1..length + 1];
      ab[length + 1] := 0;
      assert ab[1..length + 1] == head;
      var c := Chk1(1, length + 1);
      ab[length + 1] := c + 32;
      ab[length + 2] := hisEol;
      ab[length + 3] := 0;
      assert ab[1..length + 1] == head;
      ghost var end := if hisEol == 0 then length + 2 else length + 3;
      S1SendPacket(end);
      assert ab[..end] == Seal(head, hisEol);
    }

    method SendShort(kind: Byte)
      requires Valid() && kind != 0
      modifies this`sent, ab
      ensures sent == old(sent) + (Pads(CurrentParms()) + Seal(Head(n, kind, []), hisEol))
    {
      ab[0] := START_CHAR;
      ab[1] := 35;
      ab[2] := n + 32;
      ab[3] := kind;
      assert ab[1..4] == Head(n, kind, []);
      FinishReply(3);
    }

    /** `a_b[++length] = c`, the `k`-th parameter of the answer. */
    method PutParm(k: nat, c: Byte) returns (length: nat)
      requires Valid() && k < 9 && c == ACK_PARMS[k] && ab[4..4 + k] == ACK_PARMS[..k]
      modifies ab
      ensures length == 4 + k && ab[4..5 + k] == ACK_PARMS[..k + 1]
    {
      length := 4 + k;
      ab[length] := c;
      assert ab[4..4 + k] == ACK_PARMS[..k];
    }

    /** One answer for each received parameter, and four bytes for the capabilities mask. */
    method AnswerParms(bytes: nat) returns (length: nat)
      requires Valid()
      modifies ab
      ensures length == 3 + |AckField(bytes)| && ab[4..length + 1] == AckField(bytes)
    {
      length := 3;
      if bytes < 1 { return; }
      length := PutParm(0, 94 + 32);                // MAXL
      if bytes < 2 { return; }
      length := PutParm(1, 1 + 32);                 // TIME
      if bytes < 3 { return; }
      length := PutParm(2, 0 + 32);                 // NPAD
      if bytes < 4 { return; }
      length := PutParm(3, 0x40);                   // PADC
      if bytes < 5 { return; }
      length := AnswerMore(bytes);
    }

    method AnswerMore(bytes: nat) returns (length: nat)
      requires Valid() && bytes >= 5 && ab[4..8] == ACK_PARMS[..4]
      modifies ab
      ensures length == 3 + |AckField(bytes)| && ab[4..length + 1] == AckField(bytes)
    {
      length := PutParm(4, END_CHAR + 32);          // EOL
      if bytes < 6 { return; }
      length := PutParm(5, '#' as int);             // QCTL
      if bytes < 7 { return; }
      length := PutParm(6, 'N' as int);             // QBIN
      if bytes < 8 { return; }
      length := PutParm(7, '1' as int);             // CHKT
      if bytes < 9 { return; }
      length := PutParm(8, 'N' as int);             // REPT
      if bytes < 10 { return; }
      ab[13], ab[14], ab[15], ab[16] := 2 + 32, 0 + 32, 94 + 32, 94 + 32;  // CAPAS
      length := 16;
      assert ab[4..13] == ACK_PARMS;
      assert ab[4..17] == ab[4..13] + ab[13..17];
    }

    /** The sender's parameters, defaults first; QCTL is the only one that `k_data_char` depends on. */
    method CrackParms(bytes: nat, ghost field: seq<Byte>)
      requires Valid() && bytes == ParmCount(field) && forall k :: 0 <= k < bytes ==> sendParms[k] == field[k]
      modifies this`hisEol, this`hisPadCount, this`hisPadChar, this`hisQuote
      ensures CurrentParms() == ParmsOf(field)
    {
      hisEol, hisPadCount, hisPadChar, hisQuote := END_CHAR, 0, 0, K_ESCAPE;
      if bytes >= 3 { hisPadCount := Untochar(sendParms[2]); }
      if bytes >= 4 { hisPadChar := KTrans(sendParms[3]); }
      if bytes >= 5 { hisEol := Untochar(sendParms[4]); }
      if bytes >= 6 { hisQuote := sendParms[5]; }
    }

    /** `handle_send_packet`: crack the sender's parameters and answer with ours. */
    method HandleSendPacket(ghost field: seq<Byte>)
      requires Valid() && StoredParms(field)
      modifies this`sent, this`sendPtr, this`hisEol, this`hisPadCount, this`hisPadChar, this`hisQuote, ab
      ensures CurrentParms() == ParmsOf(field)
      ensures sent == old(sent) + (Pads(CurrentParms()) + Seal(Head(n, ACK_TYPE, AckField(ParmCount(field))), hisEol))
    {
      if sendPtr == SEND_DATA_SIZE - 1 {
        sendPtr := sendPtr - 1;
      }
      CrackParms(sendPtr, field);
      var length := AnswerParms(sendPtr);
      AckFieldPrintable(sendPtr);
      FinishAck(length, AckField(sendPtr));
    }

    /** The buffer holds the S packet's data; once full, its last byte is overwritten again and again. */
    ghost predicate StoredParms(field: seq<Byte>)
      reads this, sendParms
      requires sendParms.Length == SEND_DATA_SIZE
    {
      && sendPtr == (if |field| < SEND_DATA_SIZE then |field| else SEND_DATA_SIZE - 1)
      && forall k :: 0 <= k < sendPtr ==> sendParms[k] == field[k]
    }

    method FinishAck(length: nat, ghost field: seq<Byte>)
      requires Valid() && |field| <= 13 && length == 3 + |field| && ab[4..length + 1] == field
      requires forall c :: c in field ==> c >= 32
      modifies this`sent, ab
      ensures sent == old(sent) + (Pads(CurrentParms()) + Seal(Head(n, ACK_TYPE, field), hisEol))
    {
      hide Seal;
      ab[0] := START_CHAR;
      ab[1] := length + 32;
      ab[2] := n + 32;
      ab[3] := ACK_TYPE;
      assert ab[4..length + 1] == field;
      assert forall k :: 4 <= k <= length ==> ab[k] == field[k - 4] && field[k - 4] in field;
      assert ab[1..length + 1] == Head(n, ACK_TYPE, field);
      FinishReply(length);
    }

    /** The session just before `packet_error` or the acknowledgement, for a frame read as `a`. */
    ghost function Before(s: Session, a: Attempt): Session {
      match a
      case BadHeader => s
      case Refused(m, data) => Chars(Checkpoint(s, m), data)
      case Taken(m, kind, field) => if kind == DATA_TYPE then Chars(Checkpoint(s, m), field) else Checkpoint(s, m)
    }

    /** What a frame reader owes: its verdict and the session agree with the frame as parsed. */
    ghost predicate Agrees(s: Session, parsed: Parsed, verdict: Verdict, pos: nat, kind: Byte)
      reads this, sendParms
      requires sendParms.Length == SEND_DATA_SIZE
    {
      match parsed
      case Waiting => verdict == OutOfInput
      case Got(a, next) =>
        && pos == next && View() == Before(s, a)
        && verdict == (if a.Taken? then Good else PacketError)
        && (a.Taken? ==> kind == a.kind && (kind == SEND_TYPE ==> StoredParms(a.field)))
    }

    /** `*send_ptr++ = c`, backed off when the buffer is full. */
    method StoreParm(c: Byte, ghost field: seq<Byte>)
      requires Valid() && StoredParms(field)
      modifies this`sendPtr, sendParms
      ensures StoredParms(field + [c])
    {
      sendParms[sendPtr] := c;
      sendPtr := sendPtr + 1;
      if sendPtr >= SEND_DATA_SIZE {
        sendPtr := sendPtr - 1;
      }
    }

    /** A repeated sequence number restores the data state, a new one checkpoints it. */
    method NewSequence(m: nat)
      requires Valid() && m < 224
      modifies this`addr, this`escape, this`savedAddr, this`savedEscape, this`lastN, this`n
      ensures Valid() && View() == Checkpoint(old(View()), m) && n == m && lastN == m
    {
      n := m;
      if n == lastN {
        KDataRestore();
      } else {
        lastN := n;
        KDataSave();
      }
    }

    /** The characters `field` of a packet have been passed on, starting in session `s`. */
    ghost predicate PassedOn(kind: Byte, s: Session, field: seq<Byte>)
      reads this, sendParms
      requires sendParms.Length == SEND_DATA_SIZE
    {
      && View() == (if kind == DATA_TYPE then Chars(s, field) else s)
      && (kind == SEND_TYPE ==> StoredParms(field))
    }

    method PassOn(kind: Byte, c: Byte, ghost s: Session, ghost field: seq<Byte>)
      requires Valid() && PassedOn(kind, s, field)
      modifies this`mem, this`addr, this`escape, this`sendPtr, sendParms
      ensures PassedOn(kind, s, field + [c])
    {
      assert (field + [c])[..|field|] == field;
      if kind == DATA_TYPE {
        KDataChar(c);
      } else if kind == SEND_TYPE {
        StoreParm(c, field);
      }
    }

    /** The data characters: all of them (`Good`), or up to the first control character. */
    method ReadData(input: seq<Byte>, ghost p: nat, kind: Byte, i: nat, length0: int, sum0: nat, ghost e: nat)
      returns (verdict: Verdict, pos: nat, sum: nat)
      requires Valid() && p <= i <= |input| && sum0 == Sum(input[p..i]) && sendPtr == 0
      requires i <= e && e == i + if length0 > 1 then length0 - 1 else 0
      modifies this`mem, this`addr, this`escape, this`sendPtr, sendParms
      ensures pos == FieldEnd(input, i, e) && sum == Sum(input[p..pos]) && PassedOn(kind, old(View()), input[i..pos])
      ensures verdict == if pos == e then Good else if pos == |input| then OutOfInput else PacketError
    {
      hide Chars;
      hide Sum;
      CharsNone(View());
      var length := length0;
      pos, sum := i, sum0;
      while length > 1 && pos < |input| && input[pos] >= 32
        invariant i <= pos <= e && pos <= |input| && e == pos + if length > 1 then length - 1 else 0
        invariant sum == Sum(input[p..pos])
        invariant FieldEnd(input, i, e) == FieldEnd(input, pos, e)
        invariant PassedOn(kind, old(View()), input[i..pos])
      {
        var c := input[pos];
        SumPush(input, p, pos);
        assert input[i..pos + 1] == input[i..pos] + [c];
        PassOn(kind, c, old(View()), input[i..pos]);
        pos, sum, length := pos + 1, sum + c, length - 1;
      }
      verdict := if length <= 1 then Good else if pos == |input| then OutOfInput else PacketError;
    }

    /** The data characters, the check byte and the terminator (`length` counts data and check byte). */
    method ReadField(input: seq<Byte>, ghost p: nat, kind: Byte, i: nat, length: int, sum0: nat, ghost s: Session)
      returns (verdict: Verdict, pos: nat)
      requires Valid() && p <= i <= |input| && sum0 == Sum(input[p..i]) && sendPtr == 0 && lastN >= 0
      requires View() == Checkpoint(s, n)
      modifies this`mem, this`addr, this`escape, this`sendPtr, sendParms
      ensures Agrees(s, ParseField(input, p, n, kind, i, i + if length > 1 then length - 1 else 0), verdict, pos, kind)
    {
      hide Chars;
      hide Sum;
      hide FieldEnd;
      CharsNone(Checkpoint(s, n));
      var sum;
      verdict, pos, sum := ReadData(input, p, kind, i, length, sum0, i + if length > 1 then length - 1 else 0);
      if verdict == OutOfInput { return; }
      if verdict == PacketError { return PacketError, pos + 1; }
      if pos == |input| { return OutOfInput, pos; }
      var c := input[pos];
      pos := pos + 1;
      if c < 32 { return PacketError, pos; }
      if c != Check(sum) { return PacketError, pos; }
      if pos == |input| { return OutOfInput, pos; }
      c := input[pos];
      pos := pos + 1;
      verdict := if c != END_CHAR then PacketError else Good;
    }

    /** The extended header of a long packet, then its field. */
    method ReadLong(input: seq<Byte>, ghost p: nat, kind: Byte, i: nat, sum0: nat, ghost s: Session)
      returns (verdict: Verdict, pos: nat)
      requires Valid() && i == p + 3 <= |input| && sum0 == Sum(input[p..i]) && sendPtr == 0 && lastN >= 0
      requires View() == Checkpoint(s, n)
      modifies this`mem, this`addr, this`escape, this`sendPtr, sendParms
      ensures Agrees(s, ParseLong(input, p, n, kind), verdict, pos, kind)
    {
      hide Chars;
      hide Sum;
      hide ParseField;
      CharsNone(Checkpoint(s, n));
      var sum: nat := sum0;
      if i == |input| { return OutOfInput, i; }
      var hi := input[i];
      if hi < 32 { return PacketError, i + 1; }
      sum := sum + hi;
      if i + 1 == |input| { return OutOfInput, i; }
      var lo := input[i + 1];
      if lo < 32 { return PacketError, i + 2; }
      sum := sum + lo;
      SumPush(input, p, i);
      SumPush(input, p, i + 1);
      if i + 2 == |input| { return OutOfInput, i; }
      var c := input[i + 2];
      if c < 32 { return PacketError, i + 3; }
      if c != Check(sum) { return PacketError, i + 3; }
      SumPush(input, p, i + 2);
      sum := sum + c;
      verdict, pos := ReadField(input, p, kind, i + 3, (hi as int - 32) * 95 + (lo as int - 32), sum, s);
    }

    /** The packet type and what follows it. */
    method ReadBody(input: seq<Byte>, p: nat, ghost s: Session) returns (verdict: Verdict, pos: nat, kind: Byte)
      requires Valid() && p + 2 <= |input| && sendPtr == 0 && lastN >= 0 && View() == Checkpoint(s, n)
      modifies this`mem, this`addr, this`escape, this`sendPtr, sendParms
      ensures Agrees(s, ParseBody(input, p, n), verdict, pos, kind)
    {
      hide Chars;
      hide ParseField;
      hide ParseLong;
      CharsNone(Checkpoint(s, n));
      if p + 2 == |input| { return OutOfInput, p, 0; }
      kind := input[p + 2];
      if kind < 32 { return PacketError, p + 3, kind; }
      var sum: nat := input[p] as int + input[p + 1] as int + kind as int;
      assert input[p..p + 3] == [input[p]] + [input[p + 1]] + [kind];
      SumConcat([input[p]] + [input[p + 1]], [kind]);
      SumConcat([input[p]], [input[p + 1]]);
      var length: int := input[p] as int - 32 - 2;
      if length == -2 {
        verdict, pos := ReadLong(input, p, kind, p + 3, sum, s);
      } else {
        verdict, pos := ReadField(input, p, kind, p + 3, length, sum, s);
      }
    }

    /** One frame, from the character after START_CHAR on. */
    method GetPacket(input: seq<Byte>, p: nat) returns (verdict: Verdict, pos: nat, kind: Byte)
      requires Valid() && p <= |input|
      modifies this`mem, this`addr, this`escape, this`savedAddr, this`savedEscape, this`lastN, this`n, this`sendPtr,
               sendParms
      ensures Valid()
      ensures Agrees(old(View()), ParseAt(input, p), verdict, pos, kind)
    {
      hide Chars;
      hide ParseBody;
      ghost var s := View();
      sendPtr := 0;
      if p == |input| { return OutOfInput, p, 0; }
      if input[p] < 32 { return PacketError, p + 1, 0; }
      if p + 1 == |input| { return OutOfInput, p, 0; }
      if input[p + 1] < 32 { return PacketError, p + 2, 0; }
      NewSequence(input[p + 1] - 32);
      verdict, pos, kind := ReadBody(input, p, s);
    }

    /** The rest of the loop of `k_recv` for a frame: restore and refuse it, or acknowledge it. */
    method Answer(verdict: Verdict, kind: Byte, ghost s: Session, ghost a: Attempt) returns (done: bool)
      requires Valid() && verdict != OutOfInput && View() == Before(s, a)
      requires verdict == (if a.Taken? then Good else PacketError)
      requires a.Taken? ==> kind == a.kind && (kind == SEND_TYPE ==> StoredParms(a.field)) && lastN == a.n
      modifies this`addr, this`escape, this`sent, this`sendPtr, this`hisEol, this`hisPadCount, this`hisPadChar,
               this`hisQuote, ab
      ensures Valid() && View() == Step(s, a) && done == IsBreak(a)
      ensures sent == old(sent) + Reply(View(), a)
    {
      done := false;
      if verdict == PacketError {
        KDataRestore();
        SendShort(NACK_TYPE);
      } else if kind == SEND_TYPE {
        HandleSendPacket(if a.Taken? then a.field else []);
      } else {
        SendShort(ACK_TYPE);
        if kind == BREAK_TYPE {
          done := true;
        }
      }
    }

    /** One turn of the main loop, from START_CHAR to the reply. */
    method OneFrame(input: seq<Byte>, p: nat) returns (waiting: bool, pos: nat, done: bool)
      requires Valid() && p <= |input|
      modifies this, ab, sendParms
      ensures Valid() && waiting == ParseAt(input, p).Waiting?
      ensures !waiting ==> pos == ParseAt(input, p).next && done == IsBreak(ParseAt(input, p).a)
      ensures !waiting ==> View() == Step(old(View()), ParseAt(input, p).a)
      ensures !waiting ==> sent == old(sent) + Reply(View(), ParseAt(input, p).a)
    {
      ghost var s := View();
      var verdict, kind;
      verdict, pos, kind := GetPacket(input, p);
      waiting, done := verdict == OutOfInput, false;
      if !waiting {
        ghost var a := ParseAt(input, p).a;
        BeforeLastN(s, a);
        done := Answer(verdict, kind, s, a);
      }
    }

    /** The main loop, in whatever state it is entered. */
    method MainLoop(input: seq<Byte>) returns (ending: Ending)
      requires Valid() && Numbered(Read(input, 0).attempts)
      modifies this, ab, sendParms
      ensures Valid() && ending == Read(input, 0).ending
      ensures ending != Starved ==> View() == Run(old(View()), Read(input, 0).attempts)
      ensures ending != Starved ==> sent == old(sent) + Replies(old(View()), Read(input, 0).attempts)
    {
      hide Step;
      hide Run;
      hide Reply;
      hide Replies;
      hide ParseAt;
      hide Read;
      ghost var seen: seq<Attempt> := [];
      NothingRun(View());
      var done, pos := false, 0;
      while !done
        invariant Valid() && pos <= |input|
        invariant if done then Read(input, 0) == Reading(seen, Finished) else ReadSoFar(input, pos, seen)
        invariant Numbered(seen) && View() == Run(old(View()), seen)
        invariant sent == old(sent) + Replies(old(View()), seen)
        decreases |input| - pos, !done
      {
        ReadOn(input, pos, seen);
        if pos == |input| { return Starved; }
        if input[pos] == ETX_CHAR { return Interrupted; }
        pos := pos + 1;
        if input[pos - 1] == START_CHAR {
          ghost var frame := pos;
          var waiting;
          waiting, pos, done := OneFrame(input, pos);
          if waiting { return Starved; }
          ghost var a := FrameRead(input, frame, seen);
          RepliesExtend(old(sent), old(View()), seen, a);
          seen := seen + [a];
        }
      }
      ending := Finished;
    }

    /** The settings `k_recv` makes before its loop. */
    method Init()
      requires Valid()
      modifies this
      ensures Valid() && View() == Start(old(mem), base) && sent == old(sent)
    {
      hisEol, hisPadCount, hisPadChar, hisQuote := END_CHAR, 0, 0, K_ESCAPE;
      escape, addr := false, base;
      KDataSave();
      n, lastN := 0, -1;
    }

    /**
      * `k_recv`: whatever arrives on the line, the globals end as the run of the attempts it contains,
      * every attempt is answered, and the size returned is how far `os_data_addr` has moved.
      */
    method KRecv(input: seq<Byte>) returns (ending: Ending, size: int)
      requires Valid()
      modifies this, ab, sendParms
      ensures Valid() && ending == Read(input, 0).ending
      ensures ending != Starved ==> View() == Run(Start(old(mem), base), Read(input, 0).attempts)
      ensures Numbered(Read(input, 0).attempts)
      ensures ending != Starved ==> sent == old(sent) + Replies(Start(old(mem), base), Read(input, 0).attempts)
      ensures size == if ending == Finished then addr - base else 0
    {
      hide Run;
      hide Replies;
      hide Read;
      Init();
      ReadNumbers(input, 0);
      hide Start;
      ending := MainLoop(input);
      size := if ending == Finished then addr - base else 0;
    }

    lemma BeforeLastN(s: Session, a: Attempt)
      ensures Before(s, a).lastN == if a.BadHeader? then s.lastN else a.n
    {
      if a.Refused? {
        CharsLastN(Checkpoint(s, a.n), a.data);
      } else if a.Taken? && a.kind == DATA_TYPE {
        CharsLastN(Checkpoint(s, a.n), a.field);
      }
    }
  }

  lemma CharsNone(s: Session)
    ensures Chars(s, []) == s
  {
  }

  lemma SumPush(s: seq<Byte>, p: nat, q: nat)
    requires p <= q < |s|
    ensures Sum(s[p..q + 1]) == Sum(s[p..q]) + s[q]
  {
    assert s[p..q + 1][..q - p] == s[p..q];
  }

  /** `seen` are the attempts before `pos`, and the transmission goes on there. */
  ghost predicate ReadSoFar(input: seq<Byte>, pos: nat, seen: seq<Attempt>)
    requires pos <= |input|
  {
    Read(input, 0) == Reading(seen + Read(input, pos).attempts, Read(input, pos).ending)
  }

  ghost predicate Numbered(attempts: seq<Attempt>) {
    forall a :: a in attempts && !a.BadHeader? ==> a.n < 224
  }

  lemma NothingRun(s: Session)
    requires s.lastN < 224
    ensures Run(s, []) == s && Replies(s, []) == []
  {
  }

  /** Reading goes on, stops or waits at `pos`, by the character there. */
  lemma ReadOn(input: seq<Byte>, pos: nat, seen: seq<Attempt>)
    requires pos <= |input| && ReadSoFar(input, pos, seen)
    ensures pos == |input| ==> Read(input, 0).ending == Starved
    ensures pos < |input| && input[pos] == ETX_CHAR ==> Read(input, 0) == Reading(seen, Interrupted)
    ensures pos < |input| && input[pos] != ETX_CHAR && input[pos] != START_CHAR ==> ReadSoFar(input, pos + 1, seen)
    ensures pos < |input| && input[pos] == START_CHAR && ParseAt(input, pos + 1).Waiting? ==>
            Read(input, 0).ending == Starved
  {
    assert seen + [] == seen;
  }

  lemma FrameRead(input: seq<Byte>, p: nat, seen: seq<Attempt>) returns (a: Attempt)
    requires 0 < p <= |input| && input[p - 1] == START_CHAR && ReadSoFar(input, p - 1, seen) && ParseAt(input, p).Got?
    ensures ParseAt(input, p) == Got(a, ParseAt(input, p).next) && p < ParseAt(input, p).next <= |input|
    ensures !a.BadHeader? ==> a.n < 224
    ensures if IsBreak(a) then Read(input, 0) == Reading(seen + [a], Finished)
            else ReadSoFar(input, ParseAt(input, p).next, seen + [a])
  {
    ParseAdvances(input, p);
    a := ParseAt(input, p).a;
    if !IsBreak(a) {
      var rest := Read(input, ParseAt(input, p).next);
      assert seen + ([a] + rest.attempts) == seen + [a] + rest.attempts;
    }
  }

  lemma RepliesExtend(sent: seq<Byte>, s0: Session, seen: seq<Attempt>, a: Attempt)
    requires s0.lastN < 224 && Numbered(seen) && (!a.BadHeader? ==> a.n < 224)
    ensures Numbered(seen + [a]) && Run(s0, seen + [a]) == Step(Run(s0, seen), a)
    ensures Run(s0, seen + [a]).lastN < 224
    ensures sent + Replies(s0, seen + [a]) == sent + Replies(s0, seen) + Reply(Run(s0, seen + [a]), a)
  {
    var longer := seen + [a];
    assert longer[..|longer| - 1] == seen;
    LastNBound(s0, longer);
  }
}
