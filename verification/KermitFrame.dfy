/**
  * Frames on the serial line: how `k_recv` (cmd/load.c) reads one frame, and the frames that a sender
  * and the receiver itself put on the line.
  */
module KermitFrame {
  import opened Bytes
  import opened KermitCoding
  import opened KermitSession

  const START_CHAR: Byte := 0x01
  const ETX_CHAR: Byte := 0x03
  const ACK_TYPE: Byte := 'Y' as int
  const NACK_TYPE: Byte := 'N' as int

  /** The one-character block check over the byte sum, `tochar((sum + ((sum >> 6) & 3)) & 0x3f)`. */
  function Check(sum: nat): Byte {
    32 + (sum + (sum / 64) % 4) % 64
  }

  // ----- reading

  /** Input ran out (the receiver keeps waiting), or one frame was read up to position `next`. */
  datatype Parsed = Waiting | Got(a: Attempt, next: nat)

  /** The first position from `i` on that is a control character or past the input, at most `e`. */
  function FieldEnd(input: seq<Byte>, i: nat, e: nat): (j: nat)
    requires i <= e && i <= |input|
    ensures i <= j <= e && j <= |input|
    ensures forall k :: i <= k < j ==> input[k] >= 32
    ensures j < e ==> j == |input| || input[j] < 32
    decreases e - i
  {
    if i == e || i == |input| || input[i] < 32 then i else FieldEnd(input, i + 1, e)
  }

  /** Data field `input[i..e]`, check byte and terminator of the frame whose length byte is at `p`. */
  function ParseField(input: seq<Byte>, p: nat, n: nat, kind: Byte, i: nat, e: nat): Parsed
    requires p <= i <= e && i <= |input|
  {
    var j := FieldEnd(input, i, e);
    var passed := if kind == DATA_TYPE then input[i..j] else [];
    if j < e then
      if j == |input| then Waiting else Got(Refused(n, passed), j + 1)
    else if e >= |input| then Waiting
    else if input[e] != Check(Sum(input[p..e])) then Got(Refused(n, passed), e + 1)
    else if e + 1 >= |input| then Waiting
    else if input[e + 1] != END_CHAR then Got(Refused(n, passed), e + 2)
    else Got(Taken(n, kind, input[i..e]), e + 2)
  }

  /** A long packet: two length characters and a header check before the data field. */
  function ParseLong(input: seq<Byte>, p: nat, n: nat, kind: Byte): Parsed
    requires p + 3 <= |input|
  {
    if p + 3 >= |input| then Waiting
    else if input[p + 3] < 32 then Got(Refused(n, []), p + 4)
    else if p + 4 >= |input| then Waiting
    else if input[p + 4] < 32 then Got(Refused(n, []), p + 5)
    else if p + 5 >= |input| then Waiting
    else if input[p + 5] != Check(Sum(input[p..p + 5])) then Got(Refused(n, []), p + 6)
    else
      var length := (input[p + 3] as int - 32) * 95 + (input[p + 4] as int - 32);
      ParseField(input, p, n, kind, p + 6, p + 6 + if length > 1 then length - 1 else 0)
  }

  /** The packet type and what follows it. */
  function ParseBody(input: seq<Byte>, p: nat, n: nat): Parsed
    requires p + 2 <= |input|
  {
    if p + 2 == |input| then Waiting
    else if input[p + 2] < 32 then Got(Refused(n, []), p + 3)
    else if input[p] == 32 then ParseLong(input, p, n, input[p + 2])
    else ParseField(input, p, n, input[p + 2], p + 3, p + 3 + if input[p] > 35 then input[p] - 35 else 0)
  }

  /** One frame, from the length byte at `p` on. */
  function ParseAt(input: seq<Byte>, p: nat): Parsed {
    if p >= |input| then Waiting
    else if input[p] < 32 then Got(BadHeader, p + 1)
    else if p + 1 >= |input| then Waiting
    else if input[p + 1] < 32 then Got(BadHeader, p + 2)
    else ParseBody(input, p, input[p + 1] - 32)
  }

  lemma ParseAdvances(input: seq<Byte>, p: nat)
    ensures ParseAt(input, p).Got? ==> p < ParseAt(input, p).next <= |input|
  {
  }

  /** How a receive ends: a break packet was taken, ^C arrived between packets, or input ran out. */
  datatype Ending = Finished | Interrupted | Starved

  datatype Reading = Reading(attempts: seq<Attempt>, ending: Ending)

  function IsBreak(a: Attempt): bool {
    a.Taken? && a.kind == BREAK_TYPE
  }

  /** The attempts in a byte stream, noise between frames skipped, up to the end of the transmission. */
  function Read(input: seq<Byte>, p: nat): Reading
    requires p <= |input|
    decreases |input| - p
  {
    if p == |input| then Reading([], Starved)
    else if input[p] == ETX_CHAR then Reading([], Interrupted)
    else if input[p] != START_CHAR then Read(input, p + 1)
    else
      match ParseAt(input, p + 1)
      case Waiting => Reading([], Starved)
      case Got(a, next) =>
        ParseAdvances(input, p + 1);
        if IsBreak(a) then Reading([a], Finished)
        else
          var rest := Read(input, next);
          rest.(attempts := [a] + rest.attempts)
  }

  // ----- sending

  /** LEN, SEQ, TYPE and the data field of a normal packet. */
  function Head(n: nat, kind: Byte, data: seq<Byte>): seq<Byte>
    requires n < 224 && |data| <= 220
  {
    [35 + |data|, 32 + n, kind] + data
  }

  /** LEN 0, SEQ, TYPE, two length characters, header check and data field of a long packet. */
  function LongHead(n: nat, kind: Byte, data: seq<Byte>): seq<Byte>
    requires n < 224 && |data| + 1 < 95 * 95
  {
    var h: seq<Byte> := [32, 32 + n, kind, 32 + (|data| + 1) / 95, 32 + (|data| + 1) % 95];
    h + [Check(Sum(h))] + data
  }

  /** Check byte and terminator; a NUL terminator is never transmitted. */
  function Seal(head: seq<Byte>, eol: Byte): seq<Byte> {
    [START_CHAR] + head + [Check(Sum(head))] + Terminator(eol)
  }

  function Terminator(eol: Byte): seq<Byte> {
    if eol == 0 then [] else [eol]
  }

  lemma FieldEndAll(input: seq<Byte>, i: nat, e: nat)
    requires i <= e <= |input| && forall k :: i <= k < e ==> input[k] >= 32
    ensures FieldEnd(input, i, e) == e
  {
  }

  /** A sealed packet inside a stream: its head, its check byte and its terminator are where they belong. */
  lemma SealedAt(before: seq<Byte>, after: seq<Byte>, head: seq<Byte>, skip: nat, data: seq<Byte>)
    requires skip <= |head| && head[skip..] == data && forall c :: c in data ==> c >= 32
    ensures var input := before + Seal(head, END_CHAR) + after;
      var p := |before| + 1;
      var e := p + |head|;
      && |Seal(head, END_CHAR)| == |head| + 3 && e + 1 < |input|
      && input[p..e] == head && input[p + skip..e] == data
      && (forall k :: p + skip <= k < e ==> input[k] >= 32)
      && input[e] == Check(Sum(head)) && input[e + 1] == END_CHAR
  {
    var input := before + Seal(head, END_CHAR) + after;
    var p := |before| + 1;
    var e := p + |head|;
    assert input[p..e] == head;
    assert input[p + skip..e] == data;
    forall k | p + skip <= k < e ensures input[k] >= 32 {
      assert input[k] == data[k - p - skip] && data[k - p - skip] in data;
    }
  }

  lemma HeadRead(input: seq<Byte>, p: nat, n: nat, kind: Byte, data: seq<Byte>)
    requires n < 224 && kind >= 32 && |data| <= 220
    requires p + 3 + |data| <= |input| && input[p..p + 3 + |data|] == Head(n, kind, data)
    ensures ParseAt(input, p) == ParseField(input, p, n, kind, p + 3, p + 3 + |data|)
  {
    hide ParseField;
    hide ParseLong;
    var head := Head(n, kind, data);
    assert forall k :: 0 <= k < |head| ==> input[p..p + 3 + |data|][k] == head[k];
    assert input[p] == head[0] && input[p + 1] == head[1] && input[p + 2] == head[2];
    assert ParseAt(input, p) == ParseBody(input, p, n);
  }

  /** What the receiver has passed on of a packet by the time it refuses it for its end. */
  function Passed(kind: Byte, data: seq<Byte>): seq<Byte> {
    if kind == DATA_TYPE then data else []
  }

  /**
    * A normal packet with any byte in place of its check and anything behind that, wherever it sits on the
    * line: it is taken exactly if the check is right and the terminator follows.
    */
  lemma FrameHeard(before: seq<Byte>, n: nat, kind: Byte, data: seq<Byte>, check: Byte, tail: seq<Byte>)
    requires n < 224 && kind >= 32 && |data| <= 220 && forall c :: c in data ==> c >= 32
    ensures var head := Head(n, kind, data);
      var end := |before| + |data| + 5;
      ParseAt(before + ([START_CHAR] + head + [check]) + tail, |before| + 1) ==
      if check != Check(Sum(head)) then Got(Refused(n, Passed(kind, data)), end)
      else if tail == [] then Waiting
      else if tail[0] != END_CHAR then Got(Refused(n, Passed(kind, data)), end + 1)
      else Got(Taken(n, kind, data), end + 1)
  {
    hide Check;
    hide Sum;
    hide ParseAt;
    var head := Head(n, kind, data);
    var input := before + ([START_CHAR] + head + [check]) + tail;
    var p := |before| + 1;
    var e := p + |head|;
    InFrame(before, head, check, tail, data);
    HeadRead(input, p, n, kind, data);
    FieldHeard(input, p, n, kind, p + 3, e);
    hide ParseField;
  }

  lemma FieldHeard(input: seq<Byte>, p: nat, n: nat, kind: Byte, i: nat, e: nat)
    requires p <= i <= e < |input| && forall k :: i <= k < e ==> input[k] >= 32
    ensures var data := input[i..e];
      ParseField(input, p, n, kind, i, e) ==
      if input[e] != Check(Sum(input[p..e])) then Got(Refused(n, Passed(kind, data)), e + 1)
      else if e + 1 == |input| then Waiting
      else if input[e + 1] != END_CHAR then Got(Refused(n, Passed(kind, data)), e + 2)
      else Got(Taken(n, kind, data), e + 2)
  {
    hide Check;
    hide Sum;
    FieldEndAll(input, i, e);
    hide FieldEnd;
  }

  lemma InFrame(before: seq<Byte>, head: seq<Byte>, check: Byte, tail: seq<Byte>, data: seq<Byte>)
    requires 3 <= |head| && head[3..] == data && forall c :: c in data ==> c >= 32
    ensures var input := before + ([START_CHAR] + head + [check]) + tail;
      var p := |before| + 1;
      var e := p + |head|;
      && |input| == e + 1 + |tail| && input[p..e] == head && input[p + 3..e] == data && input[e] == check
      && (tail != [] ==> input[e + 1] == tail[0]) && forall k :: p + 3 <= k < e ==> input[k] >= 32
  {
    var input := before + ([START_CHAR] + head + [check]) + tail;
    var p := |before| + 1;
    var e := p + |head|;
    assert input[p..e] == head;
    assert input[p + 3..e] == head[3..];
    forall k | p + 3 <= k < e
      ensures input[k] >= 32
    {
      assert input[k] == data[k - p - 3] && data[k - p - 3] in data;
    }
  }

  /** A normal packet is taken, whatever surrounds it on the line, and reading resumes right behind it. */
  lemma FrameTaken(before: seq<Byte>, after: seq<Byte>, n: nat, kind: Byte, data: seq<Byte>)
    requires n < 224 && kind >= 32 && |data| <= 220 && forall c :: c in data ==> c >= 32
    ensures var frame := Seal(Head(n, kind, data), END_CHAR);
      ParseAt(before + frame + after, |before| + 1) == Got(Taken(n, kind, data), |before| + |frame|)
  {
    hide ParseAt;
    hide Check;
    var head := Head(n, kind, data);
    FrameHeard(before, n, kind, data, Check(Sum(head)), [END_CHAR] + after);
    SealJoins(before, head, END_CHAR, after);
  }

  lemma SealJoins(before: seq<Byte>, head: seq<Byte>, eol: Byte, after: seq<Byte>)
    ensures before + Seal(head, eol) + after
            == before + ([START_CHAR] + head + [Check(Sum(head))]) + (Terminator(eol) + after)
  {
    hide Check;
    hide Sum;
  }

  lemma LongHeadRead(input: seq<Byte>, p: nat, n: nat, kind: Byte, data: seq<Byte>)
    requires n < 224 && kind >= 32 && |data| + 1 < 95 * 95
    requires p + 6 + |data| <= |input| && input[p..p + 6 + |data|] == LongHead(n, kind, data)
    ensures ParseAt(input, p) == ParseField(input, p, n, kind, p + 6, p + 6 + |data|)
  {
    hide Check;
    hide Sum;
    hide ParseField;
    var head := LongHead(n, kind, data);
    var h: seq<Byte> := [32, 32 + n, kind, 32 + (|data| + 1) / 95, 32 + (|data| + 1) % 95];
    assert forall k :: 0 <= k < |head| ==> input[p..p + 6 + |data|][k] == head[k];
    assert input[p] == head[0] == 32 && input[p + 1] == head[1] && input[p + 2] == head[2];
    assert input[p + 3] == head[3] && input[p + 4] == head[4] && input[p + 5] == head[5] == Check(Sum(h));
    assert input[p..p + 5] == h;
    assert ParseAt(input, p) == ParseLong(input, p, n, kind);
    assert ((|data| + 1) / 95) * 95 + (|data| + 1) % 95 == |data| + 1;
  }

  /** So is a long packet. */
  lemma LongFrameTaken(before: seq<Byte>, after: seq<Byte>, n: nat, kind: Byte, data: seq<Byte>)
    requires n < 224 && kind >= 32 && |data| + 1 < 95 * 95 && forall c :: c in data ==> c >= 32
    ensures var frame := Seal(LongHead(n, kind, data), END_CHAR);
      ParseAt(before + frame + after, |before| + 1) == Got(Taken(n, kind, data), |before| + |frame|)
  {
    var head := LongHead(n, kind, data);
    var input := before + Seal(head, END_CHAR) + after;
    var p := |before| + 1;
    SealedAt(before, after, head, 6, data);
    FieldHeard(input, p, n, kind, p + 6, p + |head|);
    hide ParseField;
    hide ParseAt;
    LongHeadRead(input, p, n, kind, data);
  }

  lemma CheckSplit(q: nat, r: nat)
    requires r < 64
    ensures Check(64 * q + r) == 32 + (r + q % 4) % 64
  {
    Div64(q, r);
    Mod64(q, r + q % 4);
  }

  lemma Div64(q: nat, r: nat)
    requires r < 64
    ensures (64 * q + r) / 64 == q
  {
  }

  lemma Mod64(q: nat, s: nat)
    ensures (64 * q + s) % 64 == s % 64
  {
    Div64(q + s / 64, s % 64);
  }

  lemma ModDiffers(a: nat, b: nat)
    requires a != b && a - b != 64 && b - a != 64 && -128 < a - b < 128
    ensures a % 64 != b % 64
  {
  }

  lemma CheckDiffers(q: nat, r: nat, q': nat, r': nat)
    requires r < 64 && r' < 64 && q <= q' <= q + 2
    requires q' == q ==> r' != r
    requires q' == q + 1 ==> r' == r || r' <= r - 32
    requires q' == q + 1 ==> r - r' != 61
    requires q' == q + 2 ==> r' == r
    ensures Check(64 * q + r) != Check(64 * q' + r')
  {
    hide Check;
    CheckSplit(q, r);
    CheckSplit(q', r');
    var c, c' := q % 4, q' % 4;
    assert q' == q ==> c' == c;
    assert q' == q + 1 ==> c' == c + 1 || c' == c - 3;
    assert q' == q + 2 ==> c' == c + 2 || c' == c - 2;
    ModDiffers(r + c, r' + c');
  }

  /** The check sees every single-bit error, wherever the bit sits. */
  lemma CheckSeesOneBit(sum: nat, bit: nat)
    requires bit == 1 || bit == 2 || bit == 4 || bit == 8 || bit == 16 || bit == 32 || bit == 64 || bit == 128
    ensures Check(sum + bit) != Check(sum)
  {
    var q, r := sum / 64, sum % 64;
    assert sum == 64 * q + r;
    if bit == 64 {
      CheckDiffers(q, r, q + 1, r);
    } else if bit == 128 {
      CheckDiffers(q, r, q + 2, r);
    } else if r + bit < 64 {
      CheckDiffers(q, r, q, r + bit);
    } else {
      CheckDiffers(q, r, q + 1, r + bit - 64);
    }
  }

  // ----- the receiver's replies

  /** The parameters `handle_send_packet` answers with, when it looked at `count` of the sender's. */
  function AckField(count: nat): seq<Byte> {
    if count >= 10 then ACK_PARMS + ACK_CAPAS else ACK_PARMS[..count]
  }

  /** MAXL, TIME, NPAD, PADC, EOL, QCTL, QBIN, CHKT and REPT of the answer. */
  const ACK_PARMS: seq<Byte> := [126, 33, 32, 0x40, 45, 35, 78, 49, 78]

  /** CAPAS: long packets only, no windows, and the longest packet. */
  const ACK_CAPAS: seq<Byte> := [34, 32, 126, 126]

  /** `send_pad` */
  function Pads(parms: Parms): seq<Byte> {
    seq(parms.padCount, _ => parms.padChar)
  }

  /** Number, type and data of the receiver's answer to an attempt; `s` is the session after the attempt. */
  function ReplyNumber(s: Session, a: Attempt): (n: nat)
    requires s.lastN < 224 && (a.Taken? ==> a.n < 224)
    ensures n < 224
  {
    if a.Taken? then a.n else if s.lastN < 0 then 0 else s.lastN
  }

  function ReplyKind(a: Attempt): (kind: Byte)
    ensures kind >= 32 && kind != DATA_TYPE
  {
    if a.Taken? then ACK_TYPE else NACK_TYPE
  }

  function ReplyField(a: Attempt): (field: seq<Byte>)
    ensures |field| <= 13 && forall c :: c in field ==> c >= 32
  {
    if a.Taken? && a.kind == SEND_TYPE then
      AckFieldPrintable(ParmCount(a.field));
      AckField(ParmCount(a.field))
    else []
  }

  function ReplyHead(s: Session, a: Attempt): (head: seq<Byte>)
    requires s.lastN < 224 && (a.Taken? ==> a.n < 224)
    ensures 3 <= |head| <= 16 && head[0] as int == 32 + |head|
  {
    Head(ReplyNumber(s, a), ReplyKind(a), ReplyField(a))
  }

  /** What the receiver sends after an attempt, padding first. */
  function Reply(s: Session, a: Attempt): seq<Byte>
    requires s.lastN < 224 && (a.Taken? ==> a.n < 224)
  {
    Pads(s.parms) + Seal(ReplyHead(s, a), s.parms.eol)
  }

  lemma AckFieldPrintable(count: nat)
    ensures |AckField(count)| <= 13 && forall c :: c in AckField(count) ==> c >= 32
  {
    assert forall c :: c in ACK_PARMS ==> c >= 32;
    assert forall c :: c in ACK_CAPAS ==> c >= 32;
  }

  /**
    * Each reply, padding aside, is a Kermit packet: the receiver's own reader takes it, with the intended
    * number, type and data, exactly if the byte behind the check is the terminator it expects.
    */
  lemma ReplyTaken(s: Session, a: Attempt, after: seq<Byte>)
    requires s.lastN < 224 && (a.Taken? ==> a.n < 224)
    ensures var pads, tail := Pads(s.parms), Terminator(s.parms.eol) + after;
      var n, field := ReplyNumber(s, a), ReplyField(a);
      ParseAt(Reply(s, a) + after, |pads| + 1) ==
      if tail == [] then Waiting
      else if tail[0] != END_CHAR then Got(Refused(n, []), |pads| + |field| + 6)
      else Got(Taken(n, ReplyKind(a), field), |pads| + |field| + 6)
  {
    hide ParseAt;
    hide Check;
    hide Sum;
    hide ReplyNumber;
    hide ReplyKind;
    hide ReplyField;
    var pads, head := Pads(s.parms), ReplyHead(s, a);
    var tail := Terminator(s.parms.eol) + after;
    FrameHeard(pads, ReplyNumber(s, a), ReplyKind(a), ReplyField(a), Check(Sum(head)), tail);
    SealJoins(pads, head, s.parms.eol, after);
  }

  /**
    * Whatever terminator the sender asked for, the reply is a packet: LEN counts the bytes behind it up to
    * the check, the check byte is that of the receiver's own formula, and 24 bytes hold it with its NUL.
    */
  lemma ReplyWellFormed(s: Session, a: Attempt)
    requires s.lastN < 224 && (a.Taken? ==> a.n < 224)
    ensures var frame := Reply(s, a)[|Pads(s.parms)|..];
      && |frame| + 1 <= 20 && |frame| > 2 && frame[0] == START_CHAR && frame[1] >= 35
      && var end := 1 + (frame[1] - 32);
         && end < |frame| && frame[end] == Check(Sum(frame[1..end]))
         && frame[end + 1..] == Terminator(s.parms.eol)
  {
    hide ReplyHead;
    hide Pads;
    hide Check;
    hide Sum;
    var head, pads := ReplyHead(s, a), Pads(s.parms);
    SealShape(head, s.parms.eol);
    var frame := Seal(head, s.parms.eol);
    hide Seal;
    assert (pads + frame)[|pads|..] == frame;
  }

  lemma SealShape(head: seq<Byte>, eol: Byte)
    requires 3 <= |head|
    ensures var frame := Seal(head, eol);
      && |head| + 2 <= |frame| <= |head| + 3 && frame[0] == START_CHAR && frame[1] == head[0]
      && frame[1..1 + |head|] == head && frame[1 + |head|] == Check(Sum(head))
      && frame[1 + |head| + 1..] == Terminator(eol)
  {
    hide Check;
    hide Sum;
    var frame := Seal(head, eol);
    assert frame[1..1 + |head|] == head;
  }

  /** All replies of a run. */
  function Replies(s: Session, attempts: seq<Attempt>): seq<Byte>
    requires s.lastN < 224 && forall a :: a in attempts && !a.BadHeader? ==> a.n < 224
  {
    if attempts == [] then []
    else
      var front, a := attempts[..|attempts| - 1], attempts[|attempts| - 1];
      LastNBound(s, attempts);
      Replies(s, front) + Reply(Run(s, attempts), a)
  }

  lemma {:induction false} LastNBound(s: Session, attempts: seq<Attempt>)
    requires s.lastN < 224 && forall a :: a in attempts && !a.BadHeader? ==> a.n < 224
    ensures Run(s, attempts).lastN < 224
  {
    if attempts != [] {
      var front, a := attempts[..|attempts| - 1], attempts[|attempts| - 1];
      LastNBound(s, front);
      if a.Refused? {
        CharsLastN(Checkpoint(Run(s, front), a.n), a.data);
      } else if a.Taken? && a.kind == DATA_TYPE {
        CharsLastN(Checkpoint(Run(s, front), a.n), a.field);
      }
    }
  }

  lemma {:induction false} CharsLastN(s: Session, cs: seq<Byte>)
    ensures Chars(s, cs).lastN == s.lastN
  {
    if cs != [] {
      CharsLastN(s, cs[..|cs| - 1]);
    }
  }

  /** Sequence numbers read from the line are single untransformed characters. */
  lemma {:induction false} ReadNumbers(input: seq<Byte>, p: nat)
    requires p <= |input|
    ensures forall a :: a in Read(input, p).attempts && !a.BadHeader? ==> a.n < 224
    decreases |input| - p
  {
    if p < |input| && input[p] != ETX_CHAR {
      if input[p] != START_CHAR {
        ReadNumbers(input, p + 1);
      } else {
        ParseAdvances(input, p + 1);
        var parsed := ParseAt(input, p + 1);
        if parsed.Got? && !IsBreak(parsed.a) {
          ReadNumbers(input, parsed.next);
        }
      }
    }
  }
}
