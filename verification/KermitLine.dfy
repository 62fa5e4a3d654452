/**
  * Whole transmissions: from the bytes on the line, with damaged and repeated frames and line noise, to
  * the file in memory (cmd/load.c, `k_recv`).
  */
module KermitLine {
  import opened Bytes
  import opened KermitCoding
  import opened KermitSession
  import opened KermitFrame

  /** Bytes the receiver skips between frames. */
  ghost predicate Noise(s: seq<Byte>) {
    forall i :: 0 <= i < |s| ==> s[i] != START_CHAR && s[i] != ETX_CHAR
  }

  /** One frame on the line, what the receiver makes of it, and the number of bytes it reads for that. */
  datatype Piece = Piece(bytes: seq<Byte>, a: Attempt, used: nat) {
    ghost predicate Valid() {
      && 0 < used <= |bytes| && bytes[0] == START_CHAR && Noise(bytes[used..])
      && forall before: seq<Byte>, after: seq<Byte> ::
           ParseAt(before + bytes + after, |before| + 1) == Got(a, |before| + used)
    }
  }

  function Line(ps: seq<Piece>): seq<Byte> {
    if ps == [] then [] else ps[0].bytes + Line(ps[1..])
  }

  function Heard(ps: seq<Piece>): seq<Attempt> {
    if ps == [] then [] else [ps[0].a] + Heard(ps[1..])
  }

  /** Every piece reads as it says, and the last one is the only end of transmission. */
  ghost predicate Transmission(ps: seq<Piece>) {
    && ps != [] && (forall i :: 0 <= i < |ps| ==> ps[i].Valid())
    && forall i :: 0 <= i < |ps| ==> (IsBreak(ps[i].a) <==> i == |ps| - 1)
  }

  lemma {:induction false} NoiseSkipped(input: seq<Byte>, p: nat, q: nat)
    requires p <= q <= |input| && forall i :: p <= i < q ==> input[i] != START_CHAR && input[i] != ETX_CHAR
    ensures Read(input, p) == Read(input, q)
    decreases q - p
  {
    if p < q {
      NoiseSkipped(input, p + 1, q);
    }
  }

  /** The receiver hears exactly the attempts of the pieces, in order, and then stops. */
  lemma {:induction false} LineRead(before: seq<Byte>, ps: seq<Piece>, after: seq<Byte>)
    requires Transmission(ps)
    ensures Read(before + Line(ps) + after, |before|) == Reading(Heard(ps), Finished)
    decreases |ps|
  {
    hide Read;
    hide Piece.Valid;
    var piece, rest := ps[0], ps[1..];
    LineJoins(before, ps, after);
    PieceRead(before, piece, Line(rest) + after);
    if |ps| > 1 {
      TransmissionRest(ps);
      LineRead(before + piece.bytes, rest, after);
    }
  }

  lemma LineJoins(before: seq<Byte>, ps: seq<Piece>, after: seq<Byte>)
    requires ps != []
    ensures before + Line(ps) + after == before + ps[0].bytes + (Line(ps[1..]) + after)
    ensures before + Line(ps) + after == (before + ps[0].bytes) + Line(ps[1..]) + after
  {
  }

  lemma TransmissionRest(ps: seq<Piece>)
    requires Transmission(ps) && |ps| > 1
    ensures Transmission(ps[1..])
  {
    hide Piece.Valid;
    forall i | 0 <= i < |ps[1..]|
      ensures ps[1..][i].Valid() && (IsBreak(ps[1..][i].a) <==> i == |ps[1..]| - 1)
    {
      assert ps[1..][i] == ps[i + 1];
    }
  }

  /** A piece in place: it parses as it says, and what it leaves unread is noise. */
  lemma PieceParsed(before: seq<Byte>, piece: Piece, after: seq<Byte>)
    requires piece.Valid()
    ensures var input := before + piece.bytes + after;
      && ParseAt(input, |before| + 1) == Got(piece.a, |before| + piece.used)
      && 0 < piece.used <= |piece.bytes| && input[|before|] == START_CHAR
      && forall i :: |before| + piece.used <= i < |before| + |piece.bytes| ==>
         input[i] != START_CHAR && input[i] != ETX_CHAR
  {
    hide ParseAt;
    var input := before + piece.bytes + after;
    forall i | |before| + piece.used <= i < |before| + |piece.bytes|
      ensures input[i] != START_CHAR && input[i] != ETX_CHAR
    {
      assert input[i] == piece.bytes[piece.used..][i - |before| - piece.used];
    }
  }

  lemma ReadFrame(input: seq<Byte>, p: nat, a: Attempt, next: nat)
    requires p < next <= |input| && input[p] == START_CHAR && ParseAt(input, p + 1) == Got(a, next)
    ensures if IsBreak(a) then Read(input, p) == Reading([a], Finished)
            else Read(input, p) == Reading([a] + Read(input, next).attempts, Read(input, next).ending)
  {
    hide ParseAt;
  }

  lemma PieceRead(before: seq<Byte>, piece: Piece, after: seq<Byte>)
    requires piece.Valid()
    ensures var input := before + piece.bytes + after;
      if IsBreak(piece.a) then Read(input, |before|) == Reading([piece.a], Finished)
      else var rest := Read(input, |before| + |piece.bytes|);
           Read(input, |before|) == Reading([piece.a] + rest.attempts, rest.ending)
  {
    hide ParseAt;
    hide Read;
    hide Piece.Valid;
    var input, p := before + piece.bytes + after, |before|;
    PieceParsed(before, piece, after);
    ReadFrame(input, p, piece.a, p + piece.used);
    NoiseSkipped(input, p + piece.used, p + |piece.bytes|);
  }

  // ----- frames in place

  /** The head of a packet, normal or long, with printable data. */
  ghost predicate Packet(head: seq<Byte>, n: nat, kind: Byte, data: seq<Byte>) {
    && n < 224 && kind >= 32 && (forall c :: c in data ==> c >= 32)
    && if |head| == |data| + 3 then |data| <= 220 && head == Head(n, kind, data)
       else |data| + 1 < 95 * 95 && head == LongHead(n, kind, data)
  }

  lemma PacketRead(input: seq<Byte>, p: nat, head: seq<Byte>, n: nat, kind: Byte, data: seq<Byte>)
    requires Packet(head, n, kind, data) && p + |head| <= |input| && input[p..p + |head|] == head
    ensures |head| >= |data| + 3
    ensures ParseAt(input, p) == ParseField(input, p, n, kind, p + |head| - |data|, p + |head|)
  {
    hide ParseAt;
    hide ParseField;
    hide Check;
    if |head| == |data| + 3 {
      HeadRead(input, p, n, kind, data);
    } else {
      LongHeadRead(input, p, n, kind, data);
    }
  }

  lemma PacketBytes(head: seq<Byte>, n: nat, kind: Byte, data: seq<Byte>)
    requires Packet(head, n, kind, data)
    ensures |head| >= |data| + 3 && head[|head| - |data|..] == data && forall k :: 0 <= k < |head| ==> head[k] >= 32
  {
    hide Sum;
    var skip := |head| - |data|;
    assert head[skip..] == data;
    forall k | 0 <= k < |head|
      ensures head[k] >= 32
    {
      if k >= skip {
        assert head[k] == data[k - skip] && data[k - skip] in data;
      } else if skip == 3 {
        assert head[k] == [35 + |data|, 32 + n, kind as int][k];
      }
    }
  }

  /** `s` is a part of the input, from `b` on. */
  ghost predicate PartAt(input: seq<Byte>, b: nat, s: seq<Byte>) {
    b + |s| <= |input| && input[b..b + |s|] == s
  }

  lemma IsPart(before: seq<Byte>, s: seq<Byte>, after: seq<Byte>)
    ensures PartAt(before + s + after, |before|, s)
  {
    assert (before + s + after)[|before|..|before| + |s|] == s;
  }

  lemma PartSlice(input: seq<Byte>, b: nat, s: seq<Byte>, i: nat, j: nat)
    requires PartAt(input, b, s) && i <= j <= |s|
    ensures b + |s| <= |input| && input[b + i..b + j] == s[i..j] && (i < |s| ==> input[b + i] == s[i])
  {
    var part := input[b..b + |s|];
    assert forall x :: 0 <= x < |s| ==> part[x] == input[b + x];
    assert forall x :: 0 <= x < j - i ==> s[i..j][x] == s[i + x] == input[b + (i + x)];
  }

  lemma {:induction false} FieldEndIn(input: seq<Byte>, b: nat, s: seq<Byte>, i: nat, e: nat)
    requires PartAt(input, b, s) && i <= e && i <= |s|
    requires FieldEnd(s, i, e) == e || FieldEnd(s, i, e) < |s|
    ensures FieldEnd(input, b + i, b + e) == b + FieldEnd(s, i, e)
    decreases e - i
  {
    PartSlice(input, b, s, i, i);
    if i < e && i < |s| && s[i] >= 32 {
      FieldEndIn(input, b, s, i + 1, e);
    }
  }

  lemma FieldIn(input: seq<Byte>, b: nat, s: seq<Byte>, p: nat, n: nat, kind: Byte, i: nat, e: nat)
    requires PartAt(input, b, s) && p <= i <= e && i <= |s| && ParseField(s, p, n, kind, i, e).Got?
    ensures var r := ParseField(s, p, n, kind, i, e);
      ParseField(input, b + p, n, kind, b + i, b + e) == Got(r.a, b + r.next)
  {
    hide *;
    var j := FieldEnd(s, i, e);
    FieldGot(s, p, n, kind, i, e);
    FieldEndIn(input, b, s, i, e);
    PartSlice(input, b, s, i, j);
    if j < e {
      FieldStops(s, p, n, kind, i, e, s[i..j]);
      FieldStops(input, b + p, n, kind, b + i, b + e, s[i..j]);
    } else {
      WholeFieldIn(input, b, s, p, n, kind, i, e);
    }
  }

  lemma FieldGot(s: seq<Byte>, p: nat, n: nat, kind: Byte, i: nat, e: nat)
    requires p <= i <= e && i <= |s| && ParseField(s, p, n, kind, i, e).Got?
    ensures FieldEnd(s, i, e) < |s|
  {
    hide Check;
    hide Sum;
    hide FieldEnd;
  }

  lemma WholeFieldIn(input: seq<Byte>, b: nat, s: seq<Byte>, p: nat, n: nat, kind: Byte, i: nat, e: nat)
    requires PartAt(input, b, s) && p <= i <= e < |s| && FieldEnd(s, i, e) == e && ParseField(s, p, n, kind, i, e).Got?
    requires FieldEnd(input, b + i, b + e) == b + e
    ensures var r := ParseField(s, p, n, kind, i, e);
      ParseField(input, b + p, n, kind, b + i, b + e) == Got(r.a, b + r.next)
  {
    hide ParseField;
    hide FieldEnd;
    hide Check;
    hide Sum;
    var data, body := s[i..e], s[p..e];
    PartSlice(input, b, s, p, e);
    PartSlice(input, b, s, i, e);
    PartSlice(input, b, s, e, e);
    if e + 1 < |s| {
      PartSlice(input, b, s, e + 1, e + 1);
    }
    FieldIs(s, p, n, kind, i, e, data, body);
    FieldIs(input, b + p, n, kind, b + i, b + e, data, body);
  }

  lemma FieldIs(s: seq<Byte>, p: nat, n: nat, kind: Byte, i: nat, e: nat, data: seq<Byte>, body: seq<Byte>)
    requires p <= i <= e < |s| && FieldEnd(s, i, e) == e && s[i..e] == data && s[p..e] == body
    ensures ParseField(s, p, n, kind, i, e) ==
            if s[e] != Check(Sum(body)) then Got(Refused(n, Passed(kind, data)), e + 1)
            else if e + 1 == |s| then Waiting
            else if s[e + 1] != END_CHAR then Got(Refused(n, Passed(kind, data)), e + 2)
            else Got(Taken(n, kind, data), e + 2)
  {
    hide Check;
    hide Sum;
    hide FieldEnd;
  }

  lemma FieldStops(s: seq<Byte>, p: nat, n: nat, kind: Byte, i: nat, e: nat, data: seq<Byte>)
    requires p <= i <= e && i <= |s| && FieldEnd(s, i, e) < e && FieldEnd(s, i, e) < |s|
    requires s[i..FieldEnd(s, i, e)] == data
    ensures ParseField(s, p, n, kind, i, e) == Got(Refused(n, Passed(kind, data)), FieldEnd(s, i, e) + 1)
  {
    hide FieldEnd;
  }

  /** What a frame is heard as does not depend on what surrounds it, once it is enough to be heard. */
  lemma ParseIn(input: seq<Byte>, b: nat, s: seq<Byte>, p: nat)
    requires PartAt(input, b, s) && ParseAt(s, p).Got?
    ensures ParseAt(input, b + p) == Got(ParseAt(s, p).a, b + ParseAt(s, p).next)
  {
    hide ParseField;
    hide ParseLong;
    forall k | 0 <= k < |s|
      ensures input[b + k] == s[k]
    {
      PartSlice(input, b, s, k, k);
    }
    if p + 2 < |s| && s[p] >= 32 && s[p + 1] >= 32 && s[p + 2] >= 32 {
      if s[p] == 32 {
        LongIn(input, b, s, p, s[p + 1] - 32, s[p + 2]);
      } else {
        FieldIn(input, b, s, p, s[p + 1] - 32, s[p + 2], p + 3, p + 3 + if s[p] > 35 then s[p] - 35 else 0);
      }
    }
  }

  lemma LongIn(input: seq<Byte>, b: nat, s: seq<Byte>, p: nat, n: nat, kind: Byte)
    requires PartAt(input, b, s) && p + 3 <= |s| && ParseLong(s, p, n, kind).Got?
    ensures ParseLong(input, b + p, n, kind) == Got(ParseLong(s, p, n, kind).a, b + ParseLong(s, p, n, kind).next)
  {
    hide ParseField;
    hide Check;
    hide Sum;
    forall k | 0 <= k < |s|
      ensures input[b + k] == s[k]
    {
      PartSlice(input, b, s, k, k);
    }
    hide PartAt;
    if p + 5 < |s| {
      PartSlice(input, b, s, p, p + 5);
      if s[p + 3] >= 32 && s[p + 4] >= 32 && s[p + 5] == Check(Sum(s[p..p + 5])) {
        var length := (s[p + 3] as int - 32) * 95 + (s[p + 4] as int - 32);
        FieldIn(input, b, s, p, n, kind, p + 6, p + 6 + if length > 1 then length - 1 else 0);
      }
    }
  }

  /** A frame that is heard by itself, and has only noise behind what is read of it, is a piece of a line. */
  lemma IsPiece(frame: seq<Byte>)
    requires frame != [] && frame[0] == START_CHAR && ParseAt(frame, 1).Got?
    requires ParseAt(frame, 1).next <= |frame| && Noise(frame[ParseAt(frame, 1).next..])
    ensures Piece(frame, ParseAt(frame, 1).a, ParseAt(frame, 1).next).Valid()
  {
    hide ParseAt;
    hide Noise;
    hide PartAt;
    ParseAdvances(frame, 1);
    var r := ParseAt(frame, 1);
    forall before: seq<Byte>, after: seq<Byte>
      ensures ParseAt(before + frame + after, |before| + 1) == Got(r.a, |before| + r.next)
    {
      IsPart(before, frame, after);
      ParseIn(before + frame + after, |before|, frame, 1);
    }
  }

  /** A frame with any check byte and any byte behind it. */
  function Framed(head: seq<Byte>, check: Byte, end: Byte): (frame: seq<Byte>)
    ensures |frame| == |head| + 3
  {
    [START_CHAR] + head + [check, end]
  }

  lemma FramedParts(head: seq<Byte>, n: nat, kind: Byte, data: seq<Byte>, check: Byte, end: Byte)
    requires Packet(head, n, kind, data)
    ensures var frame, e := Framed(head, check, end), 1 + |head|;
      && frame[1..e] == head && frame[e] == check && frame[e + 1] == end
      && |head| >= |data| + 3 && frame[e - |data|..e] == data && forall k :: 1 <= k < e ==> frame[k] >= 32
  {
    PacketBytes(head, n, kind, data);
    hide Packet;
    var frame, e := Framed(head, check, end), 1 + |head|;
    assert frame[e - |data|..e] == head[|head| - |data|..];
    assert forall k :: 1 <= k < e ==> frame[k] == head[k - 1];
  }

  lemma FramedHeard(head: seq<Byte>, n: nat, kind: Byte, data: seq<Byte>, check: Byte, end: Byte)
    requires Packet(head, n, kind, data)
    ensures var frame := Framed(head, check, end);
      ParseAt(frame, 1) ==
      if check != Check(Sum(head)) then Got(Refused(n, Passed(kind, data)), |frame| - 1)
      else if end != END_CHAR then Got(Refused(n, Passed(kind, data)), |frame|)
      else Got(Taken(n, kind, data), |frame|)
  {
    hide Check;
    hide Sum;
    hide ParseAt;
    hide Passed;
    var frame := Framed(head, check, end);
    var e := 1 + |head|;
    FramedParts(head, n, kind, data, check, end);
    PacketRead(frame, 1, head, n, kind, data);
    hide Packet;
    hide Framed;
    FieldEndAll(frame, e - |data|, e);
    FieldIs(frame, 1, n, kind, e - |data|, e, data, head);
    hide ParseField;
    hide FieldEnd;
  }

  /** A frame that arrives whole is taken. */
  lemma WholeFrame(head: seq<Byte>, n: nat, kind: Byte, data: seq<Byte>)
    requires Packet(head, n, kind, data)
    ensures var frame := Seal(head, END_CHAR); Piece(frame, Taken(n, kind, data), |frame|).Valid()
  {
    hide ParseAt;
    hide Check;
    hide Sum;
    hide Packet;
    hide Piece.Valid;
    var frame := Framed(head, Check(Sum(head)), END_CHAR);
    assert Seal(head, END_CHAR) == frame;
    FramedHeard(head, n, kind, data, Check(Sum(head)), END_CHAR);
    IsPiece(frame);
  }

  /** A frame whose data or check byte was damaged is refused, its characters having been passed on. */
  lemma DamagedFrame(head: seq<Byte>, n: nat, kind: Byte, data: seq<Byte>, check: Byte)
    requires Packet(head, n, kind, data) && check != Check(Sum(head))
    ensures Piece(Framed(head, check, END_CHAR), Refused(n, Passed(kind, data)), |head| + 2).Valid()
  {
    hide ParseAt;
    hide Check;
    hide Sum;
    hide Packet;
    hide Piece.Valid;
    hide Passed;
    FramedHeard(head, n, kind, data, check, END_CHAR);
    assert Framed(head, check, END_CHAR)[|head| + 2..] == [END_CHAR];
    IsPiece(Framed(head, check, END_CHAR));
  }

  // ----- single bits

  /** Two bytes whose difference is a power of two, as it is whenever they differ in one bit only. */
  predicate OneBitApart(a: Byte, b: Byte) {
    var d := if a < b then b - a else a - b;
    d == 1 || d == 2 || d == 4 || d == 8 || d == 16 || d == 32 || d == 64 || d == 128
  }

  /** Where the header puts the check byte. */
  function BodyEnd(input: seq<Byte>, p: nat): nat
    requires p + 5 <= |input|
  {
    if input[p] != 32 then p + 3 + if input[p] > 35 then input[p] - 35 else 0
    else
      var length := (input[p + 3] as int - 32) * 95 + (input[p + 4] as int - 32);
      p + 6 + if length > 1 then length - 1 else 0
  }

  /** What it takes to be taken. */
  lemma TakenMeans(input: seq<Byte>, p: nat)
    requires p + 5 <= |input| && ParseAt(input, p).Got? && ParseAt(input, p).a.Taken?
    ensures var e := BodyEnd(input, p);
      e + 1 < |input| && input[e] == Check(Sum(input[p..e])) && input[e + 1] == END_CHAR
  {
    hide Check;
    hide Sum;
  }

  /** A control character ends every frame. */
  lemma NeverWaits(input: seq<Byte>, p: nat)
    requires p < |input| && input[|input| - 1] < 32
    ensures ParseAt(input, p).Got?
  {
    hide Sum;
  }

  /** A refused frame is counted under the number in its sequence byte. */
  lemma RefusedNumber(input: seq<Byte>, p: nat)
    requires ParseAt(input, p).Got? && ParseAt(input, p).a.Refused?
    ensures p + 1 < |input| && ParseAt(input, p).a.n == input[p + 1] as int - 32
  {
    hide Check;
    hide Sum;
  }

  /**
    * The control character at `x` is read: nothing before it ends the frame, given that the bytes before it are
    * printable, the header puts the check byte no sooner, and the check of a long header is right if it comes first.
    */
  lemma ReadsUpTo(input: seq<Byte>, p: nat, x: nat)
    requires p + 5 <= |input| && p <= x < |input| && input[x] < 32 && forall k :: p <= k < x ==> input[k] >= 32
    requires x <= p + 2 || x <= BodyEnd(input, p) || (input[p] == 32 && x <= p + 5)
    requires input[p] == 32 && p + 5 < x ==> input[p + 5] == Check(Sum(input[p..p + 5]))
    ensures ParseAt(input, p).Got? ==> ParseAt(input, p).next > x
  {
    hide Check;
    hide Sum;
  }

  lemma {:induction false} SumOneChanged(s: seq<Byte>, i: nat, c: Byte)
    requires i < |s|
    ensures Sum(s[i := c]) == Sum(s) - s[i] + c
  {
    var k := |s| - 1;
    if i == k {
      assert s[i := c][..k] == s[..k];
    } else {
      assert s[i := c][..k] == s[..k][i := c];
      SumOneChanged(s[..k], i, c);
    }
  }

  /** A whole frame with one byte replaced. */
  function Flipped(head: seq<Byte>, i: nat, c: Byte): (frame: seq<Byte>)
    requires 0 < i < |head| + 3
    ensures |frame| == |head| + 3
  {
    Framed(head, Check(Sum(head)), END_CHAR)[i := c]
  }

  /** The bytes of such a frame. */
  lemma FlippedBytes(head: seq<Byte>, i: nat, c: Byte)
    requires 0 < i < |head| + 3
    ensures var f, e := Flipped(head, i, c), 1 + |head|;
      && f[0] == START_CHAR && f[i] == c
      && (i != e ==> f[e] == Check(Sum(head))) && (i != e + 1 ==> f[e + 1] == END_CHAR)
      && (forall k :: 1 <= k < e && k != i ==> f[k] == head[k - 1])
      && (i >= e ==> f[1..e] == head) && (i < e ==> f[1..e] == head[i - 1 := c])
  {
    hide Check;
    hide Sum;
  }

  /** Its check byte is wrong, or not followed by the terminator. */
  lemma FlippedCheck(head: seq<Byte>, i: nat, c: Byte)
    requires 0 < i < |head| + 3 && OneBitApart(Framed(head, Check(Sum(head)), END_CHAR)[i], c)
    ensures var f, e := Flipped(head, i, c), 1 + |head|;
      f[e] != Check(Sum(f[1..e])) || f[e + 1] != END_CHAR
  {
    hide *;
    var check := Check(Sum(head));
    FlippedTail(head, i, c);
    FramedBytes(head, check, i);
    Differ(Framed(head, check, END_CHAR)[i], c);
    if i <= |head| {
      SumSeesOneBit(head, i - 1, c);
    }
  }

  /** The part that is checked, the check byte and the terminator. */
  lemma FlippedTail(head: seq<Byte>, i: nat, c: Byte)
    requires 0 < i < |head| + 3
    ensures var f, e := Flipped(head, i, c), 1 + |head|;
      && f[1..e] == (if i < e then head[i - 1 := c] else head)
      && f[e] == (if i == e then c else Check(Sum(head))) && f[e + 1] == if i == e + 1 then c else END_CHAR
  {
    hide Check;
    hide Sum;
    hide Framed;
    FramedTail(head, Check(Sum(head)));
    UpdateSlice(Framed(head, Check(Sum(head)), END_CHAR), i, c, 1, 1 + |head|);
  }

  lemma FramedTail(head: seq<Byte>, check: Byte)
    ensures var frame, e := Framed(head, check, END_CHAR), 1 + |head|;
      frame[1..e] == head && frame[e] == check && frame[e + 1] == END_CHAR
  {
  }

  lemma UpdateSlice(s: seq<Byte>, i: nat, c: Byte, a: nat, b: nat)
    requires i < |s| && a <= b <= |s|
    ensures s[i := c][a..b] == if a <= i < b then s[a..b][i - a := c] else s[a..b]
  {
  }

  lemma Differ(a: Byte, b: Byte)
    requires OneBitApart(a, b)
    ensures a != b
  {
  }

  lemma FramedBytes(head: seq<Byte>, check: Byte, i: nat)
    requires 0 < i < |head| + 3
    ensures var was := Framed(head, check, END_CHAR)[i];
      if i <= |head| then was == head[i - 1] else if i == 1 + |head| then was == check else was == END_CHAR
  {
  }

  lemma SumSeesOneBit(s: seq<Byte>, i: nat, c: Byte)
    requires i < |s| && OneBitApart(s[i], c)
    ensures Check(Sum(s[i := c])) != Check(Sum(s))
  {
    hide Check;
    hide Sum;
    SumOneChanged(s, i, c);
    if s[i] < c {
      CheckSeesOneBit(Sum(s), c - s[i]);
    } else {
      CheckSeesOneBit(Sum(s[i := c]), s[i] - c);
    }
  }

  /** The header of a packet puts the check byte behind the data, and goes on doing so if it is not touched. */
  lemma FlippedEnd(head: seq<Byte>, n: nat, kind: Byte, data: seq<Byte>, i: nat, c: Byte)
    requires Packet(head, n, kind, data) && 1 < i < |head| + 3
    requires head[0] != 32 || (i != 4 && i != 5)
    ensures BodyEnd(Flipped(head, i, c), 1) == 1 + |head|
  {
    hide Check;
    hide Sum;
    FlippedBytes(head, i, c);
    assert ((|data| + 1) / 95) * 95 + (|data| + 1) % 95 == |data| + 1;
  }

  /** A terminator where the header wants it is the one at the end. */
  lemma FlippedTerminator(head: seq<Byte>, n: nat, kind: Byte, data: seq<Byte>, i: nat, c: Byte)
    requires Packet(head, n, kind, data) && 0 < i < |head| + 3
    ensures var f := Flipped(head, i, c);
      var e := BodyEnd(f, 1);
      e + 1 < |f| && f[e + 1] == END_CHAR ==> e == 1 + |head|
  {
    hide Check;
    hide Sum;
    FlippedBytes(head, i, c);
    PacketBytes(head, n, kind, data);
    CheckPrintable(Sum(head));
    if 1 < i && (head[0] != 32 || (i != 4 && i != 5)) {
      FlippedEnd(head, n, kind, data, i, c);
    } else {
      var f := Flipped(head, i, c);
      var e := BodyEnd(f, 1);
      hide Flipped;
      hide Packet;
      assert e + 1 > i;
      assert e < |head| ==> f[e + 1] == head[e];
    }
  }

  /** It is not taken. */
  lemma FlippedNotTaken(head: seq<Byte>, n: nat, kind: Byte, data: seq<Byte>, i: nat, c: Byte)
    requires Packet(head, n, kind, data) && 0 < i < |head| + 3
    requires OneBitApart(Framed(head, Check(Sum(head)), END_CHAR)[i], c)
    ensures var r := ParseAt(Flipped(head, i, c), 1); r.Got? ==> !r.a.Taken?
  {
    hide ParseAt;
    hide Check;
    hide Sum;
    var f := Flipped(head, i, c);
    FlippedBytes(head, i, c);
    FlippedCheck(head, i, c);
    PacketBytes(head, n, kind, data);
    FlippedTerminator(head, n, kind, data, i, c);
    hide Flipped;
    hide Packet;
    hide BodyEnd;
    if ParseAt(f, 1).Got? && ParseAt(f, 1).a.Taken? {
      TakenMeans(f, 1);
    }
  }

  /** Apart from the replaced byte and the start character there is nothing in it that is not noise. */
  lemma QuietBytes(head: seq<Byte>, n: nat, kind: Byte, data: seq<Byte>, i: nat, c: Byte)
    requires Packet(head, n, kind, data) && 0 < i < |head| + 3
    ensures var f := Flipped(head, i, c); forall k :: 1 <= k < |f| && k != i ==> f[k] >= 32 || f[k] == END_CHAR
  {
    hide Check;
    hide Sum;
    var f := Flipped(head, i, c);
    FlippedBytes(head, i, c);
    PacketBytes(head, n, kind, data);
    CheckPrintable(Sum(head));
    hide Flipped;
    hide Packet;
    forall k | 1 <= k < |f| && k != i
      ensures f[k] >= 32 || f[k] == END_CHAR
    {
      if k <= |head| {
        assert f[k] == head[k - 1];
      }
    }
  }

  /** All of it that is left unread is noise. */
  lemma FlippedRest(head: seq<Byte>, n: nat, kind: Byte, data: seq<Byte>, i: nat, c: Byte)
    requires Packet(head, n, kind, data) && 0 < i < |head| + 3
    requires ParseAt(Flipped(head, i, c), 1).Got? && ParseAt(Flipped(head, i, c), 1).next <= |head| + 3
    requires i == |head| + 2 ==> ParseAt(Flipped(head, i, c), 1).next == |head| + 3
    ensures Noise(Flipped(head, i, c)[ParseAt(Flipped(head, i, c), 1).next..])
  {
    hide ParseAt;
    hide Packet;
    var f := Flipped(head, i, c);
    assert f[i] == c;
    hide Flipped;
    QuietBytes(head, n, kind, data, i, c);
    ParseAdvances(f, 1);
    if i < |head| + 2 && c < 32 {
      FlippedReadsUpTo(head, n, kind, data, i, c);
    }
    var next := ParseAt(f, 1).next;
    assert forall k :: 0 <= k < |f[next..]| ==> f[next..][k] == f[next + k];
  }

  lemma CheckPrintable(sum: nat)
    ensures Check(sum) >= 32
  {
  }

  lemma FlippedReadsUpTo(head: seq<Byte>, n: nat, kind: Byte, data: seq<Byte>, i: nat, c: Byte)
    requires Packet(head, n, kind, data) && 0 < i < |head| + 2 && c < 32
    ensures var r := ParseAt(Flipped(head, i, c), 1); r.Got? ==> r.next > i
  {
    hide ParseAt;
    hide Check;
    hide Sum;
    var f := Flipped(head, i, c);
    FlippedBytes(head, i, c);
    PacketBytes(head, n, kind, data);
    if 1 < i && (head[0] != 32 || (i != 4 && i != 5)) {
      FlippedEnd(head, n, kind, data, i, c);
    }
    if head[0] == 32 && i > 6 {
      LongCheck(head, n, kind, data);
      assert f[1..6] == head[..5] && f[6] == head[5];
    }
    hide Flipped;
    hide Packet;
    hide BodyEnd;
    forall k | 1 <= k < i
      ensures f[k] >= 32
    {
      assert f[k] == if k < 1 + |head| then head[k - 1] else Check(Sum(head));
    }
    ReadsUpTo(f, 1, i);
  }

  lemma LongCheck(head: seq<Byte>, n: nat, kind: Byte, data: seq<Byte>)
    requires Packet(head, n, kind, data) && head[0] == 32
    ensures |head| >= 6 && head[5] == Check(Sum(head[..5]))
  {
    hide Check;
    hide Sum;
    assert head == LongHead(n, kind, data);
    var h: seq<Byte> := [32, 32 + n, kind, 32 + (|data| + 1) / 95, 32 + (|data| + 1) % 95];
    assert head[..5] == h;
  }

  /**
    * A single flipped bit anywhere behind the start character, in length, number, type, data, check or terminator
    * of a normal or a long frame, is noticed: the frame is heard as one attempt, which is not taken and goes under
    * the number in its sequence byte, and reading resumes before the next frame.
    */
  lemma FlippedBitRefused(head: seq<Byte>, n: nat, kind: Byte, data: seq<Byte>, i: nat, c: Byte)
    requires Packet(head, n, kind, data) && 0 < i < |head| + 3
    requires OneBitApart(Seal(head, END_CHAR)[i], c)
    ensures var frame := Seal(head, END_CHAR)[i := c];
      var r := ParseAt(frame, 1);
      && r.Got? && !r.a.Taken? && (r.a.Refused? ==> r.a.n == frame[2] as int - 32)
      && Piece(frame, r.a, r.next).Valid()
  {
    hide ParseAt;
    hide Check;
    hide Sum;
    hide Packet;
    hide Piece.Valid;
    var f := Flipped(head, i, c);
    assert Seal(head, END_CHAR) == Framed(head, Check(Sum(head)), END_CHAR);
    FlippedBytes(head, i, c);
    FlippedNotTaken(head, n, kind, data, i, c);
    if i == |head| + 2 {
      assert f == Framed(head, Check(Sum(head)), c);
      FramedHeard(head, n, kind, data, Check(Sum(head)), c);
    } else {
      NeverWaits(f, 1);
    }
    ParseAdvances(f, 1);
    FlippedRest(head, n, kind, data, i, c);
    if ParseAt(f, 1).a.Refused? {
      RefusedNumber(f, 1);
    }
    IsPiece(f);
  }

  /**
    * End to end: if what the receiver hears are deliveries of packets that carry the encoding of a file, then
    * the file is in memory from the start address on and the size is its length, whatever else was on the line.
    */
  lemma TransferArrives(mem: map<int, Byte>, base: int, ps: seq<Piece>, after: seq<Byte>,
                        ds: seq<Delivery>, q: Byte, file: seq<Byte>)
    requires Transmission(ps) && Heard(ps) == AllAttempts(ds)
    requires ValidRun(ds) && Steady(Heard(ps), q) && NoHeaderLostAfterData(ds) && NothingDoubled(ds)
    requires LegalQuote(q) && Total(ds) == Encode(q, file)
    ensures var r := Read(Line(ps) + after, 0);
      var t := Run(Start(mem, base), r.attempts);
      && r.ending == Finished && t.addr - base == |file|
      && Written(t.mem, base, file) && SameBelow(mem, t.mem, base)
  {
    hide *;
    LineRead([], ps, after);
    assert [] + Line(ps) + after == Line(ps) + after;
    FileArrives(mem, base, ds, q, file);
  }

  /**
    * The exact form for packets with whole encodings: the file is in memory if and only if no header was lost right
    * after data, as long as nothing was doubled, and the other way round.
    */
  lemma TransferExact(mem: map<int, Byte>, base: int, ps: seq<Piece>, after: seq<Byte>,
                      ds: seq<Delivery>, q: Byte, pieces: seq<seq<Byte>>)
    requires Transmission(ps) && Heard(ps) == AllAttempts(ds)
    requires ValidRun(ds) && Steady(Heard(ps), q) && LegalQuote(q) && Whole(ds, pieces, q)
    ensures var r := Read(Line(ps) + after, 0);
      var t := Run(Start(mem, base), r.attempts);
      var file := Flatten(pieces);
      && r.ending == Finished
      && (NothingDoubled(ds) ==> (HasFile(t, base, file) <==> NoHeaderLostAfterData(ds)))
      && (NoHeaderLostAfterData(ds) ==> (HasFile(t, base, file) <==> NothingDoubled(ds)))
  {
    hide *;
    LineRead([], ps, after);
    assert [] + Line(ps) + after == Line(ps) + after;
    FileKeptExactly(mem, base, ds, q, pieces);
  }
}
