/**
  * The Kermit download as a run of packet attempts (cmd/load.c, `k_recv` with its checkpoint and
  * restore of the data state).  Data is written to memory before the packet is known to be good, so
  * safety rests on the checkpoint taken whenever a new sequence number arrives.
  */
module KermitSession {
  import opened Bytes
  import opened KermitCoding

  const SEND_TYPE: Byte := 'S' as int
  const DATA_TYPE: Byte := 'D' as int
  const BREAK_TYPE: Byte := 'B' as int
  const END_CHAR: Byte := 0x0D
  const SEND_DATA_SIZE := 20

  /**
    * What the receiver made of one frame:
    *  - `BadHeader`: the length or sequence byte was a control character, so the frame was refused
    *    before the sequence number was looked at;
    *  - `Refused`: refused later, after `data` had already been passed on to `k_data_char`;
    *  - `Taken`: check byte and terminator were right.
    */
  datatype Attempt =
    | BadHeader
    | Refused(n: nat, data: seq<Byte>)
    | Taken(n: nat, kind: Byte, field: seq<Byte>)

  /** What the sender announced in its S packet (`his_eol`, `his_pad_count`, `his_pad_char`, `his_quote`). */
  datatype Parms = Parms(eol: Byte, padCount: nat, padChar: Byte, quote: Byte)

  const DEFAULT_PARMS := Parms(END_CHAR, 0, 0, K_ESCAPE)

  /** How many bytes of an S packet `handle_send_packet` looks at: the last of a full buffer is ignored. */
  function ParmCount(field: seq<Byte>): nat {
    if |field| <= SEND_DATA_SIZE - 2 then |field| else SEND_DATA_SIZE - 2
  }

  function Untochar(c: Byte): Byte {
    (c - 32) % 256
  }

  /** The parameters in force after an S packet: defaults, overridden by as many as were sent. */
  function ParmsOf(field: seq<Byte>): Parms {
    Parms(
      if ParmCount(field) >= 5 then Untochar(field[4]) else END_CHAR,
      if ParmCount(field) >= 3 then Untochar(field[2]) else 0,
      if ParmCount(field) >= 4 then KTrans(field[3]) else 0,
      if ParmCount(field) >= 6 then field[5] else K_ESCAPE)
  }

  /** The receiver's globals. `lastN == -1` before the first sequence number. */
  datatype Session = Session(
    mem: map<int, Byte>, addr: int, escape: bool,
    savedAddr: int, savedEscape: bool,
    lastN: int, parms: Parms)

  function Start(mem: map<int, Byte>, base: int): Session {
    Session(mem, base, false, base, false, -1, DEFAULT_PARMS)
  }

  function Save(s: Session): Session {
    s.(savedAddr := s.addr, savedEscape := s.escape)
  }

  function Restore(s: Session): Session {
    s.(addr := s.savedAddr, escape := s.savedEscape)
  }

  function Write(s: Session, c: Byte): Session {
    s.(mem := s.mem[s.addr := c], addr := s.addr + 1)
  }

  function Char(s: Session, c: Byte): Session {
    if s.escape then Write(s, KTrans(c)).(escape := false)
    else if c == s.parms.quote then s.(escape := true)
    else Write(s, c)
  }

  function Chars(s: Session, cs: seq<Byte>): Session {
    if cs == [] then s else Char(Chars(s, cs[..|cs| - 1]), cs[|cs| - 1])
  }

  /** A repeated sequence number goes back to the checkpoint, a new one takes a checkpoint. */
  function Checkpoint(s: Session, n: nat): Session {
    if n == s.lastN then Restore(s) else Save(s).(lastN := n)
  }

  function Step(s: Session, a: Attempt): Session {
    match a
    case BadHeader => Restore(s)
    case Refused(n, data) => Restore(Chars(Checkpoint(s, n), data))
    case Taken(n, kind, field) =>
      if kind == DATA_TYPE then Chars(Checkpoint(s, n), field)
      else if kind == SEND_TYPE then Checkpoint(s, n).(parms := ParmsOf(field))
      else Checkpoint(s, n)
  }

  function Run(s: Session, attempts: seq<Attempt>): Session {
    if attempts == [] then s else Step(Run(s, attempts[..|attempts| - 1]), attempts[|attempts| - 1])
  }

  lemma {:induction false} RunConcat(s: Session, a: seq<Attempt>, b: seq<Attempt>)
    ensures Run(s, a + b) == Run(Run(s, a), b)
  {
    if b == [] {
      assert a + b == a;
    } else {
      assert (a + b)[..|a + b| - 1] == a + b[..|b| - 1];
      RunConcat(s, a, b[..|b| - 1]);
    }
  }

  // ----- memory against streams

  /** Memory holds `out` from `base` on. */
  ghost predicate Written(mem: map<int, Byte>, base: int, out: seq<Byte>) {
    forall a :: base <= a < base + |out| ==> a in mem && mem[a] == out[a - base]
  }

  /** Nothing below `base` differs between two memories. */
  ghost predicate SameBelow(m0: map<int, Byte>, m1: map<int, Byte>, base: int) {
    forall a :: a < base ==> (a in m0 <==> a in m1) && (a in m0 ==> m0[a] == m1[a])
  }

  /** The session has written `cur.out` from `base` on, and its checkpoint stands at `saved`. */
  ghost predicate Holds(s: Session, base: int, cur: Stream, saved: Stream) {
    && s.addr == base + |cur.out| && s.escape == cur.escape
    && s.savedAddr == base + |saved.out| && s.savedEscape == saved.escape
    && saved.out <= cur.out
    && Written(s.mem, base, cur.out)
  }

  lemma {:induction false} CharsHolds(s: Session, base: int, cur: Stream, saved: Stream, cs: seq<Byte>)
    requires Holds(s, base, cur, saved)
    ensures Holds(Chars(s, cs), base, DataChars(s.parms.quote, cur, cs), saved)
    ensures Chars(s, cs).parms == s.parms && Chars(s, cs).lastN == s.lastN
    ensures SameBelow(s.mem, Chars(s, cs).mem, base)
  {
    if cs != [] {
      CharsHolds(s, base, cur, saved, cs[..|cs| - 1]);
    }
  }

  // ----- any run at all

  /** The quote character in force after some attempts: only accepted S packets change it. */
  function QuoteAfter(q: Byte, attempts: seq<Attempt>): Byte {
    if attempts == [] then q
    else
      var a := attempts[|attempts| - 1];
      if a.Taken? && a.kind == SEND_TYPE then ParmsOf(a.field).quote
      else QuoteAfter(q, attempts[..|attempts| - 1])
  }

  /** Every data packet was taken while the quote character was `q`. */
  ghost predicate Steady(attempts: seq<Attempt>, q: Byte) {
    forall i :: 0 <= i < |attempts| && attempts[i].Taken? && attempts[i].kind == DATA_TYPE ==>
      QuoteAfter(K_ESCAPE, attempts[..i]) == q
  }

  lemma {:induction false} RunQuote(s: Session, attempts: seq<Attempt>)
    ensures Run(s, attempts).parms.quote == QuoteAfter(s.parms.quote, attempts)
  {
    if attempts != [] {
      var front, a := attempts[..|attempts| - 1], attempts[|attempts| - 1];
      RunQuote(s, front);
      var t := Run(s, front);
      if a.Refused? {
        CharsParms(Checkpoint(t, a.n), a.data);
      } else if a.Taken? && a.kind == DATA_TYPE {
        CharsParms(Checkpoint(t, a.n), a.field);
      }
    }
  }

  lemma {:induction false} CharsParms(s: Session, cs: seq<Byte>)
    ensures Chars(s, cs).parms == s.parms
  {
    if cs != [] {
      CharsParms(s, cs[..|cs| - 1]);
    }
  }

  /** Where the checkpoint stands after an attempt, given the streams before it. */
  function SavedAfter(lastN: int, cur: Stream, saved: Stream, a: Attempt): Stream {
    if a.BadHeader? || a.n == lastN then saved else cur
  }

  /** What is in memory after an attempt: a data packet that was taken, applied to the checkpoint. */
  function CurAfter(q: Byte, lastN: int, cur: Stream, saved: Stream, a: Attempt): Stream {
    var point := SavedAfter(lastN, cur, saved, a);
    if a.Taken? && a.kind == DATA_TYPE then DataChars(q, point, a.field) else point
  }

  lemma StepHolds(s: Session, base: int, cur: Stream, saved: Stream, a: Attempt)
    requires Holds(s, base, cur, saved)
    ensures Holds(Step(s, a), base, CurAfter(s.parms.quote, s.lastN, cur, saved, a),
                  SavedAfter(s.lastN, cur, saved, a))
    ensures SameBelow(s.mem, Step(s, a).mem, base)
    ensures Step(s, a).lastN == if a.BadHeader? then s.lastN else a.n
  {
    if !a.BadHeader? {
      var point := SavedAfter(s.lastN, cur, saved, a);
      assert Holds(Checkpoint(s, a.n), base, point, point);
      if a.Refused? {
        CharsHolds(Checkpoint(s, a.n), base, point, point, a.data);
      } else if a.kind == DATA_TYPE {
        CharsHolds(Checkpoint(s, a.n), base, point, point, a.field);
      }
    }
  }

  /** What memory and the checkpoint stand for after some attempts, with the number and quote last seen. */
  datatype Standing = Standing(cur: Stream, saved: Stream, lastN: int, quote: Byte)

  function Stand(attempts: seq<Attempt>): Standing {
    if attempts == [] then Standing(EMPTY, EMPTY, -1, K_ESCAPE)
    else
      var l, a := Stand(attempts[..|attempts| - 1]), attempts[|attempts| - 1];
      Standing(
        CurAfter(l.quote, l.lastN, l.cur, l.saved, a), SavedAfter(l.lastN, l.cur, l.saved, a),
        if a.BadHeader? then l.lastN else a.n,
        if a.Taken? && a.kind == SEND_TYPE then ParmsOf(a.field).quote else l.quote)
  }

  /**
    * Over every sequence of attempts, without any assumption: from the start address on memory holds one stream
    * without gaps, of which the checkpoint is a prefix, and nothing below the start address changed.
    */
  lemma {:induction false} AnyRunHolds(mem: map<int, Byte>, base: int, attempts: seq<Attempt>)
    ensures var t, l := Run(Start(mem, base), attempts), Stand(attempts);
      && Holds(t, base, l.cur, l.saved) && t.lastN == l.lastN && t.parms.quote == l.quote
      && SameBelow(mem, t.mem, base)
  {
    var s := Start(mem, base);
    if attempts != [] {
      var front, a := attempts[..|attempts| - 1], attempts[|attempts| - 1];
      AnyRunHolds(mem, base, front);
      hide Holds;
      var t, l := Run(s, front), Stand(front);
      StepHolds(t, base, l.cur, l.saved, a);
      RunQuote(t, [a]);
      assert Run(t, [a]) == Step(t, a);
      hide Step;
    }
  }

  /** The data an attempt adds to the file if it is taken. */
  function DataOf(a: Attempt): seq<Byte> {
    if a.Taken? && a.kind == DATA_TYPE then a.field else []
  }

  /** The data behind memory and behind the checkpoint, and the number of the last readable header. */
  datatype Ledger = Ledger(cur: seq<Byte>, saved: seq<Byte>, lastN: int)

  const BLANK := Ledger([], [], -1)

  function Note(l: Ledger, a: Attempt): Ledger {
    if a.BadHeader? then l.(cur := l.saved)
    else
      var point := if a.n == l.lastN then l.saved else l.cur;
      Ledger(point + DataOf(a), point, a.n)
  }

  function Notes(l: Ledger, attempts: seq<Attempt>): Ledger {
    if attempts == [] then l else Note(Notes(l, attempts[..|attempts| - 1]), attempts[|attempts| - 1])
  }

  lemma {:induction false} NotesConcat(l: Ledger, a: seq<Attempt>, b: seq<Attempt>)
    ensures Notes(l, a + b) == Notes(Notes(l, a), b)
  {
    if b == [] {
      assert a + b == a;
    } else {
      assert (a + b)[..|a + b| - 1] == a + b[..|b| - 1];
      NotesConcat(l, a, b[..|b| - 1]);
    }
  }

  /**
    * Main invariant, over every sequence of attempts whatever their numbers: memory from the start address
    * holds the streaming decode of the data in the ledger, and nothing below the start address changed.
    */
  lemma {:induction false} RunHolds(mem: map<int, Byte>, base: int, attempts: seq<Attempt>, q: Byte)
    requires Steady(attempts, q)
    ensures var t, l := Run(Start(mem, base), attempts), Notes(BLANK, attempts);
      && Holds(t, base, DataChars(q, EMPTY, l.cur), DataChars(q, EMPTY, l.saved))
      && t.lastN == l.lastN && SameBelow(mem, t.mem, base)
  {
    var s := Start(mem, base);
    if attempts != [] {
      var k := |attempts| - 1;
      var front, a := attempts[..k], attempts[k];
      assert forall i :: 0 <= i < k ==> front[i] == attempts[i] && front[..i] == attempts[..i];
      RunHolds(mem, base, front, q);
      RunQuote(s, front);
      NoteHolds(Run(s, front), base, Notes(BLANK, front), a, q);
    }
  }

  lemma NoteHolds(s: Session, base: int, l: Ledger, a: Attempt, q: Byte)
    requires Holds(s, base, DataChars(q, EMPTY, l.cur), DataChars(q, EMPTY, l.saved)) && s.lastN == l.lastN
    requires a.Taken? && a.kind == DATA_TYPE ==> s.parms.quote == q
    ensures var t, l' := Step(s, a), Note(l, a);
      && Holds(t, base, DataChars(q, EMPTY, l'.cur), DataChars(q, EMPTY, l'.saved))
      && t.lastN == l'.lastN && SameBelow(s.mem, t.mem, base)
  {
    hide DataChars;
    hide Step;
    hide Holds;
    var cur, saved := DataChars(q, EMPTY, l.cur), DataChars(q, EMPTY, l.saved);
    StepHolds(s, base, cur, saved, a);
    if !a.BadHeader? {
      var point := if a.n == l.lastN then l.saved else l.cur;
      DataCharsConcat(q, EMPTY, point, DataOf(a));
      NoData(q, DataChars(q, EMPTY, point));
    }
  }

  lemma NoData(q: Byte, s: Stream)
    ensures DataChars(q, s, []) == s
  {
  }

  // ----- deliveries

  /**
    * One packet of the sender with everything that reached the receiver for it: some attempts, refused
    * or repeated, and at last the attempt whose acknowledgement let the sender go on.
    */
  datatype Delivery = Delivery(n: nat, tries: seq<Attempt>, kind: Byte, field: seq<Byte>) {
    function Last(): Attempt {
      Taken(n, kind, field)
    }

    function Attempts(): seq<Attempt> {
      tries + [Last()]
    }

    /** Attempts that were taken, and so passed the check, carry the packet's number; refused ones carry any. */
    ghost predicate Valid() {
      forall k :: 0 <= k < |tries| && tries[k].Taken? ==> tries[k].n == n
    }

    /** Attempts that were taken are the packet. */
    ghost predicate Faithful() {
      forall k :: 0 <= k < |tries| && tries[k].Taken? ==> tries[k] == Last()
    }

    /** The data this packet adds to the file. */
    function Data(): seq<Byte> {
      DataOf(Last())
    }

    /**
      * The first attempt was refused on its length or sequence byte, or its sequence byte was read as `prev`,
      * the number before.
      */
    predicate HeaderLost(prev: int) {
      tries != [] && (tries[0].BadHeader? || tries[0].n == prev)
    }

    /** Data taken twice: an attempt was taken, but the next one was refused under another number. */
    function Doubled(): seq<Byte> {
      DoubledIn(tries, n)
    }
  }

  function DoubledIn(tries: seq<Attempt>, n: nat): seq<Byte> {
    if |tries| < 2 then []
    else
      var k := |tries| - 1;
      DoubledIn(tries[..k], n) + if tries[k].Refused? && tries[k].n != n then DataOf(tries[k - 1]) else []
  }

  /** Consecutive packets carry different sequence numbers. */
  ghost predicate ValidRun(ds: seq<Delivery>) {
    && (forall i :: 0 <= i < |ds| ==> ds[i].Valid())
    && (forall i :: 0 < i < |ds| ==> ds[i].n != ds[i - 1].n)
  }

  function AllAttempts(ds: seq<Delivery>): seq<Attempt> {
    if ds == [] then [] else AllAttempts(ds[..|ds| - 1]) + ds[|ds| - 1].Attempts()
  }

  /** The point a packet's data is added to, short of what is doubled. */
  function Point(l: Ledger, d: Delivery): seq<Byte> {
    if d.HeaderLost(l.lastN) then l.saved else l.cur
  }

  /** Some tries of a packet: they are anchored at one point, and only a doubled attempt moves it. */
  lemma {:induction false} TriesLeave(l: Ledger, d: Delivery, k: nat)
    requires d.Valid() && d.n != l.lastN && 0 < k <= |d.tries|
    ensures var r, at := Notes(l, d.tries[..k]), Point(l, d) + DoubledIn(d.tries[..k], d.n);
      && r.saved == at && r.cur == at + DataOf(d.tries[k - 1])
      && (d.tries[k - 1].Taken? ==> r.lastN == d.n)
  {
    var a := d.tries[k - 1];
    var front := d.tries[..k - 1];
    assert d.tries[..k][..k - 1] == front;
    var before := Notes(l, front);
    assert Notes(l, d.tries[..k]) == Note(before, a);
    if k == 1 {
      assert before == l;
      assert Point(l, d) + [] == Point(l, d);
    } else {
      TriesLeave(l, d, k - 1);
      var at := Point(l, d) + DoubledIn(front, d.n);
      var f := DataOf(d.tries[k - 2]);
      assert at + [] == at;
      assert (at + f) + [] == at + f;
      assert Point(l, d) + (DoubledIn(front, d.n) + f) == at + f;
      assert DoubledIn(front, d.n) + [] == DoubledIn(front, d.n);
      assert d.tries[..k][k - 2] == d.tries[k - 2];
    }
  }

  /** A delivered packet's data is added once, behind its point and whatever was doubled. */
  lemma DeliveryLeaves(l: Ledger, d: Delivery)
    requires d.Valid() && d.n != l.lastN
    ensures var at := Point(l, d) + d.Doubled();
      Notes(l, d.Attempts()) == Ledger(at + d.Data(), at, d.n)
  {
    var k := |d.tries|;
    assert d.Attempts()[..k] == d.tries == d.tries[..k];
    assert Notes(l, d.Attempts()) == Note(Notes(l, d.tries), d.Last());
    assert Point(l, d) + [] == Point(l, d);
    if k > 0 {
      TriesLeave(l, d, k);
      var at := Point(l, d) + d.Doubled();
      assert at + [] == at;
    }
  }

  // ----- what is kept of a run

  /** All data of the file, in order, once each. */
  function Total(ds: seq<Delivery>): seq<Byte> {
    if ds == [] then [] else Total(ds[..|ds| - 1]) + ds[|ds| - 1].Data()
  }

  /** The number of the last packet. */
  function LastNumber(ds: seq<Delivery>): int {
    if ds == [] then -1 else ds[|ds| - 1].n
  }

  /** The data the checkpoint stands behind after `ds`. */
  function KeptBefore(ds: seq<Delivery>): seq<Byte>
    decreases |ds|, 0
  {
    if ds == [] then []
    else
      var front, d := ds[..|ds| - 1], ds[|ds| - 1];
      (if d.HeaderLost(LastNumber(front)) then KeptBefore(front) else Kept(front)) + d.Doubled()
  }

  /** The data that is in memory after `ds`. */
  function Kept(ds: seq<Delivery>): seq<Byte>
    decreases |ds|, 1
  {
    if ds == [] then [] else KeptBefore(ds) + ds[|ds| - 1].Data()
  }

  /** The ledger of a run of deliveries. */
  lemma {:induction false} DeliveriesLeave(ds: seq<Delivery>)
    requires ValidRun(ds)
    ensures Notes(BLANK, AllAttempts(ds)) == Ledger(Kept(ds), KeptBefore(ds), LastNumber(ds))
  {
    if ds != [] {
      var k := |ds| - 1;
      var front, d := ds[..k], ds[k];
      assert forall i :: 0 <= i < k ==> front[i] == ds[i];
      DeliveriesLeave(front);
      NotesConcat(BLANK, AllAttempts(front), d.Attempts());
      DeliveryLeaves(Notes(BLANK, AllAttempts(front)), d);
    }
  }

  lemma KeptAppend(front: seq<Delivery>, d: Delivery)
    ensures var ds := front + [d];
      && KeptBefore(ds) == (if d.HeaderLost(LastNumber(front)) then KeptBefore(front) else Kept(front)) + d.Doubled()
      && Kept(ds) == KeptBefore(ds) + d.Data() && Total(ds) == Total(front) + d.Data()
  {
    assert (front + [d])[..|front|] == front;
  }

  /** No packet after a data packet lost the header of its very first attempt. */
  ghost predicate NoHeaderLostAfterData(ds: seq<Delivery>) {
    forall i :: 0 < i < |ds| && ds[i - 1].Data() != [] ==> !ds[i].HeaderLost(ds[i - 1].n)
  }

  /** No data was taken twice. */
  ghost predicate NothingDoubled(ds: seq<Delivery>) {
    forall i :: 0 <= i < |ds| ==> ds[i].Doubled() == []
  }

  /** Against all the data: what one more packet adds or loses. */
  lemma KeptGrowth(ds: seq<Delivery>)
    requires ds != []
    ensures var front, d := ds[..|ds| - 1], ds[|ds| - 1];
      var lost := d.HeaderLost(LastNumber(front)) && front != [];
      && |Kept(ds)| - |Total(ds)| == |KeptBefore(ds)| - |Total(front)|
      && |KeptBefore(ds)| == |Kept(front)| + |d.Doubled()| - if lost then |front[|front| - 1].Data()| else 0
  {
    var front, d := ds[..|ds| - 1], ds[|ds| - 1];
    if front == [] {
      NothingKept();
    } else {
      assert |Kept(front)| == |KeptBefore(front)| + |front[|front| - 1].Data()|;
    }
  }

  lemma NothingKept()
    ensures var none: seq<Delivery> := []; Kept(none) == [] && KeptBefore(none) == [] && Total(none) == []
  {
  }

  lemma Front(ds: seq<Delivery>)
    requires ds != []
    ensures var front, d := ds[..|ds| - 1], ds[|ds| - 1];
      && (NothingDoubled(ds) <==> NothingDoubled(front) && d.Doubled() == [])
      && (NoHeaderLostAfterData(ds) <==>
          NoHeaderLostAfterData(front) &&
          (front != [] && front[|front| - 1].Data() != [] ==> !d.HeaderLost(LastNumber(front))))
  {
    var k := |ds| - 1;
    var front, d := ds[..k], ds[k];
    assert forall i :: 0 <= i < k ==> front[i] == ds[i];
    if NothingDoubled(front) && d.Doubled() == [] {
      forall i | 0 <= i < |ds|
        ensures ds[i].Doubled() == []
      {
        assert i < k ==> front[i].Doubled() == [];
      }
    }
    if NothingDoubled(ds) {
      forall i | 0 <= i < k
        ensures front[i].Doubled() == []
      {
        assert ds[i].Doubled() == [];
      }
    }
  }

  /** Without doubling nothing is added to the data, without loss nothing is missing. */
  lemma {:induction false} KeptLength(ds: seq<Delivery>)
    ensures NothingDoubled(ds) ==> |Kept(ds)| <= |Total(ds)|
    ensures NoHeaderLostAfterData(ds) ==> |Kept(ds)| >= |Total(ds)|
    ensures NothingDoubled(ds) && !NoHeaderLostAfterData(ds) ==> |Kept(ds)| < |Total(ds)|
    ensures NoHeaderLostAfterData(ds) && !NothingDoubled(ds) ==> |Kept(ds)| > |Total(ds)|
  {
    if ds == [] {
      NothingKept();
    } else {
      var front, d := ds[..|ds| - 1], ds[|ds| - 1];
      KeptLength(front);
      Front(ds);
      KeptGrowth(ds);
    }
  }

  lemma {:induction false} KeptAll(ds: seq<Delivery>)
    requires NothingDoubled(ds) && NoHeaderLostAfterData(ds)
    ensures Kept(ds) == Total(ds)
  {
    if ds == [] {
      NothingKept();
    } else {
      var front, d := ds[..|ds| - 1], ds[|ds| - 1];
      Front(ds);
      KeptAll(front);
      NothingKept();
      assert Kept(front) + [] == Kept(front) && KeptBefore(front) + [] == KeptBefore(front);
    }
  }

  /**
    * The kept data is all data if there is neither loss nor doubling. With no doubling a single loss makes it
    * shorter, with no loss a single doubling makes it longer.
    */
  lemma KeptIsTotalExactly(ds: seq<Delivery>)
    ensures NothingDoubled(ds) ==> (Kept(ds) == Total(ds) <==> NoHeaderLostAfterData(ds))
    ensures NothingDoubled(ds) ==> (|Kept(ds)| == |Total(ds)| <==> NoHeaderLostAfterData(ds))
    ensures NoHeaderLostAfterData(ds) ==> (Kept(ds) == Total(ds) <==> NothingDoubled(ds))
    ensures NoHeaderLostAfterData(ds) ==> (|Kept(ds)| == |Total(ds)| <==> NothingDoubled(ds))
  {
    hide Kept;
    hide Total;
    KeptLength(ds);
    if NothingDoubled(ds) && NoHeaderLostAfterData(ds) {
      KeptAll(ds);
    }
  }

  // ----- packets that carry whole encodings

  /**
    * Packet i carries the encoding of `pieces[i]`, so that no quoted pair is split between packets, and so does
    * every attempt of it that was taken.
    */
  ghost predicate Whole(ds: seq<Delivery>, pieces: seq<seq<Byte>>, q: Byte) {
    && |ds| == |pieces| && (forall i :: 0 <= i < |ds| ==> ds[i].Data() == Encode(q, pieces[i]))
    && forall i :: 0 <= i < |ds| ==> ds[i].Faithful()
  }

  /** An attempt with the bytes themselves in place of their encoding. */
  function PlainAttempt(a: Attempt, piece: seq<Byte>): Attempt {
    if a.Taken? then Taken(a.n, DATA_TYPE, piece) else a
  }

  function PlainTries(tries: seq<Attempt>, piece: seq<Byte>): (ps: seq<Attempt>)
    ensures |ps| == |tries| && forall k :: 0 <= k < |tries| ==> ps[k] == PlainAttempt(tries[k], piece)
  {
    if tries == [] then []
    else PlainTries(tries[..|tries| - 1], piece) + [PlainAttempt(tries[|tries| - 1], piece)]
  }

  function PlainDelivery(d: Delivery, piece: seq<Byte>): Delivery {
    Delivery(d.n, PlainTries(d.tries, piece), DATA_TYPE, piece)
  }

  function Plain(ds: seq<Delivery>, pieces: seq<seq<Byte>>): (ps: seq<Delivery>)
    requires |ds| == |pieces|
    ensures |ps| == |ds| && forall i :: 0 <= i < |ds| ==> ps[i] == PlainDelivery(ds[i], pieces[i])
  {
    if ds == [] then []
    else Plain(ds[..|ds| - 1], pieces[..|ds| - 1]) + [PlainDelivery(ds[|ds| - 1], pieces[|ds| - 1])]
  }

  lemma EncodesNothing(q: Byte, piece: seq<Byte>)
    ensures Encode(q, piece) == [] <==> piece == []
  {
  }

  lemma {:induction false} PlainDoubled(tries: seq<Attempt>, n: nat, last: Attempt, piece: seq<Byte>, q: Byte)
    requires forall k :: 0 <= k < |tries| && tries[k].Taken? ==> tries[k] == last
    requires DataOf(last) == Encode(q, piece)
    ensures DoubledIn(tries, n) == Encode(q, DoubledIn(PlainTries(tries, piece), n))
  {
    hide Encode;
    EncodesNothing(q, []);
    if |tries| >= 2 {
      var k := |tries| - 1;
      var ps := PlainTries(tries, piece);
      assert ps[..k] == PlainTries(tries[..k], piece);
      PlainDoubled(tries[..k], n, last, piece, q);
      var more := if tries[k].Refused? && tries[k].n != n then DataOf(ps[k - 1]) else [];
      EncodeConcat(q, DoubledIn(ps[..k], n), more);
      assert DataOf(tries[k - 1]) == Encode(q, DataOf(ps[k - 1]));
    }
  }

  /** One packet and its plain form lose and double alike. */
  lemma PlainAlike(d: Delivery, piece: seq<Byte>, q: Byte, prev: int)
    requires d.Data() == Encode(q, piece)
    requires d.Faithful()
    ensures var p := PlainDelivery(d, piece);
      && p.Data() == piece && d.Doubled() == Encode(q, p.Doubled())
      && (d.Data() == [] <==> p.Data() == []) && (d.Doubled() == [] <==> p.Doubled() == [])
      && (d.HeaderLost(prev) <==> p.HeaderLost(prev)) && p.n == d.n
  {
    hide Encode;
    EncodesNothing(q, piece);
    PlainDoubled(d.tries, d.n, d.Last(), piece, q);
    EncodesNothing(q, PlainDelivery(d, piece).Doubled());
  }

  /** What is kept and what is sent are the encodings of the same parts of the file. */
  lemma {:induction false} PlainEncodes(ds: seq<Delivery>, pieces: seq<seq<Byte>>, q: Byte)
    requires Whole(ds, pieces, q)
    ensures var ps := Plain(ds, pieces);
      && Kept(ds) == Encode(q, Kept(ps)) && KeptBefore(ds) == Encode(q, KeptBefore(ps))
      && Total(ds) == Encode(q, Total(ps)) && Total(ps) == Flatten(pieces)
  {
    hide Encode;
    hide DoubledIn;
    if ds == [] {
      EncodesNothing(q, []);
      NothingKept();
    } else {
      var k := |ds| - 1;
      var front, parts := ds[..k], pieces[..k];
      assert Whole(front, parts, q);
      PlainEncodes(front, parts, q);
      var pf, d, p := Plain(front, parts), ds[k], PlainDelivery(ds[k], pieces[k]);
      assert ds == front + [d] && Plain(ds, pieces) == pf + [p];
      assert LastNumber(pf) == LastNumber(front);
      hide Plain;
      hide Kept;
      hide KeptBefore;
      hide Total;
      KeptAppend(front, d);
      KeptAppend(pf, p);
      PlainAlike(d, pieces[k], q, LastNumber(front));
      hide PlainDelivery;
      EncodeConcat(q, if p.HeaderLost(LastNumber(pf)) then KeptBefore(pf) else Kept(pf), p.Doubled());
      EncodeConcat(q, KeptBefore(pf + [p]), p.Data());
      EncodeConcat(q, Total(pf), p.Data());
    }
  }

  lemma PlainHeaders(ds: seq<Delivery>, pieces: seq<seq<Byte>>, q: Byte)
    requires Whole(ds, pieces, q)
    ensures NoHeaderLostAfterData(Plain(ds, pieces)) <==> NoHeaderLostAfterData(ds)
    ensures NothingDoubled(Plain(ds, pieces)) <==> NothingDoubled(ds)
  {
    hide DoubledIn;
    hide Encode;
    var ps := Plain(ds, pieces);
    forall i | 0 <= i < |ds|
      ensures (ds[i].Data() == [] <==> ps[i].Data() == []) && (ds[i].Doubled() == [] <==> ps[i].Doubled() == [])
      ensures ps[i].n == ds[i].n && (i > 0 ==> (ds[i].HeaderLost(ds[i - 1].n) <==> ps[i].HeaderLost(ps[i - 1].n)))
    {
      PlainAlike(ds[i], pieces[i], q, if i > 0 then ds[i - 1].n else -1);
    }
  }

  // ----- downloads

  /**
    * Safety of a download: if no header is lost right after data and nothing is doubled, memory from the start
    * address up to `os_data_addr` is the streaming decode of the data packets, in order and once each, however
    * many refused or repeated attempts there were.
    */
  lemma DownloadSafe(mem: map<int, Byte>, base: int, ds: seq<Delivery>, q: Byte)
    requires ValidRun(ds) && Steady(AllAttempts(ds), q) && NoHeaderLostAfterData(ds) && NothingDoubled(ds)
    ensures var t := Run(Start(mem, base), AllAttempts(ds));
      var file := DataChars(q, EMPTY, Total(ds)).out;
      && t.addr == base + |file| && Written(t.mem, base, file) && SameBelow(mem, t.mem, base)
  {
    RunHolds(mem, base, AllAttempts(ds), q);
    DeliveriesLeave(ds);
    KeptIsTotalExactly(ds);
  }

  /** End to end: a file sent with any legal quote and any packet boundaries is what memory holds. */
  lemma FileArrives(mem: map<int, Byte>, base: int, ds: seq<Delivery>, q: Byte, file: seq<Byte>)
    requires ValidRun(ds) && Steady(AllAttempts(ds), q) && NoHeaderLostAfterData(ds) && NothingDoubled(ds)
    requires LegalQuote(q) && Total(ds) == Encode(q, file)
    ensures var t := Run(Start(mem, base), AllAttempts(ds));
      && t.addr - base == |file| && !t.escape
      && Written(t.mem, base, file) && SameBelow(mem, t.mem, base)
  {
    hide Steady;
    RunHolds(mem, base, AllAttempts(ds), q);
    DeliveriesLeave(ds);
    KeptIsTotalExactly(ds);
    QuotingRoundTrip(q, EMPTY, file);
    assert EMPTY.out + file == file;
  }

  /** Memory has this file from `base` on, and the address stands behind it. */
  ghost predicate HasFile(t: Session, base: int, file: seq<Byte>) {
    t.addr == base + |file| && Written(t.mem, base, file)
  }

  /**
    * Exactly what memory is left with when packets carry whole encodings: always the kept pieces. As long as
    * nothing was doubled, the address ends behind the whole file, with the file before it, if and only if no
    * header was lost right after data; and as long as none was, if and only if nothing was doubled.
    */
  lemma FileKeptExactly(mem: map<int, Byte>, base: int, ds: seq<Delivery>, q: Byte, pieces: seq<seq<Byte>>)
    requires ValidRun(ds) && Steady(AllAttempts(ds), q) && LegalQuote(q) && Whole(ds, pieces, q)
    ensures |ds| == |pieces|
    ensures var t := Run(Start(mem, base), AllAttempts(ds));
      var file := Flatten(pieces);
      && HasFile(t, base, Kept(Plain(ds, pieces))) && !t.escape
      && (NothingDoubled(ds) ==>
            && (t.addr == base + |file| <==> NoHeaderLostAfterData(ds))
            && (HasFile(t, base, file) <==> NoHeaderLostAfterData(ds)))
      && (NoHeaderLostAfterData(ds) ==>
            && (t.addr == base + |file| <==> NothingDoubled(ds))
            && (HasFile(t, base, file) <==> NothingDoubled(ds)))
  {
    hide Run;
    hide AllAttempts;
    hide Kept;
    hide KeptBefore;
    hide Total;
    hide Encode;
    hide DataChars;
    hide Holds;
    hide Written;
    hide Steady;
    hide ValidRun;
    hide NoHeaderLostAfterData;
    hide NothingDoubled;
    WholeSizes(ds, pieces, q);
    hide Whole;
    var ps := Plain(ds, pieces);
    hide Plain;
    RunHolds(mem, base, AllAttempts(ds), q);
    DeliveriesLeave(ds);
    PlainEncodes(ds, pieces, q);
    PlainHeaders(ds, pieces, q);
    KeptIsTotalExactly(ps);
    QuotingRoundTrip(q, EMPTY, Kept(ps));
    KeptStands(Run(Start(mem, base), AllAttempts(ds)), base, Kept(ps), DataChars(q, EMPTY, KeptBefore(ds)));
  }

  lemma WholeSizes(ds: seq<Delivery>, pieces: seq<seq<Byte>>, q: Byte)
    requires Whole(ds, pieces, q)
    ensures |ds| == |pieces|
  {
  }

  lemma KeptStands(t: Session, base: int, out: seq<Byte>, saved: Stream)
    requires Holds(t, base, Stream(false, EMPTY.out + out), saved)
    ensures HasFile(t, base, out) && !t.escape
  {
    assert EMPTY.out + out == out;
  }

  // ----- runs that go wrong

  /** A data packet, then another one after some tries. */
  function Pair(n: nat, a: seq<Byte>, m: nat, tries: seq<Attempt>, b: seq<Byte>): seq<Delivery> {
    [Delivery(n, [], DATA_TYPE, a), Delivery(m, tries, DATA_TYPE, b)]
  }

  lemma PairKept(n: nat, a: seq<Byte>, m: nat, tries: seq<Attempt>, b: seq<Byte>)
    requires n != m && forall k :: 0 <= k < |tries| && tries[k].Taken? ==> tries[k].n == m && tries[k].kind == DATA_TYPE
    ensures var ds := Pair(n, a, m, tries, b);
      && ValidRun(ds) && Steady(AllAttempts(ds), K_ESCAPE) && Total(ds) == a + b
      && Kept(ds) == (if ds[1].HeaderLost(n) then [] else a) + DoubledIn(tries, m) + b
      && (NoHeaderLostAfterData(ds) <==> a == [] || !ds[1].HeaderLost(n))
  {
    var ds := Pair(n, a, m, tries, b);
    var one, none: seq<Delivery> := [ds[0]], [];
    assert ds[..1] == one && one[..0] == none;
    NothingKept();
    assert Total(one) == a && KeptBefore(one) == [] && Kept(one) == a;
    assert AllAttempts(one) == AllAttempts(none) + ds[0].Attempts();
    var all := AllAttempts(ds);
    assert all == [Taken(n, DATA_TYPE, a)] + tries + [Taken(m, DATA_TYPE, b)];
    forall i | 0 <= i < |all|
      ensures QuoteAfter(K_ESCAPE, all[..i]) == K_ESCAPE
    {
      QuoteUnchanged(all[..i]);
    }
  }

  lemma {:induction false} QuoteUnchanged(attempts: seq<Attempt>)
    requires forall k :: 0 <= k < |attempts| ==> !(attempts[k].Taken? && attempts[k].kind == SEND_TYPE)
    ensures QuoteAfter(K_ESCAPE, attempts) == K_ESCAPE
  {
    if attempts != [] {
      QuoteUnchanged(attempts[..|attempts| - 1]);
    }
  }

  /** Memory after such a pair, when its data is plain text. */
  lemma PairArrives(mem: map<int, Byte>, base: int, n: nat, a: seq<Byte>, m: nat, tries: seq<Attempt>, b: seq<Byte>,
                    out: seq<Byte>)
    requires n != m && forall k :: 0 <= k < |tries| && tries[k].Taken? ==> tries[k].n == m && tries[k].kind == DATA_TYPE
    requires K_ESCAPE !in out && Kept(Pair(n, a, m, tries, b)) == out
    ensures var ds := Pair(n, a, m, tries, b); HasFile(Run(Start(mem, base), AllAttempts(ds)), base, out)
  {
    hide Pair;
    hide Kept;
    hide Run;
    hide AllAttempts;
    var ds := Pair(n, a, m, tries, b);
    PairKept(n, a, m, tries, b);
    RunHolds(mem, base, AllAttempts(ds), K_ESCAPE);
    DeliveriesLeave(ds);
    hide Steady;
    hide ValidRun;
    PlainText(out);
  }

  lemma {:induction false} PlainText(text: seq<Byte>)
    requires K_ESCAPE !in text
    ensures DataChars(K_ESCAPE, EMPTY, text) == Stream(false, text)
  {
    if text != [] {
      PlainText(text[..|text| - 1]);
    }
  }

  const A: Byte := 'A' as int
  const B: Byte := 'B' as int

  /**
    * The second packet loses its length byte once, is repeated and accepted, and the first packet's data is
    * gone although both were acknowledged.
    */
  lemma LostHeaderLosesData(mem: map<int, Byte>, base: int)
    ensures var ds := Pair(1, [A], 2, [BadHeader], [B]);
      && ValidRun(ds) && Steady(AllAttempts(ds), K_ESCAPE) && Total(ds) == [A, B] && NothingDoubled(ds)
      && HasFile(Run(Start(mem, base), AllAttempts(ds)), base, [B])
  {
    hide Run;
    hide AllAttempts;
    hide Kept;
    hide Total;
    hide ValidRun;
    hide Steady;
    hide Written;
    PairKept(1, [A], 2, [BadHeader], [B]);
    PairArrives(mem, base, 1, [A], 2, [BadHeader], [B], [B]);
  }

  /** The same loss without a control character: the second packet's number once arrives as the first one's. */
  lemma WrongNumberLosesData(mem: map<int, Byte>, base: int)
    ensures var ds := Pair(2, [A], 3, [Refused(2, [])], [B]);
      && ValidRun(ds) && Steady(AllAttempts(ds), K_ESCAPE) && Total(ds) == [A, B] && NothingDoubled(ds)
      && HasFile(Run(Start(mem, base), AllAttempts(ds)), base, [B])
  {
    hide Run;
    hide AllAttempts;
    hide Kept;
    hide Total;
    hide ValidRun;
    hide Steady;
    hide Written;
    PairKept(2, [A], 3, [Refused(2, [])], [B]);
    PairArrives(mem, base, 2, [A], 3, [Refused(2, [])], [B], [B]);
  }

  /** A packet is accepted, its acknowledgement lost, and its repetition refused under another number. */
  lemma WrongNumberDoublesData(mem: map<int, Byte>, base: int)
    ensures var ds := Pair(1, [A], 2, [Taken(2, DATA_TYPE, [B]), Refused(3, [])], [B]);
      && ValidRun(ds) && Steady(AllAttempts(ds), K_ESCAPE) && Total(ds) == [A, B] && NoHeaderLostAfterData(ds)
      && HasFile(Run(Start(mem, base), AllAttempts(ds)), base, [A, B, B])
  {
    hide Run;
    hide AllAttempts;
    hide Kept;
    hide Total;
    hide ValidRun;
    hide Steady;
    hide Written;
    var tries: seq<Attempt> := [Taken(2, DATA_TYPE, [B]), Refused(3, [])];
    PairKept(1, [A], 2, tries, [B]);
    assert DoubledIn(tries, 2) == DoubledIn(tries[..1], 2) + [B];
    PairArrives(mem, base, 1, [A], 2, tries, [B], [A, B, B]);
  }

  /** Both at once can cancel out: here the lost and the doubled data are the same. */
  lemma LossAndDoublingMayCancel(mem: map<int, Byte>, base: int)
    ensures var ds := Pair(1, [B], 2, [BadHeader, Taken(2, DATA_TYPE, [B]), Refused(3, [])], [B]);
      && ValidRun(ds) && Steady(AllAttempts(ds), K_ESCAPE) && !NoHeaderLostAfterData(ds) && !NothingDoubled(ds)
      && Total(ds) == [B, B] && HasFile(Run(Start(mem, base), AllAttempts(ds)), base, [B, B])
  {
    hide Run;
    hide AllAttempts;
    hide Kept;
    hide Total;
    hide ValidRun;
    hide Steady;
    hide Written;
    var tries: seq<Attempt> := [BadHeader, Taken(2, DATA_TYPE, [B]), Refused(3, [])];
    PairKept(1, [B], 2, tries, [B]);
    assert tries[..2][..1] == [BadHeader];
    assert DoubledIn(tries[..2], 2) == DoubledIn(tries[..2][..1], 2) + [];
    assert DoubledIn(tries, 2) == DoubledIn(tries[..2], 2) + [B];
    assert Pair(1, [B], 2, tries, [B])[1].Doubled() == [B];
    PairArrives(mem, base, 1, [B], 2, tries, [B], [B, B]);
  }

  /**
    * Between the two halves of a quoted pair a loss can go unnoticed: here the quote itself is lost and the file
    * is in memory all the same. The exact condition therefore asks for whole encodings.
    */
  lemma SplitPairMaySurvive(mem: map<int, Byte>, base: int)
    ensures var ds := Pair(1, [K_ESCAPE], 2, [BadHeader], [K_ESCAPE + 128]);
      && ValidRun(ds) && Steady(AllAttempts(ds), K_ESCAPE) && Total(ds) == Encode(K_ESCAPE, [K_ESCAPE + 128])
      && !NoHeaderLostAfterData(ds) && HasFile(Run(Start(mem, base), AllAttempts(ds)), base, [K_ESCAPE + 128])
  {
    var a: seq<Byte>, b: seq<Byte> := [K_ESCAPE], [K_ESCAPE + 128];
    EncodeOne(K_ESCAPE, b[0]);
    assert Encode(K_ESCAPE, b) == a + b;
    PairKept(1, a, 2, [BadHeader], b);
    PairArrives(mem, base, 1, a, 2, [BadHeader], b, b);
  }
}
