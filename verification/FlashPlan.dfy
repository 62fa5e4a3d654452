/**
  * Sector planning of cmd/flash.c: an address interval becomes one range of sectors per flash bank, or
  * an error.  Banks may be listed in any order.
  */
module FlashPlan {

  /** `flash_info_t`: whether the chip was identified, sector start addresses and size in bytes. */
  datatype Bank = Bank(known: bool, start: seq<nat>, size: nat) {

    /** A usable layout: sectors in increasing order, the last one inside the bank. */
    ghost predicate Valid() {
      && (known <==> start != [])
      && (known ==> size > 0 && start[|start| - 1] <= start[0] + size - 1)
      && forall i, j :: 0 <= i < j < |start| ==> start[i] < start[j]
    }

    /** Last address of the bank. */
    function End(): int
      requires start != []
    {
      start[0] + size - 1
    }

    /** Last address of sector `s`. */
    function SectorEnd(s: nat): int
      requires s < |start|
    {
      if s == |start| - 1 then End() else start[s + 1] as int - 1
    }

    /** The sector that begins at `a`, or -1. */
    function StartingAt(a: int, n: nat): (s: int)
      requires n <= |start|
      ensures -1 <= s < n
      ensures s >= 0 ==> start[s] == a
      ensures s < 0 ==> forall i :: 0 <= i < n ==> start[i] != a
    {
      if n == 0 then -1 else if start[n - 1] == a then n - 1 else StartingAt(a, n - 1)
    }

    /** The sector that ends at `a`, or -1. */
    function EndingAt(a: int, n: nat): (s: int)
      requires n <= |start|
      ensures -1 <= s < n
      ensures s >= 0 ==> SectorEnd(s) == a
      ensures s < 0 ==> forall i :: 0 <= i < n ==> SectorEnd(i) != a
    {
      if n == 0 then -1 else if SectorEnd(n - 1) == a then n - 1 else EndingAt(a, n - 1)
    }

    predicate Contains(s: nat, a: int)
      requires s < |start|
    {
      start[s] <= a <= SectorEnd(s)
    }
  }

  /** Known banks do not overlap. */
  ghost predicate Layout(banks: seq<Bank>) {
    && (forall b :: 0 <= b < |banks| ==> banks[b].Valid())
    && forall b, c :: 0 <= b < c < |banks| && banks[b].known && banks[c].known ==>
         banks[b].End() < banks[c].start[0] || banks[c].End() < banks[b].start[0]
  }

  /** Sector `s` of bank `b` exists. */
  predicate IsSector(banks: seq<Bank>, b: int, s: int) {
    0 <= b < |banks| && 0 <= s < |banks[b].start|
  }

  lemma SectorBounds(b: Bank, s: nat)
    requires b.Valid() && s < |b.start|
    ensures b.start[0] <= b.start[s] <= b.SectorEnd(s) <= b.End()
    ensures forall t :: s < t < |b.start| ==> b.SectorEnd(s) < b.start[t]
  {
  }

  /** Every address belongs to at most one sector. */
  lemma OneSector(banks: seq<Bank>, b: int, s: int, c: int, t: int, a: int)
    requires Layout(banks) && IsSector(banks, b, s) && IsSector(banks, c, t)
    requires banks[b].Contains(s, a) && banks[c].Contains(t, a)
    ensures b == c && s == t
  {
    SectorBounds(banks[b], s);
    SectorBounds(banks[c], t);
  }

  // ----- the planner

  /** The plan after some banks: `next` is the first address not yet planned for. */
  datatype Plan = Plan(error: bool, next: int, sFirst: seq<int>, sLast: seq<int>, count: int) {
    function Add(f: int, l: int): Plan {
      this.(sFirst := sFirst + [f], sLast := sLast + [l])
    }
  }

  /** What `flash_fill_sect_ranges` does with one bank. */
  function PlanBank(b: Bank, p: Plan, last: int): Plan
    requires b.Valid()
  {
    if p.error || p.next > last || !b.known then p.Add(-1, -1)
    else
      var f, l := b.StartingAt(p.next, |b.start|), b.EndingAt(last, |b.start|);
      if f >= 0 then
        if l < 0 && last <= b.End() then p.Add(f, l).(error := true)
        else
          var e := if l < 0 then |b.start| - 1 else l;
          if e < f then p.Add(f, e).(error := true)
          else p.Add(f, e).(next := b.SectorEnd(e) + 1, count := p.count + e - f + 1)
      else if b.start[0] <= p.next < b.End() then p.Add(-1, l).(error := true)
      else if l >= 0 then p.Add(-1, l).(error := true)
      else p.Add(-1, -1)
  }

  ghost function PlanUpTo(banks: seq<Bank>, k: nat, first: int, last: int): (p: Plan)
    requires Layout(banks) && k <= |banks|
    ensures |p.sFirst| == |p.sLast| == k
  {
    if k == 0 then Plan(false, first, [], [], 0)
    else PlanBank(banks[k - 1], PlanUpTo(banks, k - 1, first, last), last)
  }

  /** The result of `flash_fill_sect_ranges`; callers take it for success when sectors were planned. */
  ghost function FillSectRanges(banks: seq<Bank>, first: int, last: int): (p: Plan)
    requires Layout(banks)
    ensures |p.sFirst| == |p.sLast| == |banks|
  {
    PlanUpTo(banks, |banks|, first, last)
  }

  predicate Success(p: Plan) {
    !p.error && p.count > 0
  }

  // ----- what a plan covers

  /** The plan selects sector `s` of bank `b`. */
  predicate Selects(p: Plan, b: int, s: int) {
    0 <= b < |p.sFirst| && b < |p.sLast| && 0 <= p.sFirst[b] <= s <= p.sLast[b]
  }

  /** Every selected range consists of sectors of a known bank. */
  ghost predicate InRange(banks: seq<Bank>, p: Plan) {
    && |p.sFirst| == |p.sLast| <= |banks|
    && forall b :: 0 <= b < |p.sFirst| && p.sFirst[b] >= 0 ==> p.sFirst[b] <= p.sLast[b] < |banks[b].start|
  }

  /** Address `a` lies in a selected sector. */
  ghost predicate Covered(banks: seq<Bank>, p: Plan, a: int)
    requires InRange(banks, p)
  {
    exists b :: 0 <= b < |p.sFirst| && p.sFirst[b] >= 0
        && banks[b].start[p.sFirst[b]] <= a <= banks[b].SectorEnd(p.sLast[b])
  }

  /** The selected sectors tile [first, last]: no gap, no excess. */
  ghost predicate Tiles(banks: seq<Bank>, p: Plan, first: int, last: int) {
    InRange(banks, p) && forall a :: Covered(banks, p, a) <==> first <= a <= last
  }

  /** The number of selected sectors. */
  function Selected(p: Plan, k: nat): int
    requires k <= |p.sFirst| == |p.sLast|
  {
    if k == 0 then 0
    else Selected(p, k - 1) + if p.sFirst[k - 1] >= 0 then p.sLast[k - 1] - p.sFirst[k - 1] + 1 else 0
  }

  /** `a` is the last address of a sector of some bank before `k`. */
  ghost predicate EndsSector(banks: seq<Bank>, k: nat, a: int)
    requires k <= |banks|
  {
    exists b :: 0 <= b < k && banks[b].EndingAt(a, |banks[b].start|) >= 0
  }

  lemma {:induction false} SelectedAdd(p: Plan, q: Plan, k: nat)
    requires k <= |p.sFirst| == |p.sLast| && |p.sFirst| < |q.sFirst| == |q.sLast|
    requires q.sFirst[..|p.sFirst|] == p.sFirst && q.sLast[..|p.sFirst|] == p.sLast
    ensures Selected(q, k) == Selected(p, k)
  {
    if k > 0 {
      SelectedAdd(p, q, k - 1);
      assert q.sFirst[k - 1] == q.sFirst[..|p.sFirst|][k - 1] && q.sLast[k - 1] == q.sLast[..|p.sFirst|][k - 1];
    }
  }

  /** Adding a bank: covered addresses are the old ones and the new bank's range. */
  lemma CoveredAdd(banks: seq<Bank>, p: Plan, q: Plan, f: int, l: int, a: int)
    requires InRange(banks, p) && |p.sFirst| < |banks|
    requires q.sFirst == p.sFirst + [f] && q.sLast == p.sLast + [l]
    requires f >= 0 ==> f <= l < |banks[|p.sFirst|].start|
    ensures InRange(banks, q)
    ensures Covered(banks, q, a) <==>
      Covered(banks, p, a) || (f >= 0 && banks[|p.sFirst|].start[f] <= a <= banks[|p.sFirst|].SectorEnd(l))
  {
    var k := |p.sFirst|;
    assert forall b :: 0 <= b < k ==> q.sFirst[b] == p.sFirst[b] && q.sLast[b] == p.sLast[b];
    assert q.sFirst[k] == f && q.sLast[k] == l;
  }

  /** One bank, if it raises no error: skipped, or planned from `next` on up to its own end or to `last`. */
  lemma PlanBankStep(b: Bank, p: Plan, last: int)
    requires b.Valid() && |p.sFirst| == |p.sLast| && p.next <= last + 1 && !PlanBank(b, p, last).error
    ensures var q := PlanBank(b, p, last);
      var f, l := q.sFirst[|p.sFirst|], q.sLast[|p.sFirst|];
      && !p.error && q.sFirst == p.sFirst + [f] && q.sLast == p.sLast + [l]
      && (f < 0 ==> q.next == p.next && q.count == p.count)
      && (f >= 0 ==>
            && f <= l < |b.start| && b.start[f] == p.next && q.next == b.SectorEnd(l) + 1
            && p.next < q.next <= last + 1 && q.count == p.count + l - f + 1)
      && (b.EndingAt(last, |b.start|) >= 0 ==> q.next == last + 1)
  {
    var f, l := b.StartingAt(p.next, |b.start|), b.EndingAt(last, |b.start|);
    if f >= 0 {
      SectorBounds(b, f);
      if l >= 0 {
        SectorBounds(b, l);
      }
    }
  }

  lemma TilesStep(banks: seq<Bank>, p: Plan, q: Plan, f: int, l: int, first: int)
    requires Tiles(banks, p, first, p.next - 1) && |p.sFirst| < |banks| && first <= p.next
    requires q.sFirst == p.sFirst + [f] && q.sLast == p.sLast + [l]
    requires f < 0 ==> q.next == p.next
    requires f >= 0 ==> f <= l < |banks[|p.sFirst|].start| && banks[|p.sFirst|].start[f] == p.next
    requires f >= 0 ==> q.next == banks[|p.sFirst|].SectorEnd(l) + 1 > p.next
    ensures Tiles(banks, q, first, q.next - 1)
  {
    forall a
      ensures InRange(banks, q)
      ensures Covered(banks, q, a) <==> first <= a <= q.next - 1
    {
      CoveredAdd(banks, p, q, f, l, a);
    }
  }

  /**
    * What holds as long as there is no error: what has been planned tiles [first, next), and a bank that
    * holds the last address as a sector end is never passed without finishing there.
    */
  ghost predicate GoodSoFar(banks: seq<Bank>, k: nat, first: int, last: int, p: Plan)
    requires k <= |banks|
  {
    && k == |p.sFirst| == |p.sLast|
    && Tiles(banks, p, first, p.next - 1) && first <= p.next <= last + 1
    && (p.count > 0 <==> p.next > first) && p.count == Selected(p, k) >= 0
    && (EndsSector(banks, k, last) ==> p.next == last + 1)
  }

  lemma GoodStep(banks: seq<Bank>, k: nat, first: int, last: int, p: Plan)
    requires Layout(banks) && k < |banks| && first <= last && GoodSoFar(banks, k, first, last, p)
    requires !PlanBank(banks[k], p, last).error
    ensures GoodSoFar(banks, k + 1, first, last, PlanBank(banks[k], p, last))
  {
    hide PlanBank;
    hide Tiles;
    hide EndsSector;
    var q := PlanBank(banks[k], p, last);
    PlanBankStep(banks[k], p, last);
    TilesStep(banks, p, q, q.sFirst[k], q.sLast[k], first);
    SelectedAdd(p, q, k);
    EndsSectorStep(banks, k + 1, last);
  }

  lemma {:induction false} PlanInvariant(banks: seq<Bank>, k: nat, first: int, last: int)
    requires Layout(banks) && k <= |banks| && first <= last
    ensures var p := PlanUpTo(banks, k, first, last); !p.error ==> GoodSoFar(banks, k, first, last, p)
  {
    hide PlanBank;
    hide GoodSoFar;
    if k == 0 {
      NothingPlanned(banks, first, last);
    } else {
      PlanInvariant(banks, k - 1, first, last);
      var p := PlanUpTo(banks, k - 1, first, last);
      PlanErrorKept(banks[k - 1], p, last);
      if !PlanBank(banks[k - 1], p, last).error {
        GoodStep(banks, k - 1, first, last, p);
      }
    }
  }

  lemma PlanErrorKept(b: Bank, p: Plan, last: int)
    requires b.Valid()
    ensures p.error ==> PlanBank(b, p, last).error
  {
  }

  lemma NothingPlanned(banks: seq<Bank>, first: int, last: int)
    requires first <= last
    ensures GoodSoFar(banks, 0, first, last, Plan(false, first, [], [], 0))
  {
  }

  lemma EndsSectorStep(banks: seq<Bank>, k: nat, a: int)
    requires 0 < k <= |banks|
    ensures EndsSector(banks, k, a) <==>
            EndsSector(banks, k - 1, a) || banks[k - 1].EndingAt(a, |banks[k - 1].start|) >= 0
  {
  }

  /** A tiled interval ends where a sector ends. */
  lemma TilesEnd(banks: seq<Bank>, p: Plan, first: int, last: int)
    requires Layout(banks) && first <= last && Tiles(banks, p, first, last)
    ensures EndsSector(banks, |banks|, last)
  {
    assert Covered(banks, p, last);
    var b :| 0 <= b < |p.sFirst| && p.sFirst[b] >= 0
        && banks[b].start[p.sFirst[b]] <= last <= banks[b].SectorEnd(p.sLast[b]);
    var e := banks[b].SectorEnd(p.sLast[b]);
    assert Covered(banks, p, e);
    assert banks[b].EndingAt(last, |banks[b].start|) >= 0;
  }

  /**
    * Planning is exact: whenever the planner reports success, its ranges tile [first, last] if and only
    * if `last` ends a sector of a known bank, and then the count is the number of selected sectors.
    */
  lemma PlanExact(banks: seq<Bank>, first: int, last: int)
    requires Layout(banks) && first <= last && Success(FillSectRanges(banks, first, last))
    ensures var p := FillSectRanges(banks, first, last);
      && (Tiles(banks, p, first, last) <==> EndsSector(banks, |banks|, last))
      && p.count == Selected(p, |banks|)
  {
    hide Layout;
    hide Tiles;
    hide EndsSector;
    hide PlanUpTo;
    hide Selected;
    var p := FillSectRanges(banks, first, last);
    PlanInvariant(banks, |banks|, first, last);
    if Tiles(banks, p, first, last) {
      TilesEnd(banks, p, first, last);
    }
  }

  /** The condition matters: a request past the end of the flash plans only a part of it, without an error. */
  lemma PlanPartial()
    ensures var banks := [Bank(true, [0], 100)];
      var p := FillSectRanges(banks, 0, 150);
      && Layout(banks) && Success(p) && p.next == 100 && !EndsSector(banks, 1, 150)
  {
    var b := Bank(true, [0], 100);
    var banks := [b];
    assert PlanUpTo(banks, 0, 0, 150) == Plan(false, 0, [], [], 0);
    assert b.StartingAt(0, 1) == 0 && b.EndingAt(150, 1) == -1;
    assert PlanUpTo(banks, 1, 0, 150) == PlanBank(b, PlanUpTo(banks, 0, 0, 150), 150);
    assert banks[0] == b;
  }

  // ----- when planning succeeds

  /** Known banks are listed in address order. */
  ghost predicate InOrder(banks: seq<Bank>) {
    forall b, c :: 0 <= b < c < |banks| && banks[b].start != [] && banks[c].start != [] ==>
      banks[b].End() < banks[c].start[0]
  }

  /** [first, last] is a union of whole sectors. */
  ghost predicate WholeSectors(banks: seq<Bank>, first: int, last: int) {
    forall a :: first <= a <= last ==> InsideSector(banks, first, last, a)
  }

  /** Address `a` lies in a sector that lies in [first, last]. */
  ghost predicate InsideSector(banks: seq<Bank>, first: int, last: int, a: int) {
    exists b, s :: IsSector(banks, b, s) && banks[b].Contains(s, a)
                   && first <= banks[b].start[s] && banks[b].SectorEnd(s) <= last
  }

  lemma WholeSectorsEnd(banks: seq<Bank>, first: int, last: int)
    requires Layout(banks) && first <= last && WholeSectors(banks, first, last)
    ensures EndsSector(banks, |banks|, last)
  {
    assert InsideSector(banks, first, last, last);
    var b, s :| IsSector(banks, b, s) && banks[b].Contains(s, last)
                && first <= banks[b].start[s] && banks[b].SectorEnd(s) <= last;
    assert banks[b].EndingAt(last, |banks[b].start|) >= 0;
  }

  /** Planning goes through the banks in order and meets the next sector start in one not yet seen. */
  ghost predicate StartAhead(banks: seq<Bank>, k: nat, a: int) {
    exists b, s :: k <= b && IsSector(banks, b, s) && banks[b].start[s] == a
  }

  /** No sector reaches across the point where planning has arrived: the request's start, or a bank's end. */
  lemma NextStarts(banks: seq<Bank>, k: nat, first: int, last: int, next: int)
    requires Layout(banks) && InOrder(banks) && WholeSectors(banks, first, last) && first <= next <= last
             && k <= |banks|
    requires if k == 0 then next == first else banks[k - 1].known && next == banks[k - 1].End() + 1
    ensures StartAhead(banks, k, next)
  {
    var b, s := SectorAt(banks, first, last, next);
    hide WholeSectors;
    if k > 0 {
      BankAfter(banks, k - 1, b, s, next);
    }
    hide Layout;
    hide InOrder;
  }

  /** The sector of a whole-sector interval that holds an address; the first address starts its sector. */
  lemma SectorAt(banks: seq<Bank>, first: int, last: int, a: int) returns (b: int, s: int)
    requires Layout(banks) && WholeSectors(banks, first, last) && first <= a <= last
    ensures IsSector(banks, b, s) && banks[b].Contains(s, a) && (a == first ==> banks[b].start[s] == a)
  {
    assert InsideSector(banks, first, last, a);
    b, s :| IsSector(banks, b, s) && banks[b].Contains(s, a)
            && first <= banks[b].start[s] && banks[b].SectorEnd(s) <= last;
    SectorBounds(banks[b], s);
  }

  /** In an ordered layout a sector that holds the address after a bank belongs to a later bank, and starts there. */
  lemma BankAfter(banks: seq<Bank>, c: nat, b: int, s: int, a: int)
    requires Layout(banks) && InOrder(banks) && c < |banks| && banks[c].known && a == banks[c].End() + 1
    requires IsSector(banks, b, s) && banks[b].Contains(s, a)
    ensures b > c && banks[b].start[s] == a
  {
    SectorBounds(banks[b], s);
    SectorBounds(banks[c], |banks[c].start| - 1);
  }

  /** A bank whose sector begins at the next address is planned without an error. */
  lemma PlanHere(banks: seq<Bank>, k: nat, first: int, last: int, p: Plan, s: nat)
    requires Layout(banks) && InOrder(banks) && WholeSectors(banks, first, last) && k < |banks|
    requires |p.sFirst| == |p.sLast| && !p.error && first <= p.next <= last
    requires s < |banks[k].start| && banks[k].start[s] == p.next
    ensures var q := PlanBank(banks[k], p, last);
      !q.error && (q.next <= last ==> StartAhead(banks, k + 1, q.next))
  {
    hide WholeSectors;
    var b, q := banks[k], PlanBank(banks[k], p, last);
    var f, l := b.StartingAt(p.next, |b.start|), b.EndingAt(last, |b.start|);
    SectorBounds(b, s);
    assert f == s;
    if l >= 0 {
      SectorBounds(b, l);
      SectorBounds(b, f);
    } else if last <= b.End() {
      LastInBank(banks, k, first, last);
    } else {
      assert q.next == b.End() + 1;
      NextStarts(banks, k + 1, first, last, q.next);
    }
  }

  lemma SucceedsStep(banks: seq<Bank>, k: nat, first: int, last: int, p: Plan)
    requires Layout(banks) && InOrder(banks) && k < |banks| && WholeSectors(banks, first, last)
    requires |p.sFirst| == |p.sLast| && !p.error && first <= p.next <= last && StartAhead(banks, k, p.next)
    ensures var q := PlanBank(banks[k], p, last); !q.error && (q.next <= last ==> StartAhead(banks, k + 1, q.next))
  {
    hide WholeSectors;
    var b := banks[k];
    var c, s :| k <= c && IsSector(banks, c, s) && banks[c].start[s] == p.next;
    if c == k {
      PlanHere(banks, k, first, last, p, s);
    } else {
      SectorBounds(banks[c], s);
      if b.known {
        EndsBefore(b, p.next, last);
      }
      assert k + 1 <= c && IsSector(banks, c, s) && banks[c].start[s] == PlanBank(b, p, last).next;
    }
  }

  /** With whole sectors and banks in order there is no error, and planning stops only at a sector start. */
  lemma {:induction false} PlanSucceeds(banks: seq<Bank>, k: nat, first: int, last: int)
    requires Layout(banks) && InOrder(banks) && k <= |banks| && first <= last && WholeSectors(banks, first, last)
    ensures var p := PlanUpTo(banks, k, first, last);
      !p.error && (p.next <= last ==> StartAhead(banks, k, p.next))
  {
    hide WholeSectors;
    hide StartAhead;
    hide InOrder;
    hide PlanBank;
    if k == 0 {
      NextStarts(banks, 0, first, last, first);
    } else {
      PlanSucceeds(banks, k - 1, first, last);
      NextBounds(banks, k - 1, first, last);
      var p := PlanUpTo(banks, k - 1, first, last);
      assert banks[k - 1].Valid() && PlanUpTo(banks, k, first, last) == PlanBank(banks[k - 1], p, last);
      hide PlanUpTo;
      hide Layout;
      if p.next <= last {
        SucceedsStep(banks, k - 1, first, last, p);
      } else {
        PastLast(banks[k - 1], p, last);
      }
    }
  }

  lemma NextBounds(banks: seq<Bank>, k: nat, first: int, last: int)
    requires Layout(banks) && k <= |banks| && first <= last && !PlanUpTo(banks, k, first, last).error
    ensures first <= PlanUpTo(banks, k, first, last).next <= last + 1
  {
    PlanInvariant(banks, k, first, last);
  }

  lemma PastLast(b: Bank, p: Plan, last: int)
    requires b.Valid() && p.next > last
    ensures PlanBank(b, p, last).error == p.error && PlanBank(b, p, last).next == p.next
  {
  }

  /** A bank that ends before the next address has neither that address nor the last one. */
  lemma EndsBefore(b: Bank, next: int, last: int)
    requires b.Valid() && b.known && b.End() < next <= last
    ensures b.StartingAt(next, |b.start|) < 0 && b.EndingAt(last, |b.start|) < 0
  {
    forall s | 0 <= s < |b.start|
      ensures b.start[s] < next && b.SectorEnd(s) < last
    {
      SectorBounds(b, s);
    }
  }

  /** If the last address is inside a bank then it ends a sector there. */
  lemma LastInBank(banks: seq<Bank>, k: nat, first: int, last: int)
    requires Layout(banks) && k < |banks| && banks[k].known && first <= last && WholeSectors(banks, first, last)
    requires banks[k].start[0] <= last <= banks[k].End()
    ensures banks[k].EndingAt(last, |banks[k].start|) >= 0
  {
    assert InsideSector(banks, first, last, last);
    var b, s :| IsSector(banks, b, s) && banks[b].Contains(s, last)
                && first <= banks[b].start[s] && banks[b].SectorEnd(s) <= last;
    SectorBounds(banks[b], s);
    assert b == k;
  }

  /** With banks in address order, planning succeeds up to `last` exactly for unions of whole sectors. */
  lemma PlanComplete(banks: seq<Bank>, first: int, last: int)
    requires Layout(banks) && InOrder(banks) && first <= last
    ensures Success(FillSectRanges(banks, first, last)) && EndsSector(banks, |banks|, last) <==>
            WholeSectors(banks, first, last)
  {
    var p := FillSectRanges(banks, first, last);
    PlanInvariant(banks, |banks|, first, last);
    if WholeSectors(banks, first, last) {
      PlanSucceeds(banks, |banks|, first, last);
      WholeSectorsEnd(banks, first, last);
    } else if Success(p) && EndsSector(banks, |banks|, last) {
      TilesWhole(banks, p, first, last);
    }
  }

  lemma TilesWhole(banks: seq<Bank>, p: Plan, first: int, last: int)
    requires Layout(banks) && Tiles(banks, p, first, last)
    ensures WholeSectors(banks, first, last)
  {
    forall a | first <= a <= last
      ensures InsideSector(banks, first, last, a)
    {
      assert Covered(banks, p, a);
      var b :| 0 <= b < |p.sFirst| && p.sFirst[b] >= 0
          && banks[b].start[p.sFirst[b]] <= a <= banks[b].SectorEnd(p.sLast[b]);
      var s := FindSector(banks[b], p.sFirst[b], p.sLast[b], a);
      SectorBounds(banks[b], p.sFirst[b]);
      SectorBounds(banks[b], s);
      SectorMonotone(banks[b], p.sFirst[b], s);
      SectorMonotone(banks[b], s, p.sLast[b]);
      assert Covered(banks, p, banks[b].start[s]);
      assert Covered(banks, p, banks[b].SectorEnd(s));
    }
  }

  lemma SectorMonotone(b: Bank, s: nat, t: nat)
    requires b.Valid() && s <= t < |b.start|
    ensures b.start[s] <= b.start[t] && b.SectorEnd(s) <= b.SectorEnd(t)
  {
    SectorBounds(b, s);
    SectorBounds(b, t);
  }

  /** Consecutive sectors leave no gap. */
  lemma {:induction false} FindSector(b: Bank, f: nat, l: nat, a: int) returns (s: nat)
    requires b.Valid() && f <= l < |b.start| && b.start[f] <= a <= b.SectorEnd(l)
    ensures f <= s <= l && b.Contains(s, a)
    decreases l - f
  {
    if a <= b.SectorEnd(f) {
      s := f;
    } else {
      s := FindSector(b, f + 1, l, a);
    }
  }
}
