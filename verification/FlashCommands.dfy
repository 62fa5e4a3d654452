/**
  * The erase and protect commands of cmd/flash.c on top of the planner: rounding of "start +length"
  * requests, the planner's own loops, and the action on the planned sectors.
  */
module FlashCommands {
  import opened Arithmetic
  import opened FlashPlan
  import opened Numbers


  /** Layout of banks that fit below the top of the address space. */
  ghost predicate Fits(banks: seq<Bank>) {
    Layout(banks) && forall b :: 0 <= b < |banks| && banks[b].start != [] ==> banks[b].End() + 1 < WORD
  }

  // ----- flash_fill_sect_ranges

  /** The sector loop: which sector begins at `next` and which one ends at `last`. */
  method ScanBank(b: Bank, next: int, last: int) returns (f: int, l: int)
    requires b.Valid() && b.known && next <= last
    ensures f == b.StartingAt(next, |b.start|) && l == b.EndingAt(last, |b.start|)
  {
    var bEnd, sEnd := b.start[0] + b.size - 1, |b.start| - 1;
    f, l := -1, -1;
    var sect := 0;
    while sect < |b.start|
      invariant 0 <= sect <= |b.start|
      invariant f == b.StartingAt(next, sect) && l == b.EndingAt(last, sect)
    {
      SectorBounds(b, sect);
      var end := if sect == sEnd then bEnd else b.start[sect + 1] as int - 1;
      if !(next > end) && !(last < b.start[sect]) {
        if next == b.start[sect] {
          f := sect;
        }
        if last == end {
          l := sect;
        }
      }
      sect := sect + 1;
    }
  }

  /** The bank loop's body for a known bank, with its error exits. */
  method FillBank(b: Bank, next0: int, last: int, ghost p: Plan)
    returns (error: bool, f: int, l: int, next: int, added: int)
    requires b.Valid() && b.known && next0 <= last && !p.error && p.next == next0
    ensures var q := PlanBank(b, p, last);
      error == q.error && (!error ==> q == p.Add(f, l).(next := next, count := p.count + added))
  {
    error, next, added := false, next0, 0;
    f, l := ScanBank(b, next, last);
    if f >= 0 {
      if l < 0 {
        if last > b.End() {
          l := |b.start| - 1;
        } else {
          return true, f, l, next, 0;
        }
      }
      if l < f { return true, f, l, next, 0; }
      next := if l == |b.start| - 1 then b.End() + 1 else b.start[l + 1];
      added := l - f + 1;
    } else if next >= b.start[0] && next < b.End() {
      error := true;
    } else if l >= 0 {
      error := true;
    }
  }

  /** `flash_fill_sect_ranges` */
  method Fill(banks: seq<Bank>, first: int, last: int)
    returns (rcode: int, sFirst: seq<int>, sLast: seq<int>, count: int)
    requires Fits(banks)
    ensures |sFirst| == |sLast| == |banks|
    ensures var p := FillSectRanges(banks, first, last);
      rcode == (if p.error then 1 else 0) && (rcode == 0 ==> sFirst == p.sFirst && sLast == p.sLast && count == p.count)
  {
    hide PlanUpTo;
    hide PlanBank;
    hide Layout;
    rcode, count := 0, 0;
    sFirst, sLast := seq(|banks|, _ => -1), seq(|banks|, _ => -1);
    var next, bank := first, 0;
    NoBanks(banks, first, last);
    while bank < |banks| && next <= last
      invariant 0 <= bank <= |banks| == |sFirst| == |sLast|
      invariant Follows(banks, bank, first, last, sFirst, sLast, next, count)
    {
      NextBank(banks, bank, first, last);
      ghost var p := PlanUpTo(banks, bank, first, last);
      if banks[bank].known {
        var error, f, l, added;
        error, f, l, next, added := FillBank(banks[bank], next, last, p);
        if error {
          ErrorStays(banks, bank + 1, |banks|, first, last);
          return 1, sFirst, sLast, count;
        }
        sFirst, sLast, count := sFirst[bank := f], sLast[bank := l], count + added;
        assert sFirst[..bank + 1] == p.sFirst + [f] && sLast[..bank + 1] == p.sLast + [l];
      } else {
        UnknownBank(banks[bank], p, last);
        assert sFirst[..bank + 1] == p.sFirst + [-1] && sLast[..bank + 1] == p.sLast + [-1];
      }
      bank := bank + 1;
    }
    RestUnplanned(banks, bank, |banks|, first, last);
    assert sFirst[..bank] + seq(|banks| - bank, _ => -1) == sFirst;
    assert sLast[..bank] + seq(|banks| - bank, _ => -1) == sLast;
  }

  lemma UnknownBank(b: Bank, p: Plan, last: int)
    requires b.Valid() && !b.known
    ensures PlanBank(b, p, last) == p.Add(-1, -1)
  {
  }

  /** The loop variables are the plan for the first `k` banks, and no error has occurred. */
  ghost predicate Follows(banks: seq<Bank>, k: nat, first: int, last: int, sFirst: seq<int>, sLast: seq<int>,
                          next: int, count: int)
    requires Layout(banks) && k <= |banks| == |sFirst| == |sLast|
  {
    var p := PlanUpTo(banks, k, first, last);
    && !p.error && p.next == next && p.count == count
    && sFirst[..k] == p.sFirst && sLast[..k] == p.sLast
    && forall b :: k <= b < |banks| ==> sFirst[b] == -1 && sLast[b] == -1
  }

  lemma NoBanks(banks: seq<Bank>, first: int, last: int)
    requires Layout(banks)
    ensures PlanUpTo(banks, 0, first, last) == Plan(false, first, [], [], 0)
  {
  }

  lemma NextBank(banks: seq<Bank>, k: nat, first: int, last: int)
    requires Layout(banks) && k < |banks|
    ensures banks[k].Valid()
    ensures PlanUpTo(banks, k + 1, first, last) == PlanBank(banks[k], PlanUpTo(banks, k, first, last), last)
  {
  }

  lemma {:induction false} ErrorStays(banks: seq<Bank>, k: nat, n: nat, first: int, last: int)
    requires Layout(banks) && k <= n <= |banks| && PlanUpTo(banks, k, first, last).error
    ensures PlanUpTo(banks, n, first, last).error
    decreases n - k
  {
    if k < n {
      NextBank(banks, k, first, last);
      ErrorStays(banks, k + 1, n, first, last);
    }
  }

  lemma {:induction false} RestUnplanned(banks: seq<Bank>, k: nat, n: nat, first: int, last: int)
    requires Layout(banks) && k <= n <= |banks|
    requires !PlanUpTo(banks, k, first, last).error && (k == n || PlanUpTo(banks, k, first, last).next > last)
    ensures var p := PlanUpTo(banks, k, first, last);
      PlanUpTo(banks, n, first, last) ==
      p.(sFirst := p.sFirst + seq(n - k, _ => -1), sLast := p.sLast + seq(n - k, _ => -1))
    decreases n - k
  {
    hide PlanUpTo;
    if k == n {
      var p := PlanUpTo(banks, k, first, last);
      assert p.sFirst + [] == p.sFirst && p.sLast + [] == p.sLast;
    } else {
      NextBank(banks, k, first, last);
      RestUnplanned(banks, k + 1, n, first, last);
      var p := PlanUpTo(banks, k, first, last);
      assert p.sFirst + [-1] + seq(n - k - 1, _ => -1) == p.sFirst + seq(n - k, _ => -1);
      assert p.sLast + [-1] + seq(n - k - 1, _ => -1) == p.sLast + seq(n - k, _ => -1);
    }
  }

  // ----- flash_sect_roundb and addr_spec

  /** `end` is the last address of the sector that holds `a`. */
  ghost predicate RoundedUp(banks: seq<Bank>, a: int, end: int) {
    exists b, s :: IsSector(banks, b, s) && banks[b].Contains(s, a) && end == banks[b].SectorEnd(s)
  }

  /** `flash_sect_roundb`: the end of the sector that holds `addr`, or an error if no sector does. */
  method SectRoundb(banks: seq<Bank>, addr0: int) returns (rcode: int, addr: int)
    requires Layout(banks)
    ensures rcode == 0 ==> RoundedUp(banks, addr0, addr)
    ensures rcode == 0 || rcode == 1
    ensures rcode != 0 ==> addr == addr0 && forall b, s :: IsSector(banks, b, s) ==> !banks[b].Contains(s, addr0)
  {
    var found, bank := false, 0;
    addr := addr0;
    while bank < |banks| && !found
      invariant 0 <= bank <= |banks|
      invariant found ==> RoundedUp(banks, addr0, addr)
      invariant !found ==> addr == addr0 && forall b, s :: b < bank && IsSector(banks, b, s) ==>
                !banks[b].Contains(s, addr0)
      decreases |banks| - bank, !found
    {
      var info, i := banks[bank], 0;
      while i < |info.start| && !found
        invariant 0 <= i <= |info.start|
        invariant found ==> RoundedUp(banks, addr0, addr)
        invariant !found ==> addr == addr0 && forall s :: 0 <= s < i ==> !banks[bank].Contains(s, addr0)
      {
        var end := if i == |info.start| - 1 then info.start[0] + info.size - 1 else info.start[i + 1] as int - 1;
        if addr <= end && addr >= info.start[i] {
          found := true;
          if addr < end {
            addr := end;
          }
          assert IsSector(banks, bank, i) && banks[bank].Contains(i, addr0) && addr == banks[bank].SectorEnd(i);
        }
        i := i + 1;
      }
      bank := bank + 1;
    }
    rcode := if found then 0 else 1;
  }

  /** Some sector holds the address. */
  ghost predicate InFlash(banks: seq<Bank>, a: int) {
    exists b, s :: IsSector(banks, b, s) && banks[b].Contains(s, a)
  }

  /** The two arguments of a command: a start, and an end or a length. */
  datatype Spec = Spec(start: nat, second: nat, lenUsed: bool)

  /** What the arguments say, if both are numbers; a plus sign marks a length. */
  function SpecOf(arg1: string, arg2: string): Option<Spec> {
    var lenUsed := CharAt(arg2, 0) == '+';
    var start, second := Whole(arg1, 0), Whole(arg2, if lenUsed then 1 else 0);
    if start.None? || second.None? then None else Some(Spec(start.value, second.value, lenUsed))
  }

  /** The last address a specification asks for. */
  function LastAsked(spec: Spec): int {
    if spec.lenUsed then (spec.start + spec.second - 1) % WORD else spec.second
  }

  /**
    * `addr_spec`: `start end` is taken as it is, `start +length` is rounded up to a sector end; failure means
    * that an argument is no number or that the last byte of a length is not in flash.
    */
  method AddrSpec(banks: seq<Bank>, arg1: string, arg2: string) returns (rcode: int, first: int, last: int)
    requires Layout(banks) && CString(arg1) && CString(arg2)
    ensures var spec := SpecOf(arg1, arg2);
      && (rcode == 1 || rcode == -1)
      && (rcode == 1 <==> spec.Some? && (spec.value.lenUsed ==> InFlash(banks, LastAsked(spec.value))))
      && (rcode == 1 ==> first == spec.value.start)
      && (rcode == 1 && !spec.value.lenUsed ==> last == spec.value.second)
      && (rcode == 1 && spec.value.lenUsed ==> RoundedUp(banks, LastAsked(spec.value), last))
  {
    hide Strtoul;
    last := 0;
    var ep;
    first, ep := SimpleStrtoul(arg1, 0, 16);
    if ep == 0 || CharAt(arg1, ep) != '\0' { return -1, first, last; }
    var lenUsed, from := false, 0;
    if CharAt(arg2, 0) == '+' {
      lenUsed, from := true, 1;
    }
    last, ep := SimpleStrtoul(arg2, from, 16);
    if ep == from || CharAt(arg2, ep) != '\0' { return -1, first, last; }
    if lenUsed {
      last := (first + last - 1) % WORD;
      var rc;
      rc, last := SectRoundb(banks, last);
      if rc > 0 { return -1, first, last; }
    }
    rcode := 1;
  }

  // ----- acting on a plan

  /** A flash chip as the commands see it. */
  class FlashInfo {
    const layout: Bank
    var protect: seq<int>

    constructor (b: Bank)
      ensures layout == b && protect == seq(|b.start|, _ => 0)
    {
      layout := b;
      protect := seq(|b.start|, _ => 0);
    }

    /** Sets the flag of sectors `f` to `l`. */
    method ProtectRange(f: nat, l: nat, p: int)
      requires f <= l < |protect|
      modifies this
      ensures |protect| == |old(protect)|
      ensures forall s :: 0 <= s < |protect| ==> protect[s] == if f <= s <= l then p else old(protect)[s]
    {
      for i := f to l + 1
        invariant |protect| == |old(protect)|
        invariant forall s :: 0 <= s < |protect| ==> protect[s] == if f <= s < i then p else old(protect)[s]
      {
        protect := protect[i := p];
      }
    }
  }

  function Layouts(infos: seq<FlashInfo>): (banks: seq<Bank>)
    ensures |banks| == |infos| && forall b :: 0 <= b < |infos| ==> banks[b] == infos[b].layout
  {
    seq(|infos|, b requires 0 <= b < |infos| => infos[b].layout)
  }

  ghost predicate Separate(infos: seq<FlashInfo>) {
    forall b, c :: 0 <= b < c < |infos| ==> infos[b] != infos[c]
  }

  /** The flags after protecting the planned sectors of the first `k` banks. */
  ghost predicate Flagged(infos: seq<FlashInfo>, flags: seq<seq<int>>, plan: Plan, k: nat, p: int)
    requires |flags| == |infos|
    reads infos
  {
    forall b :: 0 <= b < |infos| ==>
      && |infos[b].protect| == |flags[b]|
      && forall s :: 0 <= s < |flags[b]| ==>
           infos[b].protect[s] == if b < k && Selects(plan, b, s) then p else flags[b][s]
  }

  ghost function Flags(infos: seq<FlashInfo>): (flags: seq<seq<int>>)
    reads infos
    ensures |flags| == |infos| && forall b :: 0 <= b < |infos| ==> flags[b] == infos[b].protect
  {
    seq(|infos|, b requires 0 <= b < |infos| reads infos => infos[b].protect)
  }

  ghost predicate Sized(infos: seq<FlashInfo>)
    reads infos
  {
    forall b :: 0 <= b < |infos| ==> |infos[b].protect| == |infos[b].layout.start|
  }

  /** One turn of the bank loop. */
  method ProtectBank(infos: seq<FlashInfo>, bank: nat, f: int, l: int, p: int, ghost flags: seq<seq<int>>,
                     ghost plan: Plan)
    returns (added: int)
    requires Separate(infos) && bank < |infos| == |flags| && Flagged(infos, flags, plan, bank, p)
    requires bank < |plan.sFirst| == |plan.sLast| && f == plan.sFirst[bank] && l == plan.sLast[bank]
    requires f >= 0 ==> infos[bank].layout.known && f <= l < |flags[bank]|
    modifies infos
    ensures Flagged(infos, flags, plan, bank + 1, p)
    ensures added == if f >= 0 then l - f + 1 else 0
  {
    added := 0;
    if infos[bank].layout.known && f >= 0 && f <= l {
      added := l - f + 1;
      infos[bank].ProtectRange(f, l, p);
    }
  }

  /** The bank loop. */
  method ProtectPlanned(infos: seq<FlashInfo>, sFirst: seq<int>, sLast: seq<int>, p: int, ghost plan: Plan)
    returns (protected: int)
    requires Separate(infos) && Layout(Layouts(infos)) && Sized(infos) && InRange(Layouts(infos), plan)
    requires sFirst == plan.sFirst && sLast == plan.sLast && |sFirst| == |sLast| == |infos|
    modifies infos
    ensures protected == Selected(plan, |infos|) && Flagged(infos, old(Flags(infos)), plan, |infos|, p)
  {
    hide Layout;
    ghost var flags := Flags(infos);
    protected := 0;
    for bank := 0 to |infos|
      invariant protected == Selected(plan, bank)
      invariant Flagged(infos, flags, plan, bank, p)
    {
      KnownIfPlanned(Layouts(infos), plan, bank);
      var added := ProtectBank(infos, bank, sFirst[bank], sLast[bank], p, flags, plan);
      protected := protected + added;
    }
  }

  /** `flash_sect_protect` with software protection: the planned sectors get flag `p`, no other does. */
  method SectProtect(infos: seq<FlashInfo>, p: int, first: int, last: int) returns (rcode: int, protected: int)
    requires Separate(infos) && Fits(Layouts(infos)) && Sized(infos)
    modifies infos
    ensures var plan := FillSectRanges(Layouts(infos), first, last);
      && (rcode == 0 <==> Success(plan))
      && (rcode == 0 ==> protected == plan.count)
      && Flagged(infos, old(Flags(infos)), plan, if rcode == 0 then |infos| else 0, p)
  {
    hide Layout;
    hide PlanUpTo;
    hide InRange;
    hide Selected;
    hide Separate;
    var sFirst, sLast, planned;
    rcode, sFirst, sLast, planned := Fill(Layouts(infos), first, last);
    protected := 0;
    CountPositive(Layouts(infos), first, last);
    if planned != 0 && rcode == 0 {
      protected := ProtectPlanned(infos, sFirst, sLast, p, FillSectRanges(Layouts(infos), first, last));
    } else if rcode == 0 {
      rcode := 1;
    }
  }

  lemma KnownIfPlanned(banks: seq<Bank>, p: Plan, b: nat)
    requires Layout(banks) && InRange(banks, p) && b < |p.sFirst|
    ensures p.sFirst[b] >= 0 ==> banks[b].known
  {
  }

  lemma CountPositive(banks: seq<Bank>, first: int, last: int)
    requires Layout(banks)
    ensures var p := FillSectRanges(banks, first, last);
      !p.error ==> p.count >= 0 && InRange(banks, p) && p.count == Selected(p, |banks|)
  {
    if first <= last {
      PlanInvariant(banks, |banks|, first, last);
    } else {
      NoBanks(banks, first, last);
      RestUnplanned(banks, 0, |banks|, first, last);
      SelectedNone(FillSectRanges(banks, first, last), |banks|);
    }
  }

  lemma {:induction false} SelectedNone(p: Plan, k: nat)
    requires k <= |p.sFirst| == |p.sLast| && forall b :: 0 <= b < |p.sFirst| ==> p.sFirst[b] < 0
    ensures Selected(p, k) == 0
  {
    if k > 0 {
      SelectedNone(p, k - 1);
    }
  }

  /** One call of the flash driver. */
  datatype EraseCall = EraseCall(bank: int, first: int, last: int)

  /** The driver calls a plan asks for, bank by bank. */
  function EraseCalls(p: Plan, k: nat): seq<EraseCall>
    requires k <= |p.sFirst| == |p.sLast|
  {
    if k == 0 then []
    else EraseCalls(p, k - 1) + if p.sFirst[k - 1] >= 0 then [EraseCall(k - 1, p.sFirst[k - 1], p.sLast[k - 1])] else []
  }

  /**
    * `flash_sect_erase`: the driver is called for the planned range of each bank until a call fails, and
    * the number of sectors reported is the planned one. `driver` is what `flash_erase` returns.
    */
  method SectErase(banks: seq<Bank>, first: int, last: int, driver: EraseCall -> int)
    returns (rcode: int, erased: int, calls: seq<EraseCall>)
    requires Fits(banks)
    ensures var plan := FillSectRanges(banks, first, last);
      && (rcode == 0 <==> Success(plan) && forall c :: c in EraseCalls(plan, |banks|) ==> driver(c) == 0)
      && (rcode == 0 ==> calls == EraseCalls(plan, |banks|) && erased == plan.count)
      && (!Success(plan) ==> calls == [])
      && calls <= (if Success(plan) then EraseCalls(plan, |banks|) else [])
  {
    var sFirst, sLast, planned;
    rcode, sFirst, sLast, planned := Fill(banks, first, last);
    erased, calls := 0, [];
    ghost var plan := FillSectRanges(banks, first, last);
    CountPositive(banks, first, last);
    hide PlanUpTo;
    hide Layout;
    hide InRange;
    if planned != 0 && rcode == 0 {
      var bank := 0;
      while bank < |banks| && rcode == 0
        invariant 0 <= bank <= |banks|
        invariant calls == EraseCalls(plan, bank) && erased == Selected(plan, bank)
        invariant rcode == 0 <==> forall c :: c in calls ==> driver(c) == 0
      {
        if sFirst[bank] >= 0 {
          erased := erased + sLast[bank] - sFirst[bank] + 1;
          rcode := driver(EraseCall(bank, sFirst[bank], sLast[bank]));
          calls := calls + [EraseCall(bank, sFirst[bank], sLast[bank])];
        }
        bank := bank + 1;
      }
      CallsPrefix(plan, bank, |banks|);
    } else if rcode == 0 {
      rcode := 1;
    }
  }

  lemma {:induction false} CallsPrefix(p: Plan, j: nat, k: nat)
    requires j <= k <= |p.sFirst| == |p.sLast|
    ensures EraseCalls(p, j) <= EraseCalls(p, k)
    ensures forall c :: c in EraseCalls(p, j) ==> c in EraseCalls(p, k)
  {
    if j < k {
      CallsPrefix(p, j, k - 1);
    }
  }

  /** Some call covers sector `s` of bank `b`. */
  ghost predicate Erases(calls: seq<EraseCall>, b: int, s: int) {
    exists c :: c in calls && c.bank == b && 0 <= c.first <= s <= c.last
  }

  /** The calls of a plan name exactly its sectors. */
  lemma {:induction false} CallsSelect(p: Plan, k: nat, b: int, s: int)
    requires k <= |p.sFirst| == |p.sLast|
    ensures Erases(EraseCalls(p, k), b, s) <==> b < k && Selects(p, b, s)
  {
    if k > 0 {
      CallsSelect(p, k - 1, b, s);
      if p.sFirst[k - 1] >= 0 {
        var last := EraseCall(k - 1, p.sFirst[k - 1], p.sLast[k - 1]);
        assert last in EraseCalls(p, k);
        assert forall c :: c in EraseCalls(p, k) <==> c in EraseCalls(p, k - 1) || c == last;
      }
    }
  }

  /** The addresses of sector `s` of bank `b` and [lo, hi] have one in common. */
  predicate Meets(banks: seq<Bank>, b: int, s: int, lo: int, hi: int)
    requires IsSector(banks, b, s)
  {
    banks[b].start[s] <= hi && lo <= banks[b].SectorEnd(s)
  }

  lemma SelectedIsTouched(banks: seq<Bank>, p: Plan, lo: int, hi: int, b0: int, s0: int, b: int, s: int)
    requires Layout(banks) && IsSector(banks, b0, s0) && banks[b0].Contains(s0, hi)
    requires Tiles(banks, p, lo, banks[b0].SectorEnd(s0)) && IsSector(banks, b, s) && Selects(p, b, s)
    ensures Meets(banks, b, s, lo, hi)
  {
    var a := banks[b].start[s];
    SectorBounds(banks[b], s);
    SectorMonotone(banks[b], p.sFirst[b], s);
    SectorMonotone(banks[b], s, p.sLast[b]);
    hide Layout;
    assert Covered(banks, p, a);
    if a > hi {
      OneSector(banks, b, s, b0, s0, a);
    }
  }

  lemma TouchedIsSelected(banks: seq<Bank>, p: Plan, lo: int, hi: int, last: int, b: int, s: int)
    requires Layout(banks) && lo <= hi <= last && Tiles(banks, p, lo, last)
    requires IsSector(banks, b, s) && Meets(banks, b, s, lo, hi)
    ensures Selects(p, b, s)
  {
    SectorBounds(banks[b], s);
    var a: int := if banks[b].start[s] < lo then lo else banks[b].start[s];
    assert Covered(banks, p, a);
    var c :| 0 <= c < |p.sFirst| && p.sFirst[c] >= 0
        && banks[c].start[p.sFirst[c]] <= a <= banks[c].SectorEnd(p.sLast[c]);
    var t := FindSector(banks[c], p.sFirst[c], p.sLast[c], a);
    hide Layout;
    OneSector(banks, b, s, c, t, a);
  }

  /**
    * Least covering set: a plan that tiles from `lo` to the end of the sector holding `hi` selects a
    * sector exactly if it is needed for [lo, hi].
    */
  lemma LeastCover(banks: seq<Bank>, p: Plan, lo: int, hi: int, b0: int, s0: int, b: int, s: int)
    requires Layout(banks) && IsSector(banks, b0, s0) && banks[b0].Contains(s0, hi) && lo <= hi
    requires Tiles(banks, p, lo, banks[b0].SectorEnd(s0)) && IsSector(banks, b, s)
    ensures Selects(p, b, s) <==> Meets(banks, b, s, lo, hi)
  {
    hide Layout;
    hide Tiles;
    hide Selects;
    hide Meets;
    if Selects(p, b, s) {
      SelectedIsTouched(banks, p, lo, hi, b0, s0, b, s);
    }
    if Meets(banks, b, s, lo, hi) {
      TouchedIsSelected(banks, p, lo, hi, banks[b0].SectorEnd(s0), b, s);
    }
  }

  /** The plan selects exactly the sectors that [lo, hi] touches. */
  ghost predicate SelectsTouched(banks: seq<Bank>, p: Plan, lo: int, hi: int) {
    forall b, s :: IsSector(banks, b, s) ==> (Selects(p, b, s) <==> Meets(banks, b, s, lo, hi))
  }

  lemma SpanCovers(banks: seq<Bank>, lo: int, hi: int, last: int)
    requires Layout(banks) && lo <= hi && RoundedUp(banks, hi, last) && Success(FillSectRanges(banks, lo, last))
    ensures SelectsTouched(banks, FillSectRanges(banks, lo, last), lo, hi)
  {
    hide PlanUpTo;
    hide Tiles;
    var p := FillSectRanges(banks, lo, last);
    var b0, s0 :| IsSector(banks, b0, s0) && banks[b0].Contains(s0, hi) && last == banks[b0].SectorEnd(s0);
    assert banks[b0].EndingAt(last, |banks[b0].start|) >= 0;
    PlanExact(banks, lo, last);
    forall b, s | IsSector(banks, b, s)
      ensures Selects(p, b, s) <==> Meets(banks, b, s, lo, hi)
    {
      LeastCover(banks, p, lo, hi, b0, s0, b, s);
    }
  }

  /** Flags are `p` on exactly the sectors that [lo, hi] touches and as in `flags` on all others. */
  ghost predicate FlaggedWhereTouched(infos: seq<FlashInfo>, flags: seq<seq<int>>, lo: int, hi: int, p: int)
    requires |flags| == |infos|
    reads infos
  {
    forall b :: 0 <= b < |infos| ==>
      && |infos[b].protect| == |flags[b]| == |Layouts(infos)[b].start|
      && forall s :: 0 <= s < |flags[b]| ==>
           infos[b].protect[s] == if Meets(Layouts(infos), b, s, lo, hi) then p else flags[b][s]
  }

  lemma FlaggedTouched(infos: seq<FlashInfo>, flags: seq<seq<int>>, plan: Plan, lo: int, hi: int, p: int)
    requires |flags| == |infos| && Flagged(infos, flags, plan, |infos|, p)
             && SelectsTouched(Layouts(infos), plan, lo, hi)
    requires forall b :: 0 <= b < |infos| ==> |flags[b]| == |infos[b].layout.start|
    ensures FlaggedWhereTouched(infos, flags, lo, hi, p)
  {
    hide Meets;
    hide Selects;
    forall b, s | 0 <= b < |infos| && 0 <= s < |flags[b]|
      ensures IsSector(Layouts(infos), b, s)
    {
    }
  }

  /** The arguments are a start and a length, not zero, whose range does not wrap. */
  ghost predicate IsSpan(arg1: string, arg2: string) {
    var spec := SpecOf(arg1, arg2);
    spec.Some? && spec.value.lenUsed && 0 < spec.value.second && spec.value.start + spec.value.second <= WORD
  }

  /** `count` is the number of sectors planned from `lo` to the end of the sector that holds `hi`. */
  ghost predicate CountsPlan(banks: seq<Bank>, lo: int, hi: int, count: int)
    requires Layout(banks)
  {
    exists last :: RoundedUp(banks, hi, last) && count == FillSectRanges(banks, lo, last).count
  }

  /**
    * The end of `protect on|off`: for a start and a length, success sets the flag of exactly the sectors
    * that the range touches, leaves every other flag alone, and reports the number of sectors planned; whatever
    * the arguments, failure changes nothing.
    */
  method ProtectSpan(infos: seq<FlashInfo>, p: int, arg1: string, arg2: string) returns (rcode: int, protected: int)
    requires Separate(infos) && Fits(Layouts(infos)) && Sized(infos) && CString(arg1) && CString(arg2)
    modifies infos
    ensures rcode == 0 && IsSpan(arg1, arg2) ==>
      var spec := SpecOf(arg1, arg2).value;
      && FlaggedWhereTouched(infos, old(Flags(infos)), spec.start, spec.start + spec.second - 1, p)
      && CountsPlan(Layouts(infos), spec.start, spec.start + spec.second - 1, protected)
    ensures rcode != 0 ==> Flags(infos) == old(Flags(infos))
  {
    hide Layout;
    hide PlanUpTo;
    hide SelectsTouched;
    hide RoundedUp;
    hide FlaggedWhereTouched;
    hide Separate;
    hide SpecOf;
    hide InFlash;
    hide PlanBank;
    hide Selected;
    ghost var spec := SpecOf(arg1, arg2);
    var first, last;
    rcode, first, last := AddrSpec(Layouts(infos), arg1, arg2);
    if rcode < 0 { return 1, 0; }
    if first >= last { return -1, 0; }
    rcode, protected := SectProtect(infos, p, first, last);
    if rcode == 0 {
      if IsSpan(arg1, arg2) {
        ghost var hi := first + spec.value.second - 1;
        assert LastAsked(spec.value) == hi;
        SpanCovers(Layouts(infos), first, hi, last);
        FlaggedTouched(infos, old(Flags(infos)), FillSectRanges(Layouts(infos), first, last), first, hi, p);
      }
    } else {
      assert forall b :: 0 <= b < |infos| ==> infos[b].protect == old(Flags(infos))[b];
    }
  }

  /** The sectors that some driver calls name, counted with their calls. */
  function CallSectors(calls: seq<EraseCall>): int {
    if calls == [] then 0
    else CallSectors(calls[..|calls| - 1]) + calls[|calls| - 1].last - calls[|calls| - 1].first + 1
  }

  lemma {:induction false} CallsCount(p: Plan, k: nat)
    requires k <= |p.sFirst| == |p.sLast|
    ensures CallSectors(EraseCalls(p, k)) == Selected(p, k)
  {
    if k > 0 {
      CallsCount(p, k - 1);
      var calls := EraseCalls(p, k);
      if p.sFirst[k - 1] >= 0 {
        assert calls[..|calls| - 1] == EraseCalls(p, k - 1);
      } else {
        assert calls == EraseCalls(p, k - 1);
      }
    }
  }

  /** The driver calls name exactly the sectors that [lo, hi] touches. */
  ghost predicate ErasesTouched(banks: seq<Bank>, calls: seq<EraseCall>, lo: int, hi: int) {
    forall b, s :: IsSector(banks, b, s) ==> (Meets(banks, b, s, lo, hi) <==> Erases(calls, b, s))
  }

  /**
    * The end of `erase`: for a start and a length, success means that the driver erased exactly the sectors that
    * the range touches, every call returning zero, and that their number is reported.
    */
  method EraseSpan(banks: seq<Bank>, arg1: string, arg2: string, driver: EraseCall -> int)
    returns (rcode: int, erased: int, calls: seq<EraseCall>)
    requires Fits(banks) && CString(arg1) && CString(arg2)
    ensures rcode == 0 ==> erased == CallSectors(calls) && forall c :: c in calls ==> driver(c) == 0
    ensures rcode == 0 && IsSpan(arg1, arg2) ==>
      var spec := SpecOf(arg1, arg2).value;
      && ErasesTouched(banks, calls, spec.start, spec.start + spec.second - 1)
      && CountsPlan(banks, spec.start, spec.start + spec.second - 1, erased)
  {
    hide Layout;
    hide PlanUpTo;
    hide EraseCalls;
    hide CallSectors;
    hide ErasesTouched;
    hide RoundedUp;
    hide SpecOf;
    ghost var spec := SpecOf(arg1, arg2);
    var first, last;
    rcode, first, last := AddrSpec(banks, arg1, arg2);
    if rcode < 0 { return 1, 0, []; }
    if first >= last { return -1, 0, []; }
    rcode, erased, calls := SectErase(banks, first, last, driver);
    if rcode == 0 {
      ghost var plan := FillSectRanges(banks, first, last);
      CallsCount(plan, |banks|);
      PlanCounts(banks, first, last);
      if IsSpan(arg1, arg2) {
        ghost var hi := first + spec.value.second - 1;
        assert LastAsked(spec.value) == hi;
        ErasedTouched(banks, first, hi, last);
      }
    }
  }

  lemma PlanCounts(banks: seq<Bank>, first: int, last: int)
    requires Layout(banks) && first <= last && Success(FillSectRanges(banks, first, last))
    ensures FillSectRanges(banks, first, last).count == Selected(FillSectRanges(banks, first, last), |banks|)
  {
    PlanExact(banks, first, last);
  }

  lemma ErasedTouched(banks: seq<Bank>, lo: int, hi: int, last: int)
    requires Layout(banks) && lo <= hi && RoundedUp(banks, hi, last) && Success(FillSectRanges(banks, lo, last))
    ensures ErasesTouched(banks, EraseCalls(FillSectRanges(banks, lo, last), |banks|), lo, hi)
  {
    hide Layout;
    hide PlanUpTo;
    hide Tiles;
    hide Meets;
    hide Selects;
    hide EraseCalls;
    hide RoundedUp;
    var plan := FillSectRanges(banks, lo, last);
    SpanCovers(banks, lo, hi, last);
    forall b, s | IsSector(banks, b, s)
      ensures Meets(banks, b, s, lo, hi) <==> Erases(EraseCalls(plan, |banks|), b, s)
    {
      CallsSelect(plan, |banks|, b, s);
    }
  }
}
