/**
  * The EFI memory map listing of cmd/efi.c: `efi_build_mem_table` sorts a copy of the map with the
  * library `qsort` (lib/qsort.c, a shell sort) and compacts it in place.
  */
module EfiMemMap {
  import opened Sequences

  const U64: int := 0x1_0000_0000_0000_0000
  const HALF: int := 0x8000_0000_0000_0000
  const PAGE := 4096

  const EFI_LOADER_CODE := 1
  const EFI_LOADER_DATA := 2
  const EFI_BOOT_SERVICES_CODE := 3
  const EFI_BOOT_SERVICES_DATA := 4
  const EFI_CONVENTIONAL_MEMORY := 7
  const EFI_TABLE_END := 15

  /** `struct efi_mem_desc` */
  datatype Desc = Desc(kind: int, start: int, virt: int, pages: nat, attribute: int) {
    predicate Valid() {
      0 <= start && start + pages * PAGE < U64
    }

    /** The address after the last page. */
    function End(): int {
      start + pages * PAGE
    }
  }

  ghost predicate AllValid(ds: seq<Desc>) {
    forall i :: 0 <= i < |ds| ==> ds[i].Valid()
  }

  // ----- order

  /** A 64-bit difference taken as a signed number. */
  function Signed64(x: int): int {
    (x + HALF) % U64 - HALF
  }

  /** `h_cmp_entry` */
  function HCmp(a: Desc, b: Desc): int {
    var diff := Signed64((a.start - b.start) % U64);
    if diff < 0 then -1 else if diff > 0 then 1 else 0
  }

  /** The comparison is right exactly if the addresses are not half the address space apart. */
  lemma HCmpExact(a: Desc, b: Desc)
    requires 0 <= a.start < U64 && 0 <= b.start < U64
    ensures (HCmp(a, b) <= 0 <==> a.start <= b.start) <==> -HALF <= a.start - b.start < HALF
  {
    var x := a.start - b.start;
    assert x % U64 == if x >= 0 then x else x + U64;
  }

  /** All addresses lie within half the address space. */
  ghost predicate InWindow(ds: seq<Desc>) {
    && AllValid(ds)
    && forall i, j :: 0 <= i < |ds| && 0 <= j < |ds| ==> ds[i].start - ds[j].start < HALF
  }

  ghost predicate Sorted(ds: seq<Desc>) {
    forall i, j :: 0 <= i < j < |ds| ==> ds[i].start <= ds[j].start
  }

  /** Neighbours are in the order the comparison gives, right or wrong. */
  ghost predicate Chained(ds: seq<Desc>) {
    forall k :: 0 < k < |ds| ==> HCmp(ds[k - 1], ds[k]) <= 0
  }

  lemma HCmpTurns(a: Desc, b: Desc)
    ensures HCmp(a, b) > 0 ==> HCmp(b, a) <= 0
  {
    var x := a.start - b.start;
    assert (-x) % U64 == if x % U64 == 0 then 0 else U64 - x % U64;
  }

  /**
    * Two descriptors that are not half the address space apart come out in address order exactly if they are
    * less than half of it apart.
    */
  lemma FarApartUnsorted(ds: seq<Desc>, out: seq<Desc>)
    requires |ds| == 2 && AllValid(ds) && Permutes(ds, out) && Chained(out)
    requires ds[0].start - ds[1].start != HALF && ds[1].start - ds[0].start != HALF
    ensures |out| == 2 && (Sorted(out) <==> -HALF < ds[0].start - ds[1].start < HALF)
  {
    assert |multiset(out)| == |out| == 2;
    assert ds == [ds[0], ds[1]] && out == [out[0], out[1]];
    assert out[0] in multiset(ds) && out[1] in multiset(ds) && ds[0] in multiset(out) && ds[1] in multiset(out);
    assert HCmp(out[0], out[1]) <= 0;
    HCmpExact(out[0], out[1]);
  }

  // ----- qsort

  /** The gaps of the shell sort: 1, 4, 13, 40, ... */
  predicate Gap(g: int) {
    g == 0 || (g > 0 && g % 3 == 1 && Gap((g - 1) / 3))
  }

  ghost predicate Permutes(s: seq<Desc>, t: seq<Desc>) {
    multiset(s) == multiset(t)
  }

  /** A permutation keeps every property of all elements. */
  lemma PermutesWindow(s: seq<Desc>, t: seq<Desc>)
    requires Permutes(s, t) && InWindow(s)
    ensures InWindow(t)
  {
    forall i | 0 <= i < |t|
      ensures t[i] in s
    {
      assert t[i] in multiset(t);
    }
  }

  lemma PermutesValid(s: seq<Desc>, t: seq<Desc>)
    requires Permutes(s, t) && AllValid(s)
    ensures AllValid(t)
  {
    forall i | 0 <= i < |t|
      ensures t[i].Valid()
    {
      assert t[i] in multiset(t);
      assert t[i] in s;
    }
  }

  method Swap(a: array<Desc>, n: nat, i: nat, j: nat)
    requires i < j < n <= a.Length
    modifies a
    ensures a[..n] == old(a[..n])[i := old(a[j])][j := old(a[i])] && a[n..] == old(a[n..])
  {
    a[i], a[j] := a[j], a[i];
  }

  /** Elements 0 to `i` are sorted but for the one at `p`, which is on its way down. */
  ghost predicate Moving(ds: seq<Desc>, i: int, p: int)
    requires 0 <= p <= i < |ds|
  {
    && (forall x, y :: 0 <= x < y <= i && x != p && y != p ==> ds[x].start <= ds[y].start)
    && forall k :: p < k <= i ==> ds[p].start <= ds[k].start
  }

  lemma MovingStarts(ds: seq<Desc>, i: nat)
    requires i < |ds| && Sorted(ds[..i])
    ensures Moving(ds, i, i)
  {
    assert forall k :: 0 <= k < i ==> ds[..i][k] == ds[k];
  }

  lemma MovingEnds(ds: seq<Desc>, i: nat, p: nat)
    requires p <= i < |ds| && Moving(ds, i, p) && (p > 0 ==> ds[p - 1].start <= ds[p].start)
    ensures Sorted(ds[..i + 1])
  {
  }

  lemma MovingDown(ds: seq<Desc>, i: nat, p: nat)
    requires 0 < p <= i < |ds| && Moving(ds, i, p) && ds[p - 1].start > ds[p].start
    ensures Moving(ds[p - 1 := ds[p]][p := ds[p - 1]], i, p - 1)
  {
  }

  /** Elements 0 to `i` are chained but for the one at `p`, which is on its way down. */
  ghost predicate Linking(ds: seq<Desc>, i: int, p: int)
    requires 0 <= p <= i < |ds|
  {
    && (forall k :: 0 < k <= i && k != p ==> HCmp(ds[k - 1], ds[k]) <= 0 || k == p + 1)
    && (p < i ==> HCmp(ds[p], ds[p + 1]) <= 0) && (0 < p < i ==> HCmp(ds[p - 1], ds[p + 1]) <= 0)
  }

  lemma LinkingStarts(ds: seq<Desc>, i: nat)
    requires i < |ds| && Chained(ds[..i])
    ensures Linking(ds, i, i)
  {
    hide HCmp;
    assert forall k :: 0 <= k < i ==> ds[..i][k] == ds[k];
    forall k | 0 < k < i
      ensures HCmp(ds[k - 1], ds[k]) <= 0
    {
      assert HCmp(ds[..i][k - 1], ds[..i][k]) <= 0;
    }
  }

  lemma LinkingEnds(ds: seq<Desc>, i: nat, p: nat)
    requires p <= i < |ds| && Linking(ds, i, p) && (p > 0 ==> HCmp(ds[p - 1], ds[p]) <= 0)
    ensures Chained(ds[..i + 1])
  {
    hide HCmp;
  }

  lemma LinkingDown(ds: seq<Desc>, i: nat, p: nat)
    requires 0 < p <= i < |ds| && Linking(ds, i, p) && HCmp(ds[p - 1], ds[p]) > 0
    ensures Linking(ds[p - 1 := ds[p]][p := ds[p - 1]], i, p - 1)
  {
    HCmpTurns(ds[p - 1], ds[p]);
    hide HCmp;
    var t := ds[p - 1 := ds[p]][p := ds[p - 1]];
    forall k | 0 < k <= i && k != p - 1
      ensures HCmp(t[k - 1], t[k]) <= 0
    {
      if k > p + 1 || k < p - 1 {
        assert t[k - 1] == ds[k - 1] && t[k] == ds[k];
      }
    }
  }

  /** `now` follows `was` with element `i` on its way down, at `p`. */
  ghost predicate Inserting(was: seq<Desc>, now: seq<Desc>, i: nat, p: nat, gap: nat) {
    && p <= i < |was| == |now| && Permutes(was, now)
    && (gap == 1 && InWindow(was) && Sorted(was[..i]) ==> Moving(now, i, p))
    && (gap == 1 && Chained(was[..i]) ==> Linking(now, i, p))
  }

  ghost predicate Inserted(was: seq<Desc>, now: seq<Desc>, i: nat, gap: nat) {
    && i < |was| == |now| && Permutes(was, now)
    && (gap == 1 && InWindow(was) && Sorted(was[..i]) ==> Sorted(now[..i + 1]))
    && (gap == 1 && Chained(was[..i]) ==> Chained(now[..i + 1]))
  }

  lemma InsertStarts(was: seq<Desc>, i: nat, gap: nat)
    requires i < |was|
    ensures Inserting(was, was, i, i, gap)
  {
    if Sorted(was[..i]) {
      MovingStarts(was, i);
    }
    if Chained(was[..i]) {
      LinkingStarts(was, i);
    }
  }

  lemma InsertStops(was: seq<Desc>, now: seq<Desc>, i: nat, p: nat, gap: nat)
    requires Inserting(was, now, i, p, gap) && (p >= gap > 0 ==> HCmp(now[p - gap], now[p]) <= 0)
    ensures Inserted(was, now, i, gap)
  {
    hide Moving;
    hide Linking;
    hide HCmp;
    hide Permutes;
    if gap == 1 && InWindow(was) && Sorted(was[..i]) {
      PermutesWindow(was, now);
      if p > 0 {
        InOrder(now, p - 1, p);
      }
      MovingEnds(now, i, p);
    }
    if gap == 1 && Chained(was[..i]) {
      LinkingEnds(now, i, p);
    }
  }

  lemma InsertMoves(was: seq<Desc>, now: seq<Desc>, i: nat, p: nat, gap: nat)
    requires Inserting(was, now, i, p, gap) && 0 < gap <= p && HCmp(now[p - gap], now[p]) > 0
    ensures Inserting(was, now[p - gap := now[p]][p := now[p - gap]], i, p - gap, gap)
  {
    hide Moving;
    hide Linking;
    hide HCmp;
    var next := now[p - gap := now[p]][p := now[p - gap]];
    SwapPermutes(now, p - gap, p);
    PermutesTrans(was, now, next);
    if gap == 1 && InWindow(was) && Sorted(was[..i]) {
      PermutesWindow(was, now);
      InOrder(now, p - 1, p);
      MovingDown(now, i, p);
    }
    if gap == 1 && Chained(was[..i]) {
      LinkingDown(now, i, p);
    }
  }

  lemma SwapPermutes(s: seq<Desc>, i: nat, j: nat)
    requires i < j < |s|
    ensures Permutes(s, s[i := s[j]][j := s[i]])
  {
  }

  /** The innermost loop of `qsort`: moves element `i` down in steps of `gap`. */
  method Insert(a: array<Desc>, n: nat, i: nat, gap: nat)
    requires 0 < gap <= i < n <= a.Length
    modifies a
    ensures Inserted(old(a[..n]), a[..n], i, gap) && a[n..] == old(a[n..])
  {
    hide Inserting;
    hide Inserted;
    hide HCmp;
    var j := i;
    ghost var was := a[..n];
    InsertStarts(was, i, gap);
    while true
      invariant gap <= j <= i && Inserting(was, a[..n], i, j, gap) && a[n..] == old(a[n..])
      decreases j
    {
      j := j - gap;
      ghost var before := a[..n];
      assert before[j] == a[j] && before[j + gap] == a[j + gap];
      if HCmp(a[j], a[j + gap]) <= 0 {
        InsertStops(was, before, i, j + gap, gap);
        break;
      }
      Swap(a, n, j, j + gap);
      InsertMoves(was, before, i, j + gap, gap);
      if j < gap {
        InsertStops(was, a[..n], i, j, gap);
        break;
      }
    }
  }

  lemma PermutesSelf(s: seq<Desc>)
    ensures Permutes(s, s)
  {
  }

  lemma PermutesTrans(s: seq<Desc>, t: seq<Desc>, u: seq<Desc>)
    requires Permutes(s, t) && Permutes(t, u)
    ensures Permutes(s, u)
  {
  }

  lemma InOrder(ds: seq<Desc>, i: nat, j: nat)
    requires InWindow(ds) && i < |ds| && j < |ds|
    ensures HCmp(ds[i], ds[j]) <= 0 <==> ds[i].start <= ds[j].start
  {
    HCmpExact(ds[i], ds[j]);
  }

  /** One pass of `qsort` with a fixed gap; the last pass, with gap 1, sorts. */
  method Pass(a: array<Desc>, n: nat, gap: nat)
    requires 0 < gap < n <= a.Length
    modifies a
    ensures Permutes(old(a[..n]), a[..n]) && a[n..] == old(a[n..])
    ensures gap == 1 && InWindow(old(a[..n])) ==> Sorted(a[..n])
    ensures gap == 1 ==> Chained(a[..n])
  {
    hide Permutes;
    hide HCmp;
    PermutesSelf(a[..n]);
    var i := gap;
    while i < n
      invariant gap <= i <= n
      invariant Permutes(old(a[..n]), a[..n]) && a[n..] == old(a[n..])
      invariant gap == 1 && InWindow(old(a[..n])) ==> Sorted(a[..n][..i])
      invariant gap == 1 ==> Chained(a[..n][..i])
    {
      ghost var before := a[..n];
      if InWindow(old(a[..n])) {
        PermutesWindow(old(a[..n]), before);
      }
      Insert(a, n, i, gap);
      PermutesTrans(old(a[..n]), before, a[..n]);
      i := i + 1;
    }
    assert a[..n][..n] == a[..n];
  }

  lemma SortedShort(ds: seq<Desc>)
    ensures |ds| <= 1 ==> Sorted(ds) && Chained(ds)
  {
  }

  /**
    * `qsort` with `h_cmp_entry`: always a permutation in the order of the comparison, and sorted if that can be
    * trusted.
    */
  method Qsort(a: array<Desc>, n: nat)
    requires n <= a.Length
    modifies a
    ensures Permutes(old(a[..n]), a[..n]) && a[n..] == old(a[n..])
    ensures Chained(a[..n]) && (InWindow(old(a[..n])) ==> Sorted(a[..n]))
  {
    hide Permutes;
    hide Sorted;
    hide Chained;
    hide InWindow;
    PermutesSelf(a[..n]);
    SortedShort(a[..n]);
    if n > 1 {
      var gap := 1;
      while gap < (n - 1) / 3
        invariant 0 < gap < n && Gap(gap)
        decreases n - gap
      {
        assert Gap((3 * gap + 1 - 1) / 3);
        gap := 3 * gap + 1;
      }
      while gap > 0
        invariant 0 <= gap < n && Gap(gap)
        invariant Permutes(old(a[..n]), a[..n]) && a[n..] == old(a[n..])
        invariant gap == 0 ==> Chained(a[..n]) && (InWindow(old(a[..n])) ==> Sorted(a[..n]))
        decreases gap
      {
        ghost var before := a[..n];
        if InWindow(old(a[..n])) {
          PermutesWindow(old(a[..n]), before);
        }
        Pass(a, n, gap);
        PermutesTrans(old(a[..n]), before, a[..n]);
        assert gap == 1 || (gap - 1) / 3 > 0;
        gap := (gap - 1) / 3;
      }
    }
  }

  // ----- compaction

  /** `is_boot_services`; the loader's memory counts as well. */
  predicate IsBootServices(kind: int) {
    kind == EFI_LOADER_CODE || kind == EFI_LOADER_DATA || kind == EFI_BOOT_SERVICES_CODE
    || kind == EFI_BOOT_SERVICES_DATA
  }

  function Norm(d: Desc, skipBs: bool): Desc {
    if skipBs && IsBootServices(d.kind) then d.(kind := EFI_CONVENTIONAL_MEMORY) else d
  }

  /** Whether the next descriptor is added to the last one written; `addr` is where its predecessor ended. */
  predicate Merges(prev: Desc, d: Desc, addr: int, skipBs: bool) {
    skipBs && d.start == addr && Norm(d, skipBs).kind == EFI_CONVENTIONAL_MEMORY && prev.kind == EFI_CONVENTIONAL_MEMORY
  }

  /** The table made from the first descriptors of a sorted map. */
  function Compact(ds: seq<Desc>, skipBs: bool): (out: seq<Desc>)
    ensures |out| <= |ds| && (ds != [] ==> out != [])
  {
    if ds == [] then []
    else
      var front, d := ds[..|ds| - 1], ds[|ds| - 1];
      Take(Compact(front, skipBs), front, d, skipBs)
  }

  /** One descriptor more: `front` went before it and made the table `out`. */
  function Take(out: seq<Desc>, front: seq<Desc>, d: Desc, skipBs: bool): seq<Desc>
    requires front != [] ==> out != []
  {
    if front != [] && Merges(out[|out| - 1], d, front[|front| - 1].End() % U64, skipBs) then
      var prev := out[|out| - 1];
      out[|out| - 1 := prev.(pages := (prev.pages + d.pages) % U64)]
    else out + [Norm(d, skipBs)]
  }

  /** Address `a` has memory type `kind` by this map. */
  ghost predicate Maps(ds: seq<Desc>, a: int, kind: int) {
    exists d :: d in ds && d.kind == kind && d.start <= a < d.End()
  }

  function Pages(d: Desc): nat {
    d.pages
  }

  function TotalPages(ds: seq<Desc>): nat {
    Total(Pages, ds)
  }

  /** No conventional entry directly follows another one that it abuts. */
  ghost predicate Merged(ds: seq<Desc>) {
    forall k :: 0 < k < |ds| ==> !(Conventional(ds[k - 1]) && Conventional(ds[k]) && ds[k - 1].End() == ds[k].start)
  }

  predicate Conventional(d: Desc) {
    d.kind == EFI_CONVENTIONAL_MEMORY
  }

  /** What the compacted table says of a map. */
  ghost predicate Represents(out: seq<Desc>, ds: seq<Desc>, skipBs: bool) {
    && AllValid(out) && TotalPages(out) == TotalPages(ds) && (skipBs ==> Merged(out))
    && (ds != [] ==> out != [] && out[|out| - 1].End() == ds[|ds| - 1].End())
    && forall a, kind :: Maps(out, a, kind) <==> MapsNorm(ds, a, kind, skipBs)
  }

  /** Address `a` has type `kind`, boot-services types read as conventional. */
  ghost predicate MapsNorm(ds: seq<Desc>, a: int, kind: int, skipBs: bool) {
    exists d :: d in ds && Norm(d, skipBs).kind == kind && d.start <= a < d.End()
  }

  lemma MapsAppend(ds: seq<Desc>, d: Desc, a: int, kind: int)
    ensures Maps(ds + [d], a, kind) <==> Maps(ds, a, kind) || (d.kind == kind && d.start <= a < d.End())
  {
    if d.kind == kind && d.start <= a < d.End() {
      assert d in ds + [d];
    }
    if Maps(ds, a, kind) {
      var e :| e in ds && e.kind == kind && e.start <= a < e.End();
      assert e in ds + [d];
    }
  }

  lemma MapsNormAppend(ds: seq<Desc>, d: Desc, a: int, kind: int, skipBs: bool)
    ensures MapsNorm(ds + [d], a, kind, skipBs) <==>
            MapsNorm(ds, a, kind, skipBs) || (Norm(d, skipBs).kind == kind && d.start <= a < d.End())
  {
    if Norm(d, skipBs).kind == kind && d.start <= a < d.End() {
      assert d in ds + [d];
    }
    if MapsNorm(ds, a, kind, skipBs) {
      var e :| e in ds && Norm(e, skipBs).kind == kind && e.start <= a < e.End();
      assert e in ds + [d];
    }
  }

  lemma MapsStep(out: seq<Desc>, ds: seq<Desc>, d: Desc, skipBs: bool)
    requires forall a, kind :: Maps(out, a, kind) <==> MapsNorm(ds, a, kind, skipBs)
    ensures forall a, kind :: Maps(out + [Norm(d, skipBs)], a, kind) <==> MapsNorm(ds + [d], a, kind, skipBs)
  {
    hide Maps;
    hide MapsNorm;
    forall a, kind
      ensures Maps(out + [Norm(d, skipBs)], a, kind) <==> MapsNorm(ds + [d], a, kind, skipBs)
    {
      MapsAppend(out, Norm(d, skipBs), a, kind);
      MapsNormAppend(ds, d, a, kind, skipBs);
    }
  }

  lemma MergedAppend(out: seq<Desc>, e: Desc)
    requires Merged(out)
    requires out == [] || !(Conventional(out[|out| - 1]) && Conventional(e) && out[|out| - 1].End() == e.start)
    ensures Merged(out + [e])
  {
    forall k | 0 < k < |out + [e]|
      ensures !(Conventional((out + [e])[k - 1]) && Conventional((out + [e])[k])
              && (out + [e])[k - 1].End() == (out + [e])[k].start)
    {
      assert (out + [e])[k - 1] == out[k - 1];
    }
  }

  /** A descriptor that starts a new entry. */
  lemma AppendStep(out: seq<Desc>, ds: seq<Desc>, d: Desc, skipBs: bool)
    requires Represents(out, ds, skipBs) && AllValid(ds + [d])
    requires ds == [] || !Merges(out[|out| - 1], d, ds[|ds| - 1].End(), skipBs)
    requires ds == [] ==> out == []
    ensures Represents(out + [Norm(d, skipBs)], ds + [d], skipBs)
  {
    hide Maps;
    hide MapsNorm;
    hide Merged;
    hide Total;
    var e := Norm(d, skipBs);
    TotalAppend(Pages, out, e);
    TotalAppend(Pages, ds, d);
    assert (ds + [d])[|ds|] == d;
    assert ds != [] ==> (ds + [d])[|ds| - 1] == ds[|ds| - 1];
    if skipBs {
      MergedAppend(out, e);
    }
    MapsStep(out, ds, d, skipBs);
  }

  /** A descriptor that is added to the last entry. */
  lemma MergeStep(front: seq<Desc>, prev: Desc, ds: seq<Desc>, d: Desc, skipBs: bool)
    requires Represents(front + [prev], ds, skipBs) && ds != [] && AllValid(ds + [d])
    requires Merges(prev, d, ds[|ds| - 1].End(), skipBs)
    ensures 0 <= prev.pages + d.pages < U64
    ensures Represents(front + [prev.(pages := prev.pages + d.pages)], ds + [d], skipBs)
  {
    var e := prev.(pages := prev.pages + d.pages);
    var out, out' := front + [prev], front + [e];
    assert out[|out| - 1] == prev && (ds + [d])[|ds|] == d;
    assert e.End() == d.End();
    TotalAppend(Pages, front, prev);
    TotalAppend(Pages, front, e);
    TotalAppend(Pages, ds, d);
    forall k | 0 < k < |out'|
      ensures !(Conventional(out'[k - 1]) && Conventional(out'[k]) && out'[k - 1].End() == out'[k].start)
    {
      assert out'[k - 1] == out[k - 1] && out'[k].start == out[k].start && out'[k].kind == out[k].kind;
    }
    forall a, kind
      ensures Maps(out', a, kind) <==> MapsNorm(ds + [d], a, kind, skipBs)
    {
      MapsAppend(front, prev, a, kind);
      MapsAppend(front, e, a, kind);
      MapsNormAppend(ds, d, a, kind, skipBs);
    }
  }

  /**
    * Compaction keeps the meaning of a map in any order: every address has the type it had, boot-services
    * types read as conventional; pages are conserved; and no two abutting conventional entries remain.
    */
  lemma {:induction false} CompactRepresents(ds: seq<Desc>, skipBs: bool)
    requires AllValid(ds)
    ensures Represents(Compact(ds, skipBs), ds, skipBs)
  {
    hide Represents;
    hide Take;
    if ds == [] {
      NothingRepresented(skipBs);
    } else {
      var k := |ds| - 1;
      CompactRepresents(ds[..k], skipBs);
      assert ds[..k] + [ds[k]] == ds;
      TakeRepresents(Compact(ds[..k], skipBs), ds[..k], ds[k], skipBs);
    }
  }

  lemma TakeRepresents(out: seq<Desc>, front: seq<Desc>, d: Desc, skipBs: bool)
    requires Represents(out, front, skipBs) && AllValid(front + [d])
    requires |out| <= |front| && (front != [] ==> out != [])
    ensures Represents(Take(out, front, d, skipBs), front + [d], skipBs)
  {
    hide Represents;
    hide Sorted;
    hide Merges;
    if front != [] {
      LastValid(front, d);
    }
    hide AllValid;
    if front != [] && Merges(out[|out| - 1], d, front[|front| - 1].End() % U64, skipBs) {
      MergeLast(out, front, d, skipBs);
    } else {
      AppendStep(out, front, d, skipBs);
    }
  }

  lemma LastValid(front: seq<Desc>, d: Desc)
    requires AllValid(front + [d]) && front != []
    ensures front[|front| - 1].End() % U64 == front[|front| - 1].End()
  {
    assert (front + [d])[|front| - 1] == front[|front| - 1];
  }

  /** A sorted map gives a sorted table. */
  lemma {:induction false} CompactSorted(ds: seq<Desc>, skipBs: bool)
    requires Sorted(ds)
    ensures var out := Compact(ds, skipBs);
      Sorted(out) && (ds != [] ==> out[|out| - 1].start <= ds[|ds| - 1].start)
  {
    if ds != [] {
      var k := |ds| - 1;
      CompactSorted(ds[..k], skipBs);
      hide Compact;
      CompactStep(ds, k, skipBs);
      assert ds[..k + 1] == ds;
      TakeSorted(Compact(ds[..k], skipBs), ds[..k], ds[k], skipBs);
    }
  }

  lemma TakeSorted(out: seq<Desc>, front: seq<Desc>, d: Desc, skipBs: bool)
    requires Sorted(out) && (front != [] ==> out != [] && out[|out| - 1].start <= front[|front| - 1].start <= d.start)
    requires front == [] ==> out == []
    ensures var r := Take(out, front, d, skipBs);
      r != [] && Sorted(r) && r[|r| - 1].start <= d.start
  {
    hide Merges;
    var r := Take(out, front, d, skipBs);
    assert forall i :: 0 <= i < |out| ==> r[i].start == out[i].start;
  }

  /** The merging branch of `Compact`, with its 64-bit addition. */
  lemma MergeLast(out: seq<Desc>, ds: seq<Desc>, d: Desc, skipBs: bool)
    requires Represents(out, ds, skipBs) && ds != [] && out != [] && AllValid(ds + [d])
    requires Merges(out[|out| - 1], d, ds[|ds| - 1].End(), skipBs)
    ensures var prev := out[|out| - 1];
      Represents(out[|out| - 1 := prev.(pages := (prev.pages + d.pages) % U64)], ds + [d], skipBs)
  {
    hide Merges;
    hide Represents;
    hide AllValid;
    hide Sorted;
    var prev, front := out[|out| - 1], out[..|out| - 1];
    assert front + [prev] == out;
    MergeStep(front, prev, ds, d, skipBs);
    assert out[|out| - 1 := prev.(pages := prev.pages + d.pages)] == front + [prev.(pages := prev.pages + d.pages)];
  }

  lemma NothingRepresented(skipBs: bool)
    ensures Represents([], [], skipBs)
  {
  }

  /** Without merging, the table is the sorted map itself. */
  lemma {:induction false} CompactAll(ds: seq<Desc>)
    ensures Compact(ds, false) == ds
  {
    if ds != [] {
      var k := |ds| - 1;
      CompactAll(ds[..k]);
      CompactStep(ds, k, false);
      hide Compact;
      assert ds[..k + 1] == ds && ds[..k] + [ds[k]] == ds;
    }
  }

  /** The table before `dest`, the unread descriptors from `desc` on. */
  ghost predicate Compacting(base: seq<Desc>, sorted: seq<Desc>, dest: int, desc: int, addr: int, skipBs: bool) {
    && 0 <= dest <= desc <= |sorted| < |base| && (desc > 0 ==> dest > 0)
    && base[..dest] == Compact(sorted[..desc], skipBs) && base[desc..|sorted|] == sorted[desc..]
    && (desc > 0 ==> addr == sorted[desc - 1].End() % U64)
  }

  /** One turn of the compaction loop: copy the descriptor down, then merge it or keep it. */
  method CompactOne(base: array<Desc>, ghost sorted: seq<Desc>, dest0: nat, desc: nat, addr0: int, skipBs: bool)
    returns (dest: nat, addr: int)
    requires Compacting(base[..], sorted, dest0, desc, addr0, skipBs) && desc < |sorted|
    modifies base
    ensures Compacting(base[..], sorted, dest, desc + 1, addr, skipBs)
  {
    hide Compact;
    hide Merges;
    ghost var count, table := |sorted|, base[..dest0];
    dest := dest0;
    var d := base[desc];
    assert d == base[..][desc..count][0] == sorted[desc];
    CompactStep(sorted, desc, skipBs);
    ghost var rest := base[desc + 1..count];
    assert rest == base[..][desc..count][1..] == sorted[desc + 1..];
    base[dest] := Norm(d, skipBs);
    assert base[..dest] == table && base[desc + 1..count] == rest;
    if desc > 0 && Merges(base[dest - 1], d, addr0, skipBs) {
      assert base[dest - 1] == table[dest - 1];
      base[dest - 1] := base[dest - 1].(pages := (base[dest - 1].pages + d.pages) % U64);
      assert base[..dest] == table[dest - 1 := table[dest - 1].(pages := (table[dest - 1].pages + d.pages) % U64)];
    } else {
      assert desc > 0 ==> base[dest - 1] == table[dest - 1];
      assert base[..dest + 1] == table + [Norm(d, skipBs)];
      dest := dest + 1;
    }
    assert base[desc + 1..count] == rest;
    addr := d.End() % U64;
  }

  /**
    * `efi_build_mem_table` on an array with room for one entry more than the map has: sort, then compact
    * in place with a write index that never overtakes the read index, then mark the end.
    */
  method BuildMemTable(base: array<Desc>, count: nat, skipBs: bool) returns (n: nat)
    requires count + 1 == base.Length
    modifies base
    ensures n <= count && base[n].kind == EFI_TABLE_END
    ensures !skipBs ==> Permutes(old(base[..count]), base[..n]) && Chained(base[..n])
    ensures AllValid(old(base[..count])) ==> TableOf(base[..n], old(base[..count]), skipBs)
    ensures InWindow(old(base[..count])) ==> Sorted(base[..n])
  {
    hide TableOf;
    hide Permutes;
    hide Sorted;
    hide Chained;
    hide AllValid;
    hide Compact;
    hide InWindow;
    Qsort(base, count);
    ghost var sorted := base[..count];
    var dest, addr, desc := 0, 0, 0;
    CompactingStarts(base[..], sorted, skipBs);
    while desc < count
      invariant desc <= count && Compacting(base[..], sorted, dest, desc, addr, skipBs)
    {
      dest, addr := CompactOne(base, sorted, dest, desc, addr, skipBs);
      desc := desc + 1;
    }
    assert sorted[..count] == sorted;
    CompactAll(sorted);
    if AllValid(old(base[..count])) {
      PermutesValid(old(base[..count]), sorted);
      TableFromOrdered(old(base[..count]), sorted, skipBs);
    }
    if InWindow(old(base[..count])) {
      CompactSorted(sorted, skipBs);
    }
    ghost var table := base[..dest];
    base[dest] := base[dest].(kind := EFI_TABLE_END);
    assert base[..dest] == table;
    n := dest;
  }

  /** What the table promises of the map it was built from, in whatever order that was. */
  ghost predicate TableOf(out: seq<Desc>, ds: seq<Desc>, skipBs: bool) {
    && TotalPages(out) == TotalPages(ds)
    && (forall a, kind :: Maps(out, a, kind) <==> MapsNorm(ds, a, kind, skipBs))
    && (if skipBs then Merged(out) else Permutes(ds, out))
  }

  lemma TableFromOrdered(ds: seq<Desc>, sorted: seq<Desc>, skipBs: bool)
    requires Permutes(ds, sorted) && AllValid(sorted)
    ensures TableOf(Compact(sorted, skipBs), ds, skipBs)
  {
    hide Permutes;
    hide Maps;
    hide TotalPages;
    CompactRepresents(sorted, skipBs);
    CompactAll(sorted);
    hide Compact;
    PagesPermute(ds, sorted);
    forall a, kind
      ensures MapsNorm(ds, a, kind, skipBs) <==> MapsNorm(sorted, a, kind, skipBs)
    {
      MapsPermutes(ds, sorted, a, kind, skipBs);
    }
  }

  lemma PagesPermute(s: seq<Desc>, t: seq<Desc>)
    requires Permutes(s, t)
    ensures TotalPages(s) == TotalPages(t)
  {
    TotalPermutes(Pages, s, t);
  }

  lemma MapsPermutes(s: seq<Desc>, t: seq<Desc>, a: int, kind: int, skipBs: bool)
    requires Permutes(s, t)
    ensures MapsNorm(s, a, kind, skipBs) <==> MapsNorm(t, a, kind, skipBs)
  {
    assert forall d :: d in s <==> d in multiset(s);
    assert forall d :: d in t <==> d in multiset(t);
  }

  lemma CompactingStarts(base: seq<Desc>, sorted: seq<Desc>, skipBs: bool)
    requires |base| == |sorted| + 1 && base[..|sorted|] == sorted
    ensures Compacting(base, sorted, 0, 0, 0, skipBs)
  {
  }

  /** One step of `Compact`, written for the loop. */
  lemma CompactStep(sorted: seq<Desc>, k: nat, skipBs: bool)
    requires k < |sorted|
    ensures Compact(sorted[..k + 1], skipBs) == Take(Compact(sorted[..k], skipBs), sorted[..k], sorted[k], skipBs)
  {
    assert sorted[..k + 1][..k] == sorted[..k];
  }
}
