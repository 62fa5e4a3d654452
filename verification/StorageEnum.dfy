/**
  * Device enumeration for standalone applications: API_dev_enum (api/api.c), the storage state machine
  * behind it (api/api_storage.c) and the client loop (examples/api/glue.c).
  */
module StorageEnum {
  const ENUM_IDE := 0
  const ENUM_USB := 1
  const ENUM_SCSI := 2
  const ENUM_MMC := 3
  const ENUM_SATA := 4
  const ENUM_MAX := 5

  const DEV_TYP_NET := 0x0001

  /** A device is identified by the address of its descriptor. */
  datatype Cookie = Null | At(addr: int)

  /** One storage group; `slots[i]` is what the block layer has for its device number i. */
  datatype Group = Group(configured: bool, slots: seq<Cookie>)

  /** The devices there are: which are active, and the block count and size of each; and the network device. */
  datatype World = World(groups: seq<Group>, active: int -> bool, lba: int -> int, blksz: int -> int, net: Cookie) {
    ghost predicate Valid() {
      && |groups| == ENUM_MAX
      && (forall g :: 0 <= g < ENUM_MAX && !groups[g].configured ==> groups[g].slots == [])
      && (forall g, i, h, k ::
            Slot(g, i) && Slot(h, k) && groups[g].slots[i] != Null && groups[g].slots[i] == groups[h].slots[k] ==>
            g == h && i == k)
      && (forall g, i :: Slot(g, i) && net != Null ==> groups[g].slots[i] != net)
    }

    ghost predicate Slot(g: int, i: int) {
      0 <= g < |groups| && 0 <= i < |groups[g].slots|
    }
  }

  /** "External" type: DEV_TYP_STOR with the bit of the group. */
  function TypeOf(g: int): int {
    if g == ENUM_IDE then 0x12 else if g == ENUM_USB then 0x42 else if g == ENUM_SCSI then 0x22
    else if g == ENUM_MMC then 0x82 else 0x102
  }

  /** The enumeration flags of every group and the caller's device_info. */
  datatype State = State(started: seq<bool>, ended: seq<bool>, cookie: Cookie, kind: int, count: int, size: int) {
    predicate Valid() {
      |started| == ENUM_MAX && |ended| == ENUM_MAX
    }
  }

  // ----- one step of the machine

  /** The first occupied slot from j on, or the number of slots. */
  function FirstPresent(slots: seq<Cookie>, j: nat): (k: nat)
    requires j <= |slots|
    ensures j <= k <= |slots| && (k < |slots| ==> slots[k] != Null)
    ensures forall i :: j <= i < k ==> slots[i] == Null
    decreases |slots| - j
  {
    if j == |slots| || slots[j] != Null then j else FirstPresent(slots, j + 1)
  }

  /** The slot after the one holding `cookie`, or the number of slots. */
  function After(slots: seq<Cookie>, cookie: Cookie, j: nat): (k: nat)
    requires j <= |slots|
    ensures j <= k <= |slots|
    ensures (k > j && slots[k - 1] == cookie && cookie !in slots[j..k - 1]) || (k == |slots| && cookie !in slots[j..])
    decreases |slots| - j
  {
    if j == |slots| then j else if slots[j] == cookie then j + 1 else
      var k := After(slots, cookie, j + 1);
      assert slots[j..] == [slots[j]] + slots[j + 1..];
      assert k > j + 1 ==> slots[j..k - 1] == [slots[j]] + slots[j + 1..k - 1];
      k
  }

  predicate Live(w: World, c: Cookie) {
    c.At? && w.active(c.addr)
  }

  /** `dev_stor_get`: cookie, type, found and more. */
  function Got(w: World, g: nat, s: State): (r: (State, bool, bool))
    requires g < |w.groups| && s.Valid()
    ensures r.0.Valid() && r.0.started == s.started && r.0.ended == s.ended
  {
    var slots := w.groups[g].slots;
    if !w.groups[g].configured then (s, false, false)
    else
      var k := FirstPresent(slots, if s.cookie == Null then 0 else After(slots, s.cookie, 0));
      if k == |slots| then (s.(cookie := Null), false, false)
      else if !Live(w, slots[k]) then (s.(cookie := slots[k], kind := TypeOf(g)), false, true)
      else
        var addr := slots[k].addr;
        (s.(cookie := slots[k], kind := TypeOf(g), count := w.lba(addr), size := w.blksz(addr)), true, true)
  }

  /** `dev_enum_stor`. */
  function Visit(w: World, g: nat, s: State): (r: (State, bool))
    requires g < |w.groups| == ENUM_MAX && s.Valid()
    ensures r.0.Valid()
  {
    var own := s.cookie in w.groups[g].slots && forall h :: 0 <= h < g ==> s.cookie !in w.groups[h].slots;
    if s.cookie != Null && s.ended[g] then (s, false)
    else if s.cookie != Null && !own && s.started[g] then (s.(ended := s.ended[g := true]), false)
    else
      var (t, found, more) := Got(w, g, s);
      var started := if s.cookie != Null && own then t.started else t.started[g := true];
      (t.(started := started, ended := t.ended[g := !more]), found)
  }

  /** The rest of `dev_enum_storage` from group g on. */
  function VisitFrom(w: World, g: nat, s: State): (r: (State, bool))
    requires g <= |w.groups| == ENUM_MAX && s.Valid()
    ensures r.0.Valid()
    decreases ENUM_MAX - g
  {
    if g == ENUM_MAX then (s, false) else
      var (t, found) := Visit(w, g, s);
      if found then (t, true) else VisitFrom(w, g + 1, t)
  }

  function Cleared(): (s: seq<bool>)
    ensures |s| == ENUM_MAX && forall g :: 0 <= g < ENUM_MAX ==> !s[g]
  {
    [false, false, false, false, false]
  }

  /** `API_dev_enum`. */
  function Enum(w: World, s: State): (r: State)
    requires |w.groups| == ENUM_MAX && s.Valid()
    ensures r.Valid()
  {
    if s.cookie == Null && w.net != Null then
      s.(started := Cleared(), ended := Cleared(), cookie := w.net, kind := DEV_TYP_NET)
    else
      var s0 := if s.cookie == Null then s.(started := Cleared(), ended := Cleared()) else s;
      var (t, found) := VisitFrom(w, 0, s0);
      if found then t else t.(cookie := Null)
  }

  // ----- which devices are reported

  /** The active devices from slot j on, up to the first device that is present but not active. */
  function UpToInactive(w: World, slots: seq<Cookie>, j: nat): seq<Cookie>
    requires j <= |slots|
    decreases |slots| - j
  {
    if j == |slots| then []
    else if slots[j] == Null then UpToInactive(w, slots, j + 1)
    else if Live(w, slots[j]) then [slots[j]] + UpToInactive(w, slots, j + 1)
    else []
  }

  predicate HasInactive(w: World, slots: seq<Cookie>, j: nat) {
    exists i :: j <= i < |slots| && slots[i] != Null && !Live(w, slots[i])
  }

  /**
    * The devices reported from group g on. `skip` says that the scan arrives with a cookie from outside the
    * groups still to come: the next configured group is then passed over.
    */
  function Reported(w: World, g: nat, skip: bool): seq<Cookie>
    requires g <= |w.groups|
    decreases |w.groups| - g, 1
  {
    if g == |w.groups| then []
    else if !w.groups[g].configured then Reported(w, g + 1, skip)
    else if skip then Reported(w, g + 1, false)
    else ReportedFrom(w, g, 0)
  }

  function ReportedFrom(w: World, g: nat, j: nat): seq<Cookie>
    requires g < |w.groups| && j <= |w.groups[g].slots|
    decreases |w.groups| - g, 0
  {
    var slots := w.groups[g].slots;
    UpToInactive(w, slots, j) + Reported(w, g + 1, HasInactive(w, slots, j))
  }

  /** Everything a client gets to see between two NULL cookies. */
  function Everything(w: World): seq<Cookie> {
    (if w.net == Null then [] else [w.net]) + Reported(w, 0, w.net != Null)
  }

  // ----- the machine reports exactly those

  /** No flag of group g or a later one is set. */
  ghost predicate Untouched(s: State, g: nat) {
    s.Valid() && forall h :: g <= h < ENUM_MAX ==> !s.started[h] && !s.ended[h]
  }

  ghost predicate Begun(s: State, g: nat) {
    s.Valid() && forall h :: 0 <= h < g <= ENUM_MAX ==> s.started[h]
  }

  /** The machine stands at device j of group h. */
  ghost predicate Holding(w: World, s: State, h: nat, j: nat) {
    && w.Slot(h, j) && h < ENUM_MAX && s.cookie == w.groups[h].slots[j] && Live(w, s.cookie)
    && Begun(s, h + 1) && !s.ended[h] && Untouched(s, h + 1)
  }

  /** It has just returned that device, with the type of its group and the device's size. */
  ghost predicate Returned(w: World, s: State, h: nat, j: nat) {
    Holding(w, s, h, j) && s.kind == TypeOf(h) && s.count == w.lba(s.cookie.addr) && s.size == w.blksz(s.cookie.addr)
  }

  /** The cookie is NULL or no device of group g or a later one. */
  ghost predicate Foreign(w: World, c: Cookie, g: nat) {
    c == Null || forall h, i :: h >= g && w.Slot(h, i) ==> w.groups[h].slots[i] != c
  }

  lemma ForeignNotIn(w: World, c: Cookie, g: nat, h: nat)
    requires Foreign(w, c, g) && c != Null && g <= h < |w.groups|
    ensures c !in w.groups[h].slots
  {
    forall i | 0 <= i < |w.groups[h].slots|
      ensures w.groups[h].slots[i] != c
    {
      assert w.Slot(h, i);
    }
  }

  /** What the outcome of a step means for the list of devices still to come. */
  ghost predicate Goes(w: World, r: (State, bool), rest: seq<Cookie>) {
    if r.1 then
      exists h: nat, j: nat :: Returned(w, r.0, h, j) && rest == [r.0.cookie] + ReportedFrom(w, h, j + 1)
    else rest == []
  }

  lemma {:induction false} Skips(w: World, slots: seq<Cookie>, j: nat)
    requires j <= |slots|
    ensures var k := FirstPresent(slots, j);
      UpToInactive(w, slots, j) == UpToInactive(w, slots, k) && HasInactive(w, slots, j) == HasInactive(w, slots, k)
    decreases |slots| - j
  {
    if j < |slots| && slots[j] == Null {
      Skips(w, slots, j + 1);
      assert HasInactive(w, slots, j) == HasInactive(w, slots, j + 1) by {
        if HasInactive(w, slots, j) {
          var i :| j <= i < |slots| && slots[i] != Null && !Live(w, slots[i]);
          assert i >= j + 1;
        }
      }
    }
  }

  /** Visiting group g took the first present device from slot j on, if there is one. */
  ghost predicate Takes(w: World, g: nat, s: State, r: (State, bool), j: nat)
    requires g < |w.groups| && j <= |w.groups[g].slots| && s.Valid() && g < ENUM_MAX
  {
    var t, slots := r.0, w.groups[g].slots;
    var k := FirstPresent(slots, j);
    && t.Valid() && t.started == s.started[g := true] && t.ended == s.ended[g := k == |slots|]
    && (if k == |slots| then t.cookie == Null else t.cookie == slots[k] && t.kind == TypeOf(g))
    && (r.1 <==> k < |slots| && Live(w, slots[k]))
    && (r.1 ==> t.count == w.lba(slots[k].addr) && t.size == w.blksz(slots[k].addr))
  }

  /** The groups after g can be scanned. */
  ghost predicate Ready(w: World, s: State, g: nat) {
    Begun(s, g) && Untouched(s, g) && Foreign(w, s.cookie, g)
  }

  lemma TakeNext(w: World, g: nat, s: State, r: (State, bool), j: nat)
    requires w.Valid() && g < ENUM_MAX && j <= |w.groups[g].slots| && Begun(s, g) && Untouched(s, g + 1)
    requires Takes(w, g, s, r, j)
    ensures if r.1 then Goes(w, r, ReportedFrom(w, g, j))
            else Ready(w, r.0, g + 1) && ReportedFrom(w, g, j) == Reported(w, g + 1, r.0.cookie != Null)
  {
    hide Reported;
    var slots := w.groups[g].slots;
    var k := FirstPresent(slots, j);
    Skips(w, slots, j);
    if k < |slots| {
      assert w.Slot(g, k);
      Head(w, slots, k);
      hide HasInactive;
      if r.1 {
        var rest := Reported(w, g + 1, HasInactive(w, slots, j));
        Associate([slots[k]], UpToInactive(w, slots, k + 1), rest);
        hide UpToInactive;
        assert Returned(w, r.0, g, k);
      }
    }
  }

  lemma Associate(a: seq<Cookie>, b: seq<Cookie>, c: seq<Cookie>)
    ensures (a + b) + c == a + (b + c)
  {
  }

  lemma Head(w: World, slots: seq<Cookie>, k: nat)
    requires k < |slots| && slots[k] != Null
    ensures Live(w, slots[k]) ==> HasInactive(w, slots, k) == HasInactive(w, slots, k + 1)
                                  && UpToInactive(w, slots, k) == [slots[k]] + UpToInactive(w, slots, k + 1)
    ensures !Live(w, slots[k]) ==> HasInactive(w, slots, k) && UpToInactive(w, slots, k) == []
  {
    if Live(w, slots[k]) && HasInactive(w, slots, k) {
      var i :| k <= i < |slots| && slots[i] != Null && !Live(w, slots[i]);
      assert i >= k + 1;
    }
  }

  lemma VisitStep(w: World, g: nat, s: State)
    requires g < |w.groups| == ENUM_MAX && s.Valid()
    ensures var r := Visit(w, g, s);
      VisitFrom(w, g, s) == if r.1 then r else VisitFrom(w, g + 1, r.0)
  {
  }

  /** An untouched group that is not configured, or is reached with a cookie from elsewhere, yields nothing. */
  lemma VisitSkips(w: World, g: nat, s: State)
    requires w.Valid() && g < ENUM_MAX && Ready(w, s, g) && (s.cookie != Null || !w.groups[g].configured)
    ensures var r := Visit(w, g, s);
      !r.1 && Ready(w, r.0, g + 1) && r.0.cookie == if w.groups[g].configured then Null else s.cookie
  {
    if s.cookie != Null {
      ForeignNotIn(w, s.cookie, g, g);
    }
  }

  lemma VisitFirst(w: World, g: nat, s: State)
    requires w.Valid() && g < ENUM_MAX && Ready(w, s, g) && s.cookie == Null && w.groups[g].configured
    ensures Takes(w, g, s, Visit(w, g, s), 0)
  {
  }

  /** Groups not yet touched, entered with NULL or with a cookie from elsewhere. */
  lemma {:induction false} ScanOn(w: World, g: nat, s: State)
    requires w.Valid() && g <= ENUM_MAX && Ready(w, s, g)
    ensures Goes(w, VisitFrom(w, g, s), Reported(w, g, s.cookie != Null))
    decreases ENUM_MAX - g
  {
    hide ReportedFrom;
    hide Takes;
    hide Visit;
    hide Goes;
    hide Foreign;
    if g == ENUM_MAX {
      NothingLeft(w, s);
    } else {
      VisitStep(w, g, s);
      hide VisitFrom;
      var r := Visit(w, g, s);
      if s.cookie != Null || !w.groups[g].configured {
        VisitSkips(w, g, s);
        ScanOn(w, g + 1, r.0);
      } else {
        VisitFirst(w, g, s);
        TakeNext(w, g, s, r, 0);
        if !r.1 {
          ScanOn(w, g + 1, r.0);
        }
      }
    }
  }

  lemma NothingLeft(w: World, s: State)
    requires |w.groups| == ENUM_MAX && s.Valid()
    ensures Goes(w, VisitFrom(w, ENUM_MAX, s), [])
  {
  }

  /** Groups before the one the cookie belongs to only have their enumeration closed. */
  lemma {:induction false} PassOver(w: World, g: nat, s: State, h: nat, j: nat) returns (t: State)
    requires w.Valid() && g <= h && Holding(w, s, h, j)
    ensures Holding(w, t, h, j) && VisitFrom(w, g, s) == VisitFrom(w, h, t)
    decreases h - g
  {
    if g == h {
      t := s;
    } else {
      forall i | 0 <= i < |w.groups[g].slots|
        ensures w.groups[g].slots[i] != s.cookie
      {
        assert w.Slot(g, i) && w.Slot(h, j);
      }
      var u := Visit(w, g, s).0;
      assert !Visit(w, g, s).1;
      t := PassOver(w, g + 1, u, h, j);
    }
  }

  /** After device j of group h, the next call returns the head of what is still to come, or ends. */
  lemma StepFrom(w: World, s: State, h: nat, j: nat)
    requires w.Valid() && Holding(w, s, h, j)
    ensures Goes(w, VisitFrom(w, 0, s), ReportedFrom(w, h, j + 1))
  {
    hide ReportedFrom;
    hide Takes;
    hide Visit;
    hide VisitFrom;
    hide Goes;
    var t := PassOver(w, 0, s, h, j);
    VisitStep(w, h, t);
    VisitNext(w, t, h, j);
    TakeNext(w, h, t, Visit(w, h, t), j + 1);
    if !Visit(w, h, t).1 {
      ScanOn(w, h + 1, Visit(w, h, t).0);
    }
  }

  lemma VisitNext(w: World, s: State, h: nat, j: nat)
    requires w.Valid() && Holding(w, s, h, j)
    ensures Takes(w, h, s, Visit(w, h, s), j + 1)
  {
    hide FirstPresent;
    OwnCookie(w, s, h, j);
    assert s.started[h := true] == s.started;
  }

  /** The cookie is found in its own group and in no other. */
  lemma OwnCookie(w: World, s: State, h: nat, j: nat)
    requires w.Valid() && Holding(w, s, h, j)
    ensures s.cookie in w.groups[h].slots && w.groups[h].configured && After(w.groups[h].slots, s.cookie, 0) == j + 1
    ensures forall g :: 0 <= g < h ==> s.cookie !in w.groups[g].slots
  {
    var slots := w.groups[h].slots;
    var k := After(slots, s.cookie, 0);
    assert slots[0..] == slots;
    assert w.Slot(h, j) && w.Slot(h, k - 1);
    forall g | 0 <= g < h
      ensures s.cookie !in w.groups[g].slots
    {
      forall i | 0 <= i < |w.groups[g].slots|
        ensures w.groups[g].slots[i] != s.cookie
      {
        assert w.Slot(g, i);
      }
    }
  }

  /** One call of API_dev_enum, seen from outside. */
  ghost predicate Promises(w: World, s: State, rest: seq<Cookie>) {
    if rest == [] then s.cookie == Null
    else
      && s.cookie == rest[0] != Null
      && ((exists h: nat, j: nat :: Returned(w, s, h, j) && rest[1..] == ReportedFrom(w, h, j + 1))
          || (s.cookie == w.net && Untouched(s, 0) && s.kind == DEV_TYP_NET && rest[1..] == Reported(w, 0, true)))
  }

  lemma GoesOn(w: World, r: (State, bool), rest: seq<Cookie>)
    requires Goes(w, r, rest)
    ensures Promises(w, if r.1 then r.0 else r.0.(cookie := Null), rest)
  {
    hide ReportedFrom;
    if r.1 {
      var h: nat, j: nat :| Returned(w, r.0, h, j) && rest == [r.0.cookie] + ReportedFrom(w, h, j + 1);
      assert rest[1..] == ReportedFrom(w, h, j + 1);
      LiveNotNull(w, r.0, h, j);
    }
  }

  lemma LiveNotNull(w: World, s: State, h: nat, j: nat)
    requires Returned(w, s, h, j)
    ensures s.cookie != Null && s.Valid()
  {
  }

  /** From a NULL cookie the first call starts the list, whatever the flags were. */
  lemma EnumStarts(w: World, s: State)
    requires w.Valid() && s.Valid() && s.cookie == Null
    ensures Promises(w, Enum(w, s), Everything(w))
  {
    var s0 := s.(started := Cleared(), ended := Cleared());
    ScanOn(w, 0, s0);
    hide Reported;
    if w.net == Null {
      GoesOn(w, VisitFrom(w, 0, s0), Reported(w, 0, false));
      assert Everything(w) == Reported(w, 0, false);
    } else {
      assert Everything(w)[1..] == Reported(w, 0, true);
    }
  }

  /** Every further call moves one device down the list; the caller need only pass the cookie on. */
  lemma EnumContinues(w: World, s: State, s': State, rest: seq<Cookie>)
    requires w.Valid() && s.Valid() && rest != [] && Promises(w, s, rest)
    requires s' == s.(kind := s'.kind, count := s'.count, size := s'.size)
    ensures Promises(w, Enum(w, s'), rest[1..])
  {
    hide Reported;
    hide ReportedFrom;
    hide Goes;
    if h: nat, j: nat :| Returned(w, s, h, j) && rest[1..] == ReportedFrom(w, h, j + 1) {
      StepFrom(w, s', h, j);
    } else {
      ScanOn(w, 0, s');
    }
    GoesOn(w, VisitFrom(w, 0, s'), rest[1..]);
  }

  // ----- completeness

  function ActiveIn(w: World, slots: seq<Cookie>, j: nat): seq<Cookie>
    requires j <= |slots|
    decreases |slots| - j
  {
    if j == |slots| then []
    else (if Live(w, slots[j]) then [slots[j]] else []) + ActiveIn(w, slots, j + 1)
  }

  /** All active storage devices from group g on, in group-then-index order. */
  function AllActive(w: World, g: nat): seq<Cookie>
    requires g <= |w.groups|
    decreases |w.groups| - g
  {
    if g == |w.groups| then [] else ActiveIn(w, w.groups[g].slots, 0) + AllActive(w, g + 1)
  }

  /** No active device follows an inactive one in the slots from j on. */
  predicate NoneAfterInactive(w: World, slots: seq<Cookie>, j: nat) {
    forall i, k :: j <= i < k < |slots| && slots[i] != Null && !Live(w, slots[i]) ==> !Live(w, slots[k])
  }

  predicate NoneActive(w: World, slots: seq<Cookie>) {
    forall i :: 0 <= i < |slots| ==> !Live(w, slots[i])
  }

  /**
    * Nothing active is passed over: not behind an inactive device of its group, not in the group that follows
    * an inactive device, and not in the first group when there is a network device.
    */
  predicate Lossless(w: World, g: nat, skip: bool)
    requires g <= |w.groups|
    decreases |w.groups| - g
  {
    if g == |w.groups| then true
    else if !w.groups[g].configured then Lossless(w, g + 1, skip)
    else if skip then NoneActive(w, w.groups[g].slots) && Lossless(w, g + 1, false)
    else NoneAfterInactive(w, w.groups[g].slots, 0) && Lossless(w, g + 1, HasInactive(w, w.groups[g].slots, 0))
  }

  lemma {:induction false} NoneActiveIn(w: World, slots: seq<Cookie>, j: nat)
    requires j <= |slots|
    ensures ActiveIn(w, slots, j) == [] <==> forall i :: j <= i < |slots| ==> !Live(w, slots[i])
    decreases |slots| - j
  {
    if j < |slots| {
      NoneActiveIn(w, slots, j + 1);
    }
  }

  lemma {:induction false} GroupExact(w: World, slots: seq<Cookie>, j: nat)
    requires j <= |slots|
    ensures UpToInactive(w, slots, j) <= ActiveIn(w, slots, j)
    ensures UpToInactive(w, slots, j) == ActiveIn(w, slots, j) <==> NoneAfterInactive(w, slots, j)
    decreases |slots| - j
  {
    if j < |slots| {
      GroupExact(w, slots, j + 1);
      NoneActiveIn(w, slots, j + 1);
      var more, all := UpToInactive(w, slots, j + 1), ActiveIn(w, slots, j + 1);
      if Live(w, slots[j]) {
        assert [slots[j]] + more == [slots[j]] + all ==>
            more == ([slots[j]] + more)[1..] == ([slots[j]] + all)[1..] == all;
      }
    }
  }

  /** The machine reports all active storage devices in order exactly when none is passed over. */
  lemma {:induction false} CompleteExactly(w: World, g: nat, skip: bool)
    requires w.Valid() && g <= |w.groups|
    ensures |Reported(w, g, skip)| <= |AllActive(w, g)|
    ensures |Reported(w, g, skip)| == |AllActive(w, g)| ==> Lossless(w, g, skip)
    ensures Reported(w, g, skip) == AllActive(w, g) <==> Lossless(w, g, skip)
    decreases |w.groups| - g
  {
    if g < |w.groups| {
      var slots := w.groups[g].slots;
      GroupExact(w, slots, 0);
      NoneActiveIn(w, slots, 0);
      hide UpToInactive;
      hide NoneAfterInactive;
      hide HasInactive;
      var next := if !w.groups[g].configured then skip else if skip then false else HasInactive(w, slots, 0);
      CompleteExactly(w, g + 1, next);
    }
  }

  /**
    * With no network device and every present slot active, the client sees each storage device exactly once,
    * in group-then-index order.
    */
  lemma CompleteWhenAllActive(w: World)
    requires w.Valid() && w.net == Null
    requires forall g, i :: w.Slot(g, i) && w.groups[g].slots[i] != Null ==> Live(w, w.groups[g].slots[i])
    ensures Everything(w) == AllActive(w, 0)
    ensures forall g, i :: w.Slot(g, i) && w.groups[g].slots[i] != Null ==> w.groups[g].slots[i] in Everything(w)
    ensures Unrepeated(Everything(w))
  {
    hide Reported;
    hide AllActive;
    LosslessWhenActive(w, 0);
    CompleteExactly(w, 0, false);
    hide Lossless;
    assert Everything(w) == Reported(w, 0, false);
    forall g, i | w.Slot(g, i) && w.groups[g].slots[i] != Null
      ensures w.groups[g].slots[i] in AllActive(w, 0)
    {
      Listed(w, 0, g, i);
    }
    NoRepeat(w, 0, false);
  }

  /** An active network device hides the only disk. */
  lemma NetworkHidesDisk(w: World, disk: int, net: int)
    requires disk != net && w.active(disk) && w.net == At(net)
    requires w.groups == OneDisk(disk)
    ensures w.Valid() && Everything(w) == [At(net)] && AllActive(w, 0) == [At(disk)]
  {
    hide UpToInactive;
    hide OneDisk;
    OneDiskSlots(w, disk);
    OneDiskValid(w, disk);
    hide World.Valid;
    Empty(w, 1, false);
    Alone(w, disk);
    hide ActiveIn;
  }

  lemma OneDiskValid(w: World, disk: int)
    requires w.groups == OneDisk(disk) && w.net.At? && w.net.addr != disk
    ensures w.Valid()
  {
    OneDiskSlots(w, disk);
    hide OneDisk;
  }

  function OneDisk(disk: int): (groups: seq<Group>) {
    var none := Group(false, []);
    [Group(true, [At(disk)]), none, none, none, none]
  }

  lemma OneDiskSlots(w: World, disk: int)
    requires w.groups == OneDisk(disk)
    ensures |w.groups| == ENUM_MAX && w.groups[0] == Group(true, [At(disk)])
    ensures forall g :: 1 <= g < ENUM_MAX ==> w.groups[g] == Group(false, [])
    ensures forall g, i :: w.Slot(g, i) ==> g == 0 && i == 0
  {
  }

  lemma Alone(w: World, disk: int)
    requires w.active(disk)
    ensures ActiveIn(w, [At(disk)], 0) == [At(disk)]
  {
    assert ActiveIn(w, [At(disk)], 0) == [At(disk)] + ActiveIn(w, [At(disk)], 1);
  }

  lemma {:induction false} Empty(w: World, g: nat, skip: bool)
    requires g <= |w.groups| && forall h :: g <= h < |w.groups| ==> w.groups[h] == Group(false, [])
    ensures Reported(w, g, skip) == [] && AllActive(w, g) == []
    decreases |w.groups| - g
  {
    if g < |w.groups| {
      Empty(w, g + 1, skip);
    }
  }

  lemma {:induction false} LosslessWhenActive(w: World, g: nat)
    requires g <= |w.groups|
    requires forall g, i :: w.Slot(g, i) && w.groups[g].slots[i] != Null ==> Live(w, w.groups[g].slots[i])
    ensures Lossless(w, g, false)
    decreases |w.groups| - g
  {
    if g < |w.groups| {
      LosslessWhenActive(w, g + 1);
      assert forall i :: 0 <= i < |w.groups[g].slots| ==> w.Slot(g, i);
    }
  }

  lemma {:induction false} InActive(w: World, slots: seq<Cookie>, j: nat, c: Cookie)
    requires j <= |slots|
    ensures c in ActiveIn(w, slots, j) <==> Live(w, c) && c in slots[j..]
    decreases |slots| - j
  {
    if j < |slots| {
      InActive(w, slots, j + 1, c);
      assert slots[j..] == [slots[j]] + slots[j + 1..];
    }
  }

  lemma {:induction false} Listed(w: World, g: nat, h: nat, i: nat)
    requires g <= h && w.Slot(h, i) && Live(w, w.groups[h].slots[i])
    ensures w.groups[h].slots[i] in AllActive(w, g)
    decreases h - g
  {
    if g < h {
      Listed(w, g + 1, h, i);
    } else {
      InActive(w, w.groups[h].slots, 0, w.groups[h].slots[i]);
      assert w.groups[h].slots[0..] == w.groups[h].slots;
    }
  }

  lemma {:induction false} FromGroup(w: World, g: nat, c: Cookie)
    requires g <= |w.groups| && c in AllActive(w, g)
    ensures c != Null && exists h, i :: g <= h && w.Slot(h, i) && w.groups[h].slots[i] == c
    decreases |w.groups| - g
  {
    var slots := w.groups[g].slots;
    if c in ActiveIn(w, slots, 0) {
      InActive(w, slots, 0, c);
      assert slots[0..] == slots;
      var i :| 0 <= i < |slots| && slots[i] == c;
      assert w.Slot(g, i);
    } else {
      FromGroup(w, g + 1, c);
    }
  }

  lemma {:induction false} NoRepeatIn(w: World, slots: seq<Cookie>, j: nat)
    requires j <= |slots|
    requires forall i, k :: 0 <= i < k < |slots| && slots[i] != Null ==> slots[i] != slots[k]
    ensures Unrepeated(ActiveIn(w, slots, j))
    decreases |slots| - j
  {
    if j < |slots| {
      NoRepeatIn(w, slots, j + 1);
      InActive(w, slots, j + 1, slots[j]);
    }
  }

  lemma {:induction false} ReportedActive(w: World, g: nat, skip: bool, c: Cookie)
    requires g <= |w.groups| && c in Reported(w, g, skip)
    ensures c in AllActive(w, g)
    decreases |w.groups| - g
  {
    if g < |w.groups| {
      var slots := w.groups[g].slots;
      GroupExact(w, slots, 0);
      hide UpToInactive;
      hide HasInactive;
      if c !in UpToInactive(w, slots, 0) || !w.groups[g].configured || skip {
        var next := if !w.groups[g].configured then skip else if skip then false else HasInactive(w, slots, 0);
        ReportedActive(w, g + 1, next, c);
      }
    }
  }

  predicate Unrepeated(cs: seq<Cookie>) {
    forall m, n :: 0 <= m < n < |cs| ==> cs[m] != cs[n]
  }

  /** No storage device is ever reported twice. */
  lemma {:induction false} NoRepeat(w: World, g: nat, skip: bool)
    requires w.Valid() && g <= |w.groups|
    ensures Unrepeated(Reported(w, g, skip))
    decreases |w.groups| - g
  {
    if g < |w.groups| {
      var slots := w.groups[g].slots;
      var next := if !w.groups[g].configured then skip else if skip then false else HasInactive(w, slots, 0);
      NoRepeat(w, g + 1, next);
      assert forall i :: 0 <= i < |slots| ==> w.Slot(g, i);
      NoRepeatIn(w, slots, 0);
      GroupExact(w, slots, 0);
      var here, later := UpToInactive(w, slots, 0), Reported(w, g + 1, next);
      var active := ActiveIn(w, slots, 0);
      assert forall m :: 0 <= m < |here| ==> here[m] == active[m];
      hide *;
      forall m, n | 0 <= m < |here| && 0 <= n < |later|
        ensures here[m] != later[n]
      {
        ReportedActive(w, g + 1, next, later[n]);
        Apart(w, g, here[m], later[n]);
      }
      Joined(here, later);
    }
  }

  lemma Joined(a: seq<Cookie>, b: seq<Cookie>)
    requires Unrepeated(a) && Unrepeated(b) && forall m, n :: 0 <= m < |a| && 0 <= n < |b| ==> a[m] != b[n]
    ensures Unrepeated(a + b)
  {
  }

  lemma Apart(w: World, g: nat, c: Cookie, d: Cookie)
    requires w.Valid() && g < |w.groups| && c in ActiveIn(w, w.groups[g].slots, 0) && d in AllActive(w, g + 1)
    ensures c != d
  {
    var slots := w.groups[g].slots;
    InActive(w, slots, 0, c);
    assert slots[0..] == slots;
    var i :| 0 <= i < |slots| && slots[i] == c;
    assert w.Slot(g, i);
    FromGroup(w, g + 1, d);
  }

  // ----- the code

  /** The caller's `struct device_info`. */
  class DeviceInfo {
    var cookie: Cookie
    var kind: int
    var count: int                  // di_stor.block_count
    var size: int                   // di_stor.block_size

    constructor (cookie: Cookie)
      ensures this.cookie == cookie && kind == count == size == 0
    {
      this.cookie, kind, count, size := cookie, 0, 0, 0;
    }
  }

  /** The `specs` table of a fixed set of devices. */
  class Api {
    const w: World
    var started: seq<bool>
    var ended: seq<bool>

    constructor (w: World)
      requires w.Valid()
      ensures Valid() && this.w == w
    {
      this.w := w;
      started, ended := Cleared(), Cleared();
    }

    ghost predicate Valid()
      reads this
    {
      w.Valid() && |started| == ENUM_MAX && |ended| == ENUM_MAX
    }

    ghost function Now(di: DeviceInfo): (s: State)
      requires Valid()
      reads this, di
      ensures s.Valid()
    {
      State(started, ended, di.cookie, di.kind, di.count, di.size)
    }

    /** The first loop of `dev_stor_get`: behind the device last returned. */
    method FindLast(slots: seq<Cookie>, cookie: Cookie) returns (i: nat)
      ensures i == After(slots, cookie, 0)
    {
      i := 0;
      while i < |slots|
        invariant i <= |slots| && After(slots, cookie, 0) == After(slots, cookie, i)
      {
        if cookie == slots[i] {
          return i + 1;
        }
        i := i + 1;
      }
    }

    /** Its second loop: up to the next occupied slot, leaving in the cookie what the slot has. */
    method FindNext(slots: seq<Cookie>, from: nat, di: DeviceInfo) returns (found: bool, i: nat)
      requires from <= |slots|
      modifies di`cookie
      ensures i == FirstPresent(slots, from) && (found <==> i < |slots|) && (found ==> di.cookie == slots[i])
    {
      found, i := false, from;
      while i < |slots|
        invariant from <= i <= |slots| && FirstPresent(slots, from) == FirstPresent(slots, i) && !found
      {
        di.cookie := slots[i];
        if di.cookie != Null {
          return true, i;
        }
        i := i + 1;
      }
    }

    /** `dev_stor_get`. */
    method DevStorGet(g: nat, di: DeviceInfo) returns (found: bool, more: bool)
      requires Valid() && g < ENUM_MAX
      modifies di
      ensures Valid() && (Now(di), found, more) == Got(w, g, old(Now(di)))
    {
      hide After;
      hide FirstPresent;
      hide World.Valid;
      found, more := false, false;
      GroupCount(w);
      if !w.groups[g].configured {
        return;
      }
      var slots := w.groups[g].slots;
      var i: nat := 0;
      if di.cookie != Null {
        i := FindLast(slots, di.cookie);
      }
      found, i := FindNext(slots, i, di);
      more := i != |slots|;
      if found {
        di.kind := TypeOf(g);
        if !w.active(di.cookie.addr) {
          found := false;
        } else {
          di.count, di.size := w.lba(di.cookie.addr), w.blksz(di.cookie.addr);
        }
      } else {
        di.cookie := Null;
      }
    }

    /** `dev_stor_type`: the first group that has the device, or ENUM_MAX. */
    method DevStorType(dd: Cookie) returns (g: nat)
      requires Valid()
      ensures g <= ENUM_MAX && (g < ENUM_MAX ==> dd in w.groups[g].slots)
      ensures forall h :: 0 <= h < g ==> dd !in w.groups[h].slots
    {
      g := 0;
      while g < ENUM_MAX
        invariant g <= ENUM_MAX && forall h :: 0 <= h < g ==> dd !in w.groups[h].slots
      {
        var slots, j := w.groups[g].slots, 0;
        while j < |slots|
          invariant j <= |slots| && forall i :: 0 <= i < j ==> slots[i] != dd
        {
          if dd == slots[j] {
            return;
          }
          j := j + 1;
        }
        g := g + 1;
      }
    }

    /** `dev_enum_stor`. */
    method DevEnumStor(g: nat, di: DeviceInfo) returns (found: bool)
      requires Valid() && g < ENUM_MAX
      modifies this, di
      ensures Valid() && (Now(di), found) == Visit(w, g, old(Now(di)))
    {
      hide Got;
      var more := false;
      found := false;
      var own := DevStorType(di.cookie);
      if di.cookie == Null {
        found, more := DevStorGet(g, di);
        started := started[g := true];
      } else if own == g {
        if ended[g] {
          return;
        }
        found, more := DevStorGet(g, di);
      } else {
        if ended[g] {
          return;
        }
        if !started[g] {
          found, more := DevStorGet(g, di);
          started := started[g := true];
        }
      }
      ended := ended[g := !more];
    }

    /** `dev_enum_reset`. */
    method DevEnumReset()
      requires Valid()
      modifies this
      ensures Valid() && started == Cleared() && ended == Cleared()
    {
      var i := 0;
      while i < ENUM_MAX
        invariant i <= ENUM_MAX && Valid() && forall g :: 0 <= g < i ==> !started[g] && !ended[g]
      {
        started, ended := started[i := false], ended[i := false];
        i := i + 1;
      }
    }

    /** `dev_enum_storage`. */
    method DevEnumStorage(di: DeviceInfo) returns (found: bool)
      requires Valid()
      modifies this, di
      ensures Valid() && (Now(di), found) == VisitFrom(w, 0, old(Now(di)))
    {
      hide Visit;
      var i := 0;
      while i < ENUM_MAX
        invariant i <= ENUM_MAX && Valid() && VisitFrom(w, 0, old(Now(di))) == VisitFrom(w, i, Now(di))
      {
        found := DevEnumStor(i, di);
        if found {
          return true;
        }
        i := i + 1;
      }
      return false;
    }

    /** `API_dev_enum`, with `dev_enum_net` as its network part. */
    method DevEnum(di: DeviceInfo)
      requires Valid()
      modifies this, di
      ensures Valid() && Now(di) == Enum(w, old(Now(di)))
    {
      hide VisitFrom;
      if di.cookie == Null {
        DevEnumReset();
        if w.net != Null {
          di.cookie, di.kind := w.net, DEV_TYP_NET;
          return;
        }
      }
      var found := DevEnumStorage(di);
      if !found {
        di.cookie := Null;
      }
    }

    /**
      * `ub_dev_enum`: enumerate from a NULL cookie, passing the previous cookie on, until NULL comes back or
      * the table is full. The table is the head of the list the devices determine.
      */
    method UbDevEnum(limit: nat) returns (devices: seq<Cookie>)
      requires Valid() && limit > 0
      modifies this
      ensures Valid()
      ensures devices == if |Everything(w)| < limit then Everything(w) else Everything(w)[..limit]
    {
      hide Everything;
      hide Enum;
      hide Promises;
      devices := [];
      var di := new DeviceInfo(Null);
      ghost var rest := Everything(w);
      EnumStarts(w, Now(di));
      DevEnum(di);
      PromisedCookie(w, Now(di), rest);
      while di.cookie != Null
        invariant Valid() && fresh(di) && Everything(w) == devices + rest && |devices| < limit
        invariant Promises(w, Now(di), rest) && (di.cookie == Null <==> rest == [])
                  && (rest != [] ==> di.cookie == rest[0])
        decreases |rest|
      {
        devices := devices + [di.cookie];
        ghost var s := Now(di);
        if |devices| >= limit {
          break;
        }
        di := new DeviceInfo(di.cookie);
        EnumContinues(w, s, Now(di), rest);
        DevEnum(di);
        rest := rest[1..];
        PromisedCookie(w, Now(di), rest);
      }
    }
  }

  lemma GroupCount(w: World)
    requires w.Valid()
    ensures |w.groups| == ENUM_MAX
  {
  }

  lemma PromisedCookie(w: World, s: State, rest: seq<Cookie>)
    requires Promises(w, s, rest)
    ensures (s.cookie == Null <==> rest == []) && (rest != [] ==> s.cookie == rest[0])
  {
  }
}
