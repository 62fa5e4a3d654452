/**
  * The RAM tests of cmd/mem.c as decision procedures.  Memory is an arbitrary map from offsets to cells,
  * so that two offsets may share a cell, and every bit of a cell may be stuck.
  */
module MemTest {
  import opened Arithmetic

  const BITS := 32

  /** What one bit of a cell does with the value written to it. */
  datatype Fault = Sound | Stuck0 | Stuck1

  function Bit(x: int, f: Fault): int {
    match f
    case Sound => x % 2
    case Stuck0 => 0
    case Stuck1 => 1
  }

  /** The value read back from a cell whose bits, lowest first, behave as `fs`. */
  function Readback(x: nat, fs: seq<Fault>): nat {
    if fs == [] then 0 else Bit(x, fs[0]) + 2 * Readback(x / 2, fs[1..])
  }

  ghost predicate AllSound(fs: seq<Fault>) {
    forall i :: 0 <= i < |fs| ==> fs[i] == Sound
  }

  lemma WordIsPow2()
    ensures Pow2(BITS) == WORD
  {
    assert Pow2(4) == 16;
    Pow2Add(4, 4);
    Pow2Add(8, 8);
    Pow2Add(16, 16);
  }

  // ----- stuck bits

  lemma {:induction false} SoundReads(x: nat, fs: seq<Fault>)
    requires AllSound(fs) && x < Pow2(|fs|)
    ensures Readback(x, fs) == x
  {
    if fs != [] {
      SoundReads(x / 2, fs[1..]);
    }
  }

  /** A value that came out of a cell goes in and out again unchanged. */
  lemma {:induction false} ReadbackTwice(x: nat, fs: seq<Fault>)
    ensures Readback(Readback(x, fs), fs) == Readback(x, fs)
  {
    if fs != [] {
      ReadbackTwice(x / 2, fs[1..]);
      var low, high := Bit(x, fs[0]), Readback(x / 2, fs[1..]);
      assert (low + 2 * high) / 2 == high && (low + 2 * high) % 2 == low;
    }
  }

  /** A pattern and its complement together exercise every bit both ways. */
  lemma {:induction false} ComplementFindsStuck(x: nat, fs: seq<Fault>)
    requires x < Pow2(|fs|) && Readback(x, fs) == x && Readback(Pow2(|fs|) - 1 - x, fs) == Pow2(|fs|) - 1 - x
    ensures AllSound(fs)
  {
    if fs != [] {
      var half := Pow2(|fs| - 1);
      var y := 2 * half - 1 - x;
      Halves(x, half);
      LowBit(x, fs);
      LowBit(y, fs);
      BothWays(x, y, fs[0]);
      hide Readback;
      hide Pow2;
      ComplementFindsStuck(x / 2, fs[1..]);
      forall i | 0 <= i < |fs|
        ensures fs[i] == Sound
      {
        assert i > 0 ==> fs[i] == fs[1..][i - 1];
      }
    }
  }

  lemma Halves(x: nat, half: nat)
    requires x < 2 * half
    ensures var y := 2 * half - 1 - x; y / 2 == half - 1 - x / 2 && y % 2 == 1 - x % 2 && x / 2 < half
  {
  }

  /** A value read back unchanged has its lowest bit and the rest read back unchanged. */
  lemma LowBit(x: nat, fs: seq<Fault>)
    requires fs != [] && Readback(x, fs) == x
    ensures Bit(x, fs[0]) == x % 2 && Readback(x / 2, fs[1..]) == x / 2
  {
    var rest := Readback(x / 2, fs[1..]);
    assert x == Bit(x, fs[0]) + 2 * rest;
    hide Readback;
    assert 0 <= Bit(x, fs[0]) <= 1;
  }

  lemma BothWays(x: int, y: int, f: Fault)
    requires Bit(x, f) == x % 2 && Bit(y, f) == y % 2 && y % 2 == 1 - x % 2
    ensures f == Sound
  {
  }

  /** The wiring of a memory: the cell behind each offset, and the faults of each cell. */
  datatype Ram = Ram(decode: seq<nat>, faults: seq<seq<Fault>>) {
    ghost predicate Valid() {
      && (forall k :: 0 <= k < |decode| ==> decode[k] < |faults|)
      && forall c :: 0 <= c < |faults| ==> |faults[c]| == BITS
    }

    /** What reading offset `k` gives when `v` was the last value written to its cell. */
    function Read(k: nat, v: nat): nat
      requires k < |decode| && decode[k] < |faults|
    {
      Readback(v, faults[decode[k]])
    }

    /** No two offsets share a cell. */
    ghost predicate OneToOne(n: nat)
      requires n <= |decode|
    {
      forall i, j :: 0 <= i < j < n ==> decode[i] != decode[j]
    }

    ghost predicate SoundCells(n: nat)
      requires Valid() && n <= |decode|
    {
      forall k :: 0 <= k < n ==> AllSound(faults[decode[k]])
    }

    /** The last offset below `n` that is wired to cell `c`, or -1. */
    function LastAt(c: nat, n: nat): (k: int)
      requires n <= |decode|
      ensures -1 <= k < n
      ensures k >= 0 ==> decode[k] == c
      ensures forall i :: k < i < n ==> decode[i] != c
    {
      if n == 0 then -1 else if decode[n - 1] == c then n - 1 else LastAt(c, n - 1)
    }
  }

  function Not(v: int): int {
    WORD - 1 - v
  }

  // ----- passes over all offsets

  /** What the cell of offset `k` holds when a pass that writes `Val(i, ...)` upwards reaches `k`. */
  function Held(m: Ram, n: nat, k: nat, before: int -> nat, now: int -> nat): nat
    requires k < n <= |m.decode|
  {
    var c := m.decode[k];
    if m.LastAt(c, k) >= 0 then now(m.LastAt(c, k)) else before(m.LastAt(c, n))
  }

  /** The check pass of the alternate test finds every offset's pattern. */
  ghost predicate PatternsFound(m: Ram, n: nat)
    requires m.Valid() && n <= |m.decode| && n < WORD
  {
    forall k :: 0 <= k < n ==> m.Read(k, Held(m, n, k, Plain, Inverted)) == k + 1
  }

  /** The last pass finds every offset's inverted pattern. */
  ghost predicate InversesFound(m: Ram, n: nat)
    requires m.Valid() && n <= |m.decode| && n < WORD
  {
    forall k :: 0 <= k < n ==> m.Read(k, Held(m, n, k, Inverted, Zero)) == Not(k + 1)
  }

  function Plain(k: int): nat {
    if 0 <= k < WORD - 1 then k + 1 else 0
  }

  function Inverted(k: int): nat {
    if 0 <= k < WORD - 1 then Not(k + 1) else 0
  }

  function Zero(k: int): nat {
    0
  }

  /** The first offset on a cell. */
  lemma FirstAt(m: Ram, c: nat, n: nat, i: nat) returns (k: nat)
    requires i < n <= |m.decode| && m.decode[i] == c
    ensures k <= i && m.decode[k] == c && m.LastAt(c, k) < 0
    decreases i
  {
    if m.LastAt(c, i) < 0 {
      k := i;
    } else {
      k := FirstAt(m, c, n, m.LastAt(c, i));
    }
  }

  /**
    * Aliasing cannot hide, whatever bits are stuck: if two offsets share a cell, the first of them is
    * asked for its own pattern while the cell holds the last one's.
    */
  lemma PatternsFindAliasing(m: Ram, n: nat)
    requires m.Valid() && n <= |m.decode| && n < WORD && PatternsFound(m, n)
    ensures m.OneToOne(n)
  {
    forall i, j | 0 <= i < j < n
      ensures m.decode[i] != m.decode[j]
    {
      if m.decode[i] == m.decode[j] {
        var c := m.decode[i];
        var last := m.LastAt(c, n);
        var first := FirstAt(m, c, n, i);
        assert m.Read(first, Held(m, n, first, Plain, Inverted)) == first + 1;
        assert Held(m, n, first, Plain, Inverted) == Plain(last) == last + 1;
        assert m.Read(last, Held(m, n, last, Plain, Inverted)) == last + 1;
        ReadbackTwice(Held(m, n, last, Plain, Inverted), m.faults[c]);
        assert false;
      }
    }
  }

  /** The two checking passes decide exactly: one-to-one wiring and no stuck bit. */
  lemma PassesDecide(m: Ram, n: nat)
    requires m.Valid() && n <= |m.decode| && n < WORD
    ensures PatternsFound(m, n) && InversesFound(m, n) <==> m.OneToOne(n) && m.SoundCells(n)
  {
    WordIsPow2();
    hide Readback;
    hide Pow2;
    if m.OneToOne(n) && m.SoundCells(n) {
      forall k | 0 <= k < n
        ensures m.Read(k, Held(m, n, k, Plain, Inverted)) == k + 1
        ensures m.Read(k, Held(m, n, k, Inverted, Zero)) == Not(k + 1)
      {
        OwnCell(m, n, k);
        SoundReads(k + 1, m.faults[m.decode[k]]);
        SoundReads(Not(k + 1), m.faults[m.decode[k]]);
      }
    }
    if PatternsFound(m, n) && InversesFound(m, n) {
      PatternsFindAliasing(m, n);
      forall k | 0 <= k < n
        ensures AllSound(m.faults[m.decode[k]])
      {
        OwnCell(m, n, k);
        assert m.Read(k, Held(m, n, k, Plain, Inverted)) == k + 1;
        assert m.Read(k, Held(m, n, k, Inverted, Zero)) == Not(k + 1);
        ComplementFindsStuck(k + 1, m.faults[m.decode[k]]);
      }
    }
  }

  lemma OwnCell(m: Ram, n: nat, k: nat)
    requires k < n <= |m.decode| && m.OneToOne(n)
    ensures m.LastAt(m.decode[k], n) == k && m.LastAt(m.decode[k], k) < 0
  {
  }

  // ----- the loops of mem_test_alt

  /** Every cell that some offset below `n` is wired to holds `val` of the last such offset. */
  ghost predicate Filled(m: Ram, cells: seq<nat>, n: nat, val: int -> nat)
    requires m.Valid() && n <= |m.decode| && |cells| == |m.faults|
  {
    forall c :: 0 <= c < |cells| && m.LastAt(c, n) >= 0 ==> cells[c] == val(m.LastAt(c, n))
  }

  /** In the middle of a pass: cells seen before offset `k` hold `now`, the others still `before`. */
  ghost predicate HalfWay(m: Ram, cells: seq<nat>, n: nat, k: nat, before: int -> nat, now: int -> nat)
    requires m.Valid() && k <= n <= |m.decode| && |cells| == |m.faults|
  {
    forall c :: 0 <= c < |cells| && m.LastAt(c, n) >= 0 ==>
      cells[c] == if m.LastAt(c, k) >= 0 then now(m.LastAt(c, k)) else before(m.LastAt(c, n))
  }

  /** One write of a pass. */
  lemma HalfWayStep(m: Ram, cells: seq<nat>, n: nat, k: nat, before: int -> nat, now: int -> nat)
    requires m.Valid() && k < n <= |m.decode| && |cells| == |m.faults| && HalfWay(m, cells, n, k, before, now)
    ensures cells[m.decode[k]] == Held(m, n, k, before, now)
    ensures HalfWay(m, cells[m.decode[k] := now(k)], n, k + 1, before, now)
  {
  }

  lemma HalfWayEnds(m: Ram, cells: seq<nat>, n: nat, before: int -> nat, now: int -> nat)
    requires m.Valid() && n <= |m.decode| && |cells| == |m.faults|
    ensures Filled(m, cells, n, before) ==> HalfWay(m, cells, n, 0, before, now)
    ensures HalfWay(m, cells, n, n, before, now) ==> Filled(m, cells, n, now)
  {
  }

  /** The first pass leaves in every cell the pattern of the last offset that reaches it. */
  method FillPass(m: Ram, cells: array<nat>, n: nat)
    requires m.Valid() && n <= |m.decode| && n < WORD && cells.Length == |m.faults|
    modifies cells
    ensures Filled(m, cells[..], n, Plain)
  {
    var pattern, offset := 1, 0;
    while offset < n
      invariant 0 <= offset <= n && pattern == offset + 1
      invariant Filled(m, cells[..], offset, Plain)
    {
      cells[m.decode[offset]] := pattern;
      pattern, offset := pattern + 1, offset + 1;
    }
  }

  /** The second pass counts the offsets that lost their pattern and leaves the complements behind. */
  method CheckPass(m: Ram, cells: array<nat>, n: nat) returns (errs: nat)
    requires m.Valid() && n <= |m.decode| && n < WORD && cells.Length == |m.faults| && Filled(m, cells[..], n, Plain)
    modifies cells
    ensures Filled(m, cells[..], n, Inverted)
    ensures errs <= n && (errs == 0 <==> PatternsFound(m, n))
  {
    hide Readback;
    hide Held;
    hide HalfWay;
    hide Filled;
    var pattern, offset := 1, 0;
    errs := 0;
    HalfWayEnds(m, cells[..], n, Plain, Inverted);
    while offset < n
      invariant 0 <= offset <= n && pattern == offset + 1 && errs <= offset
      invariant HalfWay(m, cells[..], n, offset, Plain, Inverted)
      invariant errs == 0 <==> forall k :: 0 <= k < offset ==> m.Read(k, Held(m, n, k, Plain, Inverted)) == k + 1
    {
      HalfWayStep(m, cells[..], n, offset, Plain, Inverted);
      var temp := m.Read(offset, cells[m.decode[offset]]);
      if temp != pattern {
        errs := errs + 1;
      }
      ghost var before := cells[..];
      cells[m.decode[offset]] := Not(pattern);
      assert cells[..] == before[m.decode[offset] := Inverted(offset)];
      pattern, offset := pattern + 1, offset + 1;
    }
    HalfWayEnds(m, cells[..], n, Plain, Inverted);
  }

  /** The third pass counts the offsets that lost their complement and leaves zeros. */
  method ZeroPass(m: Ram, cells: array<nat>, n: nat) returns (errs: nat)
    requires m.Valid() && n <= |m.decode| && n < WORD && cells.Length == |m.faults| && Filled(m, cells[..], n, Inverted)
    modifies cells
    ensures Filled(m, cells[..], n, Zero)
    ensures errs <= n && (errs == 0 <==> InversesFound(m, n))
  {
    hide Readback;
    hide Held;
    hide HalfWay;
    hide Filled;
    var pattern, offset := 1, 0;
    errs := 0;
    HalfWayEnds(m, cells[..], n, Inverted, Zero);
    while offset < n
      invariant 0 <= offset <= n && pattern == offset + 1 && errs <= offset
      invariant HalfWay(m, cells[..], n, offset, Inverted, Zero)
      invariant errs == 0 <==> forall k :: 0 <= k < offset ==> m.Read(k, Held(m, n, k, Inverted, Zero)) == Not(k + 1)
    {
      HalfWayStep(m, cells[..], n, offset, Inverted, Zero);
      var antiPattern := Not(pattern);
      var temp := m.Read(offset, cells[m.decode[offset]]);
      if temp != antiPattern {
        errs := errs + 1;
      }
      ghost var before := cells[..];
      cells[m.decode[offset]] := 0;
      assert cells[..] == before[m.decode[offset] := Zero(offset)];
      pattern, offset := pattern + 1, offset + 1;
    }
    HalfWayEnds(m, cells[..], n, Inverted, Zero);
  }

  // ----- data line test

  /** The cell behind offset 0 gives back `v` after `v` was written to it and `Not(v)` to the scratch cell. */
  predicate LineOk(m: Ram, scratch: nat, v: nat)
    requires m.decode != [] && m.decode[0] < |m.faults| && v < WORD
  {
    m.Read(0, if scratch == m.decode[0] then Not(v) else v) == v
  }

  const BIT_PATTERNS: seq<nat> := [0x1, 0x3, 0x7, 0xF, 0x5, 0x15, 0x55, 0xaaaaaaaa]

  lemma Products(a: int, p: int, q: int, w: int)
    requires p == 2 * a > 0
    ensures 2 * (a * q) == p * q && p * q - p * w == p * (q - w)
    ensures p * q >= p * w ==> q >= w
  {
    if q < w {
      assert p * (w - q) > 0;
    }
  }

  /** Shifting left within 32 bits: the value stays a multiple of an ever larger power of two. */
  lemma ShiftStep(v: nat, t: nat, q: nat) returns (q': nat)
    requires t < BITS && v < WORD && v == Pow2(t) * q
    ensures (2 * v) % WORD == Pow2(t + 1) * q'
  {
    WordIsPow2();
    Pow2Add(t + 1, BITS - t - 1);
    var p, w := Pow2(t + 1), Pow2(BITS - t - 1);
    assert p == 2 * Pow2(t);
    hide Pow2;
    Products(Pow2(t), p, q, w);
    assert 2 * v == p * q && WORD == p * w;
    if 2 * v < WORD {
      q' := q;
      WordMod(2 * v, 0, 2 * v);
    } else {
      q' := q - w;
      WordMod(2 * v, 1, 2 * v - WORD);
    }
  }

  /** Shift a pattern through the word and check it and its complement at every position. */
  method ShiftPattern(m: Ram, cells: array<nat>, scratch: nat, pattern: nat) returns (errs: nat)
    requires m.Valid() && m.decode != [] && cells.Length == |m.faults| && scratch < cells.Length && 0 < pattern < WORD
    modifies cells
    ensures errs <= 2 * BITS
    ensures errs == 0 ==> LineOk(m, scratch, pattern) && LineOk(m, scratch, Not(pattern))
    ensures AllSound(m.faults[m.decode[0]]) && scratch != m.decode[0] ==> errs == 0
  {
    hide Readback;
    var val := pattern;
    ghost var t: nat, q: nat := 0, pattern;
    errs := 0;
    while val != 0
      invariant t <= BITS && 0 <= val < WORD && val == Pow2(t) * q
      invariant errs <= 2 * t && (t == 0 ==> val == pattern)
      invariant t > 0 && errs == 0 ==> LineOk(m, scratch, pattern) && LineOk(m, scratch, Not(pattern))
      invariant AllSound(m.faults[m.decode[0]]) && scratch != m.decode[0] ==> errs == 0
      decreases BITS - t
    {
      SoundLine(m, scratch, val);
      SoundLine(m, scratch, Not(val));
      cells[m.decode[0]] := val;
      cells[scratch] := Not(val);
      var readback := m.Read(0, cells[m.decode[0]]);
      if readback != val {
        errs := errs + 1;
      }
      cells[m.decode[0]] := Not(val);
      cells[scratch] := val;
      readback := m.Read(0, cells[m.decode[0]]);
      if readback != Not(val) {
        errs := errs + 1;
      }
      NotShiftedOut(val, t, q);
      q := ShiftStep(val, t, q);
      val := (2 * val) % WORD;
      t := t + 1;
    }
  }

  lemma NotShiftedOut(v: nat, t: nat, q: nat)
    requires t <= BITS && 0 < v < WORD && v == Pow2(t) * q
    ensures t < BITS
  {
    WordIsPow2();
  }

  lemma SoundLine(m: Ram, scratch: nat, v: nat)
    requires m.Valid() && m.decode != [] && v < WORD
    ensures AllSound(m.faults[m.decode[0]]) && scratch != m.decode[0] ==> LineOk(m, scratch, v)
  {
    WordIsPow2();
    if AllSound(m.faults[m.decode[0]]) {
      SoundReads(v, m.faults[m.decode[0]]);
    }
  }

  /** Eight patterns go through the word at offset 0. */
  method DataLines(m: Ram, cells: array<nat>, scratch: nat) returns (errs: nat)
    requires m.Valid() && m.decode != [] && cells.Length == |m.faults| && scratch < cells.Length
    modifies cells
    ensures errs <= 512
    ensures errs == 0 ==> LineOk(m, scratch, 1) && LineOk(m, scratch, Not(1))
    ensures AllSound(m.faults[m.decode[0]]) && scratch != m.decode[0] ==> errs == 0
  {
    hide LineOk;
    errs := 0;
    for j := 0 to |BIT_PATTERNS|
      invariant errs <= 64 * j
      invariant j > 0 && errs == 0 ==> LineOk(m, scratch, 1) && LineOk(m, scratch, Not(1))
      invariant AllSound(m.faults[m.decode[0]]) && scratch != m.decode[0] ==> errs == 0
    {
      assert 0 < BIT_PATTERNS[j] < WORD && (j == 0 ==> BIT_PATTERNS[j] == 1);
      var e := ShiftPattern(m, cells, scratch, BIT_PATTERNS[j]);
      errs := errs + e;
    }
  }

  // ----- address line test

  predicate IsPow2(o: int) {
    o == 1 || (o > 1 && o % 2 == 0 && IsPow2(o / 2))
  }

  /** Between a power of two and its double there is no other. */
  lemma {:induction false} NextPow2(o: int, p: int)
    requires IsPow2(o) && IsPow2(p) && p <= o < 2 * p
    ensures o == p
  {
    if p > 1 {
      NextPow2(o / 2, p / 2);
    }
  }

  /** Nothing is wrong with the memory in reach of the address line test. */
  ghost predicate Healthy(m: Ram, n: nat)
    requires m.Valid() && n <= |m.decode|
  {
    m.OneToOne(n) && m.SoundCells(n)
  }

  /** All power-of-two offsets below `k` but `skip` hold `v`. */
  ghost predicate PowersHold(m: Ram, cells: seq<nat>, k: int, skip: int, v: nat)
    requires m.Valid() && |cells| == |m.faults|
  {
    forall o :: 0 < o < k && o < |m.decode| && IsPow2(o) && o != skip ==> cells[m.decode[o]] == v
  }

  /** All offsets that are powers of two get the same value. */
  method WritePowers(m: Ram, cells: array<nat>, numWords: nat, pattern: nat)
    requires m.Valid() && numWords <= |m.decode| && cells.Length == |m.faults|
    modifies cells
    ensures Healthy(m, numWords) ==> PowersHold(m, cells[..], numWords, 0, pattern)
  {
    var offset := 1;
    while offset < numWords
      invariant IsPow2(offset)
      invariant Healthy(m, numWords) ==>
        forall o :: 0 < o < offset && o < numWords && IsPow2(o) ==> cells[m.decode[o]] == pattern
    {
      forall o | 0 < o < 2 * offset && o < numWords && IsPow2(o) && o >= offset
        ensures o == offset
      {
        NextPow2(o, offset);
      }
      cells[m.decode[offset]] := pattern;
      assert (2 * offset) / 2 == offset;
      offset := 2 * offset;
    }
  }

  /** Read the power-of-two offsets but `skip` back and count those that differ from the pattern. */
  method CountPowers(m: Ram, cells: array<nat>, numWords: nat, skip: nat, pattern: nat) returns (errs: nat)
    requires m.Valid() && numWords <= |m.decode| && numWords <= Pow2(30) && cells.Length == |m.faults| && pattern < WORD
    ensures errs <= 31
    ensures m.SoundCells(numWords) && PowersHold(m, cells[..], numWords, skip, pattern) ==> errs == 0
  {
    hide Readback;
    var offset := 1;
    ghost var t: nat := 0;
    errs := 0;
    while offset < numWords
      invariant IsPow2(offset) && offset == Pow2(t) && t <= 30 && errs <= t
      invariant m.SoundCells(numWords) && PowersHold(m, cells[..], numWords, skip, pattern) ==> errs == 0
      decreases numWords - offset
    {
      var temp := m.Read(offset, cells[m.decode[offset]]);
      if temp != pattern && offset != skip {
        if m.SoundCells(numWords) && PowersHold(m, cells[..], numWords, skip, pattern) {
          assert cells[..][m.decode[offset]] == pattern;
          WordIsPow2();
          SoundReads(pattern, m.faults[m.decode[offset]]);
        }
        errs := errs + 1;
      }
      assert t < 30;
      assert (2 * offset) / 2 == offset;
      offset, t := 2 * offset, t + 1;
    }
  }

  /** Writing one power-of-two offset leaves the others alone if the wiring is one-to-one. */
  lemma PokePower(m: Ram, cells: seq<nat>, n: nat, skip: int, o: nat, v: nat, w: nat)
    requires m.Valid() && n <= |m.decode| && |cells| == |m.faults| && o < n && m.OneToOne(n)
    requires PowersHold(m, cells, n, skip, v) && (skip == 0 || skip == o)
    ensures PowersHold(m, cells[m.decode[o] := w], n, if v == w then 0 else o, v)
  {
  }

  /** One position of the walking one: disturb it, check all others, and put the pattern back. */
  method DisturbOne(m: Ram, cells: array<nat>, numWords: nat, testOffset: nat, pattern: nat, antiPattern: nat)
    returns (errs: nat)
    requires m.Valid() && numWords <= |m.decode| && numWords <= Pow2(30) && cells.Length == |m.faults|
    requires testOffset < numWords && pattern < WORD && pattern != antiPattern
    modifies cells
    ensures errs <= 31
    ensures Healthy(m, numWords) && old(PowersHold(m, cells[..], numWords, 0, pattern)) ==>
      errs == 0 && PowersHold(m, cells[..], numWords, 0, pattern)
  {
    hide PowersHold;
    ghost var healthy := Healthy(m, numWords) && PowersHold(m, cells[..], numWords, 0, pattern);
    if healthy {
      PokePower(m, cells[..], numWords, 0, testOffset, pattern, antiPattern);
    }
    ghost var before := cells[..];
    cells[m.decode[testOffset]] := antiPattern;
    assert cells[..] == before[m.decode[testOffset] := antiPattern];
    errs := CountPowers(m, cells, numWords, testOffset, pattern);
    if healthy {
      PokePower(m, cells[..], numWords, testOffset, testOffset, pattern, pattern);
    }
    before := cells[..];
    cells[m.decode[testOffset]] := pattern;
    assert cells[..] == before[m.decode[testOffset] := pattern];
  }

  /** Address line test: walking ones over the offsets. */
  method AddressLines(m: Ram, cells: array<nat>, numWords: nat) returns (errs: nat)
    requires m.Valid() && 0 < |m.decode| && numWords <= |m.decode| && numWords <= Pow2(30) && cells.Length == |m.faults|
    modifies cells
    ensures errs <= 31 + 31 * 31
    ensures Healthy(m, numWords) ==> errs == 0
  {
    var pattern, antiPattern := 0xaaaaaaaa, 0x55555555;
    WritePowers(m, cells, numWords, pattern);
    cells[m.decode[0]] := antiPattern;
    assert Healthy(m, numWords) ==> PowersHold(m, cells[..], numWords, 0, pattern);
    errs := CountPowers(m, cells, numWords, 0, pattern);
    cells[m.decode[0]] := pattern;
    assert Healthy(m, numWords) ==> PowersHold(m, cells[..], numWords, 0, pattern);
    hide PowersHold;
    hide Healthy;
    var testOffset := 1;
    ghost var t: nat := 0;
    while testOffset < numWords
      invariant testOffset == Pow2(t) && t <= 30 && errs <= 31 + 31 * t
      invariant Healthy(m, numWords) ==> errs == 0 && PowersHold(m, cells[..], numWords, 0, pattern)
      decreases numWords - testOffset
    {
      var e := DisturbOne(m, cells, numWords, testOffset, pattern, antiPattern);
      errs := errs + e;
      assert t < 30;
      testOffset, t := 2 * testOffset, t + 1;
    }
  }

  // ----- the tests

  /**
    * `mem_test_alt` without interruption: the error count is zero exactly if no two of the offsets
    * 0..numWords share a cell, no bit of any of these cells is stuck, and the scratch cell is not the
    * cell of offset 0. The count never reaches the value that stands for an interrupted test.
    */
  method MemTestAlt(m: Ram, cells: array<nat>, startAddr: nat, endAddr: nat, scratch: nat) returns (errs: nat)
    requires m.Valid() && cells.Length == |m.faults| && scratch < cells.Length
    requires startAddr <= endAddr < WORD && |m.decode| == (endAddr - startAddr) / 4 + 1
    modifies cells
    ensures errs == 0 <==> m.OneToOne(|m.decode|) && m.SoundCells(|m.decode|) && scratch != m.decode[0]
    ensures errs < WORD - 1
  {
    var numWords := (endAddr - startAddr) / 4;
    WordsBound();
    errs := DataLines(m, cells, scratch);
    ghost var dataErrs := errs;
    var e := AddressLines(m, cells, numWords);
    errs := errs + e;
    numWords := numWords + 1;
    FillPass(m, cells, numWords);
    e := CheckPass(m, cells, numWords);
    errs := errs + e;
    e := ZeroPass(m, cells, numWords);
    errs := errs + e;
    PassesDecide(m, numWords);
    if dataErrs == 0 && AllSound(m.faults[m.decode[0]]) {
      ScratchApart(m, scratch);
    }
  }

  lemma WordsBound()
    ensures Pow2(30) == 0x4000_0000
  {
    WordIsPow2();
    Pow2Add(30, 2);
  }

  lemma ScratchApart(m: Ram, scratch: nat)
    requires m.Valid() && m.decode != [] && AllSound(m.faults[m.decode[0]]) && LineOk(m, scratch, 1)
    ensures scratch != m.decode[0]
  {
    WordIsPow2();
    SoundReads(Not(1), m.faults[m.decode[0]]);
  }

  // ----- quick test

  /** The value the quick test keeps at offset `k`. */
  function QuickValue(pattern: nat, down: bool, k: int): nat {
    if down then (pattern - k) % WORD else (pattern + k) % WORD
  }

  lemma QuickValuesDiffer(pattern: nat, down: bool, i: int, j: int)
    requires 0 <= i < j < WORD
    ensures QuickValue(pattern, down, i) != QuickValue(pattern, down, j)
  {
    var x: int, y: int := if down then pattern - j else pattern + i, if down then pattern - i else pattern + j;
    ModDistinct(x, y - x);
  }

  lemma ModDistinct(x: int, d: int)
    requires 0 < d < WORD
    ensures x % WORD != (x + d) % WORD
  {
  }

  lemma ModStep(x: int)
    ensures (x % WORD + 1) % WORD == (x + 1) % WORD
    ensures (x % WORD + WORD - 1) % WORD == (x - 1) % WORD
  {
    var q, r := x / WORD, x % WORD;
    assert x == q * WORD + r;
    if r == WORD - 1 {
      WordMod(x + 1, q + 1, 0);
    } else {
      WordMod(x + 1, q, r + 1);
    }
    if r == 0 {
      WordMod(x - 1, q - 1, WORD - 1);
      WordMod(r + WORD - 1, 0, WORD - 1);
    } else {
      WordMod(x - 1, q, r - 1);
      WordMod(r + WORD - 1, 1, r - 1);
    }
  }

  lemma QuickNext(pattern: nat, down: bool, k: int)
    ensures pattern < WORD ==> QuickValue(pattern, down, 0) == pattern
    ensures (QuickValue(pattern, down, k) + (if down then WORD - 1 else 1)) % WORD == QuickValue(pattern, down, k + 1)
  {
    ModStep(if down then pattern - k else pattern + k);
  }

  /** Every offset reads back its own value. */
  ghost predicate QuickFound(m: Ram, n: nat, pattern: nat, down: bool)
    requires m.Valid() && n <= |m.decode|
  {
    forall k :: 0 <= k < n ==> QuickOk(m, n, pattern, down, k)
  }

  ghost predicate QuickOk(m: Ram, n: nat, pattern: nat, down: bool, k: nat)
    requires m.Valid() && k < n <= |m.decode|
  {
    m.Read(k, QuickValue(pattern, down, m.LastAt(m.decode[k], n))) == QuickValue(pattern, down, k)
  }

  lemma QuickOkHere(m: Ram, cells: seq<nat>, n: nat, pattern: nat, down: bool, k: nat)
    requires m.Valid() && k < n <= |m.decode| && |cells| == |m.faults|
             && Filled(m, cells, n, k => QuickValue(pattern, down, k))
    ensures QuickOk(m, n, pattern, down, k) <==> m.Read(k, cells[m.decode[k]]) == QuickValue(pattern, down, k)
  {
    hide Readback;
    hide QuickValue;
    assert cells[m.decode[k]] == QuickValue(pattern, down, m.LastAt(m.decode[k], n));
  }

  /** The quick test, too, decides aliasing whatever bits are stuck. */
  lemma QuickDecides(m: Ram, n: nat, pattern: nat, down: bool)
    requires m.Valid() && n <= |m.decode| && n < WORD
    ensures QuickFound(m, n, pattern, down) <==>
      m.OneToOne(n) && KeepsQuick(m, n, pattern, down)
    ensures m.SoundCells(n) ==> (QuickFound(m, n, pattern, down) <==> m.OneToOne(n))
  {
    hide Readback;
    WordIsPow2();
    if QuickFound(m, n, pattern, down) {
      forall i, j | 0 <= i < j < n
        ensures m.decode[i] != m.decode[j]
      {
        if m.decode[i] == m.decode[j] {
          assert QuickOk(m, n, pattern, down, i) && QuickOk(m, n, pattern, down, j);
          QuickValuesDiffer(pattern, down, i, j);
          assert false;
        }
      }
    }
    if m.OneToOne(n) {
      forall k | 0 <= k < n
        ensures QuickOk(m, n, pattern, down, k) <==>
                m.Read(k, QuickValue(pattern, down, k)) == QuickValue(pattern, down, k)
        ensures m.SoundCells(n) ==> m.Read(k, QuickValue(pattern, down, k)) == QuickValue(pattern, down, k)
      {
        OwnCell(m, n, k);
        if m.SoundCells(n) {
          SoundReads(QuickValue(pattern, down, k), m.faults[m.decode[k]]);
        }
      }
    }
  }

  method WriteQuick(m: Ram, cells: array<nat>, length: nat, pattern: nat, down: bool)
    requires m.Valid() && cells.Length == |m.faults| && length <= |m.decode| && pattern < WORD
    modifies cells
    ensures Filled(m, cells[..], length, k => QuickValue(pattern, down, k))
  {
    hide QuickValue;
    QuickNext(pattern, down, 0);
    var incr := if down then WORD - 1 else 1;
    var addr, val := 0, pattern;
    while addr < length
      invariant 0 <= addr <= length && val == QuickValue(pattern, down, addr)
      invariant Filled(m, cells[..], addr, k => QuickValue(pattern, down, k))
    {
      cells[m.decode[addr]] := val;
      QuickNext(pattern, down, addr);
      val := (val + incr) % WORD;
      addr := addr + 1;
    }
  }

  method ReadQuick(m: Ram, cells: array<nat>, length: nat, pattern: nat, down: bool) returns (errs: nat)
    requires m.Valid() && cells.Length == |m.faults| && length <= |m.decode| && pattern < WORD
    requires Filled(m, cells[..], length, k => QuickValue(pattern, down, k))
    ensures errs <= length && (errs == 0 <==> QuickFound(m, length, pattern, down))
  {
    hide Readback;
    hide QuickValue;
    hide QuickOk;
    hide Filled;
    QuickNext(pattern, down, 0);
    var incr := if down then WORD - 1 else 1;
    var addr, val := 0, pattern;
    errs := 0;
    while addr < length
      invariant 0 <= addr <= length && val == QuickValue(pattern, down, addr) && errs <= addr
      invariant errs == 0 <==> forall k :: 0 <= k < addr ==> QuickOk(m, length, pattern, down, k)
    {
      var readback := m.Read(addr, cells[m.decode[addr]]);
      QuickOkHere(m, cells[..], length, pattern, down, addr);
      if readback != val {
        errs := errs + 1;
      }
      QuickNext(pattern, down, addr);
      val := (val + incr) % WORD;
      addr := addr + 1;
    }
  }

  /** The start value of a pass: every second pass counts down from a changed pattern. */
  function QuickPattern(pattern: nat, iteration: nat): nat
    requires pattern < WORD
  {
    if iteration % 2 == 0 then pattern
    else if pattern >= 0x8000_0000 then WORD - pattern
    else Not(pattern)
  }

  /** Every cell gives back the value that the quick test has for its offset. */
  ghost predicate KeepsQuick(m: Ram, n: nat, pattern: nat, down: bool)
    requires m.Valid() && n <= |m.decode|
  {
    forall k :: 0 <= k < n ==> m.Read(k, QuickValue(pattern, down, k)) == QuickValue(pattern, down, k)
  }

  /**
    * `mem_test_quick` without interruption: no error exactly if the wiring is one-to-one and every cell
    * gives back the value the pass wrote to it; with sound cells, exactly if the wiring is one-to-one.
    */
  method MemTestQuick(m: Ram, cells: array<nat>, startAddr: nat, endAddr: nat, pattern0: nat, iteration: nat)
    returns (errs: nat)
    requires m.Valid() && cells.Length == |m.faults| && pattern0 < WORD
    requires startAddr <= endAddr < WORD && |m.decode| == (endAddr - startAddr) / 4
    modifies cells
    ensures var n, pattern, down := |m.decode|, QuickPattern(pattern0, iteration), iteration % 2 == 1;
      && (errs == 0 <==> m.OneToOne(n) && KeepsQuick(m, n, pattern, down))
      && (m.SoundCells(n) ==> (errs == 0 <==> m.OneToOne(n)))
    ensures errs < WORD - 1
  {
    hide QuickFound;
    hide KeepsQuick;
    hide QuickValue;
    hide Filled;
    hide Ram.OneToOne;
    hide Ram.SoundCells;
    var pattern, down := pattern0, iteration % 2 == 1;
    if down {
      pattern := if pattern >= 0x8000_0000 then WORD - pattern else Not(pattern);
    }
    var length := (endAddr - startAddr) / 4;
    WriteQuick(m, cells, length, pattern, down);
    errs := ReadQuick(m, cells, length, pattern, down);
    QuickDecides(m, length, pattern, down);
  }
}
