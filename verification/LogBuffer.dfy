/**
  * The log buffer of cmd/log.c: a ring of characters under two header layouts, and the line-prefix
  * rewriter that feeds it.
  */
module LogBuffer {
  import opened Arithmetic

  const LOGBUFF_LEN := 16384
  const DEFAULT_LEVEL: char := '4'   // default_message_loglevel

  // ----- prefixing, character by character

  /** `<0>` to `<7>` */
  predicate HasLevel(text: string) {
    |text| >= 3 && text[0] == '<' && '0' <= text[1] <= '7' && text[2] == '>'
  }

  const PREFIX: string := ['<', DEFAULT_LEVEL, '>']

  /**
    * What one call sends to the ring: its text, with the default prefix put before every line start that
    * has no level prefix in this text. `lineStart` says that the text begins at a line start.
    */
  function Emit(text: string, lineStart: bool): string {
    if text == "" then ""
    else (if lineStart && !HasLevel(text) then PREFIX else "") + [text[0]] + Emit(text[1..], text[0] == '\n')
  }

  /** Whether the next text begins at a line start. */
  function LineStartAfter(text: string, lineStart: bool): bool {
    if text == "" then lineStart else text[|text| - 1] == '\n'
  }

  /** The stream of several calls. */
  function EmitAll(calls: seq<string>, lineStart: bool): string {
    if calls == [] then "" else Emit(calls[0], lineStart) + EmitAll(calls[1..], LineStartAfter(calls[0], lineStart))
  }

  /** Without the prefix check, text up to and including the first line feed goes out as it is. */
  lemma {:induction false} EmitLine(text: string, k: nat)
    requires k <= |text| && forall i :: 0 <= i < k - 1 ==> text[i] != '\n'
    ensures Emit(text, false) == text[..k] + Emit(text[k..], k > 0 && text[k - 1] == '\n')
  {
    if k == 0 {
      assert text[..0] + Emit(text[0..], false) == Emit(text, false);
    } else {
      var rest := text[1..];
      if k > 1 {
        assert text[0] != '\n';
        forall i | 0 <= i < k - 2
          ensures rest[i] != '\n'
        {
          assert rest[i] == text[i + 1];
        }
        EmitLine(rest, k - 1);
        assert rest[k - 1..] == text[k..] && [text[0]] + rest[..k - 1] == text[..k];
      }
    }
  }

  /** Every line of a stream starts with a level prefix, as far as the stream goes. */
  ghost predicate LinesLevelled(stream: string, lineStart: bool) {
    forall i :: 0 <= i < |stream| && (if i == 0 then lineStart else stream[i - 1] == '\n') ==> HasLevel(stream[i..])
  }

  lemma LevelledConcat(a: string, b: string, lineStart: bool)
    requires LinesLevelled(a, lineStart) && LinesLevelled(b, LineStartAfter(a, lineStart))
    ensures LinesLevelled(a + b, lineStart)
  {
    forall i | 0 <= i < |a + b| && (if i == 0 then lineStart else (a + b)[i - 1] == '\n')
      ensures HasLevel((a + b)[i..])
    {
      if i < |a| {
        assert HasLevel(a[i..]);
      } else {
        assert (a + b)[i..] == b[i - |a|..];
        assert i > 0 && i > |a| ==> (a + b)[i - 1] == b[i - |a| - 1];
        assert HasLevel(b[i - |a|..]);
      }
    }
  }

  lemma {:induction false} EmitLast(text: string, lineStart: bool)
    ensures var out := Emit(text, lineStart);
      text != "" ==> out != "" && out[|out| - 1] == text[|text| - 1]
  {
    if |text| > 1 {
      EmitLast(text[1..], text[0] == '\n');
    }
  }

  /** What one call sends is levelled at every line start in it. */
  lemma {:induction false} EmitLevelled(text: string, lineStart: bool)
    ensures LinesLevelled(Emit(text, lineStart), lineStart)
  {
    if text != "" {
      var rest, e := text[1..], Emit(text[1..], text[0] == '\n');
      EmitLevelled(rest, text[0] == '\n');
      var head := (if lineStart && !HasLevel(text) then PREFIX else "") + [text[0]];
      assert Emit(text, lineStart) == head + e;
      forall i | 0 <= i < |head + e| && (if i == 0 then lineStart else (head + e)[i - 1] == '\n')
        ensures HasLevel((head + e)[i..])
      {
        if i >= |head| {
          assert (head + e)[i..] == e[i - |head|..];
          assert i > |head| ==> (head + e)[i - 1] == e[i - |head| - 1];
          assert HasLevel(e[i - |head|..]);
        } else {
          assert i == 0;
          if HasLevel(text) {
            EmitKeepsLevel(text, lineStart);
          }
        }
      }
    }
  }

  /** A level prefix in the text survives: nothing is inserted into it. */
  lemma EmitKeepsLevel(text: string, lineStart: bool)
    requires HasLevel(text)
    ensures HasLevel(Emit(text, lineStart))
  {
    assert Emit(text, lineStart) == [text[0]] + Emit(text[1..], false);
    assert Emit(text[1..], false) == [text[1]] + Emit(text[2..], false) by { assert text[1..][1..] == text[2..]; }
    assert Emit(text[2..], false) == [text[2]] + Emit(text[3..], false) by { assert text[2..][1..] == text[3..]; }
  }

  /** Across any calls from boot on, every line in the stream to the ring carries a level. */
  lemma {:induction false} StreamLevelled(calls: seq<string>, lineStart: bool)
    ensures LinesLevelled(EmitAll(calls, lineStart), lineStart)
  {
    if calls != [] {
      EmitLevelled(calls[0], lineStart);
      EmitLast(calls[0], lineStart);
      StreamLevelled(calls[1..], LineStartAfter(calls[0], lineStart));
      LevelledConcat(Emit(calls[0], lineStart), EmitAll(calls[1..], LineStartAfter(calls[0], lineStart)), lineStart);
    }
  }

  // ----- the ring

  /** Header layout 1 counts from the start, layout 2 has both ends. */
  datatype Header1 = Header1(start: int, size: int, chars: int)
  datatype Header2 = Header2(start: int, end: int, chars: int)

  function Kept(total: nat): nat {
    if total < LOGBUFF_LEN then total else LOGBUFF_LEN
  }

  /** The headers after `total` characters. */
  function At1(total: nat): Header1 {
    Header1((total - Kept(total)) % WORD, Kept(total), total % WORD)
  }

  function At2(total: nat): Header2 {
    Header2((total - Kept(total)) % WORD, total % WORD, total % WORD)
  }

  /** The buffer length divides the word range, so the mask survives a wrapped counter. */
  lemma MaskAfterWrap(x: int)
    ensures x % WORD % LOGBUFF_LEN == x % LOGBUFF_LEN
  {
    var q, r := x / WORD, x % WORD;
    assert x == q * WORD + r && WORD == 262144 * LOGBUFF_LEN;
    assert x == (q * 262144) * LOGBUFF_LEN + r;
    ModShift(r, q * 262144);
  }

  lemma ModShift(r: int, k: int)
    ensures (k * LOGBUFF_LEN + r) % LOGBUFF_LEN == r % LOGBUFF_LEN
  {
  }

  /** Counter differences survive the wrap as well. */
  lemma DifferenceAfterWrap(a: int, d: int)
    requires 0 <= d < WORD
    ensures ((a + d) % WORD - a % WORD) % WORD == d
    ensures (a % WORD + d) % WORD == (a + d) % WORD
  {
    var r := a % WORD;
    if r + d < WORD {
      assert (a + d) % WORD == r + d;
    } else {
      assert (a + d) % WORD == r + d - WORD;
    }
  }

  /** Both layouts put the next character into the same slot. */
  lemma EndPosition(total: nat)
    ensures At2(total).end % LOGBUFF_LEN == total % LOGBUFF_LEN
    ensures (At1(total).start + At1(total).size) % WORD % LOGBUFF_LEN == total % LOGBUFF_LEN
  {
    MaskAfterWrap(total);
    DifferenceAfterWrap(total - Kept(total), Kept(total));
  }

  lemma ModDiffers(i: int, j: int)
    requires 0 < j - i < LOGBUFF_LEN
    ensures i % LOGBUFF_LEN != j % LOGBUFF_LEN
  {
  }

  lemma Slot(first: nat, i: nat)
    requires i < LOGBUFF_LEN
    ensures (first % WORD + i) % WORD % LOGBUFF_LEN == (first + i) % LOGBUFF_LEN
  {
    DifferenceAfterWrap(first, i);
    MaskAfterWrap(first + i);
  }

  class Log {
    var version: int
    var v1: Header1
    var v2: Header2
    const lbuf: array<char>
    const buf: array<char>          // working copy of the text being logged
    var msgLevel: int               // level of the line being logged, -1 at a line start
    ghost var history: string       // everything sent to the ring since the last reset

    constructor (logVersion: int)
      ensures Valid() && version == logVersion && history == "" && msgLevel == -1 && fresh(lbuf) && fresh(buf)
    {
      version, v1, v2 := logVersion, Header1(0, 0, 0), Header2(0, 0, 0);
      lbuf := new char[LOGBUFF_LEN](_ => '\0');
      buf := new char[1024](_ => '\0');
      msgLevel, history := -1, "";
    }

    /** The ring holds the last characters of the history, and the header says where they are. */
    ghost predicate Valid()
      reads this, lbuf
    {
      var total := |history|;
      && lbuf.Length == LOGBUFF_LEN && buf.Length == 1024 && lbuf != buf && -1 <= msgLevel <= 7
      && (version == 2 ==> v2 == At2(total)) && (version != 2 ==> v1 == At1(total))
      && Holds(history)
    }

    ghost predicate Holds(h: string)
      reads lbuf
      requires lbuf.Length == LOGBUFF_LEN
    {
      forall i :: |h| - Kept(|h|) <= i < |h| ==> lbuf[i % LOGBUFF_LEN] == h[i]
    }

    /** `log reset` */
    method Reset()
      requires lbuf.Length == LOGBUFF_LEN && buf.Length == 1024 && lbuf != buf && -1 <= msgLevel <= 7
      modifies this
      ensures Valid() && history == "" && version == old(version) && msgLevel == old(msgLevel)
    {
      v1, v2, history := Header1(0, 0, 0), Header2(0, 0, 0), "";
    }

    /** A character into the slot after the last one: it displaces at most the oldest. */
    method StoreChar(pos: nat, c: char)
      requires lbuf.Length == LOGBUFF_LEN && Holds(history) && pos == |history| % LOGBUFF_LEN
      modifies lbuf
      ensures Holds(history + [c])
    {
      ghost var total, kept := |history|, Kept(|history|);
      lbuf[pos] := c;
      forall i | total - kept <= i < total && total + 1 - Kept(total + 1) <= i
        ensures i % LOGBUFF_LEN != total % LOGBUFF_LEN
      {
        ModDiffers(i, total);
      }
    }

    method Count2()
      requires version == 2 && v2 == At2(|history|)
      modifies this`v2
      ensures v2 == At2(|history| + 1)
    {
      ghost var total, kept := |history|, Kept(|history|);
      DifferenceAfterWrap(total - kept, kept + 1);
      DifferenceAfterWrap(total, 1);
      DifferenceAfterWrap(total - kept, 1);
      v2 := v2.(end := (v2.end + 1) % WORD);
      if (v2.end - v2.start) % WORD > LOGBUFF_LEN {
        v2 := v2.(start := (v2.start + 1) % WORD);
      }
      v2 := v2.(chars := (v2.chars + 1) % WORD);
    }

    method Count1()
      requires version != 2 && v1 == At1(|history|)
      modifies this`v1
      ensures v1 == At1(|history| + 1)
    {
      ghost var total, kept := |history|, Kept(|history|);
      DifferenceAfterWrap(total, 1);
      DifferenceAfterWrap(total - kept, 1);
      if v1.size < LOGBUFF_LEN {
        v1 := v1.(size := v1.size + 1);
      } else {
        v1 := v1.(start := (v1.start + 1) % WORD);
      }
      v1 := v1.(chars := (v1.chars + 1) % WORD);
    }

    /** One character into the ring, by the layout in use. */
    method Put(c: char)
      requires Valid()
      modifies this`v1, this`v2, this`history, lbuf
      ensures Valid() && history == old(history) + [c]
    {
      EndPosition(|history|);
      hide At1;
      hide At2;
      if version == 2 {
        StoreChar(v2.end % LOGBUFF_LEN, c);
        Count2();
      } else {
        StoreChar((v1.start + v1.size) % WORD % LOGBUFF_LEN, c);
        Count1();
      }
      history := history + [c];
    }

    /** Where `log show` starts and how much it shows, by the layout in use. */
    method ShowBounds() returns (start: int, size: int)
      requires Valid()
      ensures start == (|history| - Kept(|history|)) % WORD && size == Kept(|history|)
    {
      hide Holds;
      if version == 2 {
        start := v2.start;
        size := (v2.end - v2.start) % WORD;
      } else {
        start := v1.start;
        size := v1.size;
      }
      DifferenceAfterWrap(|history| - Kept(|history|), Kept(|history|));
      if size > LOGBUFF_LEN {
        size := LOGBUFF_LEN;
      }
    }

    /** `log show`: the last characters of the history, in order. */
    method Show() returns (out: string)
      requires Valid()
      ensures out == history[|history| - Kept(|history|)..]
    {
      hide At1;
      hide At2;
      var start, size := ShowBounds();
      ghost var first := |history| - Kept(|history|);
      out := "";
      for i := 0 to size
        invariant out == history[first..first + i]
      {
        Slot(first, i);
        out := out + [lbuf[(start + i) % WORD % LOGBUFF_LEN]];
      }
    }

    /**
      * The inner loop of `logbuff_printk`: characters from `p0` on into the ring, up to and including a
      * line feed. `from` is where the text proper begins, behind the header.
      */
    method LogLine(p0: nat, ghost from: nat, bufEnd: nat) returns (p: nat, lineFeed: bool)
      requires Valid() && p0 <= from < bufEnd <= buf.Length && forall i :: p0 <= i < from ==> buf[i] != '\n'
      modifies this`v1, this`v2, this`history, lbuf
      ensures Valid() && from <= p <= bufEnd && lineFeed == (p < bufEnd)
      ensures lineFeed ==> buf[p] == '\n'
      ensures forall i :: from <= i < p ==> buf[i] != '\n'
      ensures history == old(history) + buf[p0..if lineFeed then p + 1 else p]
    {
      p, lineFeed := p0, false;
      while p < bufEnd
        invariant p0 <= p <= bufEnd && Valid()
        invariant forall i :: p0 <= i < p ==> buf[i] != '\n'
        invariant history == old(history) + buf[p0..p]
      {
        Put(buf[p]);
        assert buf[p0..p + 1] == buf[p0..p] + [buf[p]];
        if buf[p] == '\n' {
          lineFeed := true;
          break;
        }
        p := p + 1;
      }
    }

    /** The text still to be logged sits unharmed in the working buffer, closed by its NUL. */
    ghost predicate Waiting(p: nat, bufEnd: nat, rest: string)
      reads buf
    {
      p + |rest| == bufEnd < buf.Length && buf[p..bufEnd] == rest && buf[bufEnd] == '\0' && '\0' !in rest
    }

    /** The check of `p[0]`, `p[1]` and `p[2]`; it never looks past the NUL. */
    method LacksLevel(p: nat, bufEnd: nat, ghost rest: string) returns (lacks: bool)
      requires p < bufEnd && Waiting(p, bufEnd, rest)
      ensures lacks == !HasLevel(rest)
    {
      assert forall i :: p <= i < bufEnd ==> buf[i] == rest[i - p] && rest[i - p] in rest;
      lacks := buf[p] != '<' || buf[p + 1] < '0' || buf[p + 1] > '7' || buf[p + 2] != '>';
    }

    /** At a line start: find the level, or write a header over the three characters before the text. */
    method StartLine(p: nat, bufEnd: nat, ghost rest: string) returns (p0: nat)
      requires buf.Length == 1024 && 3 <= p < bufEnd && Waiting(p, bufEnd, rest) && -1 <= msgLevel <= 7
      modifies this`msgLevel, buf
      ensures Waiting(p, bufEnd, rest) && 0 <= msgLevel <= 7 && p0 <= p
      ensures buf[p0..p] == if old(msgLevel) < 0 && !HasLevel(rest) then PREFIX else ""
    {
      p0 := p;
      if msgLevel < 0 {
        var lacks := LacksLevel(p, bufEnd, rest);
        if lacks {
          ghost var before := buf[p..];
          p0 := p - 3;
          buf[p0], buf[p0 + 1], buf[p0 + 2] := '<', DEFAULT_LEVEL, '>';
          assert buf[p..] == before;
          assert buf[p..bufEnd] == before[..bufEnd - p] && buf[bufEnd] == before[bufEnd - p];
        } else {
          assert buf[p + 1] == buf[p..bufEnd][1];
        }
        msgLevel := buf[p0 + 1] as int - '0' as int;
      }
    }

    /** One line of the text: header if needed, characters into the ring, and back to a line start after a line feed. */
    method PrintLine(p: nat, bufEnd: nat, ghost rest: string) returns (next: nat, ghost k: nat)
      requires Valid() && 3 <= p < bufEnd && Waiting(p, bufEnd, rest)
      modifies this`v1, this`v2, this`history, this`msgLevel, lbuf, buf
      ensures Valid() && 0 < k <= |rest| && Waiting(p + k, bufEnd, rest[k..])
      ensures next == (if msgLevel < 0 then p + k else bufEnd + 1) && (msgLevel >= 0 ==> k == |rest|)
      ensures (msgLevel < 0) == (rest[k - 1] == '\n')
      ensures history + Emit(rest[k..], msgLevel < 0) == old(history) + Emit(rest, old(msgLevel) < 0)
    {
      hide Emit;
      hide At1;
      hide At2;
      hide Holds;
      ghost var lineStart := msgLevel < 0;
      var p0 := StartLine(p, bufEnd, rest);
      assert forall i :: p0 <= i < p ==> buf[i] == buf[p0..p][i - p0];
      var q, lineFeed := LogLine(p0, p, bufEnd);
      k := (if lineFeed then q + 1 else q) - p;
      LineLogged(buf[..], p0, p, bufEnd, rest, lineStart, q, lineFeed, old(history), history);
      if lineFeed {
        msgLevel := -1;
      }
      next := q + 1;
    }

    /** `strcpy(buf + 3, line)` */
    method CopyText(line: string)
      requires buf.Length == 1024 && |line| + 4 <= 1024 && '\0' !in line
      modifies buf
      ensures Waiting(3, 3 + |line|, line)
    {
      for i := 0 to |line|
        invariant buf[3..3 + i] == line[..i]
      {
        buf[3 + i] := line[i];
      }
      buf[3 + |line|] := '\0';
    }

    /**
      * `logbuff_printk`: the text goes to the ring with a default prefix before exactly those line starts
      * that have none, and the level of an unfinished line is kept for the next call.
      */
    method PrintK(line: string)
      requires Valid() && |line| + 4 <= 1024 && '\0' !in line
      modifies this`v1, this`v2, this`history, this`msgLevel, lbuf, buf
      ensures Valid() && history == old(history) + Emit(line, old(msgLevel) < 0)
      ensures (msgLevel < 0) == LineStartAfter(line, old(msgLevel) < 0)
    {
      hide Emit;
      hide At1;
      hide At2;
      hide Holds;
      EmitNothing();
      var bufEnd := 3 + |line|;
      CopyText(line);
      ghost var atStart, done: nat := msgLevel < 0, 0;
      assert line[0..] == line;
      var p := 3;
      while p < bufEnd
        invariant Valid() && done <= |line| && Waiting(3 + done, bufEnd, line[done..])
        invariant p == 3 + done || (p == bufEnd + 1 && done == |line|)
        invariant history + Emit(line[done..], msgLevel < 0) == old(history) + Emit(line, atStart)
        invariant (msgLevel < 0) == LineStartAfter(line[..done], atStart)
        decreases bufEnd - p
      {
        ghost var k;
        ghost var rest := line[done..];
        p, k := PrintLine(p, bufEnd, rest);
        assert rest[k..] == line[done + k..] && rest[k - 1] == line[..done + k][done + k - 1];
        done := done + k;
      }
      assert line[done..] == "" && line[..done] == line;
      assert history + "" == history;
    }
  }

  /** The text before and after one line has been logged from a working buffer `b`. */
  lemma LineLogged(b: string, p0: nat, p: nat, bufEnd: nat, rest: string, lineStart: bool, q: nat, lineFeed: bool,
                   before: string, after: string)
    requires p0 <= p <= q <= bufEnd <= |b| && p < bufEnd && b[p..bufEnd] == rest
    requires b[p0..p] == if lineStart && !HasLevel(rest) then PREFIX else ""
    requires lineFeed == (q < bufEnd) && (lineFeed ==> b[q] == '\n') && forall i :: p <= i < q ==> b[i] != '\n'
    requires after == before + b[p0..if lineFeed then q + 1 else q]
    ensures var k := (if lineFeed then q + 1 else q) - p;
      && 0 < k <= |rest| && b[p + k..bufEnd] == rest[k..] && (rest[k - 1] == '\n') == lineFeed
      && after + Emit(rest[k..], lineFeed) == before + Emit(rest, lineStart)
  {
    hide Emit;
    hide HasLevel;
    var e := if lineFeed then q + 1 else q;
    var k, header := e - p, b[p0..p];
    Slices(b, p0, p, e, bufEnd, rest);
    EmitLine(rest, k);
    EmitSplit(rest, lineStart);
    Regroup(before, header, rest[..k], Emit(rest[k..], lineFeed));
  }

  lemma Slices(b: string, p0: nat, p: nat, e: nat, bufEnd: nat, rest: string)
    requires p0 <= p <= e <= bufEnd <= |b| && b[p..bufEnd] == rest
    ensures b[p0..e] == b[p0..p] + rest[..e - p] && b[e..bufEnd] == rest[e - p..]
    ensures forall i :: 0 <= i < |rest| ==> rest[i] == b[p + i]
  {
    forall i | 0 <= i < |rest|
      ensures rest[i] == b[p + i]
    {
      assert b[p..bufEnd][i] == b[p + i];
    }
  }

  lemma Regroup(a: string, b: string, c: string, d: string)
    ensures a + (b + c) + d == a + (b + (c + d))
  {
  }

  lemma EmitNothing()
    ensures Emit("", true) == "" && Emit("", false) == ""
  {
  }

  lemma EmitSplit(text: string, lineStart: bool)
    requires text != ""
    ensures Emit(text, lineStart) == (if lineStart && !HasLevel(text) then PREFIX else "") + Emit(text, false)
  {
    var rest := Emit(text[1..], text[0] == '\n');
    assert Emit(text, false) == "" + [text[0]] + rest;
    hide Emit;
    assert PREFIX + ("" + [text[0]] + rest) == PREFIX + [text[0]] + rest;
  }

  /** Two logs with the same history, one in each layout: end is start plus size, all else is equal. */
  lemma LayoutsAgree(a: Log, b: Log)
    requires a.Valid() && b.Valid() && a.version == 2 && b.version != 2 && a.history == b.history
    ensures a.v2.start == b.v1.start && a.v2.end == (b.v1.start + b.v1.size) % WORD && a.v2.chars == b.v1.chars
  {
    var total := |a.history|;
    DifferenceAfterWrap(total - Kept(total), Kept(total));
  }

  /**
    * Boot, any calls, then `log show`: what appears is the end of the prefixed stream, as much of it as
    * the ring holds, in either layout and however often the counters wrap.
    */
  method ShowAfter(version: int, calls: seq<string>) returns (shown: string)
    requires forall c :: c in calls ==> |c| + 4 <= 1024 && '\0' !in c
    ensures var stream := EmitAll(calls, true); shown == stream[|stream| - Kept(|stream|)..]
  {
    hide Emit;
    hide EmitAll;
    var log := new Log(version);
    EmitAllNothing(calls);
    for i := 0 to |calls|
      invariant log.Valid() && fresh(log) && fresh(log.lbuf) && fresh(log.buf)
      invariant log.history + EmitAll(calls[i..], log.msgLevel < 0) == EmitAll(calls, true)
    {
      EmitAllStep(calls, i, log.msgLevel < 0);
      assert calls[i] in calls;
      ghost var h, lineStart := log.history, log.msgLevel < 0;
      log.PrintK(calls[i]);
      assert h + (Emit(calls[i], lineStart) + EmitAll(calls[i + 1..], log.msgLevel < 0))
          == h + Emit(calls[i], lineStart) + EmitAll(calls[i + 1..], log.msgLevel < 0);
    }
    assert calls[|calls|..] == [] && log.history + "" == log.history;
    shown := log.Show();
  }

  lemma EmitAllNothing(calls: seq<string>)
    ensures EmitAll([], true) == "" && EmitAll([], false) == "" && calls[0..] == calls
    ensures "" + EmitAll(calls, true) == EmitAll(calls, true)
  {
  }

  lemma EmitAllStep(calls: seq<string>, i: nat, lineStart: bool)
    requires i < |calls|
    ensures EmitAll(calls[i..], lineStart) ==
            Emit(calls[i], lineStart) + EmitAll(calls[i + 1..], LineStartAfter(calls[i], lineStart))
  {
    assert calls[i..][1..] == calls[i + 1..];
  }
}
