/** The end-around-carry checksum of ARM flash image footers (cmd/armflash.c). */
module ArmFlash {
  import opened Arithmetic
  import opened Sequences

  const M: int := 0xFFFF_FFFF

  type Word = x: int | 0 <= x < 0x1_0000_0000

  function Value(w: Word): nat {
    w
  }

  function Sum(ws: seq<Word>): nat {
    Total(Value, ws)
  }

  /** The representative of t modulo 2^32 - 1 that is zero for t == 0 only. */
  function Residue(t: nat): (r: Word)
    ensures r == 0 <==> t == 0
    ensures r % M == t % M
  {
    if t == 0 then 0 else (t - 1) % M + 1
  }

  /** The value stored as, and checked by, the footer checksum. */
  function Crc(ws: seq<Word>): Word {
    M - Residue(Sum(ws))
  }

  /** One turn of the summing loop, with 32-bit wrap-around. */
  function EndAround(sum: Word, val: Word): Word {
    ((if val > M - sum then (sum + 1) % WORD else sum) + val) % WORD
  }

  lemma EndAroundIs(sum: Word, val: Word)
    ensures EndAround(sum, val) as int == if sum + val <= M then sum + val else sum + val - M
  {
  }

  lemma ModIs(x: int, q: int, r: int)
    requires x == q * M + r && 0 <= r < M
    ensures x % M == r
  {
  }

  /** The loop keeps the residue of the words added so far. */
  lemma AddOne(t: nat, val: Word)
    ensures EndAround(Residue(t), val) == Residue(t + val)
  {
    EndAroundIs(Residue(t), val);
    hide EndAround;
    if t == 0 {
      if val > 0 {
        ModIs(val - 1, 0, val - 1);
      }
    } else {
      var q, r := (t - 1) / M, (t - 1) % M;
      assert t - 1 == q * M + r;
      if r + val < M {
        ModIs(t + val - 1, q, r + val);
      } else {
        ModIs(t + val - 1, q + 1, r + val - M);
      }
    }
  }

  /** A word is its own representative. */
  lemma ResidueOfWord(w: Word)
    ensures Residue(w) == w
  {
    if w > 0 {
      ModIs(w - 1, 0, w - 1);
    }
  }

  /** Representatives may be taken at any time. */
  lemma ResidueTwice(t: nat, val: Word)
    ensures Residue(Residue(t) + val) == Residue(t + val)
  {
    ResidueOfWord(Residue(t));
    AddOne(Residue(t), val);
    AddOne(t, val);
  }

  // ----- order

  /** The checksum does not depend on the order of the words. */
  lemma OrderFree(a: seq<Word>, b: seq<Word>)
    requires multiset(a) == multiset(b)
    ensures Crc(a) == Crc(b)
  {
    TotalPermutes(Value, a, b);
  }

  // ----- what a zero result means

  /** The result is zero exactly when the words are not all zero and add up to a multiple of 2^32 - 1. */
  lemma ZeroExactly(ws: seq<Word>)
    ensures Crc(ws) == 0 <==> Sum(ws) > 0 && Sum(ws) % M == 0
  {
    var t := Sum(ws);
    if t > 0 {
      var q := (t - 1) / M;
      assert t == q * M + ((t - 1) % M + 1);
      if (t - 1) % M + 1 == M {
        assert t == (q + 1) * M;
      }
    }
  }

  /**
    * Wherever it sits, the word that makes the whole sum to zero is the checksum of the others; if that is
    * zero, the other representative of zero serves as well.
    */
  lemma ComplementExactly(ws: seq<Word>, i: nat)
    requires i < |ws|
    ensures var others := Crc(ws[..i] + ws[i + 1..]);
      Crc(ws) == 0 <==> ws[i] == others || (others == 0 && ws[i] == M)
  {
    var t := Sum(ws[..i] + ws[i + 1..]);
    TotalRemove(Value, ws, i);
    AddOne(t, ws[i]);
    EndAroundIs(Residue(t), ws[i]);
    hide EndAround;
    hide Residue;
    hide Total;
  }

  /** Changing one word changes the checksum, except between the two zeros beside a non-zero word. */
  lemma OneWordSeen(ws: seq<Word>, i: nat, w: Word)
    requires i < |ws|
    ensures var rest := ws[..i] + ws[i + 1..];
      Crc(ws[i := w]) == Crc(ws) <==> w == ws[i] || ({w, ws[i]} == {0, M} && Sum(rest) > 0)
  {
    var rest, ws' := ws[..i] + ws[i + 1..], ws[i := w];
    assert ws'[..i] + ws'[i + 1..] == rest;
    TotalRemove(Value, ws, i);
    TotalRemove(Value, ws', i);
    AddOne(Sum(rest), ws[i]);
    AddOne(Sum(rest), w);
    hide Total;
    SameSum(Residue(Sum(rest)), ws[i], w);
  }

  lemma SameSum(sum: Word, v: Word, w: Word)
    ensures EndAround(sum, v) == EndAround(sum, w) <==> w == v || ({w, v} == {0, M} && sum > 0)
  {
    EndAroundIs(sum, v);
    EndAroundIs(sum, w);
    hide EndAround;
    if w != v && {w, v} == {0, M} {
      assert w in {0, M} && v in {0, M};
    }
    if (w == 0 && v == M) || (w == M && v == 0) {
      assert {w, v} == {0, M};
    }
  }

  // ----- the code

  function WordsAt(mem: int -> Word, start: int, n: nat): (ws: seq<Word>)
    ensures |ws| == n && forall k :: 0 <= k < n ==> ws[k] == mem(start + 4 * k)
  {
    if n == 0 then [] else WordsAt(mem, start, n - 1) + [mem(start + 4 * (n - 1))]
  }

  /** The body of the summing loop: the two 32-bit additions give the representative of the exact sum. */
  method AddWord(sum0: Word, val: Word) returns (sum: Word)
    ensures sum == Residue(sum0 + val)
  {
    ResidueOfWord(sum0);
    AddOne(sum0, val);
    sum := sum0;
    if val > M - sum {
      sum := (sum + 1) % WORD;
    }
    sum := (sum + val) % WORD;
  }

  /** `compute_crc`; a length that is no multiple of four is refused with a zero. */
  method ComputeCrc(mem: int -> Word, start: int, len: nat) returns (crc: Word)
    requires len < 0x8000_0000
    ensures crc == if len % 4 != 0 then 0 else Crc(WordsAt(mem, start, len / 4))
  {
    if len % 4 != 0 {
      return 0;
    }
    var sum: Word, i := 0, 0;
    ghost var n, words: nat := 0, len / 4;
    assert len == 4 * words;
    hide Residue;
    hide Sum;
    NoWords(mem, start);
    while i < len
      invariant i == 4 * n && 0 <= n <= words && sum == Residue(Sum(WordsAt(mem, start, n)))
    {
      var val := mem(start + i);
      NextWord(mem, start, n);
      sum := AddWord(sum, val);
      i, n := i + 4, n + 1;
    }
    crc := M - sum;
  }

  lemma NoWords(mem: int -> Word, start: int)
    ensures Residue(Sum(WordsAt(mem, start, 0))) == 0
  {
  }

  lemma NextWord(mem: int -> Word, start: int, n: nat)
    ensures var before, after := Sum(WordsAt(mem, start, n)), Sum(WordsAt(mem, start, n + 1));
      Residue(Residue(before) + mem(start + 4 * n)) == Residue(after)
  {
    hide Residue;
    TotalAppend(Value, WordsAt(mem, start, n), mem(start + 4 * n));
    ResidueTwice(Sum(WordsAt(mem, start, n)), mem(start + 4 * n));
  }
}
