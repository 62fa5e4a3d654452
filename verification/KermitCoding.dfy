/**
  * Control quoting of the Kermit protocol (cmd/load.c, `ktrans` and the `k_data_*` state machine),
  * together with the sender's encoding it has to undo.
  */
module KermitCoding {
  import opened Bytes

  const K_ESCAPE: Byte := 0x23

  /** `ktrans`: `(in & 0x60) == 0x40` clears bit 6, `(in & 0x7f) == 0x3f` sets it. */
  function KTrans(c: Byte): Byte {
    if (c / 32) % 4 == 2 then c - 64
    else if c % 128 == 63 then c + 64
    else c
  }

  /** What the receiver has made of the data so far: the bytes written and the pending escape. */
  datatype Stream = Stream(escape: bool, out: seq<Byte>)

  const EMPTY := Stream(false, [])

  /** `k_data_char` on the stream: one received data character. */
  function DataChar(quote: Byte, s: Stream, c: Byte): Stream {
    if s.escape then Stream(false, s.out + [KTrans(c)])
    else if c == quote then s.(escape := true)
    else Stream(false, s.out + [c])
  }

  /** A run of data characters. */
  function DataChars(quote: Byte, s: Stream, cs: seq<Byte>): Stream {
    if cs == [] then s
    else DataChar(quote, DataChars(quote, s, cs[..|cs| - 1]), cs[|cs| - 1])
  }

  /** Characters arrive one after the other, so where packets are cut makes no difference. */
  lemma {:induction false} DataCharsConcat(quote: Byte, s: Stream, a: seq<Byte>, b: seq<Byte>)
    ensures DataChars(quote, s, a + b) == DataChars(quote, DataChars(quote, s, a), b)
  {
    if b == [] {
      assert a + b == a;
    } else {
      assert (a + b)[..|a + b| - 1] == a + b[..|b| - 1];
      DataCharsConcat(quote, s, a, b[..|b| - 1]);
    }
  }

  lemma DataCharsOne(quote: Byte, s: Stream, a: Byte)
    ensures DataChars(quote, s, [a]) == DataChar(quote, s, a)
  {
    hide DataChar;
    var one: seq<Byte> := [a];
    assert one[..0] == [];
  }

  lemma DataCharsTwo(quote: Byte, s: Stream, a: Byte, b: Byte)
    ensures DataChars(quote, s, [a, b]) == DataChar(quote, DataChar(quote, s, a), b)
  {
    hide DataChar;
    var one: seq<Byte>, two: seq<Byte> := [a], [a, b];
    DataCharsOne(quote, s, a);
    assert two[..1] == one;
  }

  lemma {:induction false} DataCharsExtend(quote: Byte, s: Stream, cs: seq<Byte>)
    ensures s.out <= DataChars(quote, s, cs).out
  {
    if cs != [] {
      DataCharsExtend(quote, s, cs[..|cs| - 1]);
    }
  }

  /** Characters that the protocol never sends bare: the C0 and C1 controls and both deletes. */
  predicate IsControl(c: Byte) {
    c % 128 < 32 || c % 128 == 127
  }

  /** The printable form of a control character: bit 6 flipped. */
  function Ctl(c: Byte): Byte {
    if (c / 64) % 2 == 0 then c + 64 else c - 64
  }

  /** The sender's encoding of one byte, as section 6 of the Kermit Protocol Manual gives it. */
  function EncodeByte(quote: Byte, b: Byte): seq<Byte> {
    if IsControl(b) then [quote, Ctl(b)]
    else if b % 128 == quote % 128 then [quote, b]
    else [b]
  }

  function Encode(quote: Byte, data: seq<Byte>): seq<Byte> {
    if data == [] then []
    else Encode(quote, data[..|data| - 1]) + EncodeByte(quote, data[|data| - 1])
  }

  lemma {:induction false} EncodeConcat(quote: Byte, a: seq<Byte>, b: seq<Byte>)
    ensures Encode(quote, a + b) == Encode(quote, a) + Encode(quote, b)
  {
    if b == [] {
      assert a + b == a;
    } else {
      hide EncodeByte;
      var front, last := b[..|b| - 1], EncodeByte(quote, b[|b| - 1]);
      assert (a + b)[..|a + b| - 1] == a + front;
      EncodeConcat(quote, a, front);
      assert Encode(quote, a) + Encode(quote, front) + last == Encode(quote, a) + (Encode(quote, front) + last);
    }
  }

  /** The control-quote characters that the protocol allows a sender to announce. */
  predicate LegalQuote(q: Byte) {
    33 <= q <= 62 || 96 <= q <= 126
  }

  lemma EncodeByteDecodes(q: Byte, s: Stream, b: Byte)
    requires LegalQuote(q) && !s.escape
    ensures DataChars(q, s, EncodeByte(q, b)) == Stream(false, s.out + [b])
  {
    hide DataChars;
    hide KTrans;
    hide Ctl;
    DataCharsOne(q, s, b);
    if IsControl(b) {
      CtlBack(b);
      DataCharsTwo(q, s, q, Ctl(b));
    } else if b % 128 == q % 128 {
      QuoteStays(q, b);
      DataCharsTwo(q, s, q, b);
    }
  }

  lemma CtlBack(b: Byte)
    requires IsControl(b)
    ensures KTrans(Ctl(b)) == b
  {
    var r := b % 128;
    if b < 128 {
      assert r == b;
    } else {
      assert r == b - 128;
    }
    assert r < 32 ==> Ctl(b) == b + 64 && Ctl(b) / 32 % 4 == 2;
    assert r == 127 ==> Ctl(b) == b - 64 && Ctl(b) / 32 % 4 == 1 && Ctl(b) % 128 == 63;
  }

  /** A quoted legal quote, with or without its eighth bit, is not taken for a control character. */
  lemma QuoteStays(q: Byte, b: Byte)
    requires LegalQuote(q) && b % 128 == q % 128
    ensures KTrans(b) == b
  {
    if b < 128 {
      assert b == q;
    } else {
      assert b == q + 128;
    }
    assert q <= 62 ==> b / 32 % 4 == 1;
    assert q >= 96 ==> b / 32 % 4 == 3;
  }

  /** Quoting round trip: the receiver writes exactly the bytes that were encoded and ends unescaped. */
  lemma {:induction false} QuotingRoundTrip(q: Byte, s: Stream, data: seq<Byte>)
    requires LegalQuote(q) && !s.escape
    ensures DataChars(q, s, Encode(q, data)) == Stream(false, s.out + data)
  {
    if data == [] {
      assert s.out + data == s.out;
    } else {
      var front, b := data[..|data| - 1], data[|data| - 1];
      QuotingRoundTrip(q, s, front);
      DataCharsConcat(q, s, Encode(q, front), EncodeByte(q, b));
      EncodeByteDecodes(q, Stream(false, s.out + front), b);
      assert s.out + front + [b] == s.out + data;
    }
  }

  /** The round trip survives cutting the encoding anywhere, even inside a quoted pair. */
  lemma CutRoundTrip(q: Byte, data: seq<Byte>, packets: seq<seq<Byte>>)
    requires LegalQuote(q) && Flatten(packets) == Encode(q, data)
    ensures FeedPackets(q, EMPTY, packets) == Stream(false, data)
  {
    FeedPacketsFlat(q, EMPTY, packets);
    QuotingRoundTrip(q, EMPTY, data);
  }

  /** The data fields of successive packets, each fed to the same state machine. */
  function FeedPackets(q: Byte, s: Stream, packets: seq<seq<Byte>>): Stream {
    if packets == [] then s
    else DataChars(q, FeedPackets(q, s, packets[..|packets| - 1]), packets[|packets| - 1])
  }

  lemma {:induction false} FeedPacketsFlat(q: Byte, s: Stream, packets: seq<seq<Byte>>)
    ensures FeedPackets(q, s, packets) == DataChars(q, s, Flatten(packets))
  {
    if packets != [] {
      var front, last := packets[..|packets| - 1], packets[|packets| - 1];
      FeedPacketsFlat(q, s, front);
      DataCharsConcat(q, s, Flatten(front), last);
    }
  }

  lemma IllegalQuoteBreaks(q: Byte)
    requires 33 <= q <= 126 && !LegalQuote(q)
    ensures DataChars(q, EMPTY, Encode(q, [q])) != Stream(false, [q])
  {
    hide DataChars;
    EncodeOne(q, q);
    DataCharsTwo(q, EMPTY, q, q);
    assert KTrans(q) != q;
    var out: seq<Byte>, want: seq<Byte> := [KTrans(q)], [q];
    assert out[0] != want[0];
  }

  lemma EncodeOne(q: Byte, b: Byte)
    ensures Encode(q, [b]) == EncodeByte(q, b)
  {
    hide EncodeByte;
    var one: seq<Byte> := [b];
    assert one[..0] == [];
  }

  /** Among the printable characters the legal quotes are exactly those the receiver can undo. */
  lemma LegalQuoteExactly(q: Byte)
    requires 33 <= q <= 126
    ensures LegalQuote(q) <==> forall data: seq<Byte> :: DataChars(q, EMPTY, Encode(q, data)) == Stream(false, data)
  {
    if LegalQuote(q) {
      forall data: seq<Byte> {
        QuotingRoundTrip(q, EMPTY, data);
      }
    } else {
      IllegalQuoteBreaks(q);
    }
  }

  /** Encoded text never contains a character that the receiver refuses as a control character. */
  lemma {:induction false} EncodePrintable(q: Byte, data: seq<Byte>)
    requires LegalQuote(q)
    ensures forall c :: c in Encode(q, data) ==> c >= 32
  {
    if data != [] {
      EncodePrintable(q, data[..|data| - 1]);
    }
  }
}
