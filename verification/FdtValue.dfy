/** Device-tree property values on the command line: the printer and the parser of cmd/fdt.c. */
module FdtValue {
  import opened Arithmetic
  import opened Bytes
  import opened Numbers

  const MAX_DUMP := 64

  // ----- numbers

  /** The last n hexadecimal digits of v, as %0nx prints them when they are enough. */
  function Hex(v: nat, n: nat): (s: string)
    ensures |s| == n && forall i :: 0 <= i < n ==> IsXDigit(s[i])
  {
    if n == 0 then "" else Hex(v / 16, n - 1) + [HexDigit(v % 16, 'a')]
  }

  function Pow16(n: nat): nat {
    if n == 0 then 1 else 16 * Pow16(n - 1)
  }

  lemma ScanDigit(s: string, pos: nat, acc: nat, d: nat)
    requires pos < |s| && d < 16 && s[pos] == HexDigit(d, 'a') && acc * 16 + d < WORD
    ensures Scan(s, pos, 16, acc) == Scan(s, pos + 1, 16, acc * 16 + d)
  {
  }

  /** The scanner reads back what was printed. */
  lemma {:induction false} ScanHex(s: string, pos: nat, v: nat, n: nat)
    requires pos + n <= |s| && s[pos..pos + n] == Hex(v, n) && v < Pow16(n) && v < WORD
    ensures Scan(s, pos, 16, 0) == Scan(s, pos + n, 16, v)
  {
    hide Scan;
    hide HexDigit;
    if n > 0 {
      var last := pos + n - 1;
      assert s[pos..last] == s[pos..pos + n][..n - 1] == Hex(v / 16, n - 1);
      assert s[last] == s[pos..pos + n][n - 1] == HexDigit(v % 16, 'a');
      ScanHex(s, pos, v / 16, n - 1);
      ScanDigit(s, last, v / 16, v % 16);
    }
  }

  lemma ScanStops(s: string, pos: nat, v: nat)
    requires pos <= |s| && !IsXDigit(CharAt(s, pos))
    ensures Scan(s, pos, 16, v) == (v, pos)
  {
  }

  // ----- printing

  function Word(b: seq<Byte>): (v: nat)
    requires |b| == 4
    ensures v < WORD
  {
    (((b[0] as int) * 256 + b[1]) * 256 + b[2]) * 256 + b[3]
  }

  /** cpu_to_fdt32. */
  function BigEndian(v: nat): (b: seq<Byte>)
    ensures |b| == 4
  {
    [v / 0x100_0000 % 256, v / 0x1_0000 % 256, v / 256 % 256, v % 256]
  }

  lemma WordBack(b: seq<Byte>)
    requires |b| == 4
    ensures BigEndian(Word(b)) == b
  {
    var hi: int, mid: int := b[0] as int * 256 + b[1], (b[0] as int * 256 + b[1]) * 256 + b[2];
    assert hi / 256 == b[0] && hi % 256 == b[1];
    assert mid / 256 == hi && mid % 256 == b[2];
    assert Word(b) / 256 == mid && Word(b) % 256 == b[3];
    assert Word(b) / 0x1_0000 == hi && Word(b) / 0x100_0000 == hi / 256;
  }

  /** A space between two values, nothing after the last. */
  function Sep(more: bool): string {
    if more then " " else ""
  }

  /** The cells from here on, with the closing bracket. */
  function CellText(data: seq<Byte>): string
    requires |data| % 4 == 0
  {
    if data == [] then ">"
    else ("0x" + Hex(Word(data[..4]), 8)) + (Sep(|data| > 4) + CellText(data[4..]))
  }

  function ByteText(data: seq<Byte>): string {
    if data == [] then "]"
    else Hex(data[0], 2) + (Sep(|data| > 1) + ByteText(data[1..]))
  }

  // ----- values that look like strings

  /** `isprint` of lib/ctype.c, Latin-1 included. */
  predicate IsPrint(b: Byte) {
    32 <= b <= 126 || b >= 160
  }

  predicate IsSpace(b: Byte) {
    9 <= b <= 13 || b == 32 || b == 160
  }

  predicate InText(b: Byte) {
    b == 0 || IsPrint(b) || IsSpace(b)
  }

  /**
    * A value is taken for strings if it is text without two NULs in a row and ends with a NUL, or with a line
    * feed when the byte behind the value happens to be NUL.
    */
  predicate LooksLikeStrings(data: seq<Byte>, after: Byte) {
    && data != [] && (forall i :: 0 <= i < |data| ==> InText(data[i]))
    && (forall i :: 0 < i < |data| ==> data[i - 1] != 0 || data[i] != 0)
    && (data[|data| - 1] == 0 || (data[|data| - 1] == 10 && after == 0))
  }

  /** The value with the NUL that ends its last string. */
  function Closed(data: seq<Byte>): (full: seq<Byte>)
    requires data != []
    ensures full != [] && full[|full| - 1] == 0
  {
    if data[|data| - 1] == 0 then data else data + [0]
  }

  /** The first NUL from j on. */
  function FirstNul(full: seq<Byte>, j: nat): (k: nat)
    requires j < |full| && full[|full| - 1] == 0
    ensures j <= k < |full| && full[k] == 0 && forall i :: j <= i < k ==> full[i] != 0
    decreases |full| - j
  {
    if full[j] == 0 then j else FirstNul(full, j + 1)
  }

  /** The strings from j on. */
  function Pieces(full: seq<Byte>, j: nat): seq<seq<Byte>>
    requires j <= |full| && (full == [] || full[|full| - 1] == 0)
    decreases |full| - j
  {
    if j == |full| then [] else [full[j..FirstNul(full, j)]] + Pieces(full, FirstNul(full, j) + 1)
  }

  /** What `print_data` shows: nothing, quoted strings, cells or bytes, or only where the value is. */
  datatype Dump = Nothing | Quoted(strings: seq<seq<Byte>>) | Contents(text: string) | AddressOnly

  /** `after` is the byte behind the value in memory. */
  function Printed(data: seq<Byte>, after: Byte): Dump {
    if data == [] then Nothing
    else if LooksLikeStrings(data, after) then Quoted(Pieces(Closed(data), 0))
    else if |data| > MAX_DUMP then AddressOnly
    else if |data| % 4 == 0 then Contents("<" + CellText(data))
    else Contents("[" + ByteText(data))
  }

  // ----- parsing

  datatype Outcome = Parsed(data: seq<Byte>) | Malformed | PastEnd

  function SkipSpaces(s: string, pos: nat): (p: nat)
    requires pos <= |s|
    ensures pos <= p <= |s| && (p < |s| ==> s[p] != ' ') && forall i :: pos <= i < p ==> s[i] == ' '
    decreases |s| - pos
  {
    if pos < |s| && s[pos] == ' ' then SkipSpaces(s, pos + 1) else pos
  }

  /** The cell loop at character `pos` of argument `idx`; running off the arguments reads past their table. */
  function Cells(args: seq<string>, idx: nat, pos: nat, acc: seq<Byte>): Outcome
    requires idx <= |args| && (idx < |args| ==> pos <= |args[idx]|)
    decreases |args| - idx, if idx < |args| then |args[idx]| - pos else 0
  {
    if idx == |args| then PastEnd
    else if CharAt(args[idx], pos) == '>' then Parsed(acc)
    else if CharAt(args[idx], pos) == '\0' then Cells(args, idx + 1, 0, acc)
    else
      var (v, end) := Strtoul(args[idx], pos, 0);
      if end == pos then Malformed
      else Cells(args, idx, SkipSpaces(args[idx], end), acc + BigEndian(v))
  }

  function Stream(args: seq<string>, idx: nat, pos: nat, acc: seq<Byte>): Outcome
    requires idx <= |args| && (idx < |args| ==> pos <= |args[idx]|)
    decreases |args| - idx, if idx < |args| then |args[idx]| - pos else 0
  {
    if idx == |args| then PastEnd
    else if CharAt(args[idx], pos) == ']' then Parsed(acc)
    else
      var p := SkipSpaces(args[idx], pos);
      if CharAt(args[idx], p) == '\0' then Stream(args, idx + 1, 0, acc)
      else if !IsXDigit(CharAt(args[idx], p)) then
        if CharAt(args[idx], p) == ']' then Parsed(acc) else Malformed
      else
        var (v, end) := Strtoul(args[idx], p, 16);
        Stream(args, idx, end, acc + [v % 256])
  }

  function Terminated(args: seq<string>): string {
    if args == [] then "" else args[0] + "\0" + Terminated(args[1..])
  }

  function Codes(text: string): (bytes: seq<Byte>)
    ensures |bytes| == |text|
  {
    if text == "" then [] else Codes(text[..|text| - 1]) + [(text[|text| - 1] as int) % 256]
  }

  function Parse(args: seq<string>): Outcome {
    if args == [] then PastEnd
    else if CharAt(args[0], 0) == '<' then Cells(args, 0, 1, [])
    else if CharAt(args[0], 0) == '[' then Stream(args, 0, 1, [])
    else Parsed(Codes(Terminated(args)))
  }

  // ----- the round trip

  /** The text that follows an argument when arguments are written with single spaces between them. */
  function Following(args: seq<string>, idx: nat): string
    requires idx <= |args|
    decreases |args| - idx
  {
    if idx == |args| then "" else " " + args[idx] + Following(args, idx + 1)
  }

  /** The arguments are the text cut at some of its spaces. */
  ghost predicate Cuts(args: seq<string>, text: string) {
    args != [] && args[0] + Following(args, 1) == text
  }

  /** The text still to be read. */
  function Unread(args: seq<string>, idx: nat, pos: nat): string
    requires idx < |args| && pos <= |args[idx]|
  {
    args[idx][pos..] + Following(args, idx + 1)
  }

  /** A run without a space lies in one argument; what follows it is there too, or the argument ends. */
  lemma InOneArgument(args: seq<string>, idx: nat, pos: nat, n: nat)
    requires idx < |args| && pos <= |args[idx]|
    requires n <= |Unread(args, idx, pos)| && forall i :: 0 <= i < n ==> Unread(args, idx, pos)[i] != ' '
    ensures pos + n <= |args[idx]| && args[idx][pos..pos + n] == Unread(args, idx, pos)[..n]
    ensures Unread(args, idx, pos + n) == Unread(args, idx, pos)[n..]
  {
    var text, m := Unread(args, idx, pos), |args[idx]| - pos;
    if m < n {
      assert text[m] == Following(args, idx + 1)[0];
      assert false;
    }
    assert args[idx][pos..][..n] == args[idx][pos..pos + n];
    assert args[idx][pos..][n..] == args[idx][pos + n..];
  }

  /** A single space: the argument ends there, or the space is in it and is all there is to skip. */
  lemma AfterSpace(args: seq<string>, idx: nat, pos: nat, text: string)
    requires idx < |args| && pos <= |args[idx]| && Unread(args, idx, pos) == " " + text && text != "" && text[0] != ' '
    ensures if pos == |args[idx]| then idx + 1 < |args| && Unread(args, idx + 1, 0) == text
            else args[idx][pos] == ' ' && SkipSpaces(args[idx], pos) == pos + 1 && Unread(args, idx, pos + 1) == text
  {
    if pos == |args[idx]| {
      SpaceIsCut(args, idx, text);
    } else {
      SpaceInside(args, idx, pos, text);
    }
  }

  lemma SpaceIsCut(args: seq<string>, idx: nat, text: string)
    requires idx < |args| && Unread(args, idx, |args[idx]|) == " " + text
    ensures idx + 1 < |args| && Unread(args, idx + 1, 0) == text
  {
    var next := Following(args, idx + 1);
    assert Unread(args, idx, |args[idx]|) == next;
    assert (" " + text)[1..] == text;
    assert args[idx + 1][0..] == args[idx + 1];
    assert next[1..] == args[idx + 1] + Following(args, idx + 2);
  }

  lemma SpaceInside(args: seq<string>, idx: nat, pos: nat, text: string)
    requires idx < |args| && pos < |args[idx]| && Unread(args, idx, pos) == " " + text && text != "" && text[0] != ' '
    ensures args[idx][pos] == ' ' && SkipSpaces(args[idx], pos) == pos + 1 && Unread(args, idx, pos + 1) == text
  {
    hide Following;
    var s := args[idx];
    NextChar(args, idx, pos);
    assert (" " + text)[1..] == text;
    assert s[pos..][1..] == s[pos + 1..];
    assert Unread(args, idx, pos + 1) == Unread(args, idx, pos)[1..];
    NoSpace(args, idx, pos + 1);
  }

  /** The character at the reading position, when it is not at a cut. */
  lemma NextChar(args: seq<string>, idx: nat, pos: nat)
    requires idx < |args| && pos <= |args[idx]| && Unread(args, idx, pos) != ""
    ensures pos < |args[idx]| ==> args[idx][pos] == Unread(args, idx, pos)[0]
    ensures pos == |args[idx]| ==> Unread(args, idx, pos)[0] == ' '
  {
  }

  /** A printed number of n digits is read back and leaves the position behind it. */
  lemma ReadsHex(args: seq<string>, idx: nat, pos: nat, v: nat, n: nat, after: string)
    requires idx < |args| && pos <= |args[idx]| && Unread(args, idx, pos) == Hex(v, n) + after
    requires v < Pow16(n) && v < WORD && after != "" && !IsXDigit(after[0])
    ensures pos + n <= |args[idx]| && Scan(args[idx], pos, 16, 0) == (v, pos + n)
    ensures args[idx][pos..pos + n] == Hex(v, n) && Unread(args, idx, pos + n) == after
  {
    hide Hex;
    var s := args[idx];
    assert forall i :: 0 <= i < n ==> Unread(args, idx, pos)[i] == Hex(v, n)[i];
    InOneArgument(args, idx, pos, n);
    assert Unread(args, idx, pos)[..n] == Hex(v, n) && Unread(args, idx, pos)[n..] == after;
    ScanHex(s, pos, v, n);
    NextChar(args, idx, pos + n);
    hide Unread;
    ScanStops(s, pos + n, v);
  }

  lemma Associate(a: string, b: string, c: string)
    ensures a + b + c == a + (b + c)
  {
  }

  lemma CellTextStep(data: seq<Byte>)
    requires |data| % 4 == 0 && data != []
    ensures CellText(data) == ("0x" + Hex(Word(data[..4]), 8)) + (Sep(|data| > 4) + CellText(data[4..]))
    ensures var t := CellText(data[4..]); t != "" && t[0] != ' ' && !IsXDigit((Sep(|data| > 4) + t)[0])
  {
    hide *;
    CellTextSplit(data);
    var rest := data[4..];
    assert |rest| == |data| - 4;
    CellTextHead(rest);
    SepHead(|data| > 4, CellText(rest), '>');
  }

  lemma SepHead(more: bool, t: string, close: char)
    requires t != "" && (more || t[0] == close) && !IsXDigit(close)
    ensures !IsXDigit((Sep(more) + t)[0])
  {
  }

  lemma CellTextSplit(data: seq<Byte>)
    requires |data| % 4 == 0 && data != []
    ensures CellText(data) == ("0x" + Hex(Word(data[..4]), 8)) + (Sep(|data| > 4) + CellText(data[4..]))
  {
    hide Hex;
    hide Word;
  }

  lemma CellTextHead(data: seq<Byte>)
    requires |data| % 4 == 0
    ensures CellText(data) != "" && CellText(data)[0] == (if data == [] then '>' else '0') && !IsXDigit('>')
  {
    hide Hex;
    hide Word;
  }

  /** One cell is read: the position stands behind it. */
  lemma OneCell(args: seq<string>, idx: nat, pos: nat, data: seq<Byte>, acc: seq<Byte>)
    requires |data| % 4 == 0 && data != [] && idx < |args| && pos <= |args[idx]|
             && Unread(args, idx, pos) == CellText(data)
    ensures pos + 10 <= |args[idx]|
    ensures Unread(args, idx, pos + 10) == Sep(|data| > 4) + CellText(data[4..])
    ensures Cells(args, idx, pos, acc) == Cells(args, idx, SkipSpaces(args[idx], pos + 10), acc + data[..4])
  {
    hide CellText;
    var s, v := args[idx], Word(data[..4]);
    var after := Sep(|data| > 4) + CellText(data[4..]);
    CellTextStep(data);
    var text := Unread(args, idx, pos);
    assert text[0] == '0' && text[1] == 'x' && text[2..] == Hex(v, 8) + after;
    InOneArgument(args, idx, pos, 2);
    assert s[pos..pos + 2][0] == '0' && s[pos..pos + 2][1] == 'x';
    assert Pow16(8) == WORD;
    ReadsHex(args, idx, pos + 2, v, 8, after);
    assert s[pos + 2] == s[pos + 2..pos + 10][0] == Hex(v, 8)[0];
    hide Hex;
    WordBack(data[..4]);
    assert Strtoul(s, pos, 0) == (v, pos + 10);
  }

  lemma {:induction false} CellsRead(args: seq<string>, idx: nat, pos: nat, data: seq<Byte>, acc: seq<Byte>)
    requires |data| % 4 == 0 && idx < |args| && pos <= |args[idx]| && Unread(args, idx, pos) == CellText(data)
    ensures Cells(args, idx, pos, acc) == Parsed(acc + data)
    decreases |data|
  {
    hide CellText;
    hide Unread;
    hide Cells;
    hide SkipSpaces;
    hide Following;
    if data == [] {
      CellsDone(args, idx, pos, acc);
      assert acc + data == acc;
    } else {
      OneCell(args, idx, pos, data, acc);
      CellTextStep(data);
      var rest, acc' := CellRest(data, acc);
      var text := CellText(rest);
      if rest != [] {
        AfterSpace(args, idx, pos + 10, text);
        if pos + 10 == |args[idx]| {
          NextArgument(args, idx, acc');
          CellsRead(args, idx + 1, 0, rest, acc');
        } else {
          CellsRead(args, idx, pos + 11, rest, acc');
        }
      } else {
        assert Sep(false) + text == text;
        NoSpace(args, idx, pos + 10);
        CellsRead(args, idx, pos + 10, rest, acc');
      }
    }
  }

  /** The cells behind the first one, and the bytes read with it. */
  lemma CellRest(data: seq<Byte>, acc: seq<Byte>) returns (rest: seq<Byte>, acc': seq<Byte>)
    requires |data| % 4 == 0 && data != []
    ensures |data| >= 4 && rest == data[4..] && |rest| == |data| - 4 && |rest| % 4 == 0 && (rest != [] <==> |data| > 4)
    ensures acc' == acc + data[..4] && acc' + rest == acc + data
  {
    rest, acc' := data[4..], acc + data[..4];
    assert data == data[..4] + rest;
  }

  lemma CellsDone(args: seq<string>, idx: nat, pos: nat, acc: seq<Byte>)
    requires idx < |args| && pos <= |args[idx]| && Unread(args, idx, pos) == CellText([])
    ensures Cells(args, idx, pos, acc) == Parsed(acc)
  {
    NextChar(args, idx, pos);
  }

  /** At the end of an argument there is nothing to skip, and reading goes on with the next one. */
  lemma NextArgument(args: seq<string>, idx: nat, acc: seq<Byte>)
    requires idx < |args|
    ensures SkipSpaces(args[idx], |args[idx]|) == |args[idx]|
    ensures Cells(args, idx, |args[idx]|, acc) == Cells(args, idx + 1, 0, acc)
  {
  }

  lemma NoSpace(args: seq<string>, idx: nat, pos: nat)
    requires idx < |args| && pos <= |args[idx]| && Unread(args, idx, pos) != "" && Unread(args, idx, pos)[0] != ' '
    ensures SkipSpaces(args[idx], pos) == pos
  {
    NextChar(args, idx, pos);
  }

  lemma ByteTextStep(data: seq<Byte>)
    requires data != []
    ensures ByteText(data) == Hex(data[0], 2) + (Sep(|data| > 1) + ByteText(data[1..]))
    ensures IsXDigit(ByteText(data)[0])
    ensures var t := ByteText(data[1..]); t != "" && t[0] != ' ' && !IsXDigit((Sep(|data| > 1) + t)[0])
  {
    hide Hex;
    if |data| > 1 {
      assert ByteText(data[1..])[0] == Hex(data[1..][0], 2)[0];
    }
  }

  lemma OneByte(args: seq<string>, idx: nat, pos: nat, data: seq<Byte>, acc: seq<Byte>)
    requires data != [] && idx < |args| && pos <= |args[idx]| && Unread(args, idx, pos) == ByteText(data)
    ensures pos + 2 <= |args[idx]|
    ensures Unread(args, idx, pos + 2) == Sep(|data| > 1) + ByteText(data[1..])
    ensures Stream(args, idx, pos, acc) == Stream(args, idx, pos + 2, acc + data[..1])
  {
    hide ByteText;
    var s, v := args[idx], data[0];
    var after := Sep(|data| > 1) + ByteText(data[1..]);
    ByteTextStep(data);
    assert Pow16(2) == 256;
    ReadsHex(args, idx, pos, v, 2, after);
    hide Hex;
    hide Unread;
    TwoDigits(s, pos, v);
    assert data[..1] == [v];
    StreamStep(args, idx, pos, v, acc);
  }

  lemma TwoDigits(s: string, pos: nat, v: Byte)
    requires pos + 2 <= |s| && s[pos..pos + 2] == Hex(v, 2) && Scan(s, pos, 16, 0) == (v as int, pos + 2)
    ensures IsXDigit(s[pos]) && IsXDigit(s[pos + 1]) && Strtoul(s, pos, 16) == (v as int, pos + 2)
  {
    assert s[pos] == s[pos..pos + 2][0] == Hex(v, 2)[0] && s[pos + 1] == s[pos..pos + 2][1] == Hex(v, 2)[1];
    hide Hex;
    if s[pos] == '0' {
      assert Scan(s, pos, 16, 0) == Scan(s, pos + 1, 16, 0);
    }
  }

  lemma StreamStep(args: seq<string>, idx: nat, pos: nat, v: Byte, acc: seq<Byte>)
    requires idx < |args| && pos + 2 <= |args[idx]| && IsXDigit(args[idx][pos])
    requires Strtoul(args[idx], pos, 16) == (v as int, pos + 2)
    ensures Stream(args, idx, pos, acc) == Stream(args, idx, pos + 2, acc + [v])
  {
    hide Strtoul;
    assert SkipSpaces(args[idx], pos) == pos;
  }

  lemma {:induction false} StreamRead(args: seq<string>, idx: nat, pos: nat, data: seq<Byte>, acc: seq<Byte>)
    requires idx < |args| && pos <= |args[idx]| && Unread(args, idx, pos) == ByteText(data)
    ensures Stream(args, idx, pos, acc) == Parsed(acc + data)
    decreases |data|
  {
    if data == [] {
      NextChar(args, idx, pos);
      assert acc + data == acc;
    } else {
      OneByte(args, idx, pos, data, acc);
      ByteTextStep(data);
      var text := ByteText(data[1..]);
      assert (acc + data[..1]) + data[1..] == acc + data;
      if |data| > 1 {
        ByteTextStep(data[1..]);
        hide ByteText;
        AfterSpace(args, idx, pos + 2, text);
        if pos + 2 == |args[idx]| {
          StreamRead(args, idx + 1, 0, data[1..], acc + data[..1]);
        } else {
          NextChar(args, idx, pos + 3);
          SkipsToDigit(args, idx, pos + 2, acc + data[..1]);
          StreamRead(args, idx, pos + 3, data[1..], acc + data[..1]);
        }
      } else {
        hide ByteText;
        assert Sep(false) + text == text;
        StreamRead(args, idx, pos + 2, data[1..], acc + data[..1]);
      }
    }
  }

  /** Standing on the space before a digit is as good as standing on the digit. */
  lemma SkipsToDigit(args: seq<string>, idx: nat, pos: nat, acc: seq<Byte>)
    requires idx < |args| && pos + 1 < |args[idx]| && args[idx][pos] == ' ' && SkipSpaces(args[idx], pos) == pos + 1
    requires IsXDigit(args[idx][pos + 1])
    ensures Stream(args, idx, pos, acc) == Stream(args, idx, pos + 1, acc)
  {
    assert SkipSpaces(args[idx], pos + 1) == pos + 1;
  }

  /**
    * A value printed as cells or bytes, given back whole or cut at any of its spaces into several arguments,
    * parses to the same bytes.
    */
  lemma RoundTrip(data: seq<Byte>, after: Byte, args: seq<string>)
    requires Printed(data, after).Contents? && Cuts(args, Printed(data, after).text)
    ensures Parse(args) == Parsed(data)
  {
    hide CellText;
    hide ByteText;
    hide Cells;
    hide Stream;
    hide Unread;
    hide Cuts;
    hide LooksLikeStrings;
    assert [] + data == data;
    if |data| % 4 == 0 {
      Opening(args, '<', CellText(data));
      CellsRead(args, 0, 1, data, []);
    } else {
      Opening(args, '[', ByteText(data));
      StreamRead(args, 0, 1, data, []);
    }
  }

  function Text(bytes: seq<Byte>): (s: string)
    ensures |s| == |bytes|
  {
    if bytes == [] then "" else Text(bytes[..|bytes| - 1]) + [bytes[|bytes| - 1] as char]
  }

  function Texts(parts: seq<seq<Byte>>): (ss: seq<string>)
    ensures |ss| == |parts|
  {
    if parts == [] then [] else [Text(parts[0])] + Texts(parts[1..])
  }

  lemma {:induction false} TextBack(bytes: seq<Byte>)
    ensures Codes(Text(bytes)) == bytes
  {
    if bytes != [] {
      var k := |bytes| - 1;
      TextBack(bytes[..k]);
      assert Text(bytes)[..k] == Text(bytes[..k]);
    }
  }

  lemma {:induction false} CodesConcat(a: string, b: string)
    ensures Codes(a + b) == Codes(a) + Codes(b)
  {
    if b == "" {
      assert a + b == a;
    } else {
      assert (a + b)[..|a + b| - 1] == a + b[..|b| - 1];
      CodesConcat(a, b[..|b| - 1]);
    }
  }

  /** The strings of a value, each with its NUL, are the value. */
  lemma {:induction false} PiecesBack(full: seq<Byte>, j: nat)
    requires j <= |full| && full != [] && full[|full| - 1] == 0
    ensures Codes(Terminated(Texts(Pieces(full, j)))) == full[j..]
    decreases |full| - j
  {
    hide Codes;
    hide Text;
    hide FirstNul;
    if j == |full| {
      NoCodes();
    } else {
      var k := FirstNul(full, j);
      var head, parts := full[j..k], Pieces(full, k + 1);
      PiecesBack(full, k + 1);
      var all := Texts([head] + parts);
      assert ([head] + parts)[1..] == parts;
      assert all == [Text(head)] + Texts(parts) && all[1..] == Texts(parts);
      CodesConcat(Text(head) + "\0", Terminated(Texts(parts)));
      CodesConcat(Text(head), "\0");
      TextBack(head);
      NulCode();
      assert full[j..] == (head + [0]) + full[k + 1..];
    }
  }

  lemma NoCodes()
    ensures Codes("") == []
  {
  }

  lemma NulCode()
    ensures Codes("\0") == [0]
  {
    var nul := "\0";
    assert nul[..0] == "";
  }

  // ----- strings that begin like cells or bytes

  /** A byte stream is no longer than the text it is read from. */
  lemma {:induction false} StreamShort(args: seq<string>, idx: nat, pos: nat, acc: seq<Byte>)
    requires idx < |args| && pos <= |args[idx]| && Stream(args, idx, pos, acc).Parsed?
    ensures |Stream(args, idx, pos, acc).data| < |acc| + |Terminated(args[idx..])| - pos
    decreases |args| - idx, |args[idx]| - pos
  {
    hide Strtoul;
    hide IsXDigit;
    var s, p := args[idx], SkipSpaces(args[idx], pos);
    TerminatedFrom(args, idx);
    if CharAt(s, pos) != ']' {
      if CharAt(s, p) == '\0' {
        StreamShort(args, idx + 1, 0, acc);
      } else if IsXDigit(CharAt(s, p)) {
        var (v, end) := Strtoul(s, p, 16);
        StreamShort(args, idx, end, acc + [v % 256]);
      }
    }
  }

  lemma TerminatedFrom(args: seq<string>, idx: nat)
    requires idx < |args|
    ensures |Terminated(args[idx..])| == |args[idx]| + 1 + |Terminated(args[idx + 1..])|
  {
    assert args[idx..][1..] == args[idx + 1..];
  }

  function Pow(base: nat, n: nat): nat {
    if n == 0 then 1 else base * Pow(base, n - 1)
  }

  /** A number is bounded by how many digits it has. */
  lemma {:induction false} ScanBelow(s: string, pos: nat, base: nat, acc: nat, n: nat)
    requires pos <= |s| && (base == 8 || base == 10 || base == 16) && acc < Pow(base, n)
    ensures Scan(s, pos, base, acc).0 < Pow(base, n + Scan(s, pos, base, acc).1 - pos)
    decreases |s| - pos
  {
    hide IsXDigit;
    hide DigitValue;
    hide Pow;
    if pos < |s| && IsXDigit(s[pos]) && DigitValue(s[pos]) < base {
      var next := (acc * base + DigitValue(s[pos])) % WORD;
      OneDigit(base, acc, DigitValue(s[pos]), n);
      ScanBelow(s, pos + 1, base, next, n + 1);
    }
  }

  lemma OneDigit(base: nat, acc: nat, d: nat, n: nat)
    requires (base == 8 || base == 10 || base == 16) && acc < Pow(base, n) && d < base
    ensures (acc * base + d) % WORD < Pow(base, n + 1)
  {
    var next := acc * base + d;
    if base == 8 {
      assert next < 8 * Pow(8, n);
    } else if base == 10 {
      assert next < 10 * Pow(10, n);
    } else {
      assert next < 16 * Pow(16, n);
    }
    assert next % WORD <= next;
  }

  /** Up to four characters denote a number below 2^16. */
  lemma ShortNumber(s: string, pos: nat)
    requires pos <= |s| && Strtoul(s, pos, 0).1 <= pos + 4
    ensures Strtoul(s, pos, 0).0 < 0x1_0000
  {
    hide Scan;
    hide IsXDigit;
    assert Pow(8, 0) == 1 && Pow(10, 0) == 1 && Pow(16, 0) == 1;
    hide Pow;
    if CharAt(s, pos) != '0' {
      ScanBelow(s, pos, 10, 0, 0);
      Powers(10, Scan(s, pos, 10, 0).1 - pos);
    } else if CharAt(s, pos + 1) == 'x' && IsXDigit(CharAt(s, pos + 2)) {
      ScanBelow(s, pos + 2, 16, 0, 0);
      Powers(16, Scan(s, pos + 2, 16, 0).1 - pos - 2);
    } else {
      ScanBelow(s, pos + 1, 8, 0, 0);
      Powers(8, Scan(s, pos + 1, 8, 0).1 - pos - 1);
    }
  }

  lemma Powers(base: nat, n: nat)
    requires base == 8 || base == 10 || base == 16
    requires n <= (if base == 16 then 2 else 4)
    ensures Pow(base, n) <= 0x1_0000
  {
    assert Pow(base, 0) == 1;
    if n > 0 {
      assert Pow(base, 1) == base;
    }
    if n > 1 {
      assert Pow(base, 2) == base * base;
    }
    if n > 2 {
      assert Pow(base, 3) == base * base * base;
    }
  }

  ghost predicate NoNulPair(data: seq<Byte>) {
    forall i :: 0 < i < |data| ==> data[i - 1] != 0 || data[i] != 0
  }

  /** Cells are read one after the other, and those without two NULs in a row take at least five characters each. */
  lemma {:induction false} CellsShort(args: seq<string>, idx: nat, pos: nat, acc: seq<Byte>)
    requires idx < |args| && pos <= |args[idx]| && Cells(args, idx, pos, acc).Parsed?
    ensures var data := Cells(args, idx, pos, acc).data;
      acc <= data && (NoNulPair(data) ==> 5 * |data| <= 5 * |acc| + 4 * (|Terminated(args[idx..])| - pos - 1))
    decreases |args| - idx, |args[idx]| - pos
  {
    hide Strtoul;
    hide Terminated;
    hide NoNulPair;
    var s := args[idx];
    TerminatedFrom(args, idx);
    if CharAt(s, pos) == '\0' {
      CellsShort(args, idx + 1, 0, acc);
    } else if CharAt(s, pos) != '>' {
      var (v, end) := Strtoul(s, pos, 0);
      var next := SkipSpaces(s, end);
      CellsShort(args, idx, next, acc + BigEndian(v));
      var data := Cells(args, idx, pos, acc).data;
      if NoNulPair(data) {
        CellIsLarge(data, acc, v);
        if end <= pos + 4 {
          ShortNumber(s, pos);
        }
      }
    }
  }

  lemma SmallCell(v: nat)
    ensures v < 0x1_0000 ==> BigEndian(v)[0] == 0 && BigEndian(v)[1] == 0
  {
    assert v < 0x1_0000 ==> v / 0x100_0000 == 0 && v / 0x1_0000 == 0;
  }

  lemma CellIsLarge(data: seq<Byte>, acc: seq<Byte>, v: nat)
    requires v < WORD && acc + BigEndian(v) <= data && NoNulPair(data)
    ensures v >= 0x1_0000 && acc <= data
  {
    var b := BigEndian(v);
    var i := |acc|;
    assert data[i + 1 - 1] == (acc + b)[i] == b[0] && data[i + 1] == (acc + b)[i + 1] == b[1];
    SmallCell(v);
    hide BigEndian;
  }

  // ----- the round trip of strings

  /** The first argument begins with the first byte of the value, a NUL when it is empty. */
  lemma FirstCharacter(full: seq<Byte>)
    requires full != [] && full[|full| - 1] == 0
    ensures var args := Texts(Pieces(full, 0)); args != [] && CharAt(args[0], 0) == full[0] as char
  {
    hide FirstNul;
    var head, parts := full[0..FirstNul(full, 0)], Pieces(full, FirstNul(full, 0) + 1);
    assert Pieces(full, 0) == [head] + parts;
    if head != [] {
      TextStarts(head);
    }
  }

  lemma {:induction false} TextStarts(bytes: seq<Byte>)
    requires bytes != []
    ensures Text(bytes)[0] == bytes[0] as char
  {
    if |bytes| > 1 {
      TextStarts(bytes[..|bytes| - 1]);
    }
  }

  predicate Bracket(b: Byte) {
    b == '<' as int || b == '[' as int
  }

  /**
    * A value printed as strings, given back as these strings, comes back as it was if and only if it ended with a
    * NUL and does not begin like a cell list or a byte stream; without such a beginning it always comes back with
    * the NUL of its last string.
    */
  lemma StringsRoundTrip(data: seq<Byte>, after: Byte, args: seq<string>)
    requires Printed(data, after).Quoted? && args == Texts(Printed(data, after).strings)
    ensures !Bracket(data[0]) ==> Parse(args) == Parsed(Closed(data))
    ensures Parse(args) == Parsed(data) <==> data[|data| - 1] == 0 && !Bracket(data[0])
  {
    hide Pieces;
    hide Texts;
    hide Cells;
    hide Stream;
    hide Terminated;
    hide Codes;
    hide InText;
    var full := Closed(data);
    FirstCharacter(full);
    PiecesBack(full, 0);
    assert full[0..] == full;
    assert |full| == |Terminated(args)| && |full| <= |data| + 1;
    assert NoNulPair(data);
    hide LooksLikeStrings;
    if Bracket(data[0]) {
      assert args[0..] == args;
      TooShort(args, data);
    }
  }

  /** Text in brackets is longer than the value it denotes. */
  lemma TooShort(args: seq<string>, data: seq<Byte>)
    requires args != [] && (CharAt(args[0], 0) == '<' || CharAt(args[0], 0) == '[')
    requires NoNulPair(data) && |Terminated(args)| <= |data| + 1
    ensures Parse(args) != Parsed(data)
  {
    hide Cells;
    hide Stream;
    hide Terminated;
    hide NoNulPair;
    assert args[0..] == args;
    if Parse(args) == Parsed(data) {
      if CharAt(args[0], 0) == '<' {
        CellsShort(args, 0, 1, []);
      } else {
        StreamShort(args, 0, 1, []);
      }
      assert false;
    }
  }

  /** The string "<a" is printed as it is, and is refused when it is given back. */
  lemma BracketRefused(after: Byte)
    ensures Printed([60, 97, 0], after) == Quoted([[60, 97]]) && Texts([[60, 97]]) == ["<a"]
    ensures Parse(["<a"]) == Malformed
  {
    BracketPrinted(after);
    BracketText();
    var s := "<a";
    assert Strtoul(s, 1, 0) == (0, 1);
    assert Cells([s], 0, 1, []) == Malformed;
  }

  lemma BracketPrinted(after: Byte)
    ensures Printed([60, 97, 0], after) == Quoted([[60, 97]])
  {
    var full: seq<Byte>, one: seq<Byte> := [60, 97, 0], [60, 97];
    assert FirstNul(full, 2) == 2 && FirstNul(full, 1) == 2 && FirstNul(full, 0) == 2;
    assert full[0..2] == one;
    PiecesEnd(full);
    PiecesStep(full, 0);
    assert LooksLikeStrings(full, after);
  }

  lemma BracketText()
    ensures Texts([[60, 97]]) == ["<a"]
  {
    var one: seq<Byte>, none: seq<Byte> := [60], [];
    var two: seq<Byte> := [60, 97];
    assert two[..1] == one && one[..0] == none;
    assert Text(one) == Text(none) + "<";
    assert Text(two) == Text(one) + "a";
    assert Text(two) == "<a";
    var parts := [two];
    assert parts[1..] == [];
    assert Texts(parts) == ["<a"];
  }

  /** The opening bracket is in the first argument. */
  lemma Opening(args: seq<string>, c: char, text: string)
    requires Cuts(args, [c] + text) && c != ' '
    ensures args != [] && args[0] != "" && CharAt(args[0], 0) == c && Unread(args, 0, 1) == text
  {
    assert args[0][0..] == args[0];
    assert Unread(args, 0, 0) == [c] + text;
    InOneArgument(args, 0, 0, 1);
    assert ([c] + text)[1..] == text;
  }

  // ----- the code

  /** `is_printable_string`; it looks one byte past a value that ends with a line feed. */
  method IsPrintableString(data: seq<Byte>, after: Byte) returns (printable: bool)
    ensures printable == LooksLikeStrings(data, after)
  {
    var len := |data|;
    if len == 0 {
      return false;
    }
    if data[len - 1] != 0 && data[len - 1] != 10 {
      return false;
    }
    var s := 0;
    while s < len && InText(data[s])
      invariant 0 <= s <= len && forall i :: 0 <= i < s ==> InText(data[i])
      invariant forall i :: 0 < i < len && i <= s ==> data[i - 1] != 0 || data[i] != 0
      invariant s == len ==> data[len - 1] != 0
    {
      if data[s] == 0 {
        if s + 1 == len {
          return true;
        }
        if data[s + 1] == 0 {
          return false;
        }
      }
      s := s + 1;
    }
    printable := s == len && after == 0;
  }

  /** The string loop of `print_data`. */
  method PrintStrings(full: seq<Byte>, len: nat) returns (strings: seq<seq<Byte>>)
    requires 0 < len <= |full| <= len + 1 && full[|full| - 1] == 0 && (|full| == len || full[len - 1] != 0)
    ensures strings == Pieces(full, 0)
  {
    hide Pieces;
    strings := [];
    var j := 0;
    assert [] + Pieces(full, 0) == Pieces(full, 0);
    while j < len
      invariant 0 <= j <= |full| && (j < len || j == |full|) && strings + Pieces(full, j) == Pieces(full, 0)
    {
      var k := StrEnd(full, j);
      PiecesStep(full, j);
      ghost var before, rest := strings, Pieces(full, k + 1);
      strings := strings + [full[j..k]];
      assert before + ([full[j..k]] + rest) == strings + rest;
      j := k + 1;
    }
    PiecesEnd(full);
    assert strings + [] == strings;
  }

  /** `strlen`, as the position it ends at. */
  method StrEnd(full: seq<Byte>, j: nat) returns (k: nat)
    requires j < |full| && full[|full| - 1] == 0
    ensures k == FirstNul(full, j)
  {
    k := j;
    while full[k] != 0
      invariant j <= k < |full| && FirstNul(full, j) == FirstNul(full, k)
      decreases |full| - k
    {
      k := k + 1;
    }
  }

  lemma PiecesStep(full: seq<Byte>, j: nat)
    requires j < |full| && full[|full| - 1] == 0
    ensures var k := FirstNul(full, j); Pieces(full, j) == [full[j..k]] + Pieces(full, k + 1)
  {
  }

  lemma PiecesEnd(full: seq<Byte>)
    requires full == [] || full[|full| - 1] == 0
    ensures Pieces(full, |full|) == []
  {
  }

  /** `print_data`. */
  method PrintData(data: seq<Byte>, after: Byte) returns (out: Dump)
    ensures out == Printed(data, after)
  {
    hide LooksLikeStrings;
    hide Pieces;
    if |data| == 0 {
      return Nothing;
    }
    var printable := IsPrintableString(data, after);
    if printable {
      var strings := PrintStrings(Closed(data), |data|);
      return Quoted(strings);
    }
    if |data| > MAX_DUMP {
      return AddressOnly;
    }
    var text;
    if |data| % 4 == 0 {
      text := PrintCells(data);
    } else {
      text := PrintBytes(data);
    }
    out := Contents(text);
  }

  method PrintCells(data: seq<Byte>) returns (text: string)
    requires |data| % 4 == 0 && data != []
    ensures text == "<" + CellText(data)
  {
    hide Hex;
    hide Word;
    hide CellText;
    text := "<";
    var j := 0;
    while j < |data| / 4
      invariant 0 <= j <= |data| / 4 && text + CellText(data[4 * j..]) == "<" + CellText(data)
    {
      ghost var rest := data[4 * j..];
      CellTextStep(rest);
      assert rest[..4] == data[4 * j..4 * j + 4] && rest[4..] == data[4 * (j + 1)..];
      var cell := "0x" + Hex(Word(data[4 * j..4 * j + 4]), 8);
      var sep := Sep(j < |data| / 4 - 1);
      ghost var before, more := text, CellText(rest[4..]);
      text := text + (cell + sep);
      Associate(cell, sep, more);
      Associate(before, cell + sep, more);
      j := j + 1;
    }
    NoCells();
    assert data[4 * j..] == [];
    text := text + ">";
  }

  lemma NoCells()
    ensures CellText([]) == ">" && ByteText([]) == "]"
  {
  }

  method PrintBytes(data: seq<Byte>) returns (text: string)
    ensures text == "[" + ByteText(data)
  {
    hide Hex;
    hide ByteText;
    text := "[";
    var j := 0;
    assert data[0..] == data;
    while j < |data|
      invariant 0 <= j <= |data| && text + ByteText(data[j..]) == "[" + ByteText(data)
    {
      ghost var rest := data[j..];
      ByteTextStep(rest);
      assert rest[0] == data[j] && rest[1..] == data[j + 1..];
      var digits := Hex(data[j], 2);
      var sep := Sep(j < |data| - 1);
      ghost var before, more := text, ByteText(rest[1..]);
      text := text + (digits + sep);
      Associate(digits, sep, more);
      Associate(before, digits + sep, more);
      j := j + 1;
    }
    NoCells();
    assert data[j..] == [];
    text := text + "]";
  }

  /** `fdt_parse_prop`; `newp` is the character at `pos` of the argument numbered `stridx`. */
  method ParseProp(newval: seq<string>) returns (out: Outcome)
    requires forall i :: 0 <= i < |newval| ==> CString(newval[i])
    ensures out == Parse(newval)
  {
    if newval == [] {
      return PastEnd;
    }
    if CharAt(newval[0], 0) == '<' {
      out := ParseCells(newval);
    } else if CharAt(newval[0], 0) == '[' {
      out := ParseStream(newval);
    } else {
      var text := ParseStrings(newval);
      out := Parsed(Codes(text));
    }
  }

  method ParseStrings(newval: seq<string>) returns (text: string)
    ensures text == Terminated(newval)
  {
    var stridx := 0;
    text := "";
    assert newval[0..] == newval;
    while stridx < |newval|
      invariant 0 <= stridx <= |newval| && text + Terminated(newval[stridx..]) == Terminated(newval)
    {
      assert newval[stridx..][1..] == newval[stridx + 1..];
      ghost var before, one, rest := text, newval[stridx] + "\0", Terminated(newval[stridx + 1..]);
      text := text + (newval[stridx] + "\0");
      Associate(before, one, rest);
      stridx := stridx + 1;
    }
    assert newval[stridx..] == [];
    assert text + "" == text;
  }

  method ParseCells(newval: seq<string>) returns (out: Outcome)
    requires newval != [] && CharAt(newval[0], 0) == '<' && forall i :: 0 <= i < |newval| ==> CString(newval[i])
    ensures out == Cells(newval, 0, 1, [])
  {
    var data: seq<Byte>, stridx, pos := [], 0, 1;
    while CharAt(newval[stridx], pos) != '>'
      invariant 0 <= stridx < |newval| && 0 <= pos <= |newval[stridx]|
      invariant Cells(newval, stridx, pos, data) == Cells(newval, 0, 1, [])
      decreases |newval| - stridx, |newval[stridx]| - pos
    {
      if CharAt(newval[stridx], pos) == '\0' {
        stridx, pos := stridx + 1, 0;
        if stridx == |newval| {
          return PastEnd;
        }
        continue;
      }
      var cp := pos;
      var tmp;
      tmp, pos := SimpleStrtoul(newval[stridx], cp, 0);
      data := data + BigEndian(tmp);
      if pos - cp <= 0 {
        return Malformed;
      }
      pos := StepOverSpaces(newval[stridx], pos);
    }
    out := Parsed(data);
  }

  /** The loop that steps over spaces. */
  method StepOverSpaces(s: string, pos: nat) returns (p: nat)
    requires pos <= |s|
    ensures p == SkipSpaces(s, pos)
  {
    p := pos;
    while CharAt(s, p) == ' '
      invariant pos <= p <= |s| && SkipSpaces(s, p) == SkipSpaces(s, pos)
      decreases |s| - p
    {
      p := p + 1;
    }
  }

  method ParseStream(newval: seq<string>) returns (out: Outcome)
    requires newval != [] && CharAt(newval[0], 0) == '[' && forall i :: 0 <= i < |newval| ==> CString(newval[i])
    ensures out == Stream(newval, 0, 1, [])
  {
    var data: seq<Byte>, stridx, pos := [], 0, 1;
    while CharAt(newval[stridx], pos) != ']'
      invariant 0 <= stridx < |newval| && 0 <= pos <= |newval[stridx]|
      invariant Stream(newval, stridx, pos, data) == Stream(newval, 0, 1, [])
      decreases |newval| - stridx, |newval[stridx]| - pos
    {
      pos := StepOverSpaces(newval[stridx], pos);
      if CharAt(newval[stridx], pos) == '\0' {
        stridx, pos := stridx + 1, 0;
        if stridx == |newval| {
          return PastEnd;
        }
        continue;
      }
      if !IsXDigit(CharAt(newval[stridx], pos)) {
        break;
      }
      var tmp;
      tmp, pos := SimpleStrtoul(newval[stridx], pos, 16);
      data := data + [tmp % 256];
    }
    out := if CharAt(newval[stridx], pos) == ']' then Parsed(data) else Malformed;
  }
}
