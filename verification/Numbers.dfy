/** Numbers in text: hexadecimal digits, and the number parser of lib/strto.c. */
module Numbers {
  import opened Arithmetic

  datatype Option<T> = None | Some(value: T)

  // ----- digits

  predicate IsDigit(c: char) {
    '0' <= c <= '9'
  }

  predicate IsXDigit(c: char) {
    IsDigit(c) || 'a' <= c <= 'f' || 'A' <= c <= 'F'
  }

  function DigitValue(c: char): (v: nat)
    requires IsXDigit(c)
    ensures v < 16
  {
    if IsDigit(c) then (c as int) - ('0' as int)
    else if 'a' <= c then (c as int) - ('a' as int) + 10
    else (c as int) - ('A' as int) + 10
  }

  /** The digit for v; digits above nine start at `letter`. */
  function HexDigit(v: nat, letter: char): (c: char)
    requires v < 16 && (letter == 'a' || letter == 'A')
    ensures IsXDigit(c) && DigitValue(c) == v
    ensures letter == 'A' ==> '0' <= c <= 'F'
  {
    if v < 10 then ('0' as int + v) as char else (letter as int + v - 10) as char
  }

  // ----- the parser

  /** The character a C string shows at a position up to its terminator. */
  function CharAt(s: string, pos: nat): char {
    if pos < |s| then s[pos] else '\0'
  }

  ghost predicate CString(s: string) {
    forall i :: 0 <= i < |s| ==> s[i] != '\0'
  }

  /** The digit loop of simple_strtoul: value and end position. */
  function Scan(s: string, pos: nat, base: nat, acc: nat): (r: (nat, nat))
    requires pos <= |s|
    ensures pos <= r.1 <= |s| && (acc < WORD ==> r.0 < WORD)
    decreases |s| - pos
  {
    if pos < |s| && IsXDigit(s[pos]) && DigitValue(s[pos]) < base
    then Scan(s, pos + 1, base, (acc * base + DigitValue(s[pos])) % WORD)
    else (acc, pos)
  }

  /** `simple_strtoul`; a base of 0 lets the prefix decide. */
  function Strtoul(s: string, pos: nat, base: nat): (r: (nat, nat))
    requires pos <= |s|
    ensures pos <= r.1 <= |s| && r.0 < WORD
    ensures base == 16 && IsXDigit(CharAt(s, pos)) ==> r.1 > pos
  {
    if CharAt(s, pos) == '0' then
      if CharAt(s, pos + 1) == 'x' && IsXDigit(CharAt(s, pos + 2)) then Scan(s, pos + 2, 16, 0)
      else Scan(s, pos + 1, if base == 0 then 8 else base, 0)
    else Scan(s, pos, if base == 0 then 10 else base, 0)
  }

  /** `simple_strtoul`: the value and the position behind the number. */
  method SimpleStrtoul(s: string, pos: nat, base0: nat) returns (result: nat, cp: nat)
    requires pos <= |s| && CString(s)
    ensures (result, cp) == Strtoul(s, pos, base0)
  {
    var base;
    cp, base := pos, base0;
    if CharAt(s, cp) == '0' {
      cp := cp + 1;
      if CharAt(s, cp) == 'x' && IsXDigit(CharAt(s, cp + 1)) {
        base := 16;
        cp := cp + 1;
      }
      if base == 0 {
        base := 8;
      }
    }
    if base == 0 {
      base := 10;
    }
    result, cp := ScanDigits(s, cp, base);
  }

  method ScanDigits(s: string, pos: nat, base: nat) returns (result: nat, cp: nat)
    requires pos <= |s| && CString(s)
    ensures (result, cp) == Scan(s, pos, base, 0)
  {
    result, cp := 0, pos;
    while IsXDigit(CharAt(s, cp)) && DigitValue(CharAt(s, cp)) < base
      invariant pos <= cp <= |s| && Scan(s, pos, base, 0) == Scan(s, cp, base, result)
      decreases |s| - cp
    {
      result := (result * base + DigitValue(CharAt(s, cp))) % WORD;
      cp := cp + 1;
    }
  }

  /** The number that the whole rest of a string is, in hexadecimal. */
  function Whole(s: string, pos: nat): Option<nat>
    requires pos <= |s|
  {
    var (v, end) := Strtoul(s, pos, 16);
    if end == pos || end < |s| then None else Some(v)
  }
}
