/** Strings as sequences of characters: decimal rendering of ids (PHP's
    integer-to-string interpolation), its inverse, substring search
    (`str_contains`) and the directory part of a path (`dirname`). */
module Text {

  predicate IsDigit(c: char) {
    '0' <= c <= '9'
  }

  predicate AllDigits(s: string) {
    forall i :: 0 <= i < |s| ==> IsDigit(s[i])
  }

  function DigitValue(c: char): nat
    requires IsDigit(c)
  {
    c as int - '0' as int
  }

  function DigitChar(d: nat): (c: char)
    requires d < 10
    ensures IsDigit(c) && DigitValue(c) == d
  {
    ('0' as int + d) as char
  }

  /** The decimal text of a natural number, without leading zeros. */
  function NatToString(n: nat): (s: string)
    ensures |s| >= 1 && AllDigits(s)
    ensures |s| > 1 ==> s[0] != '0'
    decreases n
  {
    if n < 10 then [DigitChar(n)] else NatToString(n / 10) + [DigitChar(n % 10)]
  }

  /** The decimal text of an integer, with a leading '-' when negative. */
  function IntToString(i: int): (s: string)
    ensures |s| >= 1
    ensures i >= 0 ==> AllDigits(s)
    ensures i < 0 ==> s[0] == '-'
  {
    if i < 0 then "-" + NatToString(-i) else NatToString(i)
  }

  /** Reads a run of decimal digits back as a number. */
  function ParseNat(s: string): nat
    requires AllDigits(s)
  {
    if |s| == 0 then 0 else ParseNat(s[..|s| - 1]) * 10 + DigitValue(s[|s| - 1])
  }

  /** Reading the decimal text of `n` gives back `n`. */
  lemma {:induction false} ParseNatToString(n: nat)
    ensures ParseNat(NatToString(n)) == n
  {
    var s := NatToString(n);
    if n >= 10 {
      assert s[..|s| - 1] == NatToString(n / 10);
      ParseNatToString(n / 10);
    }
  }

  /** Reading the text of a non-negative integer gives it back. */
  lemma ParseIntToString(i: int)
    ensures i >= 0 ==> AllDigits(IntToString(i)) && ParseNat(IntToString(i)) == i
  {
    if i >= 0 {
      ParseNatToString(i);
    }
  }

  /** The number of bytes the UTF-8 encoding of one character takes. */
  function Utf8Width(c: char): (n: nat)
    ensures 1 <= n <= 4
    ensures n == 1 <==> c as int < 0x80
  {
    if c as int < 0x80 then 1
    else if c as int < 0x800 then 2
    else if c as int < 0x1_0000 then 3
    else 4
  }

  /** The length in bytes of the UTF-8 encoding of a string. */
  function Utf8Length(s: string): (n: nat)
    ensures |s| <= n <= 4 * |s|
    ensures (forall i :: 0 <= i < |s| ==> s[i] as int < 0x80) ==> n == |s|
  {
    if |s| == 0 then 0 else Utf8Length(s[..|s| - 1]) + Utf8Width(s[|s| - 1])
  }

  /** One character through PHP's `strtolower`. */
  function LowerChar(c: char): (d: char)
    ensures 'A' <= c <= 'Z' ==> d as int == c as int + 32
    ensures !('A' <= c <= 'Z') ==> d == c
  {
    if 'A' <= c <= 'Z' then (c as int + 32) as char else c
  }

  /** PHP's `strtolower`: ASCII capitals become small letters, nothing else changes. */
  function AsciiLower(s: string): (t: string)
    ensures |t| == |s|
  {
    if |s| == 0 then [] else AsciiLower(s[..|s| - 1]) + [LowerChar(s[|s| - 1])]
  }

  /** `AsciiLower` works character by character. */
  lemma {:induction false} AsciiLowerAt(s: string, i: nat)
    requires i < |s|
    ensures AsciiLower(s)[i] == LowerChar(s[i])
    decreases |s|
  {
    if i < |s| - 1 {
      AsciiLowerAt(s[..|s| - 1], i);
    }
  }

  /** The characters PHP's `trim` strips by default: space, tab, line feed,
      carriage return, NUL and vertical tab. */
  predicate TrimmedChar(c: char) {
    c == ' ' || c == '\t' || c == '\n' || c == '\r' || c as int == 0 || c as int == 11
  }

  /** PHP's `trim`: the string without its leading and trailing trimmed
      characters. */
  function Trim(s: string): string
    decreases |s|
  {
    if |s| > 0 && TrimmedChar(s[0]) then Trim(s[1..])
    else if |s| > 0 && TrimmedChar(s[|s| - 1]) then Trim(s[..|s| - 1])
    else s
  }

  /** `Trim` leaves no trimmed character at either end, and leaves alone a
      string that has none there. */
  lemma {:induction false} TrimmedEnds(s: string)
    ensures var t := Trim(s); |t| > 0 ==> !TrimmedChar(t[0]) && !TrimmedChar(t[|t| - 1])
    ensures |s| > 0 && !TrimmedChar(s[0]) && !TrimmedChar(s[|s| - 1]) ==> Trim(s) == s
    decreases |s|
  {
    if |s| > 0 && TrimmedChar(s[0]) {
      TrimmedEnds(s[1..]);
    } else if |s| > 0 && TrimmedChar(s[|s| - 1]) {
      TrimmedEnds(s[..|s| - 1]);
    }
  }

  /** Different numbers have different decimal texts. */
  lemma NatToStringInjective(a: nat, b: nat)
    requires NatToString(a) == NatToString(b)
    ensures a == b
  {
    ParseNatToString(a);
    ParseNatToString(b);
  }

  predicate IsPrefix(p: string, s: string) {
    |p| <= |s| && s[..|p|] == p
  }

  predicate OccursAt(s: string, needle: string, i: int) {
    0 <= i && i + |needle| <= |s| && s[i..i + |needle|] == needle
  }

  /** `str_contains($s, $needle)`: some window of `s` equals `needle`. */
  predicate Contains(s: string, needle: string) {
    exists i :: 0 <= i <= |s| - |needle| && OccursAt(s, needle, i)
  }

  predicate NoSlash(s: string) {
    forall i :: 0 <= i < |s| ==> s[i] != '/'
  }

  /** PHP's `dirname` on a relative path: everything before the last '/',
      or "." when there is none. */
  function DirName(s: string): (d: string)
    ensures NoSlash(s) ==> d == "."
    decreases |s|
  {
    if |s| == 0 then "."
    else if s[|s| - 1] == '/' then s[..|s| - 1]
    else DirName(s[..|s| - 1])
  }

  /** Appending a slash and a slash-free name to a directory leaves `dirname` at that directory. */
  lemma {:induction false} DirNameOfChild(dir: string, name: string)
    requires NoSlash(name)
    ensures DirName(dir + "/" + name) == dir
    decreases |name|
  {
    var s := dir + "/" + name;
    if |name| == 0 {
      assert s[..|s| - 1] == dir;
    } else {
      assert s[..|s| - 1] == dir + "/" + name[..|name| - 1];
      DirNameOfChild(dir, name[..|name| - 1]);
    }
  }
}
