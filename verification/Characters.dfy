/** Classes of characters, and numerals. */
module Characters {

  /** `\s` */
  predicate IsSpace(c: char) {
    var n := c as nat;
    9 <= n <= 13 || n in {32, 160, 5760, 6158, 8232, 8233, 8239, 8287, 12288, 65279} || 8192 <= n <= 8202
  }

  predicate IsDigit(c: char) {
    '0' <= c <= '9'
  }

  predicate IsLetter(c: char) {
    'a' <= c <= 'z' || 'A' <= c <= 'Z'
  }

  predicate IsAlnum(c: char) {
    IsDigit(c) || IsLetter(c)
  }

  /** The classes, written out. */
  lemma ClassesAre(c: char)
    ensures IsDigit(c) <==> c in "0123456789"
    ensures IsLetter(c) <==> c in "abcdefghijklmnopqrstuvwxyz" || c in "ABCDEFGHIJKLMNOPQRSTUVWXYZ"
    ensures IsSpace(c) <==>
            c in "\t\n\U{000B}\U{000C}\r \U{00A0}\U{1680}\U{180E}\U{2000}\U{2001}\U{2002}\U{2003}\U{2004}\U{2005}\U{2006}\U{2007}\U{2008}\U{2009}\U{200A}\U{2028}\U{2029}\U{202F}\U{205F}\U{3000}\U{FEFF}"
  {
  }

  /** The value of a digit in a base up to 36, and 36 for everything else. */
  function DigitValue(c: char): nat {
    if IsDigit(c) then (c - '0') as nat
    else if 'a' <= c <= 'z' then (c - 'a') as nat + 10
    else if 'A' <= c <= 'Z' then (c - 'A') as nat + 10
    else 36
  }

  /** The number a decimal numeral denotes. */
  function NumberOf(text: string): nat {
    if text == "" then 0 else 10 * NumberOf(text[..|text| - 1]) + DigitValue(text[|text| - 1])
  }

  // ------------------------------------------------------------------ numerals

  /** The digit stands for the number. */
  ghost predicate IsDigitOf(c: char, v: nat) {
    v < 16 && (c == "0123456789abcdef"[v] || c == "0123456789ABCDEF"[v])
  }

  /** The numeral, perhaps with leading zeros, stands for the number in the base. */
  ghost predicate Writes(numeral: string, base: nat, n: nat) {
    base > 0 && numeral != "" &&
    var front, last := numeral[..|numeral| - 1], numeral[|numeral| - 1];
    IsDigitOf(last, n % base) && if front == "" then n < base else Writes(front, base, n / base)
  }

  lemma DigitIs(c: char, v: nat)
    requires IsDigitOf(c, v)
    ensures DigitValue(c) == v && IsAlnum(c) && c !in "xX&;'\"<>"
  {
  }

  lemma {:induction false} NumeralAlnum(numeral: string, base: nat, n: nat)
    requires Writes(numeral, base, n)
    ensures forall i :: 0 <= i < |numeral| ==> IsAlnum(numeral[i]) && numeral[i] !in "xX&;'\"<>"
    decreases |numeral|
  {
    var front, last := numeral[..|numeral| - 1], numeral[|numeral| - 1];
    DigitIs(last, n % base);
    if front != "" {
      NumeralAlnum(front, base, n / base);
      assert forall i :: 0 <= i < |front| ==> numeral[i] == front[i];
    }
  }

  lemma QuotientAndRest(n: nat, base: nat)
    requires base > 0
    ensures n / base * base + n % base == n && n % base < base && (n < base ==> n % base == n)
  {
  }

  /** A decimal numeral denotes the number it is written for. */
  lemma {:induction false} NumberOfWritten(numeral: string, n: nat)
    requires Writes(numeral, 10, n)
    ensures NumberOf(numeral) == n && forall i :: 0 <= i < |numeral| ==> IsDigit(numeral[i])
    decreases |numeral|
  {
    var front, last := numeral[..|numeral| - 1], numeral[|numeral| - 1];
    DigitIs(last, n % 10);
    if front != "" {
      NumberOfWritten(front, n / 10);
      assert forall i :: 0 <= i < |front| ==> numeral[i] == front[i];
    }
  }
}
