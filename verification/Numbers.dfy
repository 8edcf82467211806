/** Decimal printing and `atoi`. */
module Numbers {
  import opened CStrings

  const INT_MAX: int := 0x7FFF_FFFF
  const INT_MIN: int := -0x8000_0000
  const LONG_MAX: int := 0x7FFF_FFFF_FFFF_FFFF
  const LONG_MIN: int := -0x8000_0000_0000_0000

  predicate IsDigit(c: char) {
    '0' <= c <= '9'
  }

  function Digit(d: nat): (c: char)
    requires d < 10
    ensures IsDigit(c) && c as int - '0' as int == d
  {
    (d + '0' as int) as char
  }

  /** "%d" of a natural number. */
  function Digits(n: nat): (s: string)
    ensures |s| > 0 && forall i | 0 <= i < |s| :: IsDigit(s[i])
  {
    if n < 10 then [Digit(n)] else Digits(n / 10) + [Digit(n % 10)]
  }

  /** "%d" of an integer. */
  function Dec(i: int): string {
    if i < 0 then "-" + Digits(-i) else Digits(i)
  }

  /** The number spelled by the leading digits of `s`, after `acc` was read already. */
  function LeadingValue(s: string, acc: nat): nat {
    if s != [] && IsDigit(s[0]) then LeadingValue(s[1..], 10 * acc + (s[0] as int - '0' as int)) else acc
  }

  function SkipSpaces(s: string): string {
    if s != [] && IsSpace(s[0]) then SkipSpaces(s[1..]) else s
  }

  predicate Blank(s: string) {
    forall i | 0 <= i < |s| :: IsSpace(s[i])
  }

  /** What is skipped is blank, and what is left does not start with a blank; nothing else is like that. */
  lemma {:induction false} SkipSpacesIs(blanks: string, rest: string)
    requires Blank(blanks) && (rest != "" ==> !IsSpace(rest[0]))
    ensures SkipSpaces(blanks + rest) == rest
  {
    if blanks == "" {
      assert blanks + rest == rest;
    } else {
      assert (blanks + rest)[1..] == blanks[1..] + rest;
      SkipSpacesIs(blanks[1..], rest);
    }
  }

  lemma {:induction false} SkipSpacesSplits(s: string) returns (blanks: string)
    ensures Blank(blanks) && s == blanks + SkipSpaces(s)
    ensures SkipSpaces(s) != "" ==> !IsSpace(SkipSpaces(s)[0])
  {
    blanks := "";
    if s != "" && IsSpace(s[0]) {
      var more := SkipSpacesSplits(s[1..]);
      blanks := [s[0]] + more;
    }
  }

  function Saturate(i: int): int {
    if i < LONG_MIN then LONG_MIN else if i > LONG_MAX then LONG_MAX else i
  }

  /** A C cast of a long to an int. */
  function Wrap(i: int): (r: int)
    ensures INT_MIN <= r <= INT_MAX
  {
    (i - INT_MIN) % 0x1_0000_0000 + INT_MIN
  }

  /** `atoi`: blanks, an optional sign, then digits up to the first other character.
      glibc reads a long that saturates and casts it to int. */
  function Atoi(s: string): (r: int)
    ensures INT_MIN <= r <= INT_MAX
  {
    var t := SkipSpaces(s);
    if t != [] && t[0] == '-' then Wrap(Saturate(0 - LeadingValue(t[1..], 0)))
    else if t != [] && t[0] == '+' then Wrap(Saturate(LeadingValue(t[1..], 0)))
    else Wrap(Saturate(LeadingValue(t, 0)))
  }

  lemma {:induction false} LeadingValueAppend(s: string, d: char, acc: nat)
    requires forall i | 0 <= i < |s| :: IsDigit(s[i])
    requires IsDigit(d)
    ensures LeadingValue(s + [d], acc) == 10 * LeadingValue(s, acc) + (d as int - '0' as int)
  {
    if s == [] {
      assert ([] + [d])[1..] == [];
    } else {
      assert (s + [d])[1..] == s[1..] + [d];
      LeadingValueAppend(s[1..], d, 10 * acc + (s[0] as int - '0' as int));
    }
  }

  lemma {:induction false} DigitsRead(n: nat)
    ensures LeadingValue(Digits(n), 0) == n
  {
    if n < 10 {
      assert [Digit(n)][1..] == [];
    } else {
      DigitsRead(n / 10);
      LeadingValueAppend(Digits(n / 10), Digit(n % 10), 0);
    }
  }

  /** `atoi` inverts "%d" on every int. */
  lemma AtoiInvertsDec(i: int)
    requires INT_MIN <= i <= INT_MAX
    ensures Atoi(Dec(i)) == i
  {
    if i < 0 {
      assert ("-" + Digits(-i))[1..] == Digits(-i);
      DigitsRead(-i);
    } else {
      DigitsRead(i);
    }
  }

  /** The decimal form of `n` is never longer than `n` itself, from 1 on. */
  lemma {:induction false} DigitsShort(n: nat)
    ensures |Digits(n)| <= if n == 0 then 1 else n
  {
    if n >= 10 {
      DigitsShort(n / 10);
    }
  }

  /** An int prints in far fewer characters than the buffer of 256 the tokeniser keeps for it. */
  lemma {:induction false} DigitsBound(n: nat, k: nat, bound: nat)
    requires k > 0 && n < bound && bound == Pow10(k)
    ensures |Digits(n)| <= k
    decreases k
  {
    if n >= 10 {
      DigitsBound(n / 10, k - 1, Pow10(k - 1));
    }
  }

  function Pow10(k: nat): nat {
    if k == 0 then 1 else 10 * Pow10(k - 1)
  }
}
