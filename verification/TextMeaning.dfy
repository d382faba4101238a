/** What the texts of libc/string.c mean, written out in characters: printing in every
    base, and parsing of any text put together from blanks, sign, prefix, digits and
    a rest. */
module TextMeaning {
  import opened Wrappers
  import opened IntegerText
  import Mods

  // ------------------------------------------------------------------- printing

  /** The digit a character stands for in bases up to 36. */
  function DigitIndex(c: char): int {
    if '0' <= c <= '9' then c as int - '0' as int
    else if 'a' <= c <= 'z' then c as int - 'a' as int + 10
    else -1
  }

  predicate Placed(t: string, base: nat) {
    forall i :: 0 <= i < |t| ==> 0 <= DigitIndex(t[i]) < base
  }

  /** The place value of a text, most significant digit first. */
  function PlaceValue(t: string, base: nat): int {
    if t == "" then 0 else PlaceValue(t[..|t| - 1], base) * base + DigitIndex(t[|t| - 1])
  }

  lemma PlaceSnoc(t: string, c: char, base: nat)
    ensures PlaceValue(t + [c], base) == PlaceValue(t, base) * base + DigitIndex(c)
  {
    assert (t + [c])[..|t|] == t;
  }

  lemma IndexOfDigit(d: nat)
    requires d < 36
    ensures DigitIndex(Digit(d)) == d
  {
  }

  /** In every base the digits of v are digits, have the place value v, and do not
      begin with 0. */
  lemma {:induction false} DigitsPlaced(v: nat, base: nat)
    requires GoodBase(base)
    ensures Placed(Digits(v, base), base) && PlaceValue(Digits(v, base), base) == v
    ensures v > 0 ==> Digits(v, base) != "" && Digits(v, base)[0] != '0'
    decreases v
  {
    if v > 0 {
      var q, r := Quotient(v, base), Remainder(v, base);
      DigitsPlaced(q, base);
      IndexOfDigit(r);
      PlaceSnoc(Digits(q, base), Digit(r), base);
      Division(v, base);
    }
  }

  lemma NumeralPlaced(v: nat, base: nat)
    requires GoodBase(base)
    ensures Placed(Numeral(v, base), base) && PlaceValue(Numeral(v, base), base) == v
    ensures Numeral(v, base) != "" && (Numeral(v, base)[0] == '0' <==> v == 0) && (v == 0 ==> Numeral(v, base) == "0")
  {
    DigitsPlaced(v, base);
    PlaceSnoc("", '0', base);
    assert "" + ['0'] == "0";
  }

  /** What itoa prints, for every value and every base: nothing for a bad base, a sign and
      the magnitude for a negative decimal, otherwise the value modulo 2^32. */
  lemma TextPlaced(value: int, base: nat)
    requires IsI32(value)
    ensures var t := Text(value, base);
            if base < 2 || base > 36 then t == ""
            else if base == 10 && value < 0 then t != "" && t[0] == '-' && Minimal(t[1..], -value, 10)
            else Minimal(t, if value < 0 then value + 0x1_0000_0000 else value, base)
  {
    if GoodBase(base) {
      var n := if value >= 0 then value else if base == 10 then -value else value + 0x1_0000_0000;
      NumeralPlaced(n, base);
      assert ("-" + Numeral(n, base))[1..] == Numeral(n, base);
    }
  }

  /** t has the place value v and no leading zero. */
  ghost predicate Minimal(t: string, v: int, base: nat) {
    Placed(t, base) && PlaceValue(t, base) == v && t != "" && (t[0] == '0' ==> t == "0")
  }

  // -------------------------------------------------------------------- parsing

  /** Digits of the three readers have their place value. */
  lemma {:induction false} ValuePlaced(t: string, base: nat)
    requires base in {2, 10, 16} && AllDigits(t, base) && LowerCase(t)
    ensures Value(t, base) == PlaceValue(t, base)
    decreases |t|
  {
    if t != "" {
      var u, c := t[..|t| - 1], t[|t| - 1];
      assert t == u + [c];
      ValuePlaced(u, base);
      ScaleIsProduct(Value(u, base), base, DigitOf(c, base));
      SameIndex(c, base);
    }
  }

  lemma SameIndex(c: char, base: nat)
    requires base in {2, 10, 16} && DigitOf(c, base) >= 0 && !('A' <= c <= 'Z')
    ensures DigitOf(c, base) == DigitIndex(c)
  {
  }

  function LowerChar(c: char): char {
    if 'A' <= c <= 'Z' then ((c as int) + 32) as char else c
  }

  function Lower(t: string): (l: string)
    ensures |l| == |t| && forall i :: 0 <= i < |t| ==> l[i] == LowerChar(t[i])
  {
    seq(|t|, i requires 0 <= i < |t| => LowerChar(t[i]))
  }

  lemma LowerIndex(c: char)
    requires DigitOf(c, 16) >= 0
    ensures DigitOf(LowerChar(c), 16) == DigitOf(c, 16)
  {
  }

  /** Capital hexadecimal digits count as the small ones. */
  lemma {:induction false} CapitalsCount(t: string)
    requires AllDigits(t, 16)
    ensures AllDigits(Lower(t), 16) && Value(Lower(t), 16) == Value(t, 16)
    decreases |t|
  {
    forall i | 0 <= i < |t| ensures DigitOf(Lower(t)[i], 16) == DigitOf(t[i], 16) {
      LowerIndex(t[i]);
    }
    if t != "" {
      var u, c := t[..|t| - 1], t[|t| - 1];
      assert Lower(t)[..|t| - 1] == Lower(u);
      CapitalsCount(u);
    }
  }

  /** Which characters are digits of the three readers. */
  lemma DigitsAre(c: char)
    ensures DigitOf(c, 2) >= 0 <==> c == '0' || c == '1'
    ensures DigitOf(c, 10) >= 0 <==> '0' <= c <= '9'
    ensures DigitOf(c, 16) >= 0 <==> '0' <= c <= '9' || 'a' <= c <= 'f' || 'A' <= c <= 'F'
  {
  }

  /** Digits, and then something that is no digit. */
  predicate DigitsThen(d: string, rest: string, base: nat)
    requires base in {2, 10, 16}
  {
    AllDigits(d, base) && (rest == "" || DigitOf(rest[0], base) < 0)
  }

  predicate Ends(rest: string) { rest == "" || rest[0] == '\0' }

  lemma LeadingOf(d: string, rest: string, base: nat)
    requires base in {2, 10, 16} && DigitsThen(d, rest, base)
    ensures Leading(d + rest, base) == d && (At(d + rest, |d|) == '\0' <==> Ends(rest))
  {
    assert (d + rest)[..|d|] == d;
    LeadingIs(d + rest, |d|, base);
  }

  lemma DecimalThen(d: string, rest: string)
    requires DigitsThen(d, rest, 10)
    ensures Decimal(d + rest) == if Ends(rest) then I32(Value(d, 10)) else 0
  {
    LeadingOf(d, rest, 10);
  }

  /** Blanks in front, spaces and tabs, are skipped. */
  lemma {:induction false} BlanksIgnored(b: string, s: string)
    requires forall i :: 0 <= i < |b| ==> b[i] == ' ' || b[i] == '\t'
    ensures Parsed(b + s) == Parsed(s)
  {
    BlanksTrimmed(b, s);
  }

  lemma {:induction false} BlanksTrimmed(b: string, s: string)
    requires forall i :: 0 <= i < |b| ==> b[i] == ' ' || b[i] == '\t'
    ensures Trimmed(b + s) == Trimmed(s)
  {
    if b == "" {
      assert b + s == s;
    } else {
      assert (b + s)[1..] == b[1..] + s;
      BlanksTrimmed(b[1..], s);
    }
  }

  /** Decimal digits with an optional sign: their value if the text ends there, else 0. */
  lemma DecimalText(d: string, rest: string)
    requires d != "" && DigitsThen(d, rest, 10)
    requires d[0] == '0' ==> At(d + rest, 1) !in {'b', 'B', 'x', 'X'}
    ensures Parsed(d + rest) == Some(if Ends(rest) then I32(Value(d, 10)) else 0)
  {
    DecimalThen(d, rest);
    DigitsAre(d[0]);
    ParsedIs(d + rest);
    ReadDecimal(d + rest);
  }

  /** With a minus sign the negated value, or 0. */
  lemma SignedText(d: string, rest: string, w: int)
    requires DigitsThen(d, rest, 10)
    requires w == if Ends(rest) then I32(Value(d, 10)) else 0
    ensures Parsed("-" + (d + rest)) == Some(I32(-w))
  {
    DecimalThen(d, rest);
    SignedDecimal(d + rest, w);
  }

  /** Binary digits after 0b or 0B: their value, whatever follows. */
  lemma BinaryText(p: char, d: string, rest: string)
    requires (p == 'b' || p == 'B') && DigitsThen(d, rest, 2)
    ensures Parsed(['0', p] + (d + rest)) == Some(I32(Value(d, 2)))
  {
    ParsedPrefixed(d + rest, p);
    LeadingOf(d, rest, 2);
  }

  /** Hexadecimal digits after 0x or 0X: their value if the text ends there, else 0 or a
      division by zero. */
  lemma HexadecimalText(p: char, d: string, rest: string)
    requires (p == 'x' || p == 'X') && DigitsThen(d, rest, 16)
    ensures var v := I32(Value(d, 16));
            Parsed(['0', p] + (d + rest)) == if Ends(rest) then Some(v) else if v == 0 then None else Some(0)
  {
    ParsedPrefixed(d + rest, p);
    LeadingOf(d, rest, 16);
  }

  /** Any other beginning is no number: 0. */
  lemma NoNumber(s: string)
    requires s != "" && s[0] != '\0' && s[0] !in {' ', '\t', '-'} && DigitOf(s[0], 10) < 0
    ensures Parsed(s) == Some(0)
  {
    ParsedIs(s);
    DecimalThen("", s);
    assert "" + s == s;
  }
}
