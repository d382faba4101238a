/** Printing and parsing integers (libc/string.c): digits written backwards and
    reversed in place, and the parser with its base prefixes.  32-bit signed
    arithmetic is written out as two's complement. */
module IntegerText {
  import opened Wrappers
  import Mods

  const U32: nat := 0x1_0000_0000
  const I32_LIMIT: int := 0x8000_0000

  /** The i32 with the same low 32 bits as x. */
  function I32(x: int): (r: int)
    ensures -I32_LIMIT <= r < I32_LIMIT
  {
    var m := x % U32;
    if m < I32_LIMIT then m else m - U32
  }

  predicate IsI32(x: int) { -I32_LIMIT <= x < I32_LIMIT }

  lemma I32OfI32(x: int)
    requires IsI32(x)
    ensures I32(x) == x && I32(x + U32) == x
  {
  }

  /** The u32 with the same low 32 bits as x. */
  function Unsigned(x: int): nat { x % U32 }

  lemma UnsignedI32(x: int)
    requires IsI32(x)
    ensures Unsigned(x) == if x >= 0 then x else x + U32
    ensures x < 0 ==> Unsigned(I32(-x)) == -x
  {
    Mods.ModUnique(x, U32, if x >= 0 then 0 else -1, if x >= 0 then x else x + U32);
    if x < 0 {
      Mods.ModUnique(-x, U32, 0, -x);
      var w := I32(-x);
      assert w == if x == -I32_LIMIT then x else -x;
      Mods.ModUnique(w, U32, if w >= 0 then 0 else -1, -x);
    }
  }

  lemma I32Fixed(v: nat)
    requires v < U32
    ensures I32(v) == v <==> v < I32_LIMIT
  {
  }

  /** A wrapped accumulator takes one more digit as if it had not wrapped. */
  lemma WrapStep(x: int, base: nat, d: nat)
    ensures I32(I32(x) * base + d) == I32(x * base + d)
  {
    var q := if x % U32 < I32_LIMIT then x / U32 else x / U32 + 1;
    assert I32(x) == x - q * U32;
    Mods.Distribute(x, q * U32, base);
    assert (q * U32) * base == (q * base) * U32;
    ShiftMod(x * base + d, q * base);
  }

  lemma ShiftMod(x: int, k: int)
    ensures I32(x - k * U32) == I32(x)
  {
    Mods.ModUnique(x - k * U32, U32, x / U32 - k, x % U32);
  }

  lemma NegatedTwice(v: int, w: int)
    requires IsI32(v) && w == I32(-v)
    ensures I32(-w) == v
  {
  }

  // ---------------------------------------------------------------- numerals

  predicate GoodBase(base: nat) { 2 <= base <= 36 }

  // Division as repeated subtraction: what the string lemmas need of it, and
  // nothing about products.

  function Quotient(v: nat, base: nat): (q: nat)
    requires base > 0
    ensures q <= v && (v >= base <==> q > 0) && (v > 0 && base > 1 ==> q < v)
  {
    if v < base then 0 else 1 + Quotient(v - base, base)
  }

  function Remainder(v: nat, base: nat): (r: nat)
    requires base > 0
    ensures r < base && (v < base ==> r == v)
  {
    if v < base then v else Remainder(v - base, base)
  }

  lemma {:induction false} Division(v: nat, base: nat)
    requires base > 0
    ensures v == Quotient(v, base) * base + Remainder(v, base)
  {
    if v >= base {
      Division(v - base, base);
      Mods.Distribute(Quotient(v, base), 1, base);
    }
  }

  lemma DivisionIsExact(v: nat, base: nat)
    requires base > 0
    ensures v / base == Quotient(v, base) && v % base == Remainder(v, base)
  {
    Division(v, base);
    Mods.ModUnique(v, base, Quotient(v, base), Remainder(v, base));
  }

  lemma DivisionUnique(q: nat, r: nat, base: nat)
    requires r < base
    ensures Quotient(q * base + r, base) == q && Remainder(q * base + r, base) == r
  {
    var v := q * base + r;
    DivisionIsExact(v, base);
    Mods.ModUnique(v, base, q, r);
  }

  function Digit(d: nat): char
    requires d < 36
  {
    if d < 10 then '0' + d as char else 'a' + (d - 10) as char
  }

  /** The same digits as the table indexed by uitoa. */
  lemma DigitTable(d: nat)
    requires d < 36
    ensures "0123456789abcdefghijklmnopqrstuvwxyz"[d] == Digit(d)
  {
  }

  /** Most significant digit first, no digits for 0. */
  function Digits(v: nat, base: nat): string
    requires GoodBase(base)
    decreases v
  {
    if v == 0 then "" else Digits(Quotient(v, base), base) + [Digit(Remainder(v, base))]
  }

  /** The digits the way the loop writes them, least significant first. */
  function Backwards(v: nat, base: nat): string
    requires GoodBase(base)
    decreases v
  {
    if v == 0 then "" else [Digit(Remainder(v, base))] + Backwards(Quotient(v, base), base)
  }

  /** Minimal numeral of v. */
  function Numeral(v: nat, base: nat): string
    requires GoodBase(base)
  {
    if v == 0 then "0" else Digits(v, base)
  }

  function Reversed(s: string): (r: string)
    ensures |r| == |s|
  {
    if s == "" then "" else Reversed(s[1..]) + [s[0]]
  }

  lemma {:induction false} ReversedAt(s: string, k: nat)
    requires k < |s|
    ensures Reversed(s)[k] == s[|s| - 1 - k]
  {
    if k < |s| - 1 {
      ReversedAt(s[1..], k);
    }
  }

  lemma ReversedCons(c: char, t: string)
    ensures Reversed([c] + t) == Reversed(t) + [c]
  {
    assert ([c] + t)[1..] == t;
  }

  lemma {:induction false} BackwardsIsReversed(v: nat, base: nat)
    requires GoodBase(base)
    ensures Reversed(Backwards(v, base)) == Digits(v, base)
    decreases v
  {
    if v > 0 {
      BackwardsIsReversed(Quotient(v, base), base);
      ReversedCons(Digit(Remainder(v, base)), Backwards(Quotient(v, base), base));
    }
  }

  /** What the do-while loop writes: at least one digit. */
  function Written(v: nat, base: nat): (w: string)
    requires GoodBase(base)
    ensures |w| == 1 + |Backwards(Quotient(v, base), base)|
  {
    [Digit(Remainder(v, base))] + Backwards(Quotient(v, base), base)
  }

  lemma WrittenIsReversed(v: nat, base: nat)
    requires GoodBase(base)
    ensures Reversed(Written(v, base)) == Numeral(v, base)
    ensures |Written(v, base)| == |Numeral(v, base)|
  {
    BackwardsIsReversed(v, base);
    if v == 0 {
      assert Written(0, base) == "0";
      ReversedCons('0', "");
    }
  }

  // ---------------------------------------------------------------- printing

  /** One turn of the digit loop. */
  method PutDigit(str: array<char>, ptr: nat, v: nat, base: nat) returns (rest: nat)
    requires GoodBase(base) && ptr < str.Length
    modifies str
    ensures rest == Quotient(v, base)
    ensures str[..] == old(str[..])[ptr := Digit(Remainder(v, base))]
  {
    DivisionIsExact(v, base);
    str[ptr] := Digit(v % base);
    rest := v / base;
  }

  /** The do-while loop of uitoa: the digits from position at on, backwards. */
  method PutBackwards(str: array<char>, at: nat, value: nat, base: nat) returns (end: nat)
    requires GoodBase(base) && at + |Written(value, base)| < str.Length
    modifies str
    ensures end == at + |Written(value, base)|
    ensures str[at..end] == Written(value, base)
    ensures str[..at] == old(str[..at]) && str[end..] == old(str[end..])
  {
    ghost var digits := Written(value, base);
    var ptr := at;
    var v: nat := PutDigit(str, ptr, value, base);
    ptr := ptr + 1;
    while v != 0
      invariant at < ptr <= str.Length
      invariant str[at..ptr] + Backwards(v, base) == digits
      invariant str[..at] == old(str[..at]) && str[ptr..] == old(str[ptr..])
      decreases |Backwards(v, base)|
    {
      ghost var before, c := str[at..ptr], Digit(Remainder(v, base));
      v := PutDigit(str, ptr, v, base);
      ptr := ptr + 1;
      assert str[at..ptr] == before + [c];
    }
    end := ptr;
  }

  /** uitoa: the numeral from position at on, then NUL; nothing else changes. */
  method Uitoa(value: nat, str: array<char>, at: nat, base: nat) returns (rc: nat, ghost end: nat)
    requires GoodBase(base) && at + |Numeral(value, base)| < str.Length
    modifies str
    ensures rc == at && end == at + |Numeral(value, base)|
    ensures str[at..end] == Numeral(value, base) && str[end] == '\0'
    ensures str[..at] == old(str[..at]) && str[end + 1..] == old(str[end + 1..])
  {
    WrittenIsReversed(value, base);
    rc := at;
    var ptr := PutBackwards(str, at, value, base);
    str[ptr] := '\0';
    ReverseInPlace(str, at, ptr);
    end := ptr;
  }

  /** The reversal loop of uitoa. */
  method ReverseInPlace(str: array<char>, at: nat, end: nat)
    requires at < end < str.Length
    modifies str
    ensures str[at..end] == Reversed(old(str[at..end]))
    ensures forall j :: 0 <= j < at || end <= j < str.Length ==> str[j] == old(str[j])
  {
    var low, ptr := at, end - 1;
    while low < ptr
      invariant at <= low <= ptr + 1 <= end && low - at == end - 1 - ptr
      invariant forall j :: at <= j < low || ptr < j < end ==> str[j] == old(str[at + end - 1 - j])
      invariant forall j :: 0 <= j < at || low <= j <= ptr || end <= j < str.Length ==> str[j] == old(str[j])
    {
      var tmp := str[low];
      str[low] := str[ptr];
      low := low + 1;
      str[ptr] := tmp;
      ptr := ptr - 1;
    }
    ghost var was := old(str[at..end]);
    forall k: nat | k < end - at ensures str[at..end][k] == Reversed(was)[k] {
      ReversedAt(was, k);
    }
  }

  /** The text itoa prints: a sign only for negative decimals, the unsigned
      reading of the word in every other base, nothing for a bad base. */
  function Text(value: int, base: nat): string
    requires IsI32(value)
  {
    if !GoodBase(base) then ""
    else if value >= 0 then Numeral(value, base)
    else if base == 10 then "-" + Numeral(-value, base)
    else Numeral(value + U32, base)
  }

  /** itoa: the text from the start of the buffer, then NUL.  The position returned
      is uitoa's: for a negative decimal it lies behind the sign, so a caller who
      uses it in place of the buffer reads the magnitude. */
  method Itoa(value: int, str: array<char>, base: nat) returns (rc: nat, ghost end: nat)
    requires IsI32(value) && |Text(value, base)| < str.Length
    modifies str
    ensures end == |Text(value, base)|
    ensures rc == if base == 10 && value < 0 then 1 else 0
    ensures base == 10 ==> str[rc..end] == Numeral(if value < 0 then -value else value, 10)
    ensures str[..end] == Text(value, base) && str[end] == '\0'
    ensures str[end + 1..] == old(str[end + 1..])
  {
    if base < 2 || base > 36 {
      str[0] := '\0';
      return 0, 0;
    }
    var ptr, v := 0, value;
    if v < 0 && base == 10 {
      v := I32(-v);
      str[ptr] := '-';
      ptr := ptr + 1;
    }
    UnsignedI32(value);
    rc, end := Uitoa(Unsigned(v), str, ptr, base);
    assert str[..end] == str[..ptr] + str[ptr..end];
  }

  // ----------------------------------------------------------------- parsing

  /** A C string is read up to its NUL, here the end of the sequence. */
  function At(s: string, i: nat): char {
    if i < |s| then s[i] else '\0'
  }

  /** The digit classes of the three readers; -1 is not a digit. */
  function DigitOf(c: char, base: nat): (d: int)
    requires base in {2, 10, 16}
    ensures -1 <= d < base
  {
    if base == 2 then (if c == '0' then 0 else if c == '1' then 1 else -1)
    else if '0' <= c <= '9' then c as int - '0' as int
    else if base == 16 && 'a' <= c <= 'f' then c as int - 'a' as int + 10
    else if base == 16 && 'A' <= c <= 'F' then c as int - 'A' as int + 10
    else -1
  }

  predicate AllDigits(t: string, base: nat)
    requires base in {2, 10, 16}
  {
    forall i :: 0 <= i < |t| ==> DigitOf(t[i], base) >= 0
  }

  /** w * base + d, a case for each base. */
  function Scale(w: nat, base: nat, d: nat): (v: nat)
    requires base in {2, 10, 16}
    ensures v == 0 <==> w == 0 && d == 0
  {
    if base == 2 then 2 * w + d else if base == 10 then 10 * w + d else 16 * w + d
  }

  lemma ScaleIsProduct(w: nat, base: nat, d: nat)
    requires base in {2, 10, 16}
    ensures Scale(w, base, d) == w * base + d
  {
  }

  /** The number a digit string stands for. */
  function Value(t: string, base: nat): nat
    requires base in {2, 10, 16} && AllDigits(t, base)
  {
    if t == "" then 0 else Scale(Value(t[..|t| - 1], base), base, DigitOf(t[|t| - 1], base))
  }

  /** The longest prefix made of digits. */
  function Leading(t: string, base: nat): (d: string)
    requires base in {2, 10, 16}
    ensures d <= t && AllDigits(d, base)
    ensures DigitOf(At(t, |d|), base) == -1
  {
    if t == "" || DigitOf(t[0], base) == -1 then "" else [t[0]] + Leading(t[1..], base)
  }

  lemma {:induction false} LeadingIs(t: string, n: nat, base: nat)
    requires base in {2, 10, 16} && n <= |t|
    requires AllDigits(t[..n], base) && DigitOf(At(t, n), base) == -1
    ensures Leading(t, base) == t[..n]
  {
    if n > 0 {
      assert t[..n][0] == t[0];
      assert t[..n][1..] == t[1..][..n - 1];
      LeadingIs(t[1..], n - 1, base);
    }
  }

  lemma AllLeading(t: string, base: nat)
    requires base in {2, 10, 16} && AllDigits(t, base)
    ensures Leading(t, base) == t
  {
    assert t[..|t|] == t;
    LeadingIs(t, |t|, base);
  }

  function Trimmed(s: string): (t: string)
    ensures |t| <= |s| && t == s[|s| - |t|..]
    ensures forall i :: 0 <= i < |s| - |t| ==> s[i] == ' ' || s[i] == '\t'
    ensures At(t, 0) != ' ' && At(t, 0) != '\t'
  {
    if s != "" && (s[0] == ' ' || s[0] == '\t') then Trimmed(s[1..]) else s
  }

  /** A decimal must end the string. */
  function Decimal(t: string): int {
    var d := Leading(t, 10);
    if At(t, |d|) == '\0' then I32(Value(d, 10)) else 0
  }

  /** A stray character in a hexadecimal: 0 divided by what was read so far, which
      is undefined (None) when that is itself 0. */
  function Hexadecimal(t: string): Option<int> {
    var d := Leading(t, 16);
    var v := I32(Value(d, 16));
    if At(t, |d|) == '\0' then Some(v) else if v == 0 then None else Some(0)
  }

  /** A binary stops quietly at the first other character. */
  function Binary(t: string): int {
    I32(Value(Leading(t, 2), 2))
  }

  predicate Prefixed(t: string, lower: char, upper: char) {
    At(t, 0) == '0' && (At(t, 1) == lower || At(t, 1) == upper)
  }

  /** The switch of atoi, on the rest of the string after blanks. */
  function ReadAs(t: string, base: int): Option<int> {
    if base == 2 && |t| >= 2 then Some(Binary(t[2..]))
    else if base == 16 && |t| >= 2 then Hexadecimal(t[2..])
    else if base == -10 && |t| >= 1 then Some(I32(-Decimal(t[1..])))
    else Some(Decimal(t))
  }

  /** The base announced by the first two characters, -10 for a minus sign. */
  function BaseOf(t: string): int {
    if Prefixed(t, 'b', 'B') then 2
    else if Prefixed(t, 'x', 'X') then 16
    else if At(t, 0) == '0' then 8
    else if At(t, 0) == '-' then -10
    else 10
  }

  /** What atoi reads; None is a division by zero. */
  function Parsed(s: string): Option<int> {
    ReadAs(Trimmed(s), BaseOf(Trimmed(s)))
  }

  /** The digits at the front are worth 0 modulo 2^32 and something follows them. */
  predicate StrayAfterZero(t: string) {
    var d := Leading(t, 16);
    At(t, |d|) != '\0' && Value(d, 16) % U32 == 0
  }

  lemma HexadecimalUndefined(t: string)
    ensures Hexadecimal(t) == None <==> StrayAfterZero(t)
  {
    ZeroI32(Value(Leading(t, 16), 16));
  }

  /** When atoi divides by zero: exactly for a hexadecimal with a stray character after digits
      worth 0 modulo 2^32. */
  lemma DividesByZeroExactly(s: string)
    ensures Parsed(s) == None <==> Prefixed(Trimmed(s), 'x', 'X') && StrayAfterZero(Trimmed(s)[2..])
  {
    ReadUndefined(Trimmed(s));
  }

  lemma ReadUndefined(t: string)
    ensures ReadAs(t, BaseOf(t)) == None <==> Prefixed(t, 'x', 'X') && StrayAfterZero(t[2..])
  {
    BaseIsHexadecimal(t);
    if Prefixed(t, 'x', 'X') {
      HexadecimalUndefined(t[2..]);
      assert ReadAs(t, 16) == Hexadecimal(t[2..]);
    } else {
      ReadsSomething(t, BaseOf(t));
    }
  }

  lemma BaseIsHexadecimal(t: string)
    ensures BaseOf(t) == 16 <==> Prefixed(t, 'x', 'X')
  {
  }

  lemma ReadsSomething(t: string, base: int)
    requires base != 16
    ensures ReadAs(t, base).Some?
  {
  }

  lemma ZeroI32(x: int)
    ensures I32(x) == 0 <==> x % U32 == 0
  {
  }

  /** The shortest such input: no digit at all. */
  lemma DividesByZeroInput()
    ensures Parsed("0xg") == None
  {
    var t := "0xg";
    TrimmedIs(t, 0);
    assert t[2..] == "g";
    assert Leading("g", 16) == "";
  }

  lemma LeadingFrom(s: string, from: nat, to: nat, base: nat)
    requires base in {2, 10, 16} && from <= to <= |s|
    requires AllDigits(s[from..to], base) && DigitOf(At(s, to), base) == -1
    ensures Leading(s[from..], base) == s[from..to]
    ensures At(s[from..], to - from) == At(s, to)
  {
    assert s[from..][..to - from] == s[from..to];
    LeadingIs(s[from..], to - from, base);
  }

  lemma OneMoreDigit(s: string, from: nat, to: nat, base: nat)
    requires base in {2, 10, 16} && from <= to < |s|
    requires AllDigits(s[from..to], base) && DigitOf(s[to], base) >= 0
    ensures AllDigits(s[from..to + 1], base)
    ensures I32(I32(Value(s[from..to], base)) * base + DigitOf(s[to], base)) == I32(Value(s[from..to + 1], base))
  {
    var t := s[from..to + 1];
    assert t == s[from..to] + [s[to]];
    assert t[..|t| - 1] == s[from..to];
    WrapStep(Value(s[from..to], base), base, DigitOf(s[to], base));
    ScaleIsProduct(Value(s[from..to], base), base, DigitOf(s[to], base));
  }

  method GetValue2(s: string, at: nat) returns (res: int)
    requires at <= |s|
    ensures res == Binary(s[at..])
  {
    res := 0;
    var c := at;
    while At(s, c) == '0' || At(s, c) == '1'
      invariant at <= c <= |s| && AllDigits(s[at..c], 2)
      invariant res == I32(Value(s[at..c], 2))
      decreases |s| - c
    {
      OneMoreDigit(s, at, c, 2);
      res := I32(res * 2 + (At(s, c) as int - '0' as int));
      c := c + 1;
    }
    LeadingFrom(s, at, c, 2);
  }

  method GetValue10(s: string, at: nat) returns (res: int)
    requires at <= |s|
    ensures res == Decimal(s[at..])
  {
    res := 0;
    var c := at;
    while '0' <= At(s, c) <= '9'
      invariant at <= c <= |s| && AllDigits(s[at..c], 10)
      invariant res == I32(Value(s[at..c], 10))
      decreases |s| - c
    {
      OneMoreDigit(s, at, c, 10);
      res := I32(res * 10 + (At(s, c) as int - '0' as int));
      c := c + 1;
    }
    LeadingFrom(s, at, c, 10);
    if At(s, c) != '\0' {
      res := 0;
    }
  }

  /** The branches on one character in get_value_16_; -1 is the stray character. */
  method HexDigit(c: char) returns (inc: int)
    ensures inc == DigitOf(c, 16)
  {
    if '0' <= c <= '9' {
      inc := c as int - '0' as int;
    } else if 'a' <= c <= 'f' {
      inc := c as int - 'a' as int + 10;
    } else if 'A' <= c <= 'F' {
      inc := c as int - 'A' as int + 10;
    } else {
      inc := -1;
    }
  }

  method GetValue16(s: string, at: nat) returns (r: Option<int>)
    requires at <= |s|
    ensures r == Hexadecimal(s[at..])
  {
    var res, c := 0, at;
    while At(s, c) != '\0'
      invariant at <= c <= |s| && AllDigits(s[at..c], 16)
      invariant res == I32(Value(s[at..c], 16))
      decreases |s| - c
    {
      var inc := HexDigit(At(s, c));
      if inc < 0 {
        LeadingFrom(s, at, c, 16);
        return if res == 0 then None else Some(0);
      }
      OneMoreDigit(s, at, c, 16);
      res := I32(res * 16 + inc);
      c := c + 1;
    }
    LeadingFrom(s, at, c, 16);
    r := Some(res);
  }

  /** get_base_ */
  method GetBase(s: string, at: nat) returns (base: int)
    requires at <= |s|
    ensures base == BaseOf(s[at..])
  {
    var c := at;
    if At(s, c) == '0' {
      c := c + 1;
      if At(s, c) == 'b' || At(s, c) == 'B' {
        base := 2;
      } else if At(s, c) == 'x' || At(s, c) == 'X' {
        base := 16;
      } else {
        base := 8;
      }
    } else if At(s, c) == '-' {
      base := -10;
    } else {
      base := 10;
    }
  }

  lemma {:induction false} TrimmedIs(s: string, n: nat)
    requires n <= |s| && forall i :: 0 <= i < n ==> s[i] == ' ' || s[i] == '\t'
    requires At(s, n) != ' ' && At(s, n) != '\t'
    ensures Trimmed(s) == s[n..]
  {
    if n > 0 {
      TrimmedIs(s[1..], n - 1);
    }
  }

  method SkipBlanks(s: string) returns (c: nat)
    ensures c <= |s| && s[c..] == Trimmed(s)
  {
    c := 0;
    while At(s, c) == ' ' || At(s, c) == '\t'
      invariant c <= |s|
      invariant forall i :: 0 <= i < c ==> s[i] == ' ' || s[i] == '\t'
      decreases |s| - c
    {
      c := c + 1;
    }
    TrimmedIs(s, c);
  }

  method Atoi(s: string) returns (r: Option<int>)
    ensures r == Parsed(s)
  {
    var c := SkipBlanks(s);
    var base := GetBase(s, c);
    r := ReadNumber(s, c, base);
  }

  /** The rest of atoi, from the first character that is not blank. */
  method ReadNumber(s: string, at: nat, announced: int) returns (r: Option<int>)
    requires at <= |s| && announced == BaseOf(s[at..])
    ensures r == ReadAs(s[at..], announced)
  {
    var base, c := announced, at;
    var neg := false;
    if base == -10 {
      c := c + 1;
      base := 10;
      neg := true;
    }
    var res;
    if base == 2 {
      c := c + 2;
      res := GetValue2(s, c);
    } else if base == 10 {
      res := GetValue10(s, c);
    } else if base == 16 {
      c := c + 2;
      var hex := GetValue16(s, c);
      if hex == None {
        return None;
      }
      res := hex.value;
    } else {
      res := GetValue10(s, c);
    }
    if neg {
      res := I32(-res);
    }
    r := Some(res);
  }

  // --------------------------------------------------------------- round trip

  lemma DigitIsDigit(d: nat, base: nat)
    requires base in {2, 10, 16} && d < base
    ensures DigitOf(Digit(d), base) == d
  {
  }

  lemma DigitBack(c: char, base: nat)
    requires base in {2, 10, 16} && DigitOf(c, base) >= 0
    ensures DigitOf(c, base) == 0 <==> c == '0'
    ensures !('A' <= c <= 'Z') ==> Digit(DigitOf(c, base)) == c
  {
  }

  lemma ScaleDivision(v: nat, base: nat)
    requires base in {2, 10, 16}
    ensures Scale(Quotient(v, base), base, Remainder(v, base)) == v
  {
    Division(v, base);
    ScaleIsProduct(Quotient(v, base), base, Remainder(v, base));
  }

  lemma ValueSnoc(t: string, c: char, base: nat)
    requires base in {2, 10, 16} && AllDigits(t, base) && DigitOf(c, base) >= 0
    ensures AllDigits(t + [c], base)
    ensures Value(t + [c], base) == Scale(Value(t, base), base, DigitOf(c, base))
  {
    assert (t + [c])[..|t|] == t;
  }

  /** The digits of v stand for v, and the first of them is not 0. */
  lemma {:induction false} DigitsMeaning(v: nat, base: nat)
    requires base in {2, 10, 16}
    ensures AllDigits(Digits(v, base), base) && Value(Digits(v, base), base) == v
    ensures v > 0 ==> Digits(v, base) != "" && Digits(v, base)[0] != '0'
    decreases v
  {
    if v > 0 {
      var q, r := Quotient(v, base), Remainder(v, base);
      ScaleDivision(v, base);
      DigitsMeaning(q, base);
      DigitIsDigit(r, base);
      ValueSnoc(Digits(q, base), Digit(r), base);
    }
  }

  /** A numeral is made of digits, stands for its number, and starts with 0
      only for zero itself. */
  lemma NumeralMeaning(v: nat, base: nat)
    requires base in {2, 10, 16}
    ensures AllDigits(Numeral(v, base), base) && Value(Numeral(v, base), base) == v
    ensures Numeral(v, base) != "" && (Numeral(v, base)[0] == '0' <==> v == 0)
  {
    DigitsMeaning(v, base);
    ValueSnoc("", '0', base);
    assert "" + ['0'] == "0";
  }

  lemma LeadingNumeral(v: nat, base: nat)
    requires base in {2, 10, 16}
    ensures Leading(Numeral(v, base), base) == Numeral(v, base)
    ensures AllDigits(Numeral(v, base), base) && Value(Numeral(v, base), base) == v
  {
    NumeralMeaning(v, base);
    AllLeading(Numeral(v, base), base);
  }

  lemma DecimalNumeral(v: nat)
    ensures Decimal(Numeral(v, 10)) == I32(v)
  {
    LeadingNumeral(v, 10);
  }

  lemma NumeralHead(v: nat)
    ensures '0' <= At(Numeral(v, 10), 0) <= '9'
    ensures At(Numeral(v, 10), 0) == '0' ==> At(Numeral(v, 10), 1) == '\0'
  {
    NumeralMeaning(v, 10);
    var t := Numeral(v, 10);
    assert DigitOf(t[0], 10) >= 0;
  }

  lemma ParsedIs(t: string)
    requires At(t, 0) != ' ' && At(t, 0) != '\t'
    ensures Parsed(t) == ReadAs(t, BaseOf(t))
  {
    assert Trimmed(t) == t;
  }

  lemma ReadDecimal(t: string)
    requires '0' <= At(t, 0) <= '9'
    requires At(t, 0) == '0' ==> At(t, 1) !in {'b', 'B', 'x', 'X'}
    ensures BaseOf(t) == if At(t, 0) == '0' then 8 else 10
    ensures ReadAs(t, BaseOf(t)) == Some(Decimal(t))
  {
  }

  lemma ReadSigned(t: string)
    requires t != "" && t[0] == '-'
    ensures ReadAs(t, BaseOf(t)) == Some(I32(-Decimal(t[1..])))
  {
  }

  lemma UnsignedDecimal(v: nat)
    ensures Parsed(Numeral(v, 10)) == Some(I32(v))
  {
    NumeralHead(v);
    DecimalNumeral(v);
    ParsedIs(Numeral(v, 10));
    ReadDecimal(Numeral(v, 10));
  }

  lemma SignedDecimal(t: string, w: int)
    requires Decimal(t) == w
    ensures Parsed("-" + t) == Some(I32(-w))
  {
    var f := "-" + t;
    assert f[0] == '-' && f[1..] == t;
    ParsedIs(f);
    ReadSigned(f);
  }

  lemma NegativeDecimal(v: int)
    requires IsI32(v) && v < 0
    ensures Parsed("-" + Numeral(-v, 10)) == Some(v)
  {
    var w := I32(-v);
    NegatedTwice(v, w);
    DecimalNumeral(-v);
    SignedDecimal(Numeral(-v, 10), w);
  }

  lemma PositiveDecimal(v: int)
    requires IsI32(v) && v >= 0
    ensures Parsed(Numeral(v, 10)) == Some(v)
  {
    UnsignedDecimal(v);
    I32OfI32(v);
  }

  /** atoi undoes itoa in base 10 on every i32. */
  lemma DecimalRoundTrip(v: int)
    requires IsI32(v)
    ensures Parsed(Text(v, 10)) == Some(v)
  {
    if v < 0 {
      NegativeDecimal(v);
    } else {
      PositiveDecimal(v);
    }
  }

  lemma ParsedPrefixed(t: string, p: char)
    requires p in {'x', 'X', 'b', 'B'}
    ensures Parsed(['0', p] + t) == if p == 'x' || p == 'X' then Hexadecimal(t) else Some(Binary(t))
  {
    var f := ['0', p] + t;
    assert f[0] == '0' && f[1] == p && |f| >= 2;
    assert f[2..] == t;
    TrimmedIs(f, 0);
    assert Trimmed(f) == f;
    ReadPrefixed(f);
  }

  lemma ReadPrefixed(f: string)
    requires |f| >= 2 && f[0] == '0'
    ensures f[1] == 'x' || f[1] == 'X' ==> ReadAs(f, BaseOf(f)) == Hexadecimal(f[2..])
    ensures f[1] == 'b' || f[1] == 'B' ==> ReadAs(f, BaseOf(f)) == Some(Binary(f[2..]))
  {
  }

  /** A prefixed numeral parses to the i32 with the same low 32 bits. */
  lemma PrefixedNumeral(v: nat)
    ensures Parsed("0x" + Numeral(v, 16)) == Some(I32(v))
    ensures Parsed("0b" + Numeral(v, 2)) == Some(I32(v))
  {
    LeadingNumeral(v, 16);
    ParsedPrefixed(Numeral(v, 16), 'x');
    LeadingNumeral(v, 2);
    ParsedPrefixed(Numeral(v, 2), 'b');
  }

  /** With its prefix, what itoa prints in base 16 or 2 parses back, for every i32. */
  lemma PrefixedRoundTrip(v: int)
    requires IsI32(v)
    ensures Parsed("0x" + Text(v, 16)) == Some(v) && Parsed("0b" + Text(v, 2)) == Some(v)
  {
    I32OfI32(v);
    PrefixedNumeral(if v < 0 then v + U32 else v);
  }

  /** uitoa with its prefix parses back exactly below 2^31. */
  lemma UnsignedHexadecimal(v: nat)
    requires v < U32
    ensures Parsed("0x" + Numeral(v, 16)) == Some(v) <==> v < I32_LIMIT
  {
    PrefixedNumeral(v);
    I32Fixed(v);
  }

  lemma UnsignedBinary(v: nat)
    requires v < U32
    ensures Parsed("0b" + Numeral(v, 2)) == Some(v) <==> v < I32_LIMIT
  {
    PrefixedNumeral(v);
    I32Fixed(v);
  }

  lemma {:induction false} LeadingZero(t: string, base: nat)
    requires base in {2, 10, 16} && AllDigits(t, base)
    ensures AllDigits("0" + t, base) && Value("0" + t, base) == Value(t, base)
  {
    if t == "" {
      ValueSnoc("", '0', base);
      assert "0" + t == "" + ['0'];
    } else {
      var u, c := t[..|t| - 1], t[|t| - 1];
      LeadingZero(u, base);
      assert t == u + [c] && "0" + t == ("0" + u) + [c];
      ValueSnoc(u, c, base);
      ValueSnoc("0" + u, c, base);
    }
  }

  lemma ZeroDecimal(v: nat)
    ensures Decimal("0" + Numeral(v, 10)) == I32(v)
  {
    NumeralMeaning(v, 10);
    LeadingZero(Numeral(v, 10), 10);
    AllLeading("0" + Numeral(v, 10), 10);
  }

  /** A leading 0 announces base 8, but the digits are read in base 10. */
  lemma OctalReadAsDecimal(v: nat)
    ensures BaseOf("0" + Numeral(v, 10)) == 8
    ensures Parsed("0" + Numeral(v, 10)) == Some(I32(v))
  {
    var t := "0" + Numeral(v, 10);
    ZeroDecimal(v);
    NumeralMeaning(v, 10);
    NumeralHead(v);
    assert At(t, 0) == '0' && At(t, 1) == At(Numeral(v, 10), 0);
    ParsedIs(t);
    ReadDecimal(t);
  }

  lemma DigitsSnoc(w: nat, d: nat, base: nat)
    requires GoodBase(base) && d < base && w * base + d > 0
    ensures Digits(w * base + d, base) == Digits(w, base) + [Digit(d)]
  {
    DivisionUnique(w, d, base);
  }

  lemma DigitsScale(w: nat, d: nat, base: nat)
    requires base in {2, 10, 16} && d < base && Scale(w, base, d) > 0
    ensures Digits(Scale(w, base, d), base) == Digits(w, base) + [Digit(d)]
  {
    ScaleIsProduct(w, base, d);
    DigitsSnoc(w, d, base);
  }

  predicate LowerCase(t: string) { forall i :: 0 <= i < |t| ==> !('A' <= t[i] <= 'Z') }

  lemma PrintOneMore(u: string, c: char, base: nat)
    requires base in {2, 10, 16} && AllDigits(u, base) && DigitOf(c, base) >= 0
    ensures AllDigits(u + [c], base)
    ensures Value(u + [c], base) == 0 <==> Value(u, base) == 0 && c == '0'
    ensures Value(u + [c], base) > 0 ==>
              Digits(Value(u + [c], base), base) == Digits(Value(u, base), base) + [Digit(DigitOf(c, base))]
  {
    var w, d := Value(u, base), DigitOf(c, base);
    DigitBack(c, base);
    ValueSnoc(u, c, base);
    if Scale(w, base, d) > 0 {
      DigitsScale(w, d, base);
    }
  }

  /** The other way round: printing the value of a digit string gives the same
      string back unless it has leading zeros or capitals, and never a longer one. */
  lemma {:induction false} ParseThenPrint(t: string, base: nat)
    requires base in {2, 10, 16} && AllDigits(t, base)
    ensures |Digits(Value(t, base), base)| <= |t|
    ensures t != "" && t[0] != '0' ==> Value(t, base) > 0
    ensures t != "" && t[0] != '0' && LowerCase(t) ==> Digits(Value(t, base), base) == t
    decreases |t|
  {
    if t != "" {
      var u, c := t[..|t| - 1], t[|t| - 1];
      assert t == u + [c];
      ParseThenPrint(u, base);
      PrintOneMore(u, c, base);
      DigitBack(c, base);
    }
  }

  function Power(base: nat, k: nat): nat {
    if k == 0 then 1 else base * Power(base, k - 1)
  }

  /** Exactly the numbers below base^k fit in k digits. */
  lemma {:induction false} DigitsLength(v: nat, base: nat, k: nat)
    requires GoodBase(base)
    ensures |Digits(v, base)| <= k <==> v < Power(base, k)
    decreases k
  {
    if v == 0 {
      PowerPositive(base, k);
    } else if k > 0 {
      DigitsLength(Quotient(v, base), base, k - 1);
      DivideBelow(v, base, Power(base, k - 1));
    }
  }

  lemma {:induction false} PowerPositive(base: nat, k: nat)
    requires base > 0
    ensures Power(base, k) >= 1
  {
    if k > 0 {
      PowerPositive(base, k - 1);
      Mods.AtLeast(Power(base, k - 1), base);
    }
  }

  lemma DivideBelow(v: nat, base: nat, p: nat)
    requires base > 0
    ensures Quotient(v, base) < p <==> v < base * p
  {
    var q, r := Quotient(v, base), Remainder(v, base);
    Division(v, base);
    Mods.Distribute(p, q, base);
    if q < p {
      Mods.AtLeast(p - q, base);
    } else {
      Mods.AtMost(p - q, base);
    }
  }

  /** The buffers printk prints into: 12 bytes hold any i32 in base 10 with
      sign and NUL, 33 bytes any 32-bit word in base 2 with NUL. */
  lemma BufferBounds(v: int)
    requires IsI32(v)
    ensures |Text(v, 10)| + 1 <= 12
    ensures |Text(v, 2)| + 1 <= 33
    ensures |Text(v, 16)| + 1 <= 9
  {
    var n := if v < 0 then -v else v;
    var u := if v < 0 then v + U32 else v;
    assert Power(10, 5) == 100_000;
    assert Power(10, 10) == 10_000_000_000;
    DigitsLength(n, 10, 10);
    assert Power(16, 8) == U32;
    DigitsLength(u, 16, 8);
    assert Power(2, 8) == 256;
    assert Power(2, 16) == 65536;
    assert Power(2, 24) == 0x100_0000;
    assert Power(2, 32) == U32;
    DigitsLength(u, 2, 32);
  }

  /** Both bounds are reached. */
  lemma BufferBoundsAreTight()
    ensures |Text(-I32_LIMIT, 10)| + 1 == 12 && |Text(-1, 2)| + 1 == 33
  {
    assert Power(10, 4) == 10_000;
    assert Power(10, 9) == 1_000_000_000;
    DigitsLength(I32_LIMIT, 10, 9);
    assert Power(2, 7) == 128;
    assert Power(2, 15) == 32768;
    assert Power(2, 23) == 0x80_0000;
    assert Power(2, 31) == I32_LIMIT;
    DigitsLength(U32 - 1, 2, 31);
    BufferBounds(-I32_LIMIT);
    BufferBounds(-1);
  }
}
