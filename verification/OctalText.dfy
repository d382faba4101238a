/** Octal texts and atoi (libc/string.c).  get_base_ announces base 8 after a
    leading 0, but atoi reads the digits as decimal ones; this says what comes of
    it, for every number. */
module OctalText {
  import opened Wrappers
  import opened IntegerText

  /** What becomes of a number whose octal digits are read as decimal ones. */
  function Misread(v: nat): nat {
    if v == 0 then 0 else 10 * Misread(v / 8) + v % 8
  }

  lemma {:induction false} MisreadDigits(v: nat)
    ensures Digits(v, 8) == Digits(Misread(v), 10) && (Misread(v) == 0 <==> v == 0)
  {
    if v > 0 {
      MisreadDigits(v / 8);
      DivisionIsExact(v, 8);
      DigitsSnoc(Misread(v / 8), v % 8, 10);
    }
  }

  /** Misreading never brings two numbers nearer to each other. */
  lemma {:induction false} MisreadSpreads(a: nat, b: nat)
    requires a <= b
    ensures Misread(b) - Misread(a) >= b - a
    decreases b
  {
    if b > 0 {
      MisreadSpreads(a / 8, b / 8);
    }
  }

  /** A difference jumped over between two neighbours is met nowhere. */
  lemma Skipped(v: nat, below: nat, t: int)
    requires Misread(below) - below < t < Misread(below + 1) - (below + 1)
    ensures Misread(v) - v != t
  {
    if v <= below {
      MisreadSpreads(v, below);
    } else {
      MisreadSpreads(below + 1, v);
    }
  }

  lemma MisreadStep(w: nat, d: nat)
    requires d < 8
    ensures Misread(8 * w + d) == 10 * Misread(w) + d
  {
    assert (8 * w + d) / 8 == w && (8 * w + d) % 8 == d;
  }

  lemma MisreadSevens(w: nat)
    ensures Misread(512 * w + 511) == 1000 * Misread(w) + 777
  {
    var a, b := 8 * w + 7, 64 * w + 63;
    MisreadStep(w, 7);
    MisreadStep(a, 7);
    MisreadStep(b, 7);
    assert 8 * a + 7 == b && 8 * b + 7 == 512 * w + 511;
  }

  lemma MisreadZeros(w: nat)
    ensures Misread(512 * w) == 1000 * Misread(w)
  {
    var a, b := 8 * w, 64 * w;
    MisreadStep(w, 0);
    MisreadStep(a, 0);
    MisreadStep(b, 0);
    assert 8 * a + 0 == b && 8 * b + 0 == 512 * w;
  }

  lemma MisreadBillion(w: nat)
    ensures Misread(512 * (512 * (512 * w + 511) + 511) + 511) == 1_000_000_000 * Misread(w) + 777_777_777
    ensures Misread(512 * (512 * (512 * w))) == 1_000_000_000 * Misread(w)
  {
    MisreadSevens(w);
    MisreadSevens(512 * w + 511);
    MisreadSevens(512 * (512 * w + 511) + 511);
    MisreadZeros(w);
    MisreadZeros(512 * w);
    MisreadZeros(512 * (512 * w));
  }

  lemma MisreadSmall(w: nat)
    requires w < 64
    ensures Misread(w) == 10 * (w / 8) + w % 8
  {
    MisreadStep(0, w / 8);
    MisreadStep(w / 8, w % 8);
  }

  // In octal: 4777777777, 7777777777 and 14577777777, with their successors.

  lemma MisreadFour()
    ensures Misread(671_088_639) == 4_777_777_777 && Misread(671_088_640) == 5_000_000_000
  {
    MisreadSmall(4);
    MisreadSmall(5);
    MisreadBillion(4);
    MisreadBillion(5);
  }

  lemma MisreadSeven()
    ensures Misread(1_073_741_823) == 7_777_777_777 && Misread(1_073_741_824) == 10_000_000_000
  {
    MisreadSmall(7);
    MisreadSmall(8);
    MisreadBillion(7);
    MisreadBillion(8);
  }

  lemma MisreadFourteen()
    ensures Misread(1_711_276_031) == 14_577_777_777 && Misread(1_711_276_032) == 14_600_000_000
  {
    MisreadSmall(12);
    MisreadStep(12, 5);
    MisreadStep(101, 7);
    MisreadStep(815, 7);
    MisreadSevens(6527);
    MisreadSevens(3_342_335);
    MisreadStep(12, 6);
    MisreadStep(102, 0);
    MisreadStep(816, 0);
    MisreadZeros(6528);
    MisreadZeros(3_342_336);
  }

  lemma MisreadLargest()
    ensures Misread(2_147_483_647) == 17_777_777_777
  {
    MisreadSmall(15);
    MisreadBillion(15);
  }

  /** The amounts by which misreading is off jump over 2^32, 2 * 2^32 and 3 * 2^32. */
  lemma NeverOffByWords(v: nat, k: nat)
    requires 1 <= k <= 3
    ensures Misread(v) - v != k * U32
  {
    if k == 1 {
      MisreadFour();
      Skipped(v, 671_088_639, U32);
    } else if k == 2 {
      MisreadSeven();
      Skipped(v, 1_073_741_823, 2 * U32);
    } else {
      MisreadFourteen();
      Skipped(v, 1_711_276_031, 3 * U32);
    }
  }

  lemma MisreadDiffers(v: nat)
    requires 8 <= v
    ensures I32(Misread(v)) != v
  {
    if v < I32_LIMIT && I32(Misread(v)) == v {
      MisreadSpreads(8, v);
      assert Misread(8) == 10;
      MisreadSpreads(v, 2_147_483_647);
      MisreadLargest();
      var k := (Misread(v) - v) / U32;
      assert Misread(v) - v == k * U32;
      NeverOffByWords(v, k);
    }
  }

  /** An octal text is read as the number its author meant for one digit only. */
  lemma OctalExactly(v: nat)
    ensures Parsed("0" + Numeral(v, 8)) == Some(I32(Misread(v)))
    ensures Parsed("0" + Numeral(v, 8)) == Some(v) <==> v < 8
  {
    MisreadDigits(v);
    OctalReadAsDecimal(Misread(v));
    assert Numeral(v, 8) == Numeral(Misread(v), 10);
    if v < 8 {
      assert Misread(v / 8) == 0;
      I32OfI32(v);
    } else {
      MisreadDiffers(v);
    }
  }

  lemma OctalTextOfEight()
    ensures "0" + Numeral(8, 8) == "010"
  {
    DivisionUnique(1, 0, 8);
    DivisionUnique(0, 1, 8);
    assert Digits(1, 8) == Digits(0, 8) + [Digit(1)];
    assert Digits(8, 8) == Digits(1, 8) + [Digit(0)];
  }

  /** "010", the octal text of 8, is read as 10. */
  lemma OctalEight()
    ensures "0" + Numeral(8, 8) == "010" && Parsed("010") == Some(10)
  {
    OctalTextOfEight();
    ReadsTen();
  }

  lemma ReadsTen()
    ensures Parsed("0" + Numeral(8, 8)) == Some(10)
  {
    OctalExactly(8);
    MisreadSmall(8);
    I32OfI32(10);
  }
}
