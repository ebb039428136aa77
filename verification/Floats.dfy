/** 64-bit floats above nought, as the real numbers they are: reading a decimal and
    multiplying give the nearest one, ties to even.
 */
module Floats {

  const TWO52 := 4503599627370496.0
  const TWO53 := 9007199254740992.0

  /** From here on a float is infinite. */
  const TWO64 := 18446744073709551616.0
  const TWO256 := TWO64 * TWO64 * TWO64 * TWO64
  const INFINITE := TWO256 * TWO256 * TWO256 * TWO256

  /** To the nearest whole number, and from halfway to the even one. */
  function RoundEven(x: real): (n: int)
    ensures x - 0.5 <= n as real <= x + 0.5
    ensures x == x.Floor as real ==> n == x.Floor
  {
    var low := x.Floor;
    var rest := x - low as real;
    if rest < 0.5 || (rest == 0.5 && low % 2 == 0) then low else low + 1
  }

  /** A number of 54 bits or more loses bits at its end. */
  function Coarse(x: real): (d: real)
    requires x >= TWO52
    ensures d >= 0.0
    decreases x.Floor
  {
    if x >= TWO53 then 2.0 * Coarse(x / 2.0) else RoundEven(x) as real
  }

  /** A smaller one is scaled up to 53 bits, as far as exponents go. */
  function Fine(x: real, room: nat): (d: real)
    ensures x >= 0.0 ==> d >= 0.0
    decreases room
  {
    if x >= TWO52 || room == 0 then RoundEven(x) as real else Fine(2.0 * x, room - 1) / 2.0
  }

  const SMALLEST_EXPONENT := 1074

  /** The float nearest to a number above nought. */
  function Nearest(x: real): (d: real)
    ensures x >= 0.0 ==> d >= 0.0
  {
    if x >= TWO53 then Coarse(x) else Fine(x, SMALLEST_EXPONENT)
  }

  /** `f64::round` on a number above nought: halves go up. */
  function Round(x: real): int { (x + 0.5).Floor }

  // ---------- whole numbers ----------

  predicate Whole(x: real) { x == x.Floor as real }

  /** A whole number of 53 bits and zeros after them. */
  predicate Fits(x: real)
    requires x >= 0.0
    decreases x.Floor
  {
    if x >= TWO53 then Fits(x / 2.0) else Whole(x)
  }

  lemma FloorOfWhole(n: int)
    ensures (n as real).Floor == n && (n as real + 0.5).Floor == n
  {
  }

  lemma TwiceWhole(x: real)
    requires Whole(x)
    ensures Whole(2.0 * x) && Round(x) as real == x
  {
    var n := x.Floor;
    assert 2.0 * x == (2 * n) as real;
    FloorOfWhole(2 * n);
    FloorOfWhole(n);
  }

  lemma {:induction false} FineOfWhole(x: real, room: nat)
    requires Whole(x)
    ensures Fine(x, room) == x
    decreases room
  {
    if x < TWO52 && room > 0 {
      TwiceWhole(x);
      FineOfWhole(2.0 * x, room - 1);
    }
  }

  lemma {:induction false} CoarseOfFitting(x: real)
    requires x >= TWO52
    ensures Coarse(x) == x <==> Fits(x)
    decreases x.Floor
  {
    if x >= TWO53 { CoarseOfFitting(x / 2.0); }
  }

  lemma {:induction false} FitsIsWhole(x: real)
    requires x >= 0.0 && Fits(x)
    ensures Whole(x)
    decreases x.Floor
  {
    if x >= TWO53 {
      FitsIsWhole(x / 2.0);
      TwiceWhole(x / 2.0);
    }
  }

  lemma FitsTwice(x: real)
    requires x >= 0.0 && Fits(x)
    ensures Fits(2.0 * x)
  {
    FitsIsWhole(x);
    TwiceWhole(x);
  }

  /** A whole number is a float exactly if it fits. */
  lemma NearestOfWhole(x: real)
    requires x > 0.0 && Whole(x)
    ensures Nearest(x) == x <==> Fits(x)
  {
    if x >= TWO53 { CoarseOfFitting(x); } else { FineOfWhole(x, SMALLEST_EXPONENT); }
  }

  lemma {:induction false} CoarseFits(x: real)
    requires x >= TWO52
    ensures Coarse(x) >= TWO52 && Fits(Coarse(x))
    decreases x.Floor
  {
    if x >= TWO53 {
      CoarseFits(x / 2.0);
      FitsTwice(Coarse(x / 2.0));
    } else {
      assert Fits(TWO53) by { assert Fits(TWO53 / 2.0); }
    }
  }

  /** What a whole number is read as is a whole number that fits. */
  lemma NearestFits(x: real)
    requires x > 0.0 && Whole(x)
    ensures Nearest(x) > 0.0 && Fits(Nearest(x))
  {
    if x >= TWO53 { CoarseFits(x); } else { FineOfWhole(x, SMALLEST_EXPONENT); }
  }

  // ---------- as numbers without a sign ----------

  /** The same for natural numbers: what is left of the zeros has 53 bits. */
  predicate Fits53(n: nat) { n < 0x20_0000_0000_0000 || (n % 2 == 0 && Fits53(n / 2)) }

  lemma HalfOfOdd(n: nat)
    requires n % 2 == 1
    ensures !Whole(n as real / 2.0)
  {
    assert n as real / 2.0 == (n / 2) as real + 0.5;
  }

  lemma HalfOfEven(n: nat)
    requires n % 2 == 0
    ensures n as real / 2.0 == (n / 2) as real
  {
  }

  lemma {:induction false} FitsIs53(n: nat)
    ensures Fits(n as real) <==> Fits53(n)
  {
    if n >= 0x20_0000_0000_0000 {
      if n % 2 == 0 {
        HalfOfEven(n);
        FitsIs53(n / 2);
      } else {
        HalfOfOdd(n);
        if Fits(n as real / 2.0) {
          FitsIsWhole(n as real / 2.0);
          assert false;
        }
      }
    }
  }

  // ---------- how near ----------

  lemma {:induction false} CoarseIsNear(x: real)
    requires x >= TWO52
    ensures x - x / TWO53 <= Coarse(x) <= x + x / TWO53
    decreases x.Floor
  {
    if x >= TWO53 { CoarseIsNear(x / 2.0); }
  }

  /** How small a number may be for that much scaling to give it 53 bits. */
  function Least(room: nat): real {
    if room == 0 then TWO52 else Least(room - 1) / 2.0
  }

  lemma {:induction false} FineIsNear(x: real, room: nat)
    requires 0.0 < x < TWO53 && x >= Least(room)
    ensures x - x / TWO53 <= Fine(x, room) <= x + x / TWO53
    decreases room
  {
    if x < TWO52 && room > 0 { FineIsNear(2.0 * x, room - 1); }
  }

  lemma LeastOfEight(room: nat)
    ensures Least(room + 8) == Least(room) / 256.0
  {
    assert Least(room + 8) == Least(room + 7) / 2.0 && Least(room + 7) == Least(room + 6) / 2.0;
    assert Least(room + 6) == Least(room + 5) / 2.0 && Least(room + 5) == Least(room + 4) / 2.0;
    assert Least(room + 4) == Least(room + 3) / 2.0 && Least(room + 3) == Least(room + 2) / 2.0;
    assert Least(room + 2) == Least(room + 1) / 2.0 && Least(room + 1) == Least(room) / 2.0;
  }

  lemma LeastOf56()
    ensures Least(56) == 0.0625
  {
    LeastOfEight(0);
    LeastOfEight(8);
    LeastOfEight(16);
    LeastOfEight(24);
    LeastOfEight(32);
    LeastOfEight(40);
    LeastOfEight(48);
  }

  lemma {:induction false} LeastFalls(room: nat, more: nat)
    ensures 0.0 < Least(room + more) <= Least(room)
    decreases more
  {
    if more > 0 {
      LeastFalls(room, more - 1);
    } else {
      LeastIsPositive(room);
    }
  }

  lemma {:induction false} LeastIsPositive(room: nat)
    ensures Least(room) > 0.0
  {
    if room > 0 { LeastIsPositive(room - 1); }
  }

  /** The nearest float is within one part in two to the fifty-third. */
  lemma NearestIsNear(x: real)
    requires x >= 0.0625
    ensures x - x / TWO53 <= Nearest(x) <= x + x / TWO53
  {
    if x >= TWO53 {
      CoarseIsNear(x);
    } else {
      LeastOf56();
      LeastFalls(56, SMALLEST_EXPONENT - 56);
      FineIsNear(x, SMALLEST_EXPONENT);
    }
  }

  /** The largest 64-bit number is read as the next power of two. */
  lemma LargestReadsAsTwo64()
    ensures Nearest(18446744073709551615.0) == TWO64
  {
    var x := 18446744073709551615.0;
    assert Coarse(x / 2048.0) == TWO53;
    assert Coarse(x / 1024.0) == 2.0 * Coarse(x / 2048.0) && Coarse(x / 512.0) == 2.0 * Coarse(x / 1024.0);
    assert Coarse(x / 256.0) == 2.0 * Coarse(x / 512.0) && Coarse(x / 128.0) == 2.0 * Coarse(x / 256.0);
    assert Coarse(x / 64.0) == 2.0 * Coarse(x / 128.0) && Coarse(x / 32.0) == 2.0 * Coarse(x / 64.0);
    assert Coarse(x / 16.0) == 2.0 * Coarse(x / 32.0) && Coarse(x / 8.0) == 2.0 * Coarse(x / 16.0);
    assert Coarse(x / 4.0) == 2.0 * Coarse(x / 8.0) && Coarse(x / 2.0) == 2.0 * Coarse(x / 4.0);
    assert Coarse(x) == 2.0 * Coarse(x / 2.0);
  }
}
