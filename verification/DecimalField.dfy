/** The decimal number field of the AqualinkTouch set command: digits, then padding. */
module DecimalField {
  import opened Wire
  import opened Division

  const INT_MAX := 0x7FFF_FFFF
  const INT_MIN := -0x8000_0000

  // --------------------------------------------------------------- specification

  function Pow10(k: nat): (p: nat)
    ensures p >= 1
  {
    if k == 0 then 1 else 10 * Pow10(k - 1)
  }

  /** The number of decimal digits of n. */
  function DigitCount(n: nat): (k: nat)
    ensures k >= 1
  {
    if n < 10 then 1 else 1 + DigitCount(n / 10)
  }

  /** The ASCII digits of n, most significant first. */
  function Digits(n: nat): seq<byte> {
    if n < 10 then [0x30 + n] else Digits(n / 10) + [0x30 + n % 10]
  }

  /** Byte i of the padding behind k digits. */
  function Padding(k: nat, i: nat): byte {
    if i == 4 && k <= 3 then 0x30 else NUL
  }

  /** What stands in front of the padding: the digits, or for -9 to -1 one byte that is
      none. */
  function Leading(num: int): seq<byte>
    requires num > -10
  {
    if num < 0 then [0x30 + num] else Digits(num)
  }

  /** The field: these, padded to six bytes. */
  function Field(num: int): seq<byte>
    requires num > -10
  {
    var d := Leading(num);
    d + seq<byte>(if |d| < 6 then 6 - |d| else 0, i requires i >= 0 => Padding(|d|, |d| + i))
  }

  /** Reading a field: the value of its ASCII digits up to the first other byte. */
  function Read(f: seq<byte>): nat {
    ReadFrom(f, 0)
  }

  function ReadFrom(f: seq<byte>, acc: nat): nat {
    if f == [] || !(0x30 <= f[0] <= 0x39) then acc else ReadFrom(f[1..], acc * 10 + (f[0] - 0x30))
  }

  // -------------------------------------------------------------------- the code

  /** An int made unsigned. */
  function Unsigned(num: int): nat
    requires num >= INT_MIN
  {
    if num < 0 then num + 0x1_0000_0000 else num
  }

  /** num / 10 in C, made unsigned for the comparison with div. */
  function UnsignedTenth(num: int): nat
    requires num >= INT_MIN
  {
    Unsigned(if num >= 0 then num / 10 else -((-num) / 10))
  }

  function NotBelowZero(num: int): nat {
    if num < 0 then 0 else num
  }

  /** The loop guard asks whether another digit remains. */
  lemma AnotherDigit(num: nat, k: nat)
    requires 1 <= k <= DigitCount(num)
    ensures Pow10(k - 1) <= num / 10 <==> k < DigitCount(num)
  {
    var d := DigitCount(num);
    MagnitudeOf(num);
    assert Pow10(k) == 10 * Pow10(k - 1);
    if k < d {
      Pow10Monotone(k, d - 1);
      assert Pow10(d - 1) <= num;
    }
  }

  /** The first loop of num2iaqtRSset: the largest power of ten not above num, or 1. */
  method Magnitude(num: int) returns (div: nat, digitCount: nat)
    requires -10 < num <= INT_MAX
    ensures digitCount == DigitCount(NotBelowZero(num)) && div == Pow10(digitCount - 1)
    ensures div <= 1_000_000_000
  {
    ghost var n := NotBelowZero(num);
    div, digitCount := 1, 1;
    AnotherDigit(n, 1);
    while div <= UnsignedTenth(num)
      invariant 1 <= digitCount <= DigitCount(n) && div == Pow10(digitCount - 1)
      invariant div <= n / 10 <==> digitCount < DigitCount(n)
      decreases DigitCount(n) - digitCount
    {
      digitCount := digitCount + 1;
      div := div * 10;
      AnotherDigit(n, digitCount);
    }
    PowersBound(digitCount, n);
  }

  lemma {:induction false} MagnitudeOf(n: nat)
    ensures n > 0 ==> Pow10(DigitCount(n) - 1) <= n
    ensures n < Pow10(DigitCount(n))
  {
    if n < 10 {
      assert Pow10(1) == 10 * Pow10(0);
    } else {
      MagnitudeOf(n / 10);
      var k := DigitCount(n / 10);
      assert DigitCount(n) == k + 1;
      assert Pow10(k + 1) == 10 * Pow10(k) && Pow10(k) == 10 * Pow10(k - 1);
    }
  }

  lemma {:induction false} Pow10Monotone(a: nat, b: nat)
    requires a <= b
    ensures Pow10(a) <= Pow10(b)
    decreases b - a
  {
    if a < b {
      Pow10Monotone(a, b - 1);
    }
  }

  lemma PowersBound(k: nat, n: nat)
    requires k == DigitCount(n) && n <= INT_MAX
    ensures k <= 10 && Pow10(k - 1) <= 1_000_000_000
  {
    MagnitudeOf(n);
    BillionIs();
    if k > 10 {
      Pow10Monotone(10, k - 1);
    } else {
      Pow10Monotone(k - 1, 9);
    }
  }

  lemma BillionIs()
    ensures Pow10(9) == 1_000_000_000 && Pow10(10) == 10_000_000_000
  {
    assert Pow10(3) == 1000 by { assert Pow10(2) == 100 by { assert Pow10(1) == 10; } }
    assert Pow10(4) == 10 * Pow10(3) && Pow10(5) == 10 * Pow10(4) && Pow10(6) == 10 * Pow10(5);
    assert Pow10(7) == 10 * Pow10(6) && Pow10(8) == 10 * Pow10(7) && Pow10(9) == 10 * Pow10(8);
  }

  /** Quotient and remainder by repeated subtraction. */
  function Quotient(n: nat, p: nat): nat
    requires p > 0
  {
    if n < p then 0 else 1 + Quotient(n - p, p)
  }

  function Remainder(n: nat, p: nat): (r: nat)
    requires p > 0
    ensures r < p
  {
    if n < p then n else Remainder(n - p, p)
  }

  lemma {:induction false} Divide(n: nat, p: nat)
    requires p > 0
    ensures Quotient(n, p) == n / p && Remainder(n, p) == n % p
  {
    Recombine(n, p);
    DivisionUnique(n, p, Quotient(n, p), Remainder(n, p));
  }

  lemma {:induction false} Recombine(n: nat, p: nat)
    requires p > 0
    ensures n == p * Quotient(n, p) + Remainder(n, p)
  {
    if n >= p {
      Recombine(n - p, p);
      OneMoreTime(p, Quotient(n - p, p));
    }
  }

  lemma OneMoreTime(p: int, q: int)
    ensures p * (1 + q) == p + p * q
  {
  }

  /** The last c digits of n, leading zeros included, found from the front; if n has more
      than that, the first byte is what a byte holds of the quotient. */
  function Padded(n: nat, c: nat): seq<byte> {
    if c == 0 then []
    else [(0x30 + Quotient(n, Pow10(c - 1))) % 256] + Padded(Remainder(n, Pow10(c - 1)), c - 1)
  }

  /** Taking the last digit off commutes with taking the first one off. */
  lemma FirstAndLast(n: nat, p: nat)
    requires p > 0
    ensures Quotient(n, 10 * p) == Quotient(n / 10, p)
    ensures Remainder(n, 10 * p) / 10 == Remainder(n / 10, p)
    ensures Remainder(n, 10 * p) % 10 == n % 10
  {
    var a, b := n / 10, n % 10;
    var q, s := Quotient(a, p), Remainder(a, p);
    Recombine(a, p);
    Regroup(p, q);
    Divide(n, 10 * p);
    DivisionUnique(n, 10 * p, q, 10 * s + b);
    DivisionUnique(10 * s + b, 10, s, b);
  }

  lemma Regroup(p: int, q: int)
    ensures 10 * (p * q) == (10 * p) * q
  {
  }

  lemma {:induction false} PaddedLast(n: nat, c: nat)
    requires c > 0 && n < Pow10(c)
    ensures Padded(n, c) == Padded(n / 10, c - 1) + [0x30 + n % 10]
  {
    var p := Pow10(c - 1);
    if c == 1 {
      Divide(n, 1);
      DivisionUnique(n, 1, n, 0);
      assert Padded(0, 0) == [];
    } else {
      FirstAndLast(n, Pow10(c - 2));
      var rest := Remainder(n, p);
      PaddedLast(rest, c - 1);
      var first: byte := (0x30 + Quotient(n, p)) % 256;
      assert Padded(n, c) == [first] + Padded(rest, c - 1);
      assert Padded(n / 10, c - 1) == [first] + Padded(rest / 10, c - 2);
      Rejoined(first, Padded(rest / 10, c - 2), 0x30 + rest % 10);
    }
  }

  lemma Rejoined(first: byte, middle: seq<byte>, last: byte)
    ensures [first] + (middle + [last]) == ([first] + middle) + [last]
  {
  }

  /** Every number is its digits from the front. */
  lemma {:induction false} DigitsFromFront(n: nat)
    ensures Digits(n) == Padded(n, DigitCount(n))
  {
    MagnitudeOf(n);
    PaddedLast(n, DigitCount(n));
    if n >= 10 {
      DigitsFromFront(n / 10);
    } else {
      assert Padded(n / 10, 0) == [];
    }
  }

  /** One round: the digit written, what is left for the rest, and the next power. */
  lemma WriteOne(done: seq<byte>, num: nat, c: nat, div: nat)
    returns (digit: byte, left: nat)
    requires c > 0 && div == Pow10(c - 1)
    ensures digit == (num / div + 0x30) % 256 && left == num % div
    ensures (done + [digit]) + Padded(left, c - 1) == done + Padded(num, c)
    ensures c > 1 ==> div / 10 == Pow10(c - 2)
  {
    Divide(num, div);
    digit, left := (num / div + 0x30) % 256, num % div;
    var rest := Padded(left, c - 1);
    assert (done + [digit]) + rest == done + ([digit] + rest);
  }

  /** The second loop of num2iaqtRSset: the digits, most significant first. */
  method WriteDigits(packetbuffer: array<byte>, num0: nat, div0: nat, digitCount0: nat) returns (bcnt: nat)
    requires digitCount0 > 0 && div0 == Pow10(digitCount0 - 1)
    requires packetbuffer.Length >= digitCount0
    modifies packetbuffer
    ensures bcnt == digitCount0 && packetbuffer[..bcnt] == Padded(num0, digitCount0)
  {
    var num: nat, div: nat, digitCount: nat := num0, div0, digitCount0;
    ghost var all := Padded(num0, digitCount0);
    bcnt := 0;
    while digitCount > 0
      invariant 0 <= digitCount <= digitCount0 && bcnt == digitCount0 - digitCount
      invariant digitCount > 0 ==> div == Pow10(digitCount - 1)
      invariant packetbuffer[..bcnt] + Padded(num, digitCount) == all
      decreases digitCount
    {
      ghost var digit, left := WriteOne(packetbuffer[..bcnt], num, digitCount, div);
      packetbuffer[bcnt] := (num / div + 0x30) % 256;
      assert packetbuffer[..bcnt + 1] == packetbuffer[..bcnt] + [digit];
      num := num % div;
      div := div / 10;
      digitCount := digitCount - 1;
      bcnt := bcnt + 1;
    }
  }

  /** What the second loop writes. */
  lemma LeadingWritten(num: int)
    requires -10 < num <= INT_MAX
    ensures Padded(Unsigned(num), DigitCount(NotBelowZero(num))) == Leading(num)
  {
    if num < 0 {
      var u: nat, p := Unsigned(num), Pow10(0);
      Divide(u, p);
      DivisionUnique(u, p, u, 0);
      assert Padded(u, 1) == [(0x30 + u) % 256] + Padded(0, 0);
    } else {
      DigitsFromFront(num);
    }
  }

  /** num2iaqtRSset, for the numbers for which it returns. */
  method Num2IaqtRSset(packetbuffer: array<byte>, num: int) returns (bcnt: nat)
    requires -10 < num <= INT_MAX
    requires packetbuffer.Length >= |Field(num)|
    modifies packetbuffer
    ensures bcnt == |Field(num)| && packetbuffer[..bcnt] == Field(num)
  {
    LeadingLength(num);
    LeadingWritten(num);
    var div, digitCount := Magnitude(num);
    bcnt := WriteDigits(packetbuffer, Unsigned(num), div, digitCount);
    var digits := bcnt;
    while bcnt < 6
      invariant digits <= bcnt <= |Field(num)|
      invariant packetbuffer[..bcnt] == Field(num)[..bcnt]
    {
      FieldPadding(num, bcnt);
      if bcnt == 4 && digits <= 3 {
        packetbuffer[bcnt] := 0x30;
      } else {
        packetbuffer[bcnt] := NUL;
      }
      bcnt := bcnt + 1;
    }
  }

  lemma FieldPadding(num: int, i: nat)
    requires num > -10 && |Leading(num)| <= i < 6
    ensures i < |Field(num)| && Field(num)[i] == Padding(|Leading(num)|, i)
  {
  }

  lemma {:induction false} DigitsLength(n: nat)
    ensures |Digits(n)| == DigitCount(n)
  {
    if n < 10 {
    } else {
      DigitsLength(n / 10);
    }
  }

  lemma LeadingLength(num: int)
    requires num > -10
    ensures |Leading(num)| == DigitCount(NotBelowZero(num))
    ensures Leading(num) <= Field(num) && |Field(num)| == if |Leading(num)| < 6 then 6 else |Leading(num)|
  {
    if num >= 0 {
      DigitsLength(num);
    }
  }

  // ------------------------------------------------------------------- theorems

  lemma {:induction false} ReadDigits(n: nat, rest: seq<byte>)
    ensures ReadFrom(Digits(n) + rest, 0) == ReadFrom(rest, n)
  {
    if n < 10 {
      assert (Digits(n) + rest)[1..] == rest;
    } else {
      var last := [0x30 + n % 10];
      assert Digits(n) + rest == Digits(n / 10) + (last + rest);
      ReadDigits(n / 10, last + rest);
      assert (last + rest)[1..] == rest;
    }
  }

  /** Every number that is not negative reads back from its field, although the padding
      may hold a digit, and -9 to -1 read as 0; a number of at most six digits takes
      exactly six bytes. */
  lemma FieldRoundTrip(num: int)
    requires num > -10
    ensures Read(Field(num)) == NotBelowZero(num)
    ensures num <= 999_999 ==> |Field(num)| == 6
  {
    if num >= 0 {
      DigitsReadBack(num);
    }
  }

  lemma DigitsReadBack(n: nat)
    ensures Read(Field(n)) == n
    ensures n <= 999_999 ==> |Field(n)| == 6
  {
    var d := Digits(n);
    LeadingLength(n);
    var pad := Field(n)[|d|..];
    assert Field(n) == d + pad;
    ReadDigits(n, pad);
    assert |d| < 6 ==> pad[0] == Padding(|d|, |d|);
    if n <= 999_999 {
      AtMostSix(n);
    }
    PaddingStops(|d|, pad, n);
  }

  /** Behind the digits stand NULs, but for a digit zero in the fifth place of every number
      below 1000. */
  lemma PaddingBytes(num: int, i: nat)
    requires num > -10 && DigitCount(NotBelowZero(num)) <= i < 6
    ensures i < |Field(num)| && Field(num)[i] == if i == 4 && num < 1000 then 0x30 else 0x00
  {
    LeadingLength(num);
    FieldPadding(num, i);
    ThreeDigits(NotBelowZero(num));
  }

  lemma ThreeDigits(n: nat)
    ensures DigitCount(n) <= 3 <==> n < 1000
  {
    MagnitudeOf(n);
    assert Pow10(3) == 1000 by { assert Pow10(2) == 100 by { assert Pow10(1) == 10; } }
    if DigitCount(n) <= 3 {
      Pow10Monotone(DigitCount(n), 3);
    } else {
      Pow10Monotone(3, DigitCount(n) - 1);
    }
  }

  lemma PaddingStops(k: nat, pad: seq<byte>, n: nat)
    requires pad != [] ==> pad[0] == Padding(k, k)
    ensures ReadFrom(pad, n) == n
  {
  }

  lemma AtMostSix(n: nat)
    requires n <= 999_999
    ensures DigitCount(n) <= 6
  {
    MagnitudeOf(n);
    if DigitCount(n) > 6 {
      Pow10Monotone(6, DigitCount(n) - 1);
      assert Pow10(6) == 1_000_000 by { BillionIs(); }
    }
  }

  lemma {:induction false} FirstDigit(n: nat)
    ensures Digits(n) != [] && 0x30 <= Digits(n)[0] <= 0x39
  {
    if n < 10 {
    } else {
      FirstDigit(n / 10);
    }
  }

  /** No two numbers share a field. */
  lemma FieldInjective(a: int, b: int)
    requires a > -10 && b > -10 && Field(a) == Field(b)
    ensures a == b
  {
    assert Field(a)[0] == Leading(a)[0] && Field(b)[0] == Leading(b)[0] by {
      FirstDigit(NotBelowZero(a));
      FirstDigit(NotBelowZero(b));
    }
    if a >= 0 {
      FirstDigit(a);
    }
    if b >= 0 {
      FirstDigit(b);
    }
    FieldRoundTrip(a);
    FieldRoundTrip(b);
  }

  // ---------------------------------------------------------------- which calls return

  /** div after k rounds of the first loop, which multiplies an unsigned int. */
  function Wrapped(k: nat): nat {
    if k == 0 then 1 else Wrapped(k - 1) * 10 % 0x1_0000_0000
  }

  /** The largest wrapped power, reached after 23 rounds; from 32 on div is 0. */
  const LARGEST := 4_135_583_744

  /** No power up to the k-th is larger. */
  predicate Below(k: nat) {
    Wrapped(k) <= LARGEST && (k > 0 ==> Below(k - 1))
  }

  lemma {:induction false} BelowAll(n: nat, k: nat)
    requires Below(n) && k <= n
    ensures Wrapped(k) <= LARGEST
  {
    if k < n {
      BelowAll(n - 1, k);
    }
  }

  lemma NextPower(k: nat, power: nat)
    requires Wrapped(k) == power && Below(k) && power * 10 % 0x1_0000_0000 <= LARGEST
    ensures Wrapped(k + 1) == power * 10 % 0x1_0000_0000 && Below(k + 1)
  {
  }

  // Three stretches of the table of wrapped powers, from the k-th on.

  lemma PowersTo16(k: nat)
    requires Wrapped(k) == 1 && Below(k)
    ensures Wrapped(k + 16) == 1_874_919_424 && Below(k + 16)
  {
    NextPower(k, 1);
    NextPower(k + 1, 10);
    NextPower(k + 2, 100);
    NextPower(k + 3, 1_000);
    NextPower(k + 4, 10_000);
    NextPower(k + 5, 100_000);
    NextPower(k + 6, 1_000_000);
    NextPower(k + 7, 10_000_000);
    NextPower(k + 8, 100_000_000);
    NextPower(k + 9, 1_000_000_000);
    NextPower(k + 10, 1_410_065_408);
    NextPower(k + 11, 1_215_752_192);
    NextPower(k + 12, 3_567_587_328);
    NextPower(k + 13, 1_316_134_912);
    NextPower(k + 14, 276_447_232);
    NextPower(k + 15, 2_764_472_320);
  }

  lemma PowersTo23(k: nat)
    requires Wrapped(k) == 1_874_919_424 && Below(k)
    ensures Wrapped(k + 7) == LARGEST && Below(k + 7)
  {
    NextPower(k, 1_874_919_424);
    NextPower(k + 1, 1_569_325_056);
    NextPower(k + 2, 2_808_348_672);
    NextPower(k + 3, 2_313_682_944);
    NextPower(k + 4, 1_661_992_960);
    NextPower(k + 5, 3_735_027_712);
    NextPower(k + 6, 2_990_538_752);
  }

  lemma PowersTo32(k: nat)
    requires Wrapped(k) == LARGEST && Below(k)
    ensures Wrapped(k + 9) == 0 && Below(k + 9)
  {
    NextPower(k, 4_135_583_744);
    NextPower(k + 1, 2_701_131_776);
    NextPower(k + 2, 1_241_513_984);
    NextPower(k + 3, 3_825_205_248);
    NextPower(k + 4, 3_892_314_112);
    NextPower(k + 5, 268_435_456);
    NextPower(k + 6, 2_684_354_560);
    NextPower(k + 7, 1_073_741_824);
    NextPower(k + 8, 2_147_483_648);
  }

  lemma PowersTable(k: nat, m: nat, n: nat)
    requires k == 0 && m == 23 && n == 32
    ensures Wrapped(k) == 1 && Wrapped(m) == LARGEST && Wrapped(n) == 0 && Below(n)
  {
    assert Below(k);
    PowersTo16(k);
    PowersTo23(k + 16);
    PowersTo32(m);
  }

  lemma {:induction false} PowersVanish(n: nat, k: nat)
    requires Wrapped(n) == 0 && k >= n
    ensures Wrapped(k) == 0
  {
    if k > n {
      PowersVanish(n, k - 1);
    }
  }

  lemma NoLargerPower(n: nat, k: nat)
    requires Wrapped(n) == 0 && Below(n)
    ensures Wrapped(k) <= LARGEST
  {
    if k >= n {
      PowersVanish(n, k);
    } else {
      BelowAll(n, k);
    }
  }

  /** For a negative number the first loop of num2iaqtRSset ends if and only if the number
      is above -10 or below -1593835529. */
  lemma NegativeLoopEnds(num: int)
    requires INT_MIN <= num < 0
    ensures (exists k: nat :: Wrapped(k) > UnsignedTenth(num)) <==> num > -10 || num <= -1_593_835_530
  {
    var none, m: nat, n: nat := 0, 23, 32;
    PowersTable(none, m, n);
    forall k {
      NoLargerPower(n, k);
    }
    if num > -10 {
      assert Wrapped(none) > UnsignedTenth(num);
    } else if num <= -1_593_835_530 {
      assert Wrapped(m) > UnsignedTenth(num);
    }
  }

  /** The first loop ends after k rounds. */
  ghost predicate FirstLoopEnds(num: int, k: nat)
    requires num >= INT_MIN
  {
    Wrapped(k) > UnsignedTenth(num) && forall j :: 0 <= j < k ==> Wrapped(j) <= UnsignedTenth(num)
  }

  /** The second loop's divisor, divided by ten every round, is never zero when used. */
  predicate Divides(div: nat, digitCount: nat) {
    digitCount == 0 || (div != 0 && Divides(div / 10, digitCount - 1))
  }

  /** num2iaqtRSset returns: its third loop always ends, its first two must. */
  ghost predicate Completes(num: int)
    requires num >= INT_MIN
  {
    exists k: nat :: FirstLoopEnds(num, k) && Divides(Wrapped(k), k + 1)
  }

  lemma {:induction false} DividesPower(k: nat)
    ensures Divides(Pow10(k), k + 1)
  {
    if k == 0 {
      assert Divides(0, 0);
    } else {
      assert Pow10(k) / 10 == Pow10(k - 1);
      DividesPower(k - 1);
    }
  }

  /** Only a number of c digits can be divided by ten c times before it is zero. */
  lemma {:induction false} DividesOnly(div: nat, c: nat)
    requires c > 0 && Divides(div, c)
    ensures div >= Pow10(c - 1)
  {
    if c == 1 {
    } else {
      DividesOnly(div / 10, c - 1);
      assert Pow10(c - 1) == 10 * Pow10(c - 2);
    }
  }

  lemma {:induction false} WrappedIsPower(k: nat, last: nat)
    requires k <= last == 9
    ensures Wrapped(k) == Pow10(k) <= 1_000_000_000
  {
    if k == 0 {
      assert Pow10(0) == 1;
    } else {
      WrappedIsPower(k - 1, last);
      BillionIs();
      Pow10Monotone(k, last);
    }
  }

  /** For a number not above -1593835530 the first loop ends, and the second goes on until
      its divisor is zero. */
  lemma DividesByZero(num: int, k: nat)
    requires INT_MIN <= num < 0 && num <= -1_593_835_530 && FirstLoopEnds(num, k)
    ensures !Divides(Wrapped(k), k + 1)
  {
    assert Wrapped(k) > 4_000_000_000;
    if k <= 9 {
      WrappedIsPower(k, 9);
    } else if Divides(Wrapped(k), k + 1) {
      DividesOnly(Wrapped(k), k + 1);
      Pow10Monotone(10, k);
      BillionIs();
      WrappedBelow(k);
    }
  }

  lemma WrappedBelow(k: nat)
    ensures Wrapped(k) < 0x1_0000_0000
  {
  }

  /** A loop that some round would end is ended by a first one. */
  lemma {:induction false} EndsFirst(num: int, k: nat) returns (first: nat)
    requires num >= INT_MIN && Wrapped(k) > UnsignedTenth(num)
    ensures FirstLoopEnds(num, first)
  {
    if j: nat :| j < k && Wrapped(j) > UnsignedTenth(num) {
      first := EndsFirst(num, j);
    } else {
      first := k;
    }
  }

  /** Such as the least of all ints. */
  lemma ZeroDivisorAtIntMin() returns (k: nat)
    ensures FirstLoopEnds(INT_MIN, k) && !Divides(Wrapped(k), k + 1)
  {
    NegativeLoopEnds(INT_MIN);
    var some: nat :| Wrapped(some) > UnsignedTenth(INT_MIN);
    k := EndsFirst(INT_MIN, some);
    DividesByZero(INT_MIN, k);
  }

  lemma NotNegativeCompletes(num: int)
    requires 0 <= num <= INT_MAX
    ensures Completes(num)
  {
    var k := DigitCount(num) - 1;
    PowersBound(k + 1, num);
    forall j | 0 <= j <= k ensures Wrapped(j) == Pow10(j) && (Wrapped(j) <= UnsignedTenth(num) <==> j < k) {
      WrappedIsPower(j, 9);
      AnotherDigit(num, j + 1);
    }
    DividesPower(k);
    assert FirstLoopEnds(num, k);
  }

  /** num2iaqtRSset returns if and only if the number is above -10. */
  lemma CompletesExactly(num: int)
    requires INT_MIN <= num <= INT_MAX
    ensures Completes(num) <==> num > -10
  {
    if num >= 0 {
      NotNegativeCompletes(num);
    } else if num > -10 {
      assert Wrapped(0) == Pow10(0) == 1;
      DividesPower(0);
      assert FirstLoopEnds(num, 0);
    } else if num > -1_593_835_530 {
      NegativeLoopEnds(num);
      assert forall k: nat :: !(Wrapped(k) > UnsignedTenth(num));
    } else {
      forall k: nat | FirstLoopEnds(num, k) ensures !Divides(Wrapped(k), k + 1) {
        DividesByZero(num, k);
      }
    }
  }
}
