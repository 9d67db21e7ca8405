/** The check digit of the WPS PIN. */
module WpsPin {

  /** The weighted sum of the eight low decimal digits. */
  function Weighed(pin: nat): nat {
    3 * (pin / 10000000 % 10) + pin / 1000000 % 10 + 3 * (pin / 100000 % 10) + pin / 10000 % 10
    + 3 * (pin / 1000 % 10) + pin / 100 % 10 + 3 * (pin / 10 % 10) + pin / 1 % 10
  }

  /** Four-digit PINs carry no check digit. */
  predicate PinValid(pin: nat) {
    pin <= 9999 || Weighed(pin) % 10 == 0
  }

  /** The digit that brings the weighed sum to a multiple of ten. */
  function CheckDigit(tmp: nat): nat {
    var acc := 3 * (tmp / 10000000 % 10) + 1 * (tmp / 1000000 % 10) + 3 * (tmp / 100000 % 10) + 1 * (tmp / 10000 % 10)
    + 3 * (tmp / 1000 % 10) + 1 * (tmp / 100 % 10) + 3 * (tmp / 10 % 10);
    (10 - acc % 10) % 10
  }

  /** Seven digits, the first of them not zero, and the check digit; `random` is the seed's value. */
  function PinGen(random: nat): nat {
    var pin := 1000000 + random % 9000000;
    pin * 10 + CheckDigit(pin * 10)
  }

  /** Whatever the seed, the PIN has eight digits and is accepted. */
  lemma GeneratedPinsAreValid(random: nat)
    ensures 10000000 <= PinGen(random) <= 99999999
    ensures PinValid(PinGen(random))
  {
    hide Weighed, CheckDigit;
    var pin := 1000000 + random % 9000000;
    CheckDigitCloses(pin);
    CheckDigitKeepsOthers(pin, CheckDigit(pin * 10));
  }

  /** A PIN of up to eight digits is accepted exactly when it has at most four, or ends in its check digit. */
  lemma PinValidExactly(pin: nat)
    ensures PinValid(pin) <==> pin <= 9999 || pin % 10 == CheckDigit(pin / 10 * 10)
  {
    hide Weighed, CheckDigit;
    var prefix, c := pin / 10, pin % 10;
    assert pin == prefix * 10 + c;
    CheckDigitCloses(prefix);
    CheckDigitKeepsOthers(prefix, c);
    DigitsTellApart(c, CheckDigit(prefix * 10), Weighed(prefix * 10));
  }

  /** Every accepted eight-digit PIN is generated, by exactly the seeds that have its first
      seven digits; so different seeds give different PINs. */
  lemma EveryPinIsGenerated(pin: nat, random: nat)
    requires 10000000 <= pin <= 99999999 && PinValid(pin)
    ensures PinGen(random) == pin <==> random % 9000000 == pin / 10 - 1000000
  {
    hide Weighed, CheckDigit;
    PinValidExactly(pin);
    CheckDigitCloses(1000000 + random % 9000000);
  }

  lemma CheckDigitCloses(pin: nat)
    ensures CheckDigit(pin * 10) < 10 && (Weighed(pin * 10) + CheckDigit(pin * 10)) % 10 == 0
  {
    ClosesSum(Weighed(pin * 10));
  }

  lemma ClosesSum(acc: nat)
    ensures (acc + (10 - acc % 10) % 10) % 10 == 0
  {
  }

  lemma CheckDigitKeepsOthers(pin: nat, c: nat)
    requires c < 10
    ensures Weighed(pin * 10 + c) == Weighed(pin * 10) + c
  {
    HigherDigits(pin, c);
    HigherDigits(pin, 0);
  }

  lemma HigherDigits(pin: nat, c: nat)
    requires c < 10
    ensures var all := pin * 10 + c;
            && all % 10 == c && all / 10 == pin && all / 100 == pin / 10 && all / 1000 == pin / 100
            && all / 10000 == pin / 1000
            && all / 100000 == pin / 10000 && all / 1000000 == pin / 100000 && all / 10000000 == pin / 1000000
  {
    DropLastDigit(pin, c, 10);
    DropLastDigit(pin, c, 100);
    DropLastDigit(pin, c, 1000);
    DropLastDigit(pin, c, 10000);
    DropLastDigit(pin, c, 100000);
    DropLastDigit(pin, c, 1000000);
  }

  lemma DropLastDigit(pin: nat, c: nat, d: nat)
    requires c < 10 && d in {10, 100, 1000, 10000, 100000, 1000000}
    ensures (pin * 10 + c) / (10 * d) == pin / d
  {
    if d == 10 {
      assert (pin * 10 + c) / 100 == pin / 10;
    } else if d == 100 {
      assert (pin * 10 + c) / 1000 == pin / 100;
    } else if d == 1000 {
      assert (pin * 10 + c) / 10000 == pin / 1000;
    } else if d == 10000 {
      assert (pin * 10 + c) / 100000 == pin / 10000;
    } else if d == 100000 {
      assert (pin * 10 + c) / 1000000 == pin / 100000;
    } else {
      assert (pin * 10 + c) / 10000000 == pin / 1000000;
    }
  }

  function PowerOfTen(k: nat): nat
    requires k < 8
  {
    if k == 0 then 1 else if k == 1 then 10 else if k == 2 then 100 else if k == 3 then 1000
    else if k == 4 then 10000 else if k == 5 then 100000 else if k == 6 then 1000000 else 10000000
  }

  function Digit(pin: nat, k: nat): (d: nat)
    requires k < 8
    ensures d < 10
  {
    pin / PowerOfTen(k) % 10
  }

  /** Three times a digit, like the digit itself, tells any two digits apart modulo ten. */
  lemma TriplesTellApart(d: nat, e: nat, rest: int)
    requires d < 10 && e < 10
    ensures (rest + 3 * d) % 10 == (rest + 3 * e) % 10 ==> d == e
  {
    if (rest + 3 * d) % 10 == (rest + 3 * e) % 10 {
      SameTriple(d, e, (rest + 3 * d) / 10 - (rest + 3 * e) / 10);
    }
  }

  lemma SameTriple(d: nat, e: nat, m: int)
    requires d < 10 && e < 10 && 3 * (d - e) == 10 * m
    ensures d == e
  {
  }

  lemma DigitsTellApart(d: nat, e: nat, rest: int)
    requires d < 10 && e < 10
    ensures (rest + d) % 10 == (rest + e) % 10 ==> d == e
  {
  }

  lemma WeighedByDigits(p: nat)
    ensures Weighed(p) == 3 * Digit(p, 7) + Digit(p, 6) + 3 * Digit(p, 5) + Digit(p, 4) + 3 * Digit(p, 3) +
      Digit(p, 2) + 3 * Digit(p, 1) + Digit(p, 0)
  {
  }

  /** A PIN is accepted if it is short, or three times its second, fourth, sixth and eighth
      digit, from the right, with the other digits make up a multiple of ten. */
  lemma PinValidByDigits(p: nat)
    ensures
      var tripled, plain := Digit(p, 1) + Digit(p, 3) + Digit(p, 5) + Digit(p, 7),
        Digit(p, 0) + Digit(p, 2) + Digit(p, 4) + Digit(p, 6);
      PinValid(p) <==> p <= 9999 || (3 * tripled + plain) % 10 == 0
  {
    WeighedByDigits(p);
    hide Weighed, Digit;
  }

  predicate DifferOnlyAt(p: nat, q: nat, k: nat) {
    forall j :: 0 <= j < 8 && j != k ==> Digit(p, j) == Digit(q, j)
  }

  lemma OthersAgree(p: nat, q: nat, k: nat)
    requires k < 8 && DifferOnlyAt(p, q, k)
    ensures var w := if k % 2 == 1 then 3 else 1; Weighed(p) - w * Digit(p, k) == Weighed(q) - w * Digit(q, k)
  {
    hide Weighed, Digit;
    WeighedByDigits(p);
    WeighedByDigits(q);
    assert forall j :: 0 <= j < 8 && j != k ==> Digit(p, j) == Digit(q, j);
    if k == 0 {
    } else if k == 1 {
    } else if k == 2 {
    } else if k == 3 {
    } else if k == 4 {
    } else if k == 5 {
    } else if k == 6 {
    }
  }

  /** One wrong digit is always noticed: two accepted PINs never differ in exactly one digit. */
  lemma OneWrongDigitIsNoticed(p: nat, q: nat, k: nat)
    requires p > 9999 && q > 9999 && k < 8
    requires PinValid(p) && PinValid(q) && DifferOnlyAt(p, q, k)
    ensures Digit(p, k) == Digit(q, k)
  {
    hide Weighed, Digit, DifferOnlyAt;
    OthersAgree(p, q, k);
    if k % 2 == 1 {
      TriplesTellApart(Digit(p, k), Digit(q, k), Weighed(p) - 3 * Digit(p, k));
    } else {
      DigitsTellApart(Digit(p, k), Digit(q, k), Weighed(p) - Digit(p, k));
    }
  }
}
