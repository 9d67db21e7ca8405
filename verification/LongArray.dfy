/** The FSM bit arrays: 32-bit words that together stand for a finite set of bit numbers. */
module LongArray {

  /** The word with only bit `k` set. */
  function Mask(k: nat): bv32
    requires k < 32
  {
    if k == 0 then 0x1
    else if k == 1 then 0x2
    else if k == 2 then 0x4
    else if k == 3 then 0x8
    else if k == 4 then 0x10
    else if k == 5 then 0x20
    else if k == 6 then 0x40
    else if k == 7 then 0x80
    else if k == 8 then 0x100
    else if k == 9 then 0x200
    else if k == 10 then 0x400
    else if k == 11 then 0x800
    else if k == 12 then 0x1000
    else if k == 13 then 0x2000
    else if k == 14 then 0x4000
    else if k == 15 then 0x8000
    else if k == 16 then 0x10000
    else if k == 17 then 0x20000
    else if k == 18 then 0x40000
    else if k == 19 then 0x80000
    else if k == 20 then 0x100000
    else if k == 21 then 0x200000
    else if k == 22 then 0x400000
    else if k == 23 then 0x800000
    else if k == 24 then 0x1000000
    else if k == 25 then 0x2000000
    else if k == 26 then 0x4000000
    else if k == 27 then 0x8000000
    else if k == 28 then 0x10000000
    else if k == 29 then 0x20000000
    else if k == 30 then 0x40000000
    else 0x80000000
  }

  predicate Meets(w: bv32, m: bv32) {
    w & m != 0
  }

  predicate Bit(w: bv32, k: nat)
    requires k < 32
  {
    Meets(w, Mask(k))
  }

  predicate HasBit(ws: seq<bv32>, b: int) {
    0 <= b < 32 * |ws| && Bit(ws[b / 32], b % 32)
  }

  /** The bit numbers set in an array of words. */
  ghost function Bits(ws: seq<bv32>): set<int> {
    set b | 0 <= b < 32 * |ws| && HasBit(ws, b)
  }

  // ---------- words ----------

  lemma OrBits(v: bv32, w: bv32, m: bv32)
    ensures Meets(v | w, m) <==> Meets(v, m) || Meets(w, m)
  {
    OrDistributes(v, w, m);
    OrZero(v & m, w & m);
  }

  lemma OrDistributes(v: bv32, w: bv32, m: bv32)
    ensures (v | w) & m == (v & m) | (w & m)
  {
  }

  lemma OrZero(a: bv32, b: bv32)
    ensures a | b == 0 <==> a == 0 && b == 0
  {
  }

  lemma ClearBits(w: bv32, k: bv32, m: bv32)
    requires Meets(k, m) ==> k == m
    ensures Meets(w & !k, m) <==> Meets(w, m) && k != m
  {
  }

  predicate IsPower(m: bv32) {
    m != 0 && m & (m - 1) == 0
  }

  lemma PowersDisjoint(a: bv32, b: bv32)
    requires IsPower(a) && IsPower(b)
    ensures Meets(a, b) <==> a == b
  {
  }

  lemma MaskIsPower(k: nat)
    requires k < 32
    ensures IsPower(Mask(k)) && IndexOfPower(Mask(k)) == k
  {
    hide IndexOfPower;
    MaskIndex(k);
  }

  lemma MaskIndex(k: nat)
    requires k < 32
    ensures IndexOfPower(Mask(k)) == k
  {
  }

  lemma MaskDisjoint(j: nat, k: nat)
    requires j < 32 && k < 32
    ensures Meets(Mask(j), Mask(k)) <==> j == k
    ensures Mask(j) == Mask(k) <==> j == k
  {
    hide Mask, IndexOfPower, Meets, IsPower;
    MaskIsPower(j);
    MaskIsPower(k);
    PowersDisjoint(Mask(j), Mask(k));
  }

  function WithBit(w: bv32, k: nat): bv32
    requires k < 32
  {
    w | Mask(k)
  }

  function WithoutBit(w: bv32, k: nat): bv32
    requires k < 32
  {
    w & !Mask(k)
  }

  lemma SetBitInWord(w: bv32, k: nat, j: nat)
    requires k < 32 && j < 32
    ensures Bit(WithBit(w, k), j) <==> Bit(w, j) || j == k
  {
    hide Mask, Meets;
    MaskDisjoint(k, j);
    OrBits(w, Mask(k), Mask(j));
  }

  lemma ClearBitInWord(w: bv32, k: nat, j: nat)
    requires k < 32 && j < 32
    ensures Bit(WithoutBit(w, k), j) <==> Bit(w, j) && j != k
  {
    hide Mask, Meets;
    MaskDisjoint(k, j);
    ClearBits(w, Mask(k), Mask(j));
  }

  lemma OrInWord(v: bv32, w: bv32, j: nat)
    requires j < 32
    ensures Bit(v | w, j) <==> Bit(v, j) || Bit(w, j)
  {
    hide Mask, Meets;
    OrBits(v, w, Mask(j));
  }

  /** A word is zero exactly when it has no bit. */
  lemma ZeroWord(w: bv32)
    ensures w == 0 <==> forall k :: 0 <= k < 32 ==> !Bit(w, k)
  {
    if forall k :: 0 <= k < 32 ==> !Bit(w, k) {
      assert !Bit(w, 0) && !Bit(w, 1) && !Bit(w, 2) && !Bit(w, 3) && !Bit(w, 4) && !Bit(w, 5) && !Bit(w, 6) &&
        !Bit(w, 7);
      assert !Bit(w, 8) && !Bit(w, 9) && !Bit(w, 10) && !Bit(w, 11) && !Bit(w, 12) && !Bit(w, 13) && !Bit(w, 14) &&
        !Bit(w, 15);
      assert !Bit(w, 16) && !Bit(w, 17) && !Bit(w, 18) && !Bit(w, 19) && !Bit(w, 20) && !Bit(w, 21) && !Bit(w, 22) &&
        !Bit(w, 23);
      assert !Bit(w, 24) && !Bit(w, 25) && !Bit(w, 26) && !Bit(w, 27) && !Bit(w, 28) && !Bit(w, 29) && !Bit(w, 30) &&
        !Bit(w, 31);
    }
  }

  // ---------- the lowest and the highest bit of a word ----------

  /** The number of the bit of a power of two: the interval it is in is halved five times. */
  function IndexOfPower(sv: bv32): nat {
    (if sv & 0x0000ffff == 0 then 16 else 0) + (if sv & 0x00ff00ff == 0 then 8 else 0)
    + (if sv & 0x0f0f0f0f == 0 then 4 else 0)
    + (if sv & 0x33333333 == 0 then 2 else 0) + (if sv & 0x55555555 == 0 then 1 else 0)
  }

  /** The word's lowest bit, alone. */
  function Isolated(w: bv32): bv32 {
    w & (0 - w)
  }

  lemma IsolatedIsLowest(w: bv32)
    requires w != 0
    ensures IsPower(Isolated(w)) && Meets(w, Isolated(w)) && !Meets(w, Pred(Isolated(w)))
  {
    Isolate(w);
  }

  lemma Isolate(w: bv32)
    requires w != 0
    ensures var sv := w & (0 - w); sv != 0 && sv & (sv - 1) == 0 && w & sv == sv && w & (sv - 1) == 0
  {
  }

  lemma PowerIsMask(sv: bv32)
    requires IsPower(sv)
    ensures IndexOfPower(sv) < 32 && sv == Mask(IndexOfPower(sv))
  {
  }

  function Or(a: bv32, b: bv32): bv32 {
    a | b
  }

  /** All bits below `k`. */
  function Low(k: nat): bv32
    requires k < 32
  {
    if k == 0 then 0 else Or(Low(k - 1), Mask(k - 1))
  }

  predicate Within(a: bv32, b: bv32) {
    a & b == a
  }

  lemma WithinOr(a: bv32, b: bv32, c: bv32)
    ensures Within(a, b) ==> Within(a, Or(b, c))
  {
  }

  lemma WithinEither(a: bv32, b: bv32)
    ensures Within(a, Or(a, b)) && Within(a, Or(b, a))
  {
    hide Within;
    WithinFirst(a, b);
    WithinSecond(a, b);
  }

  lemma WithinFirst(a: bv32, b: bv32)
    ensures Within(a, Or(a, b))
  {
  }

  lemma WithinSecond(a: bv32, b: bv32)
    ensures Within(a, Or(b, a))
  {
  }

  /** A mask, and all bits below it, are below every later one. */
  lemma {:induction false} MaskBelow(j: nat, k: nat)
    requires j < k < 32
    ensures Within(Mask(j), Low(k)) && Within(Low(j), Low(k))
  {
    hide Mask, Or, Within;
    if j < k - 1 {
      MaskBelow(j, k - 1);
      WithinOr(Mask(j), Low(k - 1), Mask(k - 1));
      WithinOr(Low(j), Low(k - 1), Mask(k - 1));
    } else {
      WithinEither(Mask(j), Low(j));
      WithinEither(Low(j), Mask(j));
    }
  }

  function Pred(m: bv32): bv32 {
    m - 1
  }

  function Twice(m: bv32): bv32 {
    m + m
  }

  lemma NextMask(k: nat)
    requires k < 31
    ensures Mask(k + 1) == Twice(Mask(k))
  {
    if k < 16 {
      NextLowMask(k);
    } else {
      NextHighMask(k);
    }
  }

  lemma NextLowMask(k: nat)
    requires k < 16
    ensures Mask(k + 1) == Twice(Mask(k))
  {
  }

  lemma NextHighMask(k: nat)
    requires 16 <= k < 31
    ensures Mask(k + 1) == Twice(Mask(k))
  {
  }

  lemma PredOfTwice(m: bv32)
    requires IsPower(m)
    ensures Pred(Twice(m)) == Or(Pred(m), m)
  {
  }

  lemma PredOfOne()
    ensures Pred(Mask(0)) == Low(0)
  {
  }

  lemma {:induction false} PredIsLow(k: nat)
    requires k < 32
    ensures Pred(Mask(k)) == Low(k)
  {
    hide Mask, Or, Pred, Twice, IsPower;
    if k == 0 {
      PredOfOne();
    } else {
      PredIsLow(k - 1);
      MaskIsPower(k - 1);
      NextMask(k - 1);
      PredOfTwice(Mask(k - 1));
    }
  }

  lemma MissesAll(w: bv32, a: bv32, b: bv32)
    requires !Meets(w, b) && Within(a, b)
    ensures !Meets(w, a)
  {
  }

  /** The loop body of getLowestBitLongArray finds the lowest bit of a word. */
  lemma LowestInWord(w: bv32)
    requires w != 0
    ensures IndexOfPower(Isolated(w)) < 32 && Bit(w, IndexOfPower(Isolated(w)))
    ensures forall j :: 0 <= j < IndexOfPower(Isolated(w)) ==> !Bit(w, j)
  {
    hide Mask, Meets, IndexOfPower, Isolated, IsPower, Within, Low, Pred;
    var sv := Isolated(w);
    IsolatedIsLowest(w);
    PowerIsMask(sv);
    forall j | 0 <= j < IndexOfPower(sv) ensures !Bit(w, j) {
      MaskBelow(j, IndexOfPower(sv));
      PredIsLow(IndexOfPower(sv));
      MissesAll(w, Mask(j), Pred(sv));
    }
  }

  /** The number of a word's highest bit: the word is shifted down by halves. */
  function HighestIndex(w: bv32): nat {
    var s1 := if w >> 16 != 0 then w >> 16 else w;
    var s2 := if s1 >> 8 != 0 then s1 >> 8 else s1;
    var s3 := if s2 >> 4 != 0 then s2 >> 4 else s2;
    var s4 := if s3 >> 2 != 0 then s3 >> 2 else s3;
    (if w >> 16 != 0 then 16 else 0) + (if s1 >> 8 != 0 then 8 else 0) + (if s2 >> 4 != 0 then 4 else 0)
    + (if s3 >> 2 != 0 then 2 else 0) + (if s4 >> 1 != 0 then 1 else 0)
  }

  /** Nibble by nibble, the word has no bit above the computed one. */
  lemma HighestBounds(w: bv32)
    requires w != 0
    ensures HighestIndex(w) < 32 && Within(w, Or(Pred(Mask(HighestIndex(w))), Mask(HighestIndex(w))))
  {
    hide HighestIndex, Within, Or, Pred, Mask;
    if w >> 28 != 0 {
      HighestFrom28(w);
    } else if w >> 24 != 0 {
      HighestFrom24(w);
    } else if w >> 20 != 0 {
      HighestFrom20(w);
    } else if w >> 16 != 0 {
      HighestFrom16(w);
    } else if w >> 12 != 0 {
      HighestFrom12(w);
    } else if w >> 8 != 0 {
      HighestFrom8(w);
    } else if w >> 4 != 0 {
      HighestFrom4(w);
    } else {
      HighestFrom0(w);
    }
  }

  lemma HighestFrom28(w: bv32)
    requires w >> 28 != 0
    ensures HighestIndex(w) < 32 && Within(w, Or(Pred(Mask(HighestIndex(w))), Mask(HighestIndex(w))))
  {
  }

  lemma HighestFrom24(w: bv32)
    requires w >> 24 != 0 && w >> 28 == 0
    ensures HighestIndex(w) < 32 && Within(w, Or(Pred(Mask(HighestIndex(w))), Mask(HighestIndex(w))))
  {
  }

  lemma HighestFrom20(w: bv32)
    requires w >> 20 != 0 && w >> 24 == 0
    ensures HighestIndex(w) < 32 && Within(w, Or(Pred(Mask(HighestIndex(w))), Mask(HighestIndex(w))))
  {
  }

  lemma HighestFrom16(w: bv32)
    requires w >> 16 != 0 && w >> 20 == 0
    ensures HighestIndex(w) < 32 && Within(w, Or(Pred(Mask(HighestIndex(w))), Mask(HighestIndex(w))))
  {
  }

  lemma HighestFrom12(w: bv32)
    requires w >> 12 != 0 && w >> 16 == 0
    ensures HighestIndex(w) < 32 && Within(w, Or(Pred(Mask(HighestIndex(w))), Mask(HighestIndex(w))))
  {
  }

  lemma HighestFrom8(w: bv32)
    requires w >> 8 != 0 && w >> 12 == 0
    ensures HighestIndex(w) < 32 && Within(w, Or(Pred(Mask(HighestIndex(w))), Mask(HighestIndex(w))))
  {
  }

  lemma HighestFrom4(w: bv32)
    requires w >> 4 != 0 && w >> 8 == 0
    ensures HighestIndex(w) < 32 && Within(w, Or(Pred(Mask(HighestIndex(w))), Mask(HighestIndex(w))))
  {
  }

  lemma HighestFrom0(w: bv32)
    requires w != 0 && w >> 4 == 0
    ensures HighestIndex(w) < 32 && Within(w, Or(Pred(Mask(HighestIndex(w))), Mask(HighestIndex(w))))
  {
  }

  lemma AboveMisses(w: bv32, l: bv32, k: bv32, m: bv32)
    requires Within(w, Or(l, k)) && Within(l, Pred(m)) && Within(k, Pred(m)) && IsPower(m)
    ensures !Meets(w, m)
  {
    hide Meets, Within, Or, Pred, IsPower;
    PowerMissesLow(m);
    MissesUnion(w, l, k, m, Pred(m));
  }

  lemma PowerMissesLow(m: bv32)
    requires IsPower(m)
    ensures !Meets(m, Pred(m))
  {
  }

  lemma MissesUnion(w: bv32, l: bv32, k: bv32, m: bv32, p: bv32)
    requires Within(w, Or(l, k)) && Within(l, p) && Within(k, p) && !Meets(m, p)
    ensures !Meets(w, m)
  {
  }

  /** The loop body of getHighestBitLongArray finds the highest bit of a word. */
  lemma HighestInWord(w: bv32)
    requires w != 0
    ensures HighestIndex(w) < 32 && Bit(w, HighestIndex(w))
    ensures forall j :: HighestIndex(w) < j < 32 ==> !Bit(w, j)
  {
    hide Mask, Meets, IsPower, Within, HighestIndex, Low, Pred, Or;
    var k := HighestIndex(w);
    HighestBounds(w);
    PredIsLow(k);
    forall j | k < j < 32 ensures !Bit(w, j) {
      MaskBelow(k, j);
      MaskIsPower(j);
      PredIsLow(j);
      AboveMisses(w, Low(k), Mask(k), Mask(j));
    }
    HighestIsSet(w);
  }

  lemma HighestIsSet(w: bv32)
    requires w != 0 && HighestIndex(w) < 32
    ensures Bit(w, HighestIndex(w))
  {
  }

  // ---------- arrays ----------

  lemma InBits(ws: seq<bv32>, i: nat, k: nat)
    requires i < |ws| && k < 32
    ensures 32 * i + k in Bits(ws) <==> Bit(ws[i], k)
  {
    hide Bit;
    assert (32 * i + k) / 32 == i && (32 * i + k) % 32 == k;
  }

  lemma EmptyArray(ws: seq<bv32>)
    ensures Bits(ws) == {} <==> forall i :: 0 <= i < |ws| ==> ws[i] == 0
  {
    hide Bit;
    if Bits(ws) == {} {
      forall i | 0 <= i < |ws| ensures ws[i] == 0 {
        forall k | 0 <= k < 32 ensures !Bit(ws[i], k) {
          InBits(ws, i, k);
        }
        ZeroWord(ws[i]);
      }
    }
    if forall i :: 0 <= i < |ws| ==> ws[i] == 0 {
      forall b | 0 <= b < 32 * |ws| ensures !HasBit(ws, b) {
        ZeroWord(ws[b / 32]);
      }
    }
  }

  /** A word is a mask exactly when it has that one bit. */
  lemma SingleWord(w: bv32, k: nat)
    requires k < 32
    ensures w == Mask(k) <==> forall j :: 0 <= j < 32 ==> (Bit(w, j) <==> j == k)
  {
    hide Mask, Meets, IndexOfPower;
    if w == Mask(k) {
      forall j | 0 <= j < 32 ensures Bit(w, j) <==> j == k {
        MaskDisjoint(k, j);
      }
    }
    if forall j :: 0 <= j < 32 ==> (Bit(w, j) <==> j == k) {
      var rest := WithoutBit(w, k);
      forall j | 0 <= j < 32 ensures !Bit(rest, j) {
        ClearBitInWord(w, k, j);
      }
      ZeroWord(rest);
      assert Bit(w, k);
      MaskIsPower(k);
      OnlyPower(w, Mask(k));
    }
  }

  lemma OnlyPower(w: bv32, m: bv32)
    requires IsPower(m) && w & !m == 0 && Meets(w, m)
    ensures w == m
  {
  }

  lemma AndInWord(v: bv32, w: bv32, j: nat)
    requires j < 32
    ensures Bit(v & w, j) <==> Bit(v, j) && Bit(w, j)
  {
    hide Mask, IndexOfPower;
    MaskIsPower(j);
    AndBits(v, w, Mask(j));
  }

  lemma AndBits(v: bv32, w: bv32, m: bv32)
    requires IsPower(m)
    ensures Meets(v & w, m) <==> Meets(v, m) && Meets(w, m)
  {
  }

  lemma FullWord(j: nat)
    requires j < 32
    ensures Bit(0xffff_ffff, j)
  {
  }

  /** The words behind a pointer that may be null. */
  function Words(a: array?<bv32>): seq<bv32>
    reads a
  {
    if a == null then [] else a[..]
  }

  /** The bit that tests and insertions use: a negative number keeps its low five bits only. */
  function Slot(bitNr: int): nat {
    if bitNr < 0 then bitNr % 32 else bitNr
  }

  /** The word a bit number falls in, by counting down. */
  method Locate(bitNr: int) returns (i: nat, rest: int)
    ensures rest <= 31 && bitNr == 32 * i + rest
    ensures bitNr < 0 <==> rest < 0
    ensures rest % 32 == Slot(bitNr) - 32 * i
  {
    i, rest := 0, bitNr;
    while rest > 0x1f
      invariant bitNr == 32 * i + rest
      invariant bitNr < 0 <==> rest < 0
      invariant bitNr < 0 ==> i == 0
    {
      rest := rest - 0x20;
      i := i + 1;
    }
  }

  method IsBitSet(a: array?<bv32>, bitNr: int) returns (r: bool)
    ensures r <==> Slot(bitNr) in Bits(Words(a))
  {
    hide Mask, Bits;
    var i, rest := Locate(bitNr);
    if a == null || i >= a.Length {
      assert Slot(bitNr) >= 32 * |Words(a)|;
      OutOfRange(Words(a), Slot(bitNr));
      return false;
    }
    InBits(a[..], i, rest % 32);
    r := a[i] & Mask(rest % 32) != 0;
  }

  lemma OutOfRange(ws: seq<bv32>, b: int)
    requires b < 0 || b >= 32 * |ws|
    ensures b !in Bits(ws)
  {
  }

  /** What a change of one word does to the set of bits. */
  lemma BitsAfter(was: seq<bv32>, now: seq<bv32>, i: nat, k: nat, on: bool)
    requires |now| == |was| && i < |was| && k < 32 && forall j :: 0 <= j < |was| && j != i ==> now[j] == was[j]
    requires forall j :: 0 <= j < 32 ==> (Bit(now[i], j) <==> if j == k then on else Bit(was[i], j))
    ensures Bits(now) == if on then Bits(was) + {32 * i + k} else Bits(was) - {32 * i + k}
  {
    hide Bit;
    forall b | 0 <= b < 32 * |was| ensures HasBit(now, b) <==> (if b == 32 * i + k then on else HasBit(was, b)) {
      if b / 32 == i {
        assert b == 32 * i + b % 32;
      }
    }
  }

  lemma BitAdded(ws: seq<bv32>, i: nat, k: nat)
    requires i < |ws| && k < 32
    ensures Bits(ws[i := WithBit(ws[i], k)]) == Bits(ws) + {32 * i + k}
  {
    hide WithBit, Bits, Bit;
    var now := ws[i := WithBit(ws[i], k)];
    forall j | 0 <= j < 32 ensures Bit(now[i], j) <==> if j == k then true else Bit(ws[i], j) {
      SetBitInWord(ws[i], k, j);
    }
    BitsAfter(ws, now, i, k, true);
  }

  lemma BitDropped(ws: seq<bv32>, i: nat, k: nat)
    requires i < |ws| && k < 32
    ensures Bits(ws[i := WithoutBit(ws[i], k)]) == Bits(ws) - {32 * i + k}
  {
    hide WithoutBit, Bits, Bit;
    var now := ws[i := WithoutBit(ws[i], k)];
    forall j | 0 <= j < 32 ensures Bit(now[i], j) <==> if j == k then false else Bit(ws[i], j) {
      ClearBitInWord(ws[i], k, j);
    }
    BitsAfter(ws, now, i, k, false);
  }

  method SetBit(a: array?<bv32>, bitNr: int) returns (ok: bool)
    modifies a
    ensures ok <==> Slot(bitNr) < 32 * |Words(a)|
    ensures Bits(Words(a)) == if ok then old(Bits(Words(a))) + {Slot(bitNr)} else old(Bits(Words(a)))
  {
    hide WithBit, Bits;
    var i, rest := Locate(bitNr);
    if a == null || i >= a.Length {
      return false;
    }
    BitAdded(a[..], i, rest % 32);
    a[i] := WithBit(a[i], rest % 32);
    assert a[..] == old(a[..])[i := WithBit(old(a[i]), rest % 32)];
    ok := true;
  }

  method ClearBit(a: array?<bv32>, bitNr: int) returns (ok: bool)
    modifies a
    ensures ok <==> 0 <= bitNr < 32 * |Words(a)|
    ensures Bits(Words(a)) == old(Bits(Words(a))) - {bitNr}
  {
    hide WithoutBit, Bits;
    var i, rest := Locate(bitNr);
    if rest < 0 || a == null || i >= a.Length {
      OutOfRange(Words(a), bitNr);
      return false;
    }
    BitDropped(a[..], i, rest);
    a[i] := WithoutBit(a[i], rest);
    assert a[..] == old(a[..])[i := WithoutBit(old(a[i]), rest)];
    ok := true;
  }

  lemma FirstWord(ws: seq<bv32>, i: nat)
    requires i < |ws| && ws[i] != 0 && forall j :: 0 <= j < i ==> ws[j] == 0
    ensures 32 * i + IndexOfPower(Isolated(ws[i])) in Bits(ws)
    ensures forall b <- Bits(ws) :: 32 * i + IndexOfPower(Isolated(ws[i])) <= b
  {
    hide Bit, IndexOfPower, Isolated;
    var k := IndexOfPower(Isolated(ws[i]));
    LowestInWord(ws[i]);
    InBits(ws, i, k);
    forall b | b in Bits(ws) ensures 32 * i + k <= b {
      ZeroWord(ws[b / 32]);
      assert b == 32 * (b / 32) + b % 32;
    }
  }

  method GetLowestBit(a: array?<bv32>) returns (r: int)
    ensures r == -1 <==> Bits(Words(a)) == {}
    ensures r != -1 ==> r in Bits(Words(a)) && forall b <- Bits(Words(a)) :: r <= b
  {
    hide Bits, Isolated, IndexOfPower;
    var i := 0;
    while a != null && i < a.Length
      invariant 0 <= i <= |Words(a)|
      invariant forall j :: 0 <= j < i ==> Words(a)[j] == 0
    {
      var sv := a[i];
      if sv != 0 {
        FirstWord(a[..], i);
        r := 32 * i + IndexOfPower(Isolated(sv));
        return;
      }
      i := i + 1;
    }
    EmptyArray(Words(a));
    r := -1;
  }

  lemma LastWord(ws: seq<bv32>, i: nat)
    requires i < |ws| && ws[i] != 0 && forall j :: i < j < |ws| ==> ws[j] == 0
    ensures 32 * i + HighestIndex(ws[i]) in Bits(ws)
    ensures forall b <- Bits(ws) :: b <= 32 * i + HighestIndex(ws[i])
  {
    hide Bit, HighestIndex;
    var k := HighestIndex(ws[i]);
    HighestInWord(ws[i]);
    InBits(ws, i, k);
    forall b | b in Bits(ws) ensures b <= 32 * i + k {
      ZeroWord(ws[b / 32]);
      assert b == 32 * (b / 32) + b % 32;
    }
  }

  method GetHighestBit(a: array?<bv32>) returns (r: int)
    ensures r == -1 <==> Bits(Words(a)) == {}
    ensures r != -1 ==> r in Bits(Words(a)) && forall b <- Bits(Words(a)) :: b <= r
  {
    hide Bits, HighestIndex;
    var i := |Words(a)| - 1;
    while a != null && i >= 0
      invariant -1 <= i < |Words(a)|
      invariant forall j :: i < j < |Words(a)| ==> Words(a)[j] == 0
    {
      var sv := a[i];
      if sv != 0 {
        LastWord(a[..], i);
        r := 32 * i + HighestIndex(sv);
        return;
      }
      i := i - 1;
    }
    EmptyArray(Words(a));
    r := -1;
  }

  method AreBitsSet(a: array?<bv32>) returns (r: bool)
    ensures r <==> Bits(Words(a)) != {}
  {
    hide Bits;
    var i, sv := 0, 0 as bv32;
    while a != null && i < a.Length
      invariant 0 <= i <= |Words(a)|
      invariant sv == 0 <==> forall j :: 0 <= j < i ==> Words(a)[j] == 0
    {
      OrZero(sv, a[i]);
      sv := sv | a[i];
      i := i + 1;
    }
    EmptyArray(Words(a));
    r := sv != 0;
  }

  method ClearAllBits(a: array?<bv32>)
    modifies a
    ensures Bits(Words(a)) == {}
  {
    hide Bits;
    var i := 0;
    while a != null && i < a.Length
      invariant 0 <= i <= |Words(a)|
      invariant forall j :: 0 <= j < i ==> Words(a)[j] == 0
    {
      a[i] := 0;
      i := i + 1;
    }
    EmptyArray(Words(a));
  }

  /** The word expected at distance `bitNr` below the one bit looked for. */
  function Single(bitNr: int): bv32 {
    if 0 <= bitNr < 32 then Mask(bitNr) else 0
  }

  /** The set with the one bit, if the array is long enough to hold it. */
  ghost function Only(ws: seq<bv32>, bitNr: int): set<int> {
    if 0 <= bitNr < 32 * |ws| then {bitNr} else {}
  }

  lemma SingleBits(w: bv32, bitNr: int)
    ensures w == Single(bitNr) <==> forall j :: 0 <= j < 32 ==> (Bit(w, j) <==> j == bitNr)
  {
    hide Mask, Bit;
    if 0 <= bitNr < 32 {
      SingleWord(w, bitNr);
    } else {
      ZeroWord(w);
    }
  }

  lemma OnlyIsSingles(ws: seq<bv32>, bitNr: int)
    ensures Bits(ws) == Only(ws, bitNr) <==> forall i :: 0 <= i < |ws| ==> ws[i] == Single(bitNr - 32 * i)
  {
    hide Single, Bit;
    if Bits(ws) == Only(ws, bitNr) {
      forall i | 0 <= i < |ws| ensures ws[i] == Single(bitNr - 32 * i) {
        forall j | 0 <= j < 32 ensures Bit(ws[i], j) <==> j == bitNr - 32 * i {
          InBits(ws, i, j);
        }
        SingleBits(ws[i], bitNr - 32 * i);
      }
    }
    if forall i :: 0 <= i < |ws| ==> ws[i] == Single(bitNr - 32 * i) {
      forall b | 0 <= b < 32 * |ws| ensures HasBit(ws, b) <==> b == bitNr {
        SingleBits(ws[b / 32], bitNr - 32 * (b / 32));
        assert b == 32 * (b / 32) + b % 32;
      }
      assert Bits(ws) == Only(ws, bitNr);
    }
  }

  method IsBitOnlySet(a: array?<bv32>, bitNr: int) returns (r: bool)
    ensures r <==> Bits(Words(a)) == Only(Words(a), bitNr)
  {
    hide Bits, Only, Mask;
    OnlyIsSingles(Words(a), bitNr);
    var i, rest := 0, bitNr;
    while a != null && i < a.Length
      invariant 0 <= i <= |Words(a)| && rest == bitNr - 32 * i
      invariant forall j :: 0 <= j < i ==> Words(a)[j] == Single(bitNr - 32 * j)
    {
      var test := if 0 <= rest < 32 then Mask(rest) else 0;
      if a[i] != test {
        assert Words(a)[i] != Single(bitNr - 32 * i);
        return false;
      }
      rest := rest - 32;
      i := i + 1;
    }
    r := true;
  }

  /** `m` has exactly the bits of word `i` that none of the numbers names. */
  ghost predicate Unnamed(m: bv32, i: nat, nrs: seq<int>) {
    forall k :: 0 <= k < 32 ==> (Bit(m, k) <==> 32 * i + k !in nrs)
  }

  lemma UnnamedNext(m: bv32, i: nat, nrs: seq<int>, b: int)
    requires Unnamed(m, i, nrs)
    ensures Unnamed(if 0 <= b - 32 * i < 32 then WithoutBit(m, b - 32 * i) else m, i, nrs + [b])
  {
    hide Bit, WithoutBit;
    if 0 <= b - 32 * i < 32 {
      UnnamedHit(m, i, nrs, b - 32 * i);
    }
  }

  lemma UnnamedHit(m: bv32, i: nat, nrs: seq<int>, j: nat)
    requires Unnamed(m, i, nrs) && j < 32
    ensures Unnamed(WithoutBit(m, j), i, nrs + [32 * i + j])
  {
    hide Bit, WithoutBit;
    var left := WithoutBit(m, j);
    forall k | 0 <= k < 32 ensures Bit(left, k) <==> 32 * i + k !in nrs + [32 * i + j] {
      ClearBitInWord(m, j, k);
    }
  }

  /** The mask of a word's bits that none of the numbers names. */
  method UnnamedMask(i: nat, nrs: array<int>) returns (mask: bv32)
    ensures Unnamed(mask, i, nrs[..])
  {
    hide Bit, WithoutBit, Unnamed;
    mask := 0xffff_ffff;
    NothingNamed(i);
    var j := 0;
    while j < nrs.Length
      invariant 0 <= j <= nrs.Length
      invariant Unnamed(mask, i, nrs[..j])
    {
      var bitNr := nrs[j] - i * 32;
      UnnamedNext(mask, i, nrs[..j], nrs[j]);
      if 0 <= bitNr < 32 {
        mask := WithoutBit(mask, bitNr);
      }
      assert nrs[..j] + [nrs[j]] == nrs[..j + 1];
      j := j + 1;
    }
    assert nrs[..j] == nrs[..];
  }

  lemma NothingNamed(i: nat)
    ensures Unnamed(0xffff_ffff, i, [])
  {
    hide Bit;
    forall k | 0 <= k < 32 ensures Bit(0xffff_ffff, k) {
      FullWord(k);
    }
  }

  lemma NamedWord(w: bv32, m: bv32, i: nat, nrs: seq<int>)
    requires Unnamed(m, i, nrs)
    ensures w & m == 0 <==> forall k :: 0 <= k < 32 && Bit(w, k) ==> 32 * i + k in nrs
  {
    hide Bit;
    ZeroWord(w & m);
    forall k | 0 <= k < 32 ensures Bit(w & m, k) <==> Bit(w, k) && Bit(m, k) {
      AndInWord(w, m, k);
    }
  }

  ghost predicate AllNamed(w: bv32, i: nat, nrs: seq<int>) {
    forall k :: 0 <= k < 32 && Bit(w, k) ==> 32 * i + k in nrs
  }

  lemma NamedArray(ws: seq<bv32>, nrs: seq<int>)
    ensures (forall b <- Bits(ws) :: b in nrs) <==> forall i :: 0 <= i < |ws| ==> AllNamed(ws[i], i, nrs)
  {
    hide Bit;
    if forall b <- Bits(ws) :: b in nrs {
      forall i, k | 0 <= i < |ws| && 0 <= k < 32 && Bit(ws[i], k) ensures 32 * i + k in nrs {
        InBits(ws, i, k);
      }
    }
    if forall i :: 0 <= i < |ws| ==> AllNamed(ws[i], i, nrs) {
      forall b | b in Bits(ws) ensures b in nrs {
        assert b == 32 * (b / 32) + b % 32 && AllNamed(ws[b / 32], b / 32, nrs);
      }
    }
  }

  method HasOnlyNamed(w: bv32, i: nat, nrs: array<int>) returns (r: bool)
    ensures r <==> AllNamed(w, i, nrs[..])
  {
    hide Bit, Unnamed;
    var mask := UnnamedMask(i, nrs);
    NamedWord(w, mask, i, nrs[..]);
    r := !(w & mask > 0);
  }

  method AreBitsOnlySet(a: array?<bv32>, nrs: array<int>) returns (r: bool)
    ensures r <==> forall b <- Bits(Words(a)) :: b in nrs[..]
  {
    hide Bits, AllNamed;
    NamedArray(Words(a), nrs[..]);
    var i := 0;
    while a != null && i < a.Length
      invariant 0 <= i <= |Words(a)|
      invariant forall j :: 0 <= j < i ==> AllNamed(Words(a)[j], j, nrs[..])
    {
      var ok := HasOnlyNamed(a[i], i, nrs);
      if !ok {
        assert !AllNamed(Words(a)[i], i, nrs[..]);
        return false;
      }
      i := i + 1;
    }
    r := true;
  }

  lemma OrArrays(was: seq<bv32>, other: seq<bv32>, now: seq<bv32>)
    requires |was| == |other| == |now| && forall i :: 0 <= i < |was| ==> now[i] == was[i] | other[i]
    ensures Bits(now) == Bits(was) + Bits(other)
  {
    hide Bit;
    forall b | 0 <= b < 32 * |was| ensures HasBit(now, b) <==> HasBit(was, b) || HasBit(other, b) {
      OrInWord(was[b / 32], other[b / 32], b % 32);
    }
  }

  method BitOr(target: array?<bv32>, from: array?<bv32>)
    requires target != null && from != null ==> target.Length == from.Length
    modifies target
    ensures target != null && from != null ==> Bits(Words(target)) == old(Bits(Words(target)) + Bits(Words(from)))
    ensures target == null || from == null ==> Words(target) == old(Words(target))
  {
    hide Bits;
    if target == null || from == null {
      return;
    }
    for i := 0 to target.Length
      invariant forall j :: 0 <= j < i ==> target[j] == old(target[j]) | old(from[j])
      invariant forall j :: i <= j < target.Length ==> target[j] == old(target[j]) && from[j] == old(from[j])
    {
      target[i] := target[i] | from[i];
    }
    OrArrays(old(target[..]), old(from[..]), target[..]);
  }
}
