/** What a table entry is in coordinates: y + x, y - x and 2dxy; so the swapped and negated one is that of the negated point. */
module ScalarMultEntries {
  import opened Field
  import opened FieldMul
  import opened ScalarMultBase

  /** The two's complement word of an int32. */
  function WordOf(n: int): bv32
    requires -0x8000_0000 < n < 0x8000_0000
  {
    if n >= 0 then n as bv32 else 0 - ((-n) as bv32)
  }

  /** The words of a field element are those of its limbs. */
  ghost predicate AreLimbs(words: seq<bv32>, limbs: seq<int>) {
    |words| == |limbs| == 10 &&
    forall i {:trigger limbs[i]} :: 0 <= i < 10 ==> -0x8000_0000 < limbs[i] < 0x8000_0000 && words[i] == WordOf(limbs[i])
  }

  datatype Limbs = Limbs(yPlusX: seq<int>, yMinusX: seq<int>, xy2d: seq<int>)

  /** The entry of the point (x, y), for the curve constant `d`. */
  ghost predicate IsEntryOf(e: Entry, l: Limbs, x: int, y: int, d: int) {
    && AreLimbs(e.yPlusX, l.yPlusX) && AreLimbs(e.yMinusX, l.yMinusX) && AreLimbs(e.xy2d, l.xy2d)
    && Congruent(Value(l.yPlusX), y + x) && Congruent(Value(l.yMinusX), y - x) && Congruent(Value(l.xy2d), 2 * d * x * y)
  }

  lemma NegatedWord(n: int)
    requires -0x8000_0000 < n < 0x8000_0000
    ensures 0 - WordOf(n) == WordOf(-n)
  {
    if n > 0 {
      DoubleNegation(n as bv32);
    } else if n < 0 {
      DoubleNegation((-n) as bv32);
    } else {
      assert WordOf(0) == 0;
    }
  }

  lemma DoubleNegation(w: bv32)
    ensures 0 - (0 - w) == w
  {
  }

  function NegatedLimbs(s: seq<int>): (r: seq<int>)
    ensures |r| == |s|
  {
    if s == [] then [] else [-s[0]] + NegatedLimbs(s[1..])
  }

  lemma {:induction false} NegatedLimbsAt(s: seq<int>, i: nat)
    requires i < |s|
    ensures NegatedLimbs(s)[i] == -s[i]
  {
    if i > 0 { NegatedLimbsAt(s[1..], i - 1); }
  }

  lemma {:induction false} ValueNegated(s: seq<int>)
    ensures Value(NegatedLimbs(s)) == -Value(s)
  {
    if s != [] {
      assert NegatedLimbs(s)[1..] == NegatedLimbs(s[1..]);
      ValueNegated(s[1..]);
    }
  }

  const ONE_LIMBS := [1, 0, 0, 0, 0, 0, 0, 0, 0, 0]
  const ZERO_LIMBS := [0, 0, 0, 0, 0, 0, 0, 0, 0, 0]

  lemma LimbsOfOne()
    ensures AreLimbs(ONE, ONE_LIMBS) && AreLimbs(ZERO, ZERO_LIMBS)
  {
    assert WordOf(0) == 0 && WordOf(1) == 1;
  }

  lemma ValueOfOne()
    ensures Value(ONE_LIMBS) == 1 && Value(ZERO_LIMBS) == 0
  {
    hide Value;
    Expand(ONE_LIMBS);
    Expand(ZERO_LIMBS);
  }

  /** The entry of the neutral element, the point (0, 1). */
  lemma EntryOfZero(d: int)
    ensures IsEntryOf(ZERO_ENTRY, Limbs(ONE_LIMBS, ONE_LIMBS, ZERO_LIMBS), 0, 1, d)
  {
    hide AreLimbs, Value;
    LimbsOfOne();
    ValueOfOne();
    assert 2 * d * 0 * 1 == 0;
  }

  /** Swapping the first two field elements and negating the third negates the point: (-x, y). */
  lemma EntryOfNegated(e: Entry, l: Limbs, x: int, y: int, d: int)
    requires IsEntryOf(e, l, x, y, d)
    ensures IsEntryOf(Negated(e), Limbs(l.yMinusX, l.yPlusX, NegatedLimbs(l.xy2d)), -x, y, d)
  {
    hide WordOf, Value;
    ValueNegated(l.xy2d);
    forall i {:trigger NegatedLimbs(l.xy2d)[i]} | 0 <= i < 10
      ensures NegatedLimbs(l.xy2d)[i] == -l.xy2d[i] && NegatedWords(e.xy2d)[i] == WordOf(-l.xy2d[i])
    {
      NegatedLimbsAt(l.xy2d, i);
      NegatedWord(l.xy2d[i]);
    }
    CongruentMul(Value(l.xy2d), 2 * d * x * y, -1);
    NegatedProduct(d, x, y);
  }

  lemma NegatedProduct(d: int, x: int, y: int)
    ensures 2 * d * -x * y == -1 * (2 * d * x * y)
  {
  }
}
