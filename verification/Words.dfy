/** Machine words as bit strings, most significant bit first. */
module Words {
  import opened Arithmetic

  type Word = seq<bool>

  function Fill(b: bool, n: nat): (w: Word)
    ensures |w| == n && forall i :: 0 <= i < n ==> w[i] == b
  {
    seq(n, _ => b)
  }

  function And(a: Word, b: Word): (w: Word)
    requires |a| == |b|
    ensures |w| == |a| && forall i :: 0 <= i < |a| ==> w[i] == (a[i] && b[i])
  {
    seq(|a|, i requires 0 <= i < |a| => a[i] && b[i])
  }

  function Or(a: Word, b: Word): (w: Word)
    requires |a| == |b|
    ensures |w| == |a| && forall i :: 0 <= i < |a| ==> w[i] == (a[i] || b[i])
  {
    seq(|a|, i requires 0 <= i < |a| => a[i] || b[i])
  }

  function Xor(a: Word, b: Word): (w: Word)
    requires |a| == |b|
    ensures |w| == |a| && forall i :: 0 <= i < |a| ==> w[i] == (a[i] != b[i])
  {
    seq(|a|, i requires 0 <= i < |a| => a[i] != b[i])
  }

  /** `w << k` for a shift smaller than the width. */
  function Shl(w: Word, k: nat): Word
    requires k < |w|
  {
    w[k..] + Fill(false, k)
  }

  function Bit(b: bool): nat {
    if b then 1 else 0
  }

  /** The unsigned number a word stands for. */
  function Number(w: Word): nat
    decreases |w|
  {
    if w == [] then 0 else Number(w[..|w| - 1]) * 2 + Bit(w[|w| - 1])
  }

  /** The word of a number. */
  function WordOf(v: nat, width: nat): (w: Word)
    ensures |w| == width
    decreases width, v
  {
    if width == 0 then [] else WordOf(v / 2, width - 1) + [v % 2 == 1]
  }

  lemma {:induction false} NumberIsInjective(a: Word, b: Word)
    requires |a| == |b| && Number(a) == Number(b)
    ensures a == b
    decreases |a|
  {
    if a != [] {
      var n := |a| - 1;
      NumberIsInjective(a[..n], b[..n]);
      assert a == a[..n] + [a[n]] && b == b[..n] + [b[n]];
    }
  }

  lemma {:induction false} NumberOfWordOf(v: nat, width: nat)
    requires v < Pow2(width)
    ensures Number(WordOf(v, width)) == v
    decreases width
  {
    if width > 0 {
      NumberOfWordOf(v / 2, width - 1);
      assert WordOf(v, width)[..width - 1] == WordOf(v / 2, width - 1);
    }
  }

  lemma {:induction false} NumberFits(w: Word)
    ensures Number(w) < Pow2(|w|)
    decreases |w|
  {
    if w != [] { NumberFits(w[..|w| - 1]); }
  }

  lemma XorIsZero(a: Word, b: Word)
    requires |a| == |b|
    ensures Xor(a, b) == Fill(false, |a|) <==> a == b
  {
    if Xor(a, b) == Fill(false, |a|) {
      forall i | 0 <= i < |a| ensures a[i] == b[i] { assert !Xor(a, b)[i]; }
    }
  }

  lemma OrIsZero(a: Word, b: Word)
    requires |a| == |b|
    ensures Or(a, b) == Fill(false, |a|) <==> a == Fill(false, |a|) && b == Fill(false, |a|)
  {
    if Or(a, b) == Fill(false, |a|) {
      forall i | 0 <= i < |a| ensures !a[i] && !b[i] { assert !Or(a, b)[i]; }
    }
  }

  /** Words of one width are equal exactly when their numbers are. */
  lemma WordOfIsInjective(m: nat, n: nat, width: nat)
    requires m < Pow2(width) && n < Pow2(width)
    ensures WordOf(m, width) == WordOf(n, width) <==> m == n
  {
    NumberOfWordOf(m, width);
    NumberOfWordOf(n, width);
  }
}
