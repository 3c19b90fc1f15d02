/** Bit fields: the little-endian bit numbering that the FileCore map uses, on sequences of bits. */
module Bits {

  function Pow2(n: nat): (r: nat)
    ensures r >= 1
  {
    if n == 0 then 1 else 2 * Pow2(n - 1)
  }

  /** The number held in the n bits that start at bit p, lowest bit first. */
  function Field(bits: seq<bool>, p: nat, n: nat): (v: nat)
    requires p + n <= |bits|
    ensures v < Pow2(n)
    decreases n
  {
    if n == 0 then 0 else (if bits[p] then 1 else 0) + 2 * Field(bits, p + 1, n - 1)
  }

  /** The bits after the low n bits of v are stored from bit p on. */
  function SetField(bits: seq<bool>, p: nat, n: nat, v: nat): (r: seq<bool>)
    requires p + n <= |bits|
    ensures |r| == |bits|
    ensures forall i :: 0 <= i < |bits| && !(p <= i < p + n) ==> r[i] == bits[i]
    decreases n
  {
    if n == 0 then bits else SetField(bits[p := v % 2 == 1], p + 1, n - 1, v / 2)
  }

  /** A field depends on its own bits only. */
  lemma {:induction false} FieldLocal(bits: seq<bool>, bits': seq<bool>, p: nat, n: nat)
    requires p + n <= |bits| == |bits'|
    requires forall i :: p <= i < p + n ==> bits'[i] == bits[i]
    ensures Field(bits', p, n) == Field(bits, p, n)
    decreases n
  {
    if n > 0 {
      FieldLocal(bits, bits', p + 1, n - 1);
    }
  }

  /** Reading back what was stored. */
  lemma {:induction false} FieldOfSetField(bits: seq<bool>, p: nat, n: nat, v: nat)
    requires p + n <= |bits| && v < Pow2(n)
    ensures Field(SetField(bits, p, n, v), p, n) == v
    decreases n
  {
    if n > 0 {
      var b := bits[p := v % 2 == 1];
      FieldOfSetField(b, p + 1, n - 1, v / 2);
      assert SetField(b, p + 1, n - 1, v / 2)[p] == b[p];
    }
  }

  /** A field is zero exactly when its bits are. */
  lemma {:induction false} FieldZero(bits: seq<bool>, p: nat, n: nat)
    requires p + n <= |bits|
    ensures Field(bits, p, n) == 0 <==> forall i :: p <= i < p + n ==> !bits[i]
    decreases n
  {
    if n > 0 {
      FieldZero(bits, p + 1, n - 1);
    }
  }

  /** Growing a field by its next higher bit, as the reading loops do. */
  lemma {:induction false} FieldSnoc(bits: seq<bool>, p: nat, n: nat)
    requires p + n + 1 <= |bits|
    ensures Field(bits, p, n + 1) == Field(bits, p, n) + (if bits[p + n] then Pow2(n) else 0)
    decreases n
  {
    if n > 0 {
      FieldSnoc(bits, p + 1, n - 1);
    }
  }

  lemma {:induction false} Pow2Monotone(a: nat, b: nat)
    requires a <= b
    ensures Pow2(a) <= Pow2(b)
    decreases b
  {
    if a < b {
      Pow2Monotone(a, b - 1);
    }
  }
}
