/**
 Rounding offsets up to alignments (`llvm::alignTo`), and how power-of-two alignments nest.
 */
module Alignment {
  import opened Powers

  const CHAR_BIT: nat := 8

  lemma StepUp(a: nat, p: nat, q: nat)
    requires p < q
    ensures a * p + a <= a * q
  {
    assert 0 <= a * (q - p - 1);
    assert a * (q - p - 1) == a * q - a * p - a;
  }

  lemma DivMod(x: nat, a: nat) returns (q: nat, r: nat)
    requires a >= 1
    ensures q == x / a && r == x % a && x == a * q + r && r < a
  {
    q, r := x / a, x % a;
  }

  lemma DivModUnique(x: nat, a: nat, q: nat, r: nat)
    requires a >= 1 && r < a && x == a * q + r
    ensures x / a == q && x % a == r
  {
    var q', r' := DivMod(x, a);
    if q' < q { StepUp(a, q', q); }
    if q < q' { StepUp(a, q, q'); }
  }

  lemma MultipleMod(a: nat, q: nat)
    requires a >= 1
    ensures (a * q) % a == 0
  {
    DivModUnique(a * q, a, q, 0);
  }

  lemma SumMod(x: nat, y: nat, a: nat)
    requires a >= 1 && x % a == 0
    ensures (x + y) % a == y % a
  {
    var p, z := DivMod(x, a);
    var q, r := DivMod(y, a);
    assert a * (p + q) == a * p + a * q;
    DivModUnique(x + y, a, p + q, r);
  }

  /** The least multiple of `align` that is no smaller than `offset`. */
  function AlignTo(offset: nat, align: nat): (r: nat)
    requires align >= 1
    ensures offset <= r < offset + align && r % align == 0
  {
    if offset % align == 0 then offset
    else
      RoundUpIsMultiple(offset, align);
      offset + (align - offset % align)
  }

  lemma RoundUpIsMultiple(offset: nat, align: nat)
    requires align >= 1
    ensures (offset + (align - offset % align)) % align == 0
  {
    var q, r := DivMod(offset, align);
    assert align * (q + 1) == align * q + align;
    MultipleMod(align, q + 1);
  }

  lemma AlignToLeast(offset: nat, align: nat, y: nat)
    requires align >= 1 && offset <= y && y % align == 0
    ensures AlignTo(offset, align) <= y
  {
    var r := AlignTo(offset, align);
    if y < r {
      SumMod(y, r - y, align);
    }
  }

  /** Anything up to one alignment rounds up to the alignment. */
  lemma AlignToOne(x: nat, align: nat)
    requires 1 <= x <= align
    ensures AlignTo(x, align) == align
  {
    if x < align {
      DivModUnique(x, align, 0, x);
    } else {
      DivModUnique(x, align, 1, 0);
    }
  }

  lemma AlignToMonotone(x: nat, y: nat, align: nat)
    requires align >= 1 && x <= y
    ensures AlignTo(x, align) <= AlignTo(y, align)
  {
    AlignToLeast(x, align, AlignTo(y, align));
  }

  /** Aligning commutes with moving by an aligned base. */
  lemma AlignToShift(base: nat, x: nat, align: nat)
    requires align >= 1 && base % align == 0
    ensures AlignTo(base + x, align) == base + AlignTo(x, align)
  {
    SumMod(base, x, align);
  }

  lemma AlignToScale(x: nat, align: nat, s: nat)
    requires align >= 1 && s >= 1
    ensures AlignTo(x * s, align * s) == AlignTo(x, align) * s
  {
    var q, r := DivMod(x, align);
    assert (align * s) * q == (align * q) * s;
    assert (align * q + r) * s == (align * q) * s + r * s;
    ScaledRemainder(r, align, s);
    DivModUnique(x * s, align * s, q, r * s);
    if r != 0 {
      assert r * s > 0;
      assert (x + (align - r)) * s == x * s + (align * s - r * s);
    }
  }

  lemma ScaledRemainder(r: nat, a: nat, s: nat)
    requires r < a && s >= 1
    ensures r * s < a * s && (r == 0 <==> r * s == 0)
  {
    StepUp(s, r, a);
  }

  /** Of two powers of two the smaller divides the larger. */
  lemma Pow2Divides(a: nat, b: nat) returns (q: nat)
    requires IsPow2(a) && IsPow2(b) && a <= b
    ensures b == a * q && q >= 1
  {
    var i := IsPow2Exponent(a);
    var j := IsPow2Exponent(b);
    if j < i { Pow2Monotone(j, i); }
    hide Pow2;
    Pow2Add(i, j - i);
    q := Pow2(j - i);
  }

  lemma AlignedToSmaller(x: nat, a: nat, b: nat)
    requires IsPow2(a) && IsPow2(b) && a <= b && x % b == 0
    ensures x % a == 0
  {
    var q := Pow2Divides(a, b);
    AlignedToFactor(x, a, q);
  }

  lemma AlignedToFactor(x: nat, a: nat, q: nat)
    requires a >= 1 && q >= 1 && a * q >= 1 && x % (a * q) == 0
    ensures x % a == 0
  {
    var m, r := DivMod(x, a * q);
    assert (a * q) * m == a * (q * m);
    MultipleMod(a, q * m);
  }
}
