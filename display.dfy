/**
 * The display arithmetic of the downloader: `Math.round` of a percentage,
 * the success rate shown in the statistics block, and the unit that
 * `formatBytes` picks for a byte count.
 */
module Display {
  import opened Wrappers

  /**
   * `Math.round(part / whole * 100)` on exact rationals: the integer nearest
   * to 100*part/whole, halves rounded up (Math.round rounds .5 toward +inf).
   */
  function RoundedPercent(part: nat, whole: nat): nat
    requires whole > 0
  {
    (200 * part + whole) / (2 * whole)
  }

  /** RoundedPercent is the nearest integer to 100*part/whole, with halves rounded up. */
  lemma RoundedPercentIsNearest(part: nat, whole: nat)
    requires whole > 0
    ensures var r := RoundedPercent(part, whole);
      2 * whole * r <= 200 * part + whole < 2 * whole * (r + 1)
  {
  }

  /** Rounding is monotone: more bytes never show a smaller percentage. */
  lemma PercentMonotone(a: nat, b: nat, whole: nat)
    requires whole > 0 && a <= b
    ensures RoundedPercent(a, whole) <= RoundedPercent(b, whole)
  {
    var ra, rb := RoundedPercent(a, whole), RoundedPercent(b, whole);
    RoundedPercentIsNearest(a, whole);
    RoundedPercentIsNearest(b, whole);
    assert 2 * whole * ra < 2 * whole * (rb + 1);
    if ra > rb {
      assert ra >= rb + 1;
      MulMonotone(2 * whole, rb + 1, ra);
    }
  }

  /** A part no larger than the whole is shown as at most 100%, the whole exactly as 100%. */
  lemma PercentAtMost100(part: nat, whole: nat)
    requires 0 < whole && part <= whole
    ensures RoundedPercent(part, whole) <= 100
    ensures part == whole ==> RoundedPercent(part, whole) == 100
  {
    var r := RoundedPercent(part, whole);
    RoundedPercentIsNearest(part, whole);
    assert 2 * whole * r <= 201 * whole;
    if r > 100 {
      MulMonotone(2 * whole, 101, r);
    }
    if part == whole && r < 100 {
      MulMonotone(2 * whole, r + 1, 100);
    }
  }

  lemma MulMonotone(k: nat, x: nat, y: nat)
    requires x <= y
    ensures k * x <= k * y
  {
  }

  /**
   * The success rate of the statistics block: 0 when nothing was attempted
   * (no division by zero), otherwise successful/total as a rounded percentage.
   */
  function SuccessRate(successful: nat, total: nat): (r: nat)
    ensures total == 0 ==> r == 0
    ensures total > 0 ==> 2 * total * r <= 200 * successful + total < 2 * total * (r + 1)
    ensures successful <= total ==> r <= 100
    ensures 0 < total == successful ==> r == 100
  {
    if total == 0 then 0
    else if successful <= total then
      RoundedPercentIsNearest(successful, total);
      PercentAtMost100(successful, total);
      RoundedPercent(successful, total)
    else
      RoundedPercentIsNearest(successful, total);
      RoundedPercent(successful, total)
  }

  /** 1024 to the power i. */
  function Pow1024(i: nat): nat {
    if i == 0 then 1 else 1024 * Pow1024(i - 1)
  }

  lemma {:induction false} Pow1024Monotone(i: nat, j: nat)
    requires i <= j
    ensures Pow1024(i) <= Pow1024(j)
  {
    if i < j {
      Pow1024Monotone(i, j - 1);
    }
  }

  /**
   * `Math.floor(Math.log(bytes) / Math.log(1024))` for a positive integer,
   * computed exactly: the power of 1024 that brackets n.
   */
  function UnitIndex(n: nat): (i: nat)
    requires n >= 1
    ensures Pow1024(i) <= n < Pow1024(i + 1)
    decreases n
  {
    if n < 1024 then 0
    else
      var q := n / 1024;
      var j := UnitIndex(q);
      assert 1024 * Pow1024(j) <= 1024 * q <= n;
      assert n < 1024 * (q + 1) <= 1024 * Pow1024(j + 1);
      1 + j
  }

  /** The unit index is the LARGEST i with 1024^i <= n, and no other index brackets n. */
  lemma UnitIndexIsLargest(n: nat, j: nat)
    requires n >= 1
    ensures Pow1024(j) <= n <==> j <= UnitIndex(n)
    ensures Pow1024(j) <= n < Pow1024(j + 1) ==> j == UnitIndex(n)
  {
    var i := UnitIndex(n);
    if j > i {
      Pow1024Monotone(i + 1, j);
    }
    if j < i {
      Pow1024Monotone(j + 1, i);
    }
    if j <= i {
      Pow1024Monotone(j, i);
    }
  }

  /** `sizes` in `formatBytes`. */
  const Sizes: seq<string> := ["Bytes", "KB", "MB", "GB"]

  /**
   * The unit label that `formatBytes` appends: "Bytes" for the `bytes === 0`
   * early return, otherwise `sizes[i]`; None where `sizes[i]` is undefined
   * (counts of 1024^4 bytes and more).
   */
  function SizeUnit(bytes: nat): (u: Option<string>)
    ensures bytes == 0 ==> u == Some("Bytes")
    ensures bytes < Pow1024(4) <==> u.Some?
    ensures u.Some? ==> u.value in Sizes
  {
    if bytes == 0 then Some("Bytes")
    else
      var i := UnitIndex(bytes);
      UnitIndexIsLargest(bytes, 4);
      if i < |Sizes| then Some(Sizes[i]) else None
  }

  /** The unit of a positive count is sizes[i] exactly when 1024^i <= bytes < 1024^(i+1). */
  lemma SizeUnitBracket(bytes: nat, i: nat)
    requires 1 <= bytes && i < |Sizes|
    ensures SizeUnit(bytes) == Some(Sizes[i]) <==> Pow1024(i) <= bytes < Pow1024(i + 1)
  {
    UnitIndexIsLargest(bytes, i);
    Pow1024Monotone(i + 1, 4);
  }
}
