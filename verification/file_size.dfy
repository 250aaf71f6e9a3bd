/** get_file_size: a byte count shown in the first binary unit at which it
    is below 1024, or in TB. */
module FileSize {

  datatype Unit = B | KB | MB | GB | TB

  /** The units in the order the loop tries them; TB is the fall-through. */
  function UnitAt(k: nat): Unit
    requires k <= 4
  {
    [B, KB, MB, GB, TB][k]
  }

  function UnitIndex(u: Unit): nat {
    match u
    case B => 0
    case KB => 1
    case MB => 2
    case GB => 3
    case TB => 4
  }

  /** 1024^k: the divisor after k passes of the loop. */
  function Scale(k: nat): (r: real)
    ensures r >= 1.0
    decreases k
  {
    if k == 0 then 1.0 else 1024.0 * Scale(k - 1)
  }

  /** The displayed size: the magnitude and the unit it is written in. */
  datatype HumanSize = HumanSize(magnitude: real, unit: Unit)

  /** The value fits unit k when, scaled down by 1024^k, it is below 1024. */
  ghost predicate Fits(bytes: real, k: nat) {
    bytes / Scale(k) < 1024.0
  }

  /** The loop of get_file_size from its k-th pass on, with v the value
      already divided k times by 1024. Returns how many further passes
      divide it before it stops, at unit k + n, and the value it ends on. */
  function Walk(v: real, k: nat): (r: (nat, real))
    requires k <= 4
    decreases 4 - k
    ensures k + r.0 <= 4
    ensures r.1 * Scale(r.0) == v
    ensures k + r.0 < 4 ==> r.1 < 1024.0
    ensures r.0 > 0 ==> r.1 >= 1.0
  {
    if k == 4 then (0, v)
    else if v < 1024.0 then (0, v)
    else
      var r := Walk(v / 1024.0, k + 1);
      assert r.1 * Scale(r.0 + 1) == 1024.0 * (r.1 * Scale(r.0));
      (r.0 + 1, r.1)
  }

  /** get_file_size on a byte count: the magnitude is the byte count scaled
      to the chosen unit; it is below 1024 unless the unit is TB, and the
      byte count did not fit the unit before it. */
  function FormatSize(bytes: nat): (r: HumanSize)
    ensures r.magnitude == bytes as real / Scale(UnitIndex(r.unit))
    ensures r.unit != TB ==> Fits(bytes as real, UnitIndex(r.unit))
    ensures r.unit != B ==> !Fits(bytes as real, UnitIndex(r.unit) - 1)
  {
    var w := Walk(bytes as real, 0);
    WalkMagnitude(bytes as real);
    WalkPassedPrevious(bytes as real);
    var r := HumanSize(w.1, UnitAt(w.0));
    assert UnitIndex(r.unit) == w.0;
    r
  }

  /** The walk from the first pass ends on the value scaled by 1024^k. */
  lemma WalkMagnitude(v: real)
    ensures v / Scale(Walk(v, 0).0) == Walk(v, 0).1
  {
    var w := Walk(v, 0);
    Unscale(v, w.1, Scale(w.0));
  }

  /** Past the first unit, the value scaled to the unit before the chosen
      one was at least 1024. */
  lemma WalkPassedPrevious(v: real)
    ensures Walk(v, 0).0 > 0 ==> v / Scale(Walk(v, 0).0 - 1) >= 1024.0
  {
    var w := Walk(v, 0);
    if w.0 > 0 {
      StepBack(v, w.1, w.0);
    }
  }

  /** If m is v scaled to unit k, then 1024 * m is v scaled to unit k - 1. */
  lemma StepBack(v: real, m: real, k: nat)
    requires k > 0 && m * Scale(k) == v && m >= 1.0
    ensures v / Scale(k - 1) >= 1024.0
  {
    var s1 := Scale(k - 1);
    assert m * (1024.0 * s1) == v;
    assert (1024.0 * m) * s1 == v;
    Unscale(v, 1024.0 * m, s1);
  }

  /** From m * d == x to x / d == m, for a divisor at least 1. */
  lemma Unscale(x: real, m: real, d: real)
    requires d >= 1.0 && m * d == x
    ensures x / d == m
  {
  }

  /** 1024^k grows with k. */
  lemma {:induction false} ScaleMonotone(j: nat, k: nat)
    requires j <= k
    ensures Scale(j) <= Scale(k)
    decreases k
  {
    if j < k {
      ScaleMonotone(j, k - 1);
    }
  }

  /** A value fits unit k exactly when it is below 1024^(k+1). */
  lemma FitsBelowNextScale(x: real, k: nat)
    ensures Fits(x, k) <==> x < Scale(k + 1)
  {
    var s := Scale(k);
    var q := x / s;
    assert q * s == x;
    assert Scale(k + 1) == 1024.0 * s;
    if q < 1024.0 {
      assert q * s < 1024.0 * s;
    } else {
      assert q * s >= 1024.0 * s;
    }
  }

  /** A value that fits a unit fits every larger unit. */
  lemma FitsUpward(x: real, j: nat, k: nat)
    requires j <= k && Fits(x, j)
    ensures Fits(x, k)
  {
    FitsBelowNextScale(x, j);
    FitsBelowNextScale(x, k);
    ScaleMonotone(j + 1, k + 1);
  }

  /** The chosen unit is the first that fits: no earlier unit fits. */
  lemma FormatSizeFirstFit(bytes: nat, j: nat)
    requires j < UnitIndex(FormatSize(bytes).unit)
    ensures !Fits(bytes as real, j)
  {
    var k := UnitIndex(FormatSize(bytes).unit);
    if Fits(bytes as real, j) {
      FitsUpward(bytes as real, j, k - 1);
    }
  }

  /** Reference definition of the unit by byte thresholds: B below 1 KiB,
      KB below 1 MiB, MB below 1 GiB, GB below 1 TiB, TB from there on. */
  function UnitByThreshold(bytes: nat): Unit {
    if bytes < 1024 then B
    else if bytes < 1048576 then KB
    else if bytes < 1073741824 then MB
    else if bytes < 1099511627776 then GB
    else TB
  }

  /** get_file_size picks the unit the byte thresholds name. */
  lemma FormatSizeMatchesThresholds(bytes: nat)
    ensures FormatSize(bytes).unit == UnitByThreshold(bytes)
  {
    var r := FormatSize(bytes);
    var k := UnitIndex(r.unit);
    var x := bytes as real;
    assert Scale(1) == 1024.0;
    assert Scale(2) == 1048576.0;
    assert Scale(3) == 1073741824.0;
    assert Scale(4) == 1099511627776.0;
    if k < 4 {
      FitsBelowNextScale(x, k);
    }
    if k > 0 {
      FitsBelowNextScale(x, k - 1);
    }
  }

  /** A larger file is never shown in a smaller unit. */
  lemma FormatSizeMonotone(a: nat, b: nat)
    requires a <= b
    ensures UnitIndex(FormatSize(a).unit) <= UnitIndex(FormatSize(b).unit)
  {
    FormatSizeMatchesThresholds(a);
    FormatSizeMatchesThresholds(b);
  }
}
