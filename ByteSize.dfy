/** The unit choice of `formatBytes` in app.js: a byte count is divided by
    1024 until it is below 1024 or the largest unit is reached. */
module ByteSize {

  /** The unit labels, smallest first. */
  const Units: seq<string> := ["B", "KB", "MB", "GB"]

  /** The index of the largest unit. */
  const MaxUnit: nat := 3

  /** `1024` to the power `i`: the number of bytes in unit `i`. */
  function Pow1024(i: nat): (p: real)
    ensures p >= 1.0
  {
    if i == 0 then 1.0 else 1024.0 * Pow1024(i - 1)
  }

  /** The unit a byte count is shown in, stated without a loop: the largest
      unit not exceeding the count, or bytes when the count is below one KB.
      The count is at least one of that unit (unless it is bytes), and less
      than one of the next unit (unless it is GB). */
  function UnitIndex(bytes: real): (i: nat)
    ensures i <= MaxUnit
    ensures i > 0 ==> Pow1024(i) <= bytes
    ensures i < MaxUnit ==> bytes < Pow1024(i + 1)
  {
    if bytes < Pow1024(1) then 0
    else if bytes < Pow1024(2) then 1
    else if bytes < Pow1024(3) then 2
    else MaxUnit
  }

  /** Any unit index satisfying the range conditions is the one `UnitIndex` picks. */
  lemma UnitIndexUnique(bytes: real, i: nat)
    requires i <= MaxUnit
    requires i > 0 ==> Pow1024(i) <= bytes
    requires i < MaxUnit ==> bytes < Pow1024(i + 1)
    ensures UnitIndex(bytes) == i
  {
    assert Pow1024(1) == 1024.0;
    assert Pow1024(2) == 1048576.0;
    assert Pow1024(3) == 1073741824.0;
  }

  /** The number of decimals printed: none exactly when the unit is bytes,
      two otherwise. */
  function Decimals(i: nat): (d: nat)
    ensures i < |Units| ==> (d == 0 <==> Units[i] == "B")
    ensures d == 0 || d == 2
  {
    if i == 0 then 0 else 2
  }

  /** The value, unit label and number of decimals `formatBytes` prints for
      `bytes`, computed by its dividing loop. */
  method ScaleBytes(bytes: real) returns (v: real, unit: string, decimals: nat)
    ensures v * Pow1024(UnitIndex(bytes)) == bytes
    ensures unit == Units[UnitIndex(bytes)]
    ensures decimals == Decimals(UnitIndex(bytes))
  {
    v := bytes;
    var i: nat := 0;
    while v >= 1024.0 && i < |Units| - 1
      invariant i <= MaxUnit
      invariant v * Pow1024(i) == bytes
      invariant i > 0 ==> Pow1024(i) <= bytes
      decreases MaxUnit - i
    {
      ScaleStep(v, i);
      v := v / 1024.0;
      i := i + 1;
    }
    if i < MaxUnit {
      BelowNextUnit(v, i);
    }
    UnitIndexUnique(bytes, i);
    unit := Units[i];
    decimals := Decimals(i);
  }

  /** One division step keeps the value times the unit size, and the count is
      at least the new unit. */
  lemma ScaleStep(v: real, i: nat)
    requires v >= 1024.0
    ensures (v / 1024.0) * Pow1024(i + 1) == v * Pow1024(i)
    ensures Pow1024(i + 1) <= v * Pow1024(i)
  {
    var p := Pow1024(i);
    assert Pow1024(i + 1) == 1024.0 * p;
    assert (v / 1024.0) * (1024.0 * p) == v * p;
    assert (v - 1024.0) * p >= 0.0;
  }

  /** A value below 1024 in unit `i` is below one of the next unit. */
  lemma BelowNextUnit(v: real, i: nat)
    requires v < 1024.0
    ensures v * Pow1024(i) < Pow1024(i + 1)
  {
    var p := Pow1024(i);
    assert Pow1024(i + 1) == 1024.0 * p;
    assert (1024.0 - v) * p > 0.0;
  }

  /** The printed value lies in `[1, 1024)`, except that bytes may print
      less than 1 and gigabytes 1024 or more. */
  lemma ScaledValueRange(bytes: real)
    ensures var i := UnitIndex(bytes); var v := bytes / Pow1024(i);
      (i > 0 ==> 1.0 <= v) && (i < MaxUnit ==> v < 1024.0)
  {
    var i := UnitIndex(bytes);
    var p := Pow1024(i);
    if i < MaxUnit {
      assert Pow1024(i + 1) == 1024.0 * p;
      assert bytes / p < 1024.0;
    }
  }

  /** 1536 bytes is shown as 1.50 KB, and 1023 bytes stays in bytes. */
  lemma ScaleBytesExamples()
    ensures UnitIndex(1536.0) == 1 && 1536.0 / Pow1024(1) == 1.5
    ensures UnitIndex(1023.0) == 0 && Units[UnitIndex(1023.0)] == "B"
    ensures UnitIndex(5.0 * 1073741824.0 * 1024.0) == MaxUnit
  {
  }
}
