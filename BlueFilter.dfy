/** The blue colour filter of app.js (`applyBlueFilter`): every pixel of an
    RGBA byte buffer is rewritten in place, in one of two modes, and the alpha
    byte of every pixel is left alone. */
module BlueFilter {
  import opened Rounding

  /** One pixel as four consecutive bytes of the buffer. */
  datatype Pixel = Pixel(r: Byte, g: Byte, b: Byte, a: Byte)

  /** The name of the mode that takes the "shift" branch; any other mode tints. */
  const ShiftMode: string := "shift"

  /** The blue that tint mode blends towards. */
  const TintR: int := 0
  const TintG: int := 90
  const TintB: int := 255

  /** `Math.max(0, Math.min(100, strength)) / 100`: the strength slider clamped
      to 0..100 and scaled to 0..1. */
  function NormalizeStrength(strength: real): (s: real)
    ensures 0.0 <= s <= 1.0
    ensures strength <= 0.0 ==> s == 0.0
    ensures strength >= 100.0 ==> s == 1.0
    ensures 0.0 <= strength <= 100.0 ==> 100.0 * s == strength
  {
    Max(0.0, Min(100.0, strength)) / 100.0
  }

  /** The tint blend `c * (1 - s) + t * s`, before rounding. */
  function Blend(c: real, t: real, s: real): real
  {
    c * (1.0 - s) + t * s
  }

  /** The blend is the channel plus a fraction `s` of its distance `d` to the tint. */
  lemma BlendForm(c: real, t: real, s: real, d: real)
    requires d == t - c
    ensures Blend(c, t, s) == c + d * s
  {
  }

  /** A fraction `s` in 0..1 of `d` lies between 0 and `d`. */
  lemma FractionBetween(d: real, s: real)
    requires 0.0 <= s <= 1.0
    ensures 0.0 <= d ==> 0.0 <= d * s <= d
    ensures d <= 0.0 ==> d <= d * s <= 0.0
  {
    if 0.0 <= d {
      MulMonotone(d, 0.0, s);
      MulMonotone(d, s, 1.0);
    } else {
      MulMonotone(s, d, 0.0);
      MulMonotone(1.0 - s, d, 0.0);
    }
  }

  /** Moving a fraction of the way from `c` to `t` stays between them. */
  lemma StepBetween(c: real, t: real, d: real, s: real)
    requires d == t - c && 0.0 <= s <= 1.0
    ensures c <= t ==> c <= c + d * s <= t
    ensures t <= c ==> t <= c + d * s <= c
  {
    FractionBetween(d, s);
  }

  /** With `s` in 0..1 the blend lies between `c` and `t`. */
  lemma BlendBetween(c: real, t: real, s: real)
    requires 0.0 <= s <= 1.0
    ensures c <= t ==> c <= Blend(c, t, s) <= t
    ensures t <= c ==> t <= Blend(c, t, s) <= c
  {
    BlendForm(c, t, s, t - c);
    StepBetween(c, t, t - c, s);
  }

  /** One tint channel: `Math.round(c * (1 - s) + t * s)`, then stored. The
      result lies between the channel and the tint, is the channel at
      strength 0 and the tint at strength 1. */
  function TintChannel(c: Byte, t: Byte, s: real): (r: Byte)
    ensures 0.0 <= s <= 1.0 ==> (c <= r <= t || t <= r <= c)
    ensures s == 0.0 ==> r == c
    ensures s == 1.0 ==> r == t
  {
    var x := Blend(c as real, t as real, s);
    if 0.0 <= s <= 1.0 then
      BlendBetween(c as real, t as real, s);
      if c <= t then
        assert c as real <= x <= t as real;
        RoundWithin(x, c, t);
        Uint8ClampExact(Round(x));
        Uint8Clamp(Round(x) as real)
      else
        assert t as real <= x <= c as real;
        RoundWithin(x, t, c);
        Uint8ClampExact(Round(x));
        Uint8Clamp(Round(x) as real)
    else
      Uint8Clamp(Round(x) as real)
  }

  /** The new value of one pixel at normalised strength `s`. Shift mode damps
      red, keeps green and boosts blue (capped at 255), storing the unrounded
      reals through the clamped conversion; tint mode blends each channel
      towards (0, 90, 255). Alpha is never written. */
  function FilterPixel(p: Pixel, s: real, mode: string): (q: Pixel)
    ensures q.a == p.a
    ensures s == 0.0 ==> q == p
    ensures mode == ShiftMode && 0.0 <= s <= 1.0 ==> q.r <= p.r && q.g == p.g && q.b >= p.b
    ensures mode != ShiftMode && s == 1.0 ==> q == Pixel(TintR, TintG, TintB, p.a)
  {
    if mode == ShiftMode then
      Pixel(ShiftRed(p.r, s), p.g, ShiftBlue(p.b, s), p.a)
    else
      Pixel(TintChannel(p.r, TintR, s), TintChannel(p.g, TintG, s), TintChannel(p.b, TintB, s), p.a)
  }

  /** Shift mode's red: damped by a quarter of the strength, floored at 0,
      then stored. It never rises, and strength 0 leaves it as it was. */
  function ShiftRed(red: Byte, s: real): (r: Byte)
    ensures 0.0 <= s ==> r <= red
    ensures s == 0.0 ==> r == red
  {
    var x := Max(0.0, red as real * (1.0 - 0.25 * s));
    Uint8ClampExact(red);
    if s < 0.0 then Uint8Clamp(x)
    else
      assert red as real * (1.0 - 0.25 * s) <= red as real;
      Uint8ClampMonotone(x, red as real);
      Uint8Clamp(x)
  }

  /** Shift mode's blue: raised by 90 times the strength, capped at 255, then
      stored. It never falls, and strength 0 leaves it as it was. */
  function ShiftBlue(blue: Byte, s: real): (r: Byte)
    ensures 0.0 <= s ==> r >= blue
    ensures s == 0.0 ==> r == blue
  {
    var x := Min(255.0, blue as real + 90.0 * s);
    Uint8ClampExact(blue);
    if s < 0.0 then Uint8Clamp(x)
    else
      Uint8ClampMonotone(blue as real, x);
      Uint8Clamp(x)
  }

  /** The `k`-th pixel of an RGBA buffer. */
  function PixelAt(data: seq<Byte>, k: nat): Pixel
    requires 4 * k + 4 <= |data|
  {
    Pixel(data[4 * k], data[4 * k + 1], data[4 * k + 2], data[4 * k + 3])
  }

  function PixelBytes(p: Pixel): seq<Byte>
  {
    [p.r, p.g, p.b, p.a]
  }

  /** The buffer after the filter loop has visited every pixel, front to
      back. (A buffer of an `ImageData` holds whole pixels; bytes short of a
      whole pixel at the end would be left as they are.) */
  function Filtered(data: seq<Byte>, s: real, mode: string): (out: seq<Byte>)
    ensures |out| == |data|
    decreases |data|
  {
    if |data| < 4 then data
    else PixelBytes(FilterPixel(PixelAt(data, 0), s, mode)) + Filtered(data[4..], s, mode)
  }

  /** Filtering `n` whole pixels and then the rest is filtering the concatenation. */
  lemma {:induction false} FilteredAppend(x: seq<Byte>, y: seq<Byte>, s: real, mode: string, n: nat)
    requires |x| == 4 * n
    ensures Filtered(x + y, s, mode) == Filtered(x, s, mode) + Filtered(y, s, mode)
    decreases n
  {
    if n == 0 {
      assert x + y == y;
    } else {
      assert (x + y)[4..] == x[4..] + y;
      assert PixelAt(x + y, 0) == PixelAt(x, 0);
      FilteredAppend(x[4..], y, s, mode, n - 1);
    }
  }

  /** Pixel `k` of the filtered buffer is `FilterPixel` of pixel `k` of the input. */
  lemma {:induction false} FilteredPixelAt(data: seq<Byte>, s: real, mode: string, k: nat)
    requires 4 * k + 4 <= |data|
    ensures PixelAt(Filtered(data, s, mode), k) == FilterPixel(PixelAt(data, k), s, mode)
    decreases k
  {
    var out := Filtered(data, s, mode);
    if k > 0 {
      FilteredPixelAt(data[4..], s, mode, k - 1);
      assert PixelAt(data[4..], k - 1) == PixelAt(data, k);
      assert out[4..] == Filtered(data[4..], s, mode);
      assert PixelAt(out, k) == PixelAt(out[4..], k - 1);
    }
  }

  /** The filter never writes an alpha byte: every index congruent to 3 mod 4
      keeps its value. */
  lemma FilteredKeepsAlpha(data: seq<Byte>, s: real, mode: string)
    ensures forall j :: 0 <= j < |data| && j % 4 == 3 ==> Filtered(data, s, mode)[j] == data[j]
  {
    forall j | 0 <= j < |data| && j % 4 == 3
      ensures Filtered(data, s, mode)[j] == data[j]
    {
      var k := j / 4;
      assert 4 * k + 3 == j;
      FilteredPixelAt(data, s, mode, k);
    }
  }

  /** A strength at or below 0 leaves the whole buffer unchanged. */
  lemma {:induction false} FilteredIdentityAtZero(data: seq<Byte>, strength: real, mode: string)
    requires strength <= 0.0
    ensures Filtered(data, NormalizeStrength(strength), mode) == data
    decreases |data|
  {
    if |data| >= 4 {
      FilteredIdentityAtZero(data[4..], strength, mode);
      assert data == data[..4] + data[4..];
    }
  }

  /** A strength at or above 100 in any mode other than "shift" turns every
      pixel of the buffer into (0, 90, 255) with its own alpha. */
  lemma TintedAtFull(data: seq<Byte>, strength: real, mode: string)
    requires strength >= 100.0 && mode != ShiftMode
    ensures forall k: nat :: 4 * k + 4 <= |data| ==>
      PixelAt(Filtered(data, NormalizeStrength(strength), mode), k) == Pixel(0, 90, 255, PixelAt(data, k).a)
  {
    forall k: nat | 4 * k + 4 <= |data|
      ensures PixelAt(Filtered(data, NormalizeStrength(strength), mode), k) == Pixel(0, 90, 255, PixelAt(data, k).a)
    {
      FilteredPixelAt(data, NormalizeStrength(strength), mode, k);
    }
  }

  /** The shift bounds hold for every pixel of a filtered buffer, whatever strength was asked for. */
  lemma ShiftedBounds(data: seq<Byte>, strength: real)
    ensures forall k: nat :: 4 * k + 4 <= |data| ==>
      var p, q := PixelAt(data, k), PixelAt(Filtered(data, NormalizeStrength(strength), ShiftMode), k);
      q.r <= p.r && q.g == p.g && q.b >= p.b && q.a == p.a
  {
    forall k: nat | 4 * k + 4 <= |data|
      ensures var p, q := PixelAt(data, k), PixelAt(Filtered(data, NormalizeStrength(strength), ShiftMode), k);
        q.r <= p.r && q.g == p.g && q.b >= p.b && q.a == p.a
    {
      FilteredPixelAt(data, NormalizeStrength(strength), ShiftMode, k);
    }
  }

  /** Shift at strength 50 on pure red: red 255 * 0.875 = 223.125 is stored as
      223, green stays 0, blue becomes 45, alpha stays 255. */
  lemma ShiftHalfOnRed()
    ensures FilterPixel(Pixel(255, 0, 0, 255), NormalizeStrength(50.0), ShiftMode) == Pixel(223, 0, 45, 255)
  {
  }

  /** The clamped store rounds a half to even, not up as `Math.round` would:
      red 6 at full shift strength is 4.5 and is stored as 4. */
  lemma ShiftTieToEven()
    ensures FilterPixel(Pixel(6, 0, 0, 255), 1.0, ShiftMode).r == 4
    ensures Round(6.0 * 0.75) == 5
  {
  }

  /** Filtering one more pixel extends the filtered prefix by that pixel's new bytes. */
  lemma FilteredExtend(data: seq<Byte>, s: real, mode: string, k: nat)
    requires 4 * k + 4 <= |data|
    ensures Filtered(data[..4 * k + 4], s, mode)
         == Filtered(data[..4 * k], s, mode) + PixelBytes(FilterPixel(PixelAt(data, k), s, mode))
  {
    var pre, px := data[..4 * k], data[4 * k..4 * k + 4];
    FilteredAppend(pre, px, s, mode, k);
    assert data[..4 * k + 4] == pre + px;
    assert PixelAt(px, 0) == PixelAt(data, k);
    assert px[4..] == [];
  }

  /** One turn of the filter loop: if the first `k` pixels are done and the
      rest untouched, writing pixel `k`'s red, green and blue makes `k + 1`
      pixels done and leaves the rest untouched. */
  lemma FilterStep(input: seq<Byte>, before: seq<Byte>, s: real, mode: string, k: nat)
    requires |before| == |input| && 4 * k + 4 <= |input|
    requires before[..4 * k] == Filtered(input[..4 * k], s, mode)
    requires before[4 * k..] == input[4 * k..]
    ensures var q := FilterPixel(PixelAt(before, k), s, mode);
      var after := before[4 * k := q.r][4 * k + 1 := q.g][4 * k + 2 := q.b];
      && after[..4 * k + 4] == Filtered(input[..4 * k + 4], s, mode)
      && after[4 * k + 4..] == input[4 * k + 4..]
  {
    var i := 4 * k;
    assert PixelAt(before, k) == PixelAt(input, k) by {
      assert before[i..][..4] == input[i..][..4];
    }
    var q := FilterPixel(PixelAt(before, k), s, mode);
    FilteredExtend(input, s, mode, k);
    WritePixel(before, k, q);
  }

  /** Writing the red, green and blue of `q` over pixel `k`, whose alpha is
      already `q`'s, puts `q` there and changes nothing else. */
  lemma WritePixel(before: seq<Byte>, k: nat, q: Pixel)
    requires 4 * k + 4 <= |before| && before[4 * k + 3] == q.a
    ensures var after := before[4 * k := q.r][4 * k + 1 := q.g][4 * k + 2 := q.b];
      && after[..4 * k + 4] == before[..4 * k] + PixelBytes(q)
      && after[4 * k + 4..] == before[4 * k + 4..]
  {
  }

  /** `applyBlueFilter` on the buffer `d` of an `ImageData` (length a multiple
      of 4, one byte per channel): each pixel is rewritten in place, front to
      back, and no alpha byte is written. */
  method ApplyBlueFilter(d: array<Byte>, strength: real, mode: string)
    requires d.Length % 4 == 0
    modifies d
    ensures d[..] == Filtered(old(d[..]), NormalizeStrength(strength), mode)
    ensures forall j :: 0 <= j < d.Length && j % 4 == 3 ==> d[j] == old(d[j])
  {
    ghost var input: seq<Byte> := d[..];
    var s := NormalizeStrength(strength);
    var i := 0;
    ghost var n: nat, k: nat := d.Length / 4, 0;
    assert d.Length == 4 * n;
    while i < d.Length
      invariant 0 <= k <= n && i == 4 * k
      invariant d[..i] == Filtered(input[..i], s, mode)
      invariant d[i..] == input[i..]
    {
      ghost var before: seq<Byte> := d[..];
      var q := FilterPixel(Pixel(d[i], d[i + 1], d[i + 2], d[i + 3]), s, mode);
      assert Pixel(d[i], d[i + 1], d[i + 2], d[i + 3]) == PixelAt(before, k);
      d[i], d[i + 1], d[i + 2] := q.r, q.g, q.b;
      assert d[..] == before[i := q.r][i + 1 := q.g][i + 2 := q.b];
      FilterStep(input, before, s, mode, k);
      i, k := i + 4, k + 1;
    }
    assert input[..d.Length] == input;
    FilteredKeepsAlpha(input, s, mode);
  }
}
