/** The arithmetic of an aspect-ratio button (`ARButton.apply`): given the
    button's ratio `ar` and the current width and height, it keeps one
    dimension and derives the other. Python's `round` is a parameter, so every
    property here holds whatever rounding rule is used. */
module ArButton {

  /** Python's `min([w, h])`: the first element unless the second is smaller. */
  function Min(w: real, h: real): (m: real)
    ensures m <= w && m <= h && (m == w || m == h)
  {
    if h < w then h else w
  }

  /** The pair `apply` passes to `round`, as the source computes it: a wide
      ratio keeps the height and scales it by `ar` into the width; a narrow
      one keeps the width and scales it by `ar` into the height; the square
      ratio takes the smaller dimension for both. */
  function Resize(ar: real, w: real, h: real): (p: (real, real))
    ensures ar > 1.0 ==> p.1 == h && p.0 == ar * p.1
    ensures ar < 1.0 ==> p.0 == w && p.1 == ar * p.0
    ensures ar == 1.0 ==> p.0 == p.1 && p.0 <= w && p.0 <= h && (p.0 == w || p.0 == h)
  {
    if ar > 1.0 then (ar * h, h)
    else if ar < 1.0 then (w, ar * w)
    else (Min(w, h), Min(w, h))
  }

  /** `ARButton.apply(w, h)` as written: for a wide ratio the height is kept
      and the width becomes `ar * h`; for a narrow ratio the width is kept and
      the height becomes `ar * w`; for the square ratio both become the
      smaller dimension. Both results are rounded. */
  function ApplyRatio(ar: real, w: real, h: real, round: real -> int): (r: (int, int))
    ensures ar > 1.0 ==> r.1 == round(h) && r.0 == round(ar * h)
    ensures ar < 1.0 ==> r.0 == round(w) && r.1 == round(ar * w)
    ensures ar == 1.0 ==> r.0 == r.1 == round(if h < w then h else w)
  {
    var p := Resize(ar, w, h);
    (round(p.0), round(p.1))
  }

  /** `round` never reverses the order of two values. */
  ghost predicate Monotone(round: real -> int) {
    forall x: real, y: real :: x <= y ==> round(x) <= round(y)
  }

  /** `round` leaves whole numbers alone. */
  ghost predicate KeepsIntegers(round: real -> int) {
    forall x: real :: x == x.Floor as real ==> round(x) == x.Floor
  }

  lemma RoundAt(round: real -> int, x: real, y: real)
    requires Monotone(round) && x <= y
    ensures round(x) <= round(y)
  {
  }

  /** The product of two non-negative numbers is non-negative. */
  lemma MulNonNeg(a: real, b: real)
    requires a >= 0.0 && b >= 0.0
    ensures a * b >= 0.0
  {
  }

  lemma RoundWhole(round: real -> int, n: int)
    requires KeepsIntegers(round)
    ensures round(n as real) == n
  {
  }

  /** Before rounding, the result has the ratio `ar` when `ar >= 1`, but the
      INVERSE ratio `1 / ar` when `ar < 1`: the height-to-width ratio is `ar`. */
  lemma ResizeRatioAsWritten(ar: real, w: real, h: real)
    requires w > 0.0 && h > 0.0 && ar > 0.0
    ensures var p := Resize(ar, w, h);
            p.1 > 0.0 &&
            (ar >= 1.0 ==> p.0 / p.1 == ar) &&
            (ar < 1.0 ==> p.1 / p.0 == ar && p.0 / p.1 == 1.0 / ar)
  {
  }

  /** As written, no button ever makes the picture taller than wide: with
      non-negative dimensions and a monotone `round`, the returned width is at
      least the returned height, for narrow ratios too. */
  lemma ApplyRatioNeverPortrait(ar: real, w: real, h: real, round: real -> int)
    requires Monotone(round) && w >= 0.0 && h >= 0.0
    ensures ApplyRatio(ar, w, h, round).0 >= ApplyRatio(ar, w, h, round).1
  {
    var p := Resize(ar, w, h);
    if ar > 1.0 {
      MulNonNeg(ar - 1.0, h);
      RoundAt(round, h, ar * h);
    } else if ar < 1.0 {
      MulNonNeg(1.0 - ar, w);
      RoundAt(round, ar * w, w);
    }
  }

  /** Clicking the same button a second time, on the whole-number sizes the
      first click produced, changes nothing. */
  lemma ApplyRatioTwice(ar: real, w: int, h: int, round: real -> int)
    requires KeepsIntegers(round)
    ensures var r := ApplyRatio(ar, w as real, h as real, round);
            ApplyRatio(ar, r.0 as real, r.1 as real, round) == r
  {
    var r := ApplyRatio(ar, w as real, h as real, round);
    RoundWhole(round, w);
    RoundWhole(round, h);
    if ar > 1.0 {
      RoundWhole(round, r.1);
    } else if ar < 1.0 {
      RoundWhole(round, r.0);
    } else {
      var m := if h < w then h else w;
      assert (if h as real < w as real then h as real else w as real) == m as real;
      assert r == (m, m);
    }
  }

  /** A 9:16 button on a 1024 x 1024 picture yields 1024 x 576, a 16:9 picture. */
  lemma ApplyRatioNarrowCounterexample(round: real -> int)
    requires KeepsIntegers(round)
    ensures Resize(0.5625, 1024.0, 1024.0) == (1024.0, 576.0)
    ensures ApplyRatio(0.5625, 1024.0, 1024.0, round) == (1024, 576)
    ensures 1024.0 / 576.0 == 16.0 / 9.0
  {
  }

  // ---------------------------------------------------------------------------
  // The evidently intended narrow branch: keep the width, height = w / ar.

  /** The pair to round with the narrow branch dividing by `ar`. */
  function ResizeIntended(ar: real, w: real, h: real): (real, real)
    requires ar != 0.0
  {
    if ar > 1.0 then (ar * h, h)
    else if ar < 1.0 then (w, w / ar)
    else (Min(w, h), Min(w, h))
  }

  /** `apply` with the narrow branch dividing by `ar`. */
  function ApplyRatioIntended(ar: real, w: real, h: real, round: real -> int): (r: (int, int))
    requires ar != 0.0
    ensures ar > 1.0 ==> r.1 == round(h) && r.0 == round(ar * h)
    ensures ar < 1.0 ==> r.0 == round(w) && r.1 == round(w / ar)
    ensures ar == 1.0 ==> r.0 == r.1 == round(if h < w then h else w)
  {
    var p := ResizeIntended(ar, w, h);
    (round(p.0), round(p.1))
  }

  /** Before rounding, the intended result has width / height == `ar` for
      every positive ratio, and it keeps one of the two given dimensions. */
  lemma ResizeIntendedRatio(ar: real, w: real, h: real)
    requires w > 0.0 && h > 0.0 && ar > 0.0
    ensures var p := ResizeIntended(ar, w, h);
            p.1 > 0.0 && p.0 / p.1 == ar && (p.0 == w || p.1 == h)
  {
  }

  lemma DivisionGrows(w: real, ar: real)
    requires w >= 0.0 && 0.0 < ar < 1.0
    ensures w / ar >= w
  {
  }

  /** With the intended formula a narrow ratio gives a picture at least as
      tall as wide, and a wide ratio one at least as wide as tall. */
  lemma ApplyRatioIntendedOrientation(ar: real, w: real, h: real, round: real -> int)
    requires Monotone(round) && ar > 0.0 && w >= 0.0 && h >= 0.0
    ensures var r := ApplyRatioIntended(ar, w, h, round);
            (ar < 1.0 ==> r.0 <= r.1) && (ar >= 1.0 ==> r.0 >= r.1)
  {
    var p := ResizeIntended(ar, w, h);
    if ar > 1.0 {
      MulNonNeg(ar - 1.0, h);
      RoundAt(round, h, ar * h);
    } else if ar < 1.0 {
      DivisionGrows(w, ar);
      RoundAt(round, w, w / ar);
    }
  }
}
