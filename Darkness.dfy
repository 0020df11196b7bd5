/** The darkness sampler: a gray level of an 8-bit grayscale image becomes a darkness in [0, 1]. */
module Darkness {

  const MaxGray: real := 255.0

  /** `1 - gray / 255`: 0 is white, 1 is black. */
  function PixelDarkness(gray: int): (d: real)
    ensures 0 <= gray <= 255 ==> 0.0 <= d <= 1.0
    ensures gray == 0 ==> d == 1.0
    ensures gray == 255 ==> d == 0.0
  {
    1.0 - gray as real / MaxGray
  }

  /** Darker pixels never have a larger gray value: darkness is antitone in the gray level. */
  lemma DarknessAntitone(g1: int, g2: int)
    requires g1 <= g2
    ensures PixelDarkness(g1) >= PixelDarkness(g2)
  {
  }

  /** With the default threshold 0.1 a pixel is drawn exactly when its gray level is at most 229. */
  lemma DrawnIffGrayAtMost229(gray: int)
    ensures PixelDarkness(gray) >= 0.1 <==> gray <= 229
  {
    if gray >= 230 {
      assert gray as real >= 230.0;
      assert gray as real / MaxGray >= 230.0 / 255.0;
    }
  }
}
