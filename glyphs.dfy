/** The luminance-to-glyph mapping: an integer brightness is clamped at zero and
    wrapped modulo the palette length to pick one of twelve glyphs, ordered from
    dimmest to brightest. */
module Glyphs {

  /** The glyph palette, dimmest first. */
  const Palette: string := ".,-~:;=!*531"

  /** The palette index for brightness n: negative brightness is clamped to the
      dimmest entry, larger values wrap around the palette. */
  function GlyphIndex(n: int): (k: nat)
    ensures k < |Palette|
    ensures n <= 0 ==> k == 0
    ensures n >= 0 ==> (n - k) % |Palette| == 0
  {
    (if n < 0 then 0 else n) % |Palette|
  }

  /** The glyph drawn for brightness n. */
  function GlyphOf(n: int): (c: char)
    ensures c in Palette
    ensures c != ' ' && c != '\n'
    ensures n <= 0 ==> c == '.'
    ensures 0 <= n < |Palette| ==> c == Palette[n]
  {
    assert 0 <= n < |Palette| ==> n % |Palette| == n;
    assert forall i :: 0 <= i < |Palette| ==> Palette[i] != ' ' && Palette[i] != '\n';
    Palette[GlyphIndex(n)]
  }

  /** Brightness beyond the palette wraps around instead of saturating. */
  lemma GlyphWraps(n: int)
    requires n >= 0
    ensures GlyphOf(n + |Palette|) == GlyphOf(n)
  {
    var q, r := n / 12, n % 12;
    assert n + 12 == 12 * (q + 1) + r;
    assert (n + 12) % 12 == r;
  }
}
