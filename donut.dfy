/** One full render pass of the donut: resolve a frame of samples into the
    character buffer, then compose the buffer into decorated text. */
module Donut {
  import opened Wrappers
  import opened Raster
  import opened Compositor

  /** The text of one frame decodes back to exactly the rows of the frame's
      specification: each cell shows the nearest sample's glyph, or a blank. */
  method RenderText(samples: seq<Sample>) returns (html: string)
    ensures Unmarkup(html) == Some(Rows(ExpectedFrame(samples)))
    ensures html == Markup(Rows(ExpectedFrame(samples)))
  {
    var output, zbuffer := RenderFrame(samples);
    assert '\n' !in output[..];
    html := Compose(output);
  }
}
