/** The visibility resolver: samples of the torus, already rotated, projected and
    shaded, are written into a character buffer and a depth buffer of one cell per
    canvas position. A sample lands on its cell only when it is on the canvas and
    nearer (larger inverse depth) than everything recorded there so far.

    The specification of a finished frame is stated per cell and declaratively:
    the cell's depth is the largest of 0 and the inverse depths of the samples that
    land on it, and its glyph is that of the first sample to reach this largest
    depth, or a blank when no sample got above 0. */
module Raster {
  import opened Canvas
  import opened Glyphs

  /** One surface point after projection and shading: integer screen coordinates,
      inverse depth d (larger is nearer) and integer brightness n. */
  datatype Sample = Sample(x: int, y: int, d: real, n: int)

  /** The bounds test guarding every buffer access. */
  predicate InBounds(s: Sample)
  {
    0 <= s.y < Height && 0 <= s.x < Width
  }

  /** The row-major cell of an on-canvas sample; column and row can be read back. */
  function CellOf(s: Sample): (o: nat)
    requires InBounds(s)
    ensures o < Size
    ensures o % Width == s.x && o / Width == s.y
  {
    s.x + Width * s.y
  }

  /** Sample s lands on cell o. */
  predicate Hits(s: Sample, o: int)
  {
    InBounds(s) && CellOf(s) == o
  }

  function Max(a: real, b: real): real
  {
    if a < b then b else a
  }

  /** The depth cell o ends with after the samples ss: the largest of 0 and the
      inverse depth of every sample that lands on o. It bounds every such sample,
      and when it is positive the first sample attaining it exists. */
  function MaxDepth(ss: seq<Sample>, o: int): (m: real)
    ensures m >= 0.0
    ensures forall i :: 0 <= i < |ss| && Hits(ss[i], o) ==> ss[i].d <= m
    ensures m > 0.0 ==> FirstAt(ss, o, m) < |ss|
  {
    if ss == [] then 0.0
    else
      var last := ss[|ss| - 1];
      Max(MaxDepth(ss[..|ss| - 1], o), if Hits(last, o) then last.d else 0.0)
  }

  /** The least index of a sample landing on o with inverse depth exactly m,
      or |ss| when there is none. */
  function FirstAt(ss: seq<Sample>, o: int, m: real): (i: nat)
    ensures i <= |ss|
    ensures i < |ss| ==> Hits(ss[i], o) && ss[i].d == m
    ensures forall j :: 0 <= j < i ==> !(Hits(ss[j], o) && ss[j].d == m)
  {
    if ss == [] then 0
    else if Hits(ss[0], o) && ss[0].d == m then 0
    else 1 + FirstAt(ss[1..], o, m)
  }

  /** The glyph cell o shows after the samples ss: that of the earliest sample
      reaching the cell's final depth, or a blank when no sample got above 0. */
  function ExpectedGlyph(ss: seq<Sample>, o: int): (c: char)
    ensures (c == ' ') <==> MaxDepth(ss, o) == 0.0
    ensures c == ' ' || c in Palette
    ensures c != '\n'
  {
    var m := MaxDepth(ss, o);
    if m > 0.0 then GlyphOf(ss[FirstAt(ss, o, m)].n) else ' '
  }

  /** The depth buffer a frame of samples should yield. */
  function ExpectedDepths(ss: seq<Sample>): seq<real>
  {
    seq(Size, o => MaxDepth(ss, o))
  }

  /** The character buffer a frame of samples should yield. It is parallel to the
      depth buffer: a cell is blank exactly where the depth is still the reset
      value 0. */
  function ExpectedFrame(ss: seq<Sample>): (f: seq<char>)
    ensures |f| == Size == |ExpectedDepths(ss)|
    ensures forall o :: 0 <= o < Size ==> (f[o] == ' ' <==> ExpectedDepths(ss)[o] == 0.0)
  {
    seq(Size, o => ExpectedGlyph(ss, o))
  }

  /** Every non-blank cell shows the glyph of a sample that landed on it at exactly
      the depth recorded there, and no earlier sample reached that cell at that
      depth: nearer samples win, ties go to the first. */
  lemma FrameWinner(ss: seq<Sample>, o: int)
    requires 0 <= o < Size
    requires ExpectedFrame(ss)[o] != ' '
    ensures exists i :: 0 <= i < |ss| && Hits(ss[i], o) && ss[i].d == ExpectedDepths(ss)[o]
              && ExpectedFrame(ss)[o] == GlyphOf(ss[i].n)
              && forall j :: 0 <= j < i ==> !(Hits(ss[j], o) && ss[j].d == ss[i].d)
  {
    var m := MaxDepth(ss, o);
    var i := FirstAt(ss, o, m);
    assert ExpectedDepths(ss)[o] == m;
    assert ExpectedFrame(ss)[o] == GlyphOf(ss[i].n);
  }

  /** One more sample changes cell o's depth exactly when it lands there and is
      strictly nearer than the depth recorded so far; it then becomes the depth. */
  lemma DepthStep(ss: seq<Sample>, s: Sample, o: int)
    ensures MaxDepth(ss + [s], o) ==
            if Hits(s, o) && s.d > MaxDepth(ss, o) then s.d else MaxDepth(ss, o)
  {
    assert (ss + [s])[..|ss|] == ss;
  }

  /** One more sample replaces cell o's glyph exactly when it wins the depth test
      there; a tie keeps the earlier sample's glyph. */
  lemma GlyphStep(ss: seq<Sample>, s: Sample, o: int)
    ensures ExpectedGlyph(ss + [s], o) ==
            if Hits(s, o) && s.d > MaxDepth(ss, o) then GlyphOf(s.n) else ExpectedGlyph(ss, o)
  {
    var tt := ss + [s];
    var m := MaxDepth(ss, o);
    DepthStep(ss, s, o);
    if Hits(s, o) && s.d > m {
      assert FirstAt(tt, o, s.d) == |ss|;
    } else if m > 0.0 {
      var i := FirstAt(ss, o, m);
      var k := FirstAt(tt, o, m);
      assert tt[i] == ss[i];
      assert k == i;
    }
  }

  /** A sample off the canvas, or one not in front of the reset depth 0, changes
      no cell. */
  lemma DiscardedSample(ss: seq<Sample>, s: Sample, o: int)
    requires !InBounds(s) || s.d <= 0.0
    ensures MaxDepth(ss + [s], o) == MaxDepth(ss, o)
    ensures ExpectedGlyph(ss + [s], o) == ExpectedGlyph(ss, o)
  {
    GlyphStep(ss, s, o);
  }

  /** Within a frame a cell's depth never decreases. */
  lemma {:induction false} DepthMonotone(ss: seq<Sample>, more: seq<Sample>, o: int)
    ensures MaxDepth(ss, o) <= MaxDepth(ss + more, o)
  {
    if more == [] {
      assert ss + more == ss;
    } else {
      var init := more[..|more| - 1];
      DepthMonotone(ss, init, o);
      assert ss + more == (ss + init) + [more[|more| - 1]];
      DepthStep(ss + init, more[|more| - 1], o);
    }
  }

  /** The final depth does not depend on the order in which samples arrive. */
  lemma DepthOrderIndependent(ss: seq<Sample>, tt: seq<Sample>, o: int)
    requires multiset(ss) == multiset(tt)
    ensures MaxDepth(ss, o) == MaxDepth(tt, o)
  {
    DepthBoundedByPermutation(ss, tt, o);
    DepthBoundedByPermutation(tt, ss, o);
  }

  lemma DepthBoundedByPermutation(ss: seq<Sample>, tt: seq<Sample>, o: int)
    requires multiset(ss) == multiset(tt)
    ensures MaxDepth(ss, o) <= MaxDepth(tt, o)
  {
    var m := MaxDepth(ss, o);
    if m > 0.0 {
      var i := FirstAt(ss, o, m);
      assert ss[i] in multiset(tt);
      var j :| 0 <= j < |tt| && tt[j] == ss[i];
    }
  }

  /** A frame whose samples all fall off the canvas leaves every cell blank at
      depth 0. */
  lemma IdleFrame(ss: seq<Sample>, o: int)
    requires forall i :: 0 <= i < |ss| ==> !InBounds(ss[i])
    ensures MaxDepth(ss, o) == 0.0 && ExpectedGlyph(ss, o) == ' '
  {
  }

  /** The start of a frame: every glyph blank and every depth 0. */
  method NewFrame() returns (output: array<char>, zbuffer: array<real>)
    ensures fresh(output) && fresh(zbuffer)
    ensures output.Length == Size && zbuffer.Length == Size
    ensures forall o :: 0 <= o < Size ==> output[o] == ' ' && zbuffer[o] == 0.0
    ensures output[..] == ExpectedFrame([]) && zbuffer[..] == ExpectedDepths([])
  {
    output := new char[Size](_ => ' ');
    zbuffer := new real[Size](_ => 0.0);
  }

  /** Sample s wins its cell: it is on the canvas and strictly nearer
      than the depth recorded there. */
  predicate Wins(s: Sample, depths: seq<real>)
  {
    InBounds(s) && |depths| == Size && s.d > depths[CellOf(s)]
  }

  /** The depth test and write for one sample. Only the sample's own cell can
      change, and only when the sample wins it. */
  method Plot(output: array<char>, zbuffer: array<real>, s: Sample)
    requires output.Length == Size && zbuffer.Length == Size
    modifies output, zbuffer
    ensures Wins(s, old(zbuffer[..])) ==>
              zbuffer[..] == old(zbuffer[..])[CellOf(s) := s.d] &&
              output[..] == old(output[..])[CellOf(s) := GlyphOf(s.n)]
    ensures !Wins(s, old(zbuffer[..])) ==>
              zbuffer[..] == old(zbuffer[..]) && output[..] == old(output[..])
  {
    if s.y < Height && s.y >= 0 && s.x >= 0 && s.x < Width && s.d > zbuffer[CellOf(s)] {
      var o := CellOf(s);
      zbuffer[o] := s.d;
      output[o] := GlyphOf(s.n);
    }
  }

  /** A whole frame: reset both buffers, then resolve every sample in order. The
      result is the declarative frame specification, whatever the samples. */
  method RenderFrame(samples: seq<Sample>) returns (output: array<char>, zbuffer: array<real>)
    ensures fresh(output) && fresh(zbuffer)
    ensures output[..] == ExpectedFrame(samples)
    ensures zbuffer[..] == ExpectedDepths(samples)
  {
    output, zbuffer := NewFrame();
    var k := 0;
    while k < |samples|
      invariant 0 <= k <= |samples|
      invariant fresh(output) && fresh(zbuffer)
      invariant output[..] == ExpectedFrame(samples[..k])
      invariant zbuffer[..] == ExpectedDepths(samples[..k])
    {
      var s := samples[k];
      ghost var before := zbuffer[..];
      Plot(output, zbuffer, s);
      assert samples[..k + 1] == samples[..k] + [s];
      forall o | 0 <= o < Size
        ensures zbuffer[o] == MaxDepth(samples[..k + 1], o)
        ensures output[o] == ExpectedGlyph(samples[..k + 1], o)
      {
        DepthStep(samples[..k], s, o);
        GlyphStep(samples[..k], s, o);
        assert Hits(s, o) && s.d > before[o] <==> Wins(s, before) && o == CellOf(s);
      }
      k := k + 1;
    }
    assert samples[..k] == samples;
  }
}
