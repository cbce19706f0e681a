/** The frame compositor: the flat character buffer is cut into Height rows of
    Width characters, every non-blank glyph is wrapped in a colour span, blanks
    stay bare, and the rows are joined with newlines.

    The decoder Unmarkup is the compositor's partner: it reads the rows back out
    of the markup, and MarkupRoundTrip shows that it recovers them exactly. */
module Compositor {
  import opened Canvas
  import opened Wrappers

  /** The rows of a flat row-major buffer, top to bottom. */
  function Rows(buf: seq<char>): (rows: seq<string>)
    requires |buf| == Size
    ensures |rows| == Height
    ensures forall k :: 0 <= k < Height ==> |rows[k]| == Width
    ensures forall k, c :: 0 <= k < Height && 0 <= c < Width ==> rows[k][c] == buf[k * Width + c]
  {
    seq(Height, k requires 0 <= k < Height => buf[k * Width..(k + 1) * Width])
  }

  /** The rows written one after another, with no separator. */
  function Concat(rows: seq<string>): string
  {
    if rows == [] then [] else Concat(rows[..|rows| - 1]) + rows[|rows| - 1]
  }

  /** Cutting a buffer into rows loses nothing: the rows, read in order, are the
      buffer. */
  lemma RowsPartition(buf: seq<char>)
    requires |buf| == Size
    ensures Concat(Rows(buf)) == buf
  {
    RowsPrefix(buf, Height);
    assert Rows(buf)[..Height] == Rows(buf);
  }

  lemma {:induction false} RowsPrefix(buf: seq<char>, k: nat)
    requires |buf| == Size && k <= Height
    ensures Concat(Rows(buf)[..k]) == buf[..k * Width]
  {
    var rows := Rows(buf);
    if k == 0 {
      assert rows[..0] == [];
    } else {
      RowsPrefix(buf, k - 1);
      assert rows[..k][..k - 1] == rows[..k - 1];
      assert rows[k - 1] == buf[(k - 1) * Width..k * Width];
      assert buf[..k * Width] == buf[..(k - 1) * Width] + buf[(k - 1) * Width..k * Width];
    }
  }

  /** A buffer without newlines has rows without newlines. */
  lemma RowsWithoutNewline(buf: seq<char>)
    requires |buf| == Size && '\n' !in buf
    ensures forall k :: 0 <= k < Height ==> '\n' !in Rows(buf)[k]
  {
  }

  /** The row-slicing loop of the compositor. */
  method SplitRows(output: array<char>) returns (lines: seq<string>)
    requires output.Length == Size
    ensures lines == Rows(output[..])
  {
    lines := [];
    var k := 0;
    while k < Height
      invariant 0 <= k <= Height
      invariant lines == Rows(output[..])[..k]
    {
      lines := lines + [output[k * Width..(k + 1) * Width]];
      k := k + 1;
    }
  }

  /** The single colour of the colour palette, and the span around a glyph. */
  const Colour: string := "#ffffff"
  const SpanOpen: string := "<span style=\"color: " + Colour + "\">"
  const SpanClose: string := "</span>"

  /** A blank stays bare; any other glyph is wrapped in a colour span. */
  function Decorate(c: char): string
  {
    if c == ' ' then [c] else SpanOpen + [c] + SpanClose
  }

  /** Every character of a line decorated, in order. */
  function DecorateLine(line: string): (r: string)
    ensures '\n' !in line ==> '\n' !in r
  {
    if line == [] then [] else Decorate(line[0]) + DecorateLine(line[1..])
  }

  /** Blanks get no markup: a line of blanks is its own decoration. */
  lemma {:induction false} DecorateBlanks(line: string)
    requires forall i :: 0 <= i < |line| ==> line[i] == ' '
    ensures DecorateLine(line) == line
  {
    if line != [] {
      DecorateBlanks(line[1..]);
      assert [line[0]] + line[1..] == line;
    }
  }

  /** Lines joined with a newline between neighbours. */
  function JoinLines(lines: seq<string>): string
  {
    if lines == [] then []
    else if |lines| == 1 then lines[0]
    else lines[0] + "\n" + JoinLines(lines[1..])
  }

  function DecorateAll(lines: seq<string>): (r: seq<string>)
    ensures |r| == |lines|
    ensures forall i :: 0 <= i < |lines| ==> r[i] == DecorateLine(lines[i])
  {
    seq(|lines|, i requires 0 <= i < |lines| => DecorateLine(lines[i]))
  }

  /** The text the compositor hands to the display. */
  function Markup(lines: seq<string>): string
  {
    JoinLines(DecorateAll(lines))
  }

  /** Reads a decorated line back: bare blanks and single-glyph colour spans. */
  function UndecorateLine(s: string): Option<string>
    decreases |s|
  {
    if s == [] then Some([])
    else if s[0] == ' ' then
      match UndecorateLine(s[1..])
      case None => None
      case Some(rest) => Some([' '] + rest)
    else
      var w := |SpanOpen| + 1 + |SpanClose|;
      if |s| >= w && s[..|SpanOpen|] == SpanOpen && s[|SpanOpen|] != ' '
         && s[|SpanOpen| + 1..w] == SpanClose
      then
        match UndecorateLine(s[w..])
        case None => None
        case Some(rest) => Some([s[|SpanOpen|]] + rest)
      else None
  }

  /** Cuts text at every newline; the inverse of JoinLines on newline-free lines. */
  function SplitLines(s: string): (r: seq<string>)
    ensures |r| >= 1
  {
    if s == [] then [[]]
    else
      var rest := SplitLines(s[1..]);
      if s[0] == '\n' then [[]] + rest else [[s[0]] + rest[0]] + rest[1..]
  }

  function UndecorateAll(pieces: seq<string>): Option<seq<string>>
  {
    if pieces == [] then Some([])
    else
      match UndecorateLine(pieces[0])
      case None => None
      case Some(line) =>
        match UndecorateAll(pieces[1..])
        case None => None
        case Some(lines) => Some([line] + lines)
  }

  /** Reads the lines back out of composed text. */
  function Unmarkup(s: string): Option<seq<string>>
  {
    UndecorateAll(SplitLines(s))
  }

  /** Decorating a line is undone by reading it back. */
  lemma {:induction false} DecorateRoundTrip(line: string)
    ensures UndecorateLine(DecorateLine(line)) == Some(line)
  {
    if line != [] {
      var c, rest := line[0], DecorateLine(line[1..]);
      var s := DecorateLine(line);
      DecorateRoundTrip(line[1..]);
      assert s == Decorate(c) + rest;
      if c == ' ' {
        assert s[1..] == rest;
        assert [' '] + line[1..] == line;
      } else {
        var w := |SpanOpen| + 1 + |SpanClose|;
        assert s == SpanOpen + [c] + SpanClose + rest;
        assert s[0] == '<';
        assert s[..|SpanOpen|] == SpanOpen;
        assert s[|SpanOpen|] == c;
        assert s[|SpanOpen| + 1..w] == SpanClose;
        assert s[w..] == rest;
        assert [c] + line[1..] == line;
      }
    }
  }

  lemma {:induction false} SplitSingle(a: string)
    requires '\n' !in a
    ensures SplitLines(a) == [a]
  {
    if a != [] {
      SplitSingle(a[1..]);
      assert [a[0]] + a[1..] == a;
    }
  }

  lemma {:induction false} SplitAfter(a: string, b: string)
    requires '\n' !in a
    ensures SplitLines(a + "\n" + b) == [a] + SplitLines(b)
  {
    var s := a + "\n" + b;
    if a == [] {
      assert s[1..] == b;
    } else {
      SplitAfter(a[1..], b);
      assert s[1..] == a[1..] + "\n" + b;
      assert [a[0]] + a[1..] == a;
    }
  }

  lemma {:induction false} SplitJoin(lines: seq<string>)
    requires |lines| >= 1
    requires forall i :: 0 <= i < |lines| ==> '\n' !in lines[i]
    ensures SplitLines(JoinLines(lines)) == lines
  {
    if |lines| == 1 {
      SplitSingle(lines[0]);
    } else {
      SplitJoin(lines[1..]);
      SplitAfter(lines[0], JoinLines(lines[1..]));
      assert [lines[0]] + lines[1..] == lines;
    }
  }

  lemma {:induction false} UndecorateAllRoundTrip(lines: seq<string>)
    ensures UndecorateAll(DecorateAll(lines)) == Some(lines)
  {
    if lines != [] {
      DecorateRoundTrip(lines[0]);
      assert DecorateAll(lines)[1..] == DecorateAll(lines[1..]);
      UndecorateAllRoundTrip(lines[1..]);
      assert [lines[0]] + lines[1..] == lines;
    }
  }

  /** Composition is lossless: for at least one line, none holding a newline, the
      composed text decodes back to exactly those lines. */
  lemma MarkupRoundTrip(lines: seq<string>)
    requires |lines| >= 1
    requires forall i :: 0 <= i < |lines| ==> '\n' !in lines[i]
    ensures Unmarkup(Markup(lines)) == Some(lines)
  {
    SplitJoin(DecorateAll(lines));
    UndecorateAllRoundTrip(lines);
  }

  /** The compositor: slice the buffer into rows and decorate and join them. For a
      buffer without newlines the text decodes back to exactly its rows. */
  method Compose(output: array<char>) returns (html: string)
    requires output.Length == Size
    ensures html == Markup(Rows(output[..]))
    ensures '\n' !in output[..] ==> Unmarkup(html) == Some(Rows(output[..]))
  {
    var lines := SplitRows(output);
    html := Markup(lines);
    if '\n' !in output[..] {
      RowsWithoutNewline(output[..]);
      MarkupRoundTrip(lines);
    }
  }
}
