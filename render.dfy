/**
 * What main writes to the terminal. In colour mode each pixel becomes a
 * background-colour escape, a space and a reset, and each row ends with a
 * newline. In ASCII mode each line is printed followed by a newline. The
 * decoders below read such output back, to show nothing is lost on the way.
 */
module Render {
  import opened Options
  import opened Pixels
  import opened Decimal
  import opened Sgr
  import Luminance

  /** The text of one colour cell. */
  function CellText(p: Rgb): string {
    RgbBG(p.r, p.g, p.b) + " " + Reset
  }

  /** The text of one colour row: its cells, left to right. */
  function RowText(row: seq<Rgb>): string {
    if row == [] then "" else CellText(row[0]) + RowText(row[1..])
  }

  /** Each line in order, each followed by a newline, as print() writes them. */
  function TerminatedLines(lines: seq<string>): string {
    if lines == [] then "" else lines[0] + "\n" + TerminatedLines(lines[1..])
  }

  /** The text of every row of a colour image. */
  function RowTexts(image: seq<seq<Rgb>>): (ts: seq<string>)
    ensures |ts| == |image| && forall i :: 0 <= i < |image| ==> ts[i] == RowText(image[i])
  {
    seq(|image|, i requires 0 <= i < |image| => RowText(image[i]))
  }

  /** The whole colour output: every row's cells, then a newline. */
  function ColourImageText(image: seq<seq<Rgb>>): string {
    TerminatedLines(RowTexts(image))
  }

  lemma {:induction false} RowTextSnoc(row: seq<Rgb>, p: Rgb)
    ensures RowText(row + [p]) == RowText(row) + CellText(p)
  {
    if row == [] {
      assert [p][1..] == [];
    } else {
      assert (row + [p])[1..] == row[1..] + [p];
      RowTextSnoc(row[1..], p);
    }
  }

  lemma {:induction false} TerminatedLinesSnoc(lines: seq<string>, l: string)
    ensures TerminatedLines(lines + [l]) == TerminatedLines(lines) + l + "\n"
  {
    if lines == [] {
      assert [l][1..] == [];
    } else {
      assert (lines + [l])[1..] == lines[1..] + [l];
      TerminatedLinesSnoc(lines[1..], l);
    }
  }

  /** One more row of the image adds its text and a newline to the output. */
  lemma RowTextsExtend(image: seq<seq<Rgb>>, i: nat)
    requires i < |image|
    ensures TerminatedLines(RowTexts(image[..i + 1]))
         == TerminatedLines(RowTexts(image[..i])) + RowText(image[i]) + "\n"
  {
    assert RowTexts(image[..i + 1]) == RowTexts(image[..i]) + [RowText(image[i])];
    TerminatedLinesSnoc(RowTexts(image[..i]), RowText(image[i]));
  }

  lemma AppendAssoc(a: string, b: string, c: string)
    ensures a + b + c == a + (b + c)
  {
  }

  /**
   * The colour output loop of main: for every pixel of a row the background
   * escape, a space and the reset are written out; after the row, the newline
   * print() writes.
   */
  method RenderColour(image: seq<seq<Rgb>>) returns (out: string)
    ensures out == ColourImageText(image)
  {
    out := "";
    for i := 0 to |image|
      invariant out == TerminatedLines(RowTexts(image[..i]))
    {
      var row := image[i];
      ghost var before := out;
      for j := 0 to |row|
        invariant out == before + RowText(row[..j])
      {
        var pixel := row[j];
        out := out + (RgbBG(pixel.r, pixel.g, pixel.b) + " " + Reset);
        RowTextSnoc(row[..j], pixel);
        assert row[..j + 1] == row[..j] + [pixel];
        AppendAssoc(before, RowText(row[..j]), CellText(pixel));
      }
      assert row[..|row|] == row;
      out := out + "\n";
      RowTextsExtend(image, i);
    }
    assert image[..|image|] == image;
  }

  /** The ASCII output loop of main: every line printed with its newline. */
  method RenderAscii(asciimg: seq<string>) returns (out: string)
    ensures out == TerminatedLines(asciimg)
  {
    out := "";
    for i := 0 to |asciimg|
      invariant out == TerminatedLines(asciimg[..i])
    {
      out := out + asciimg[i] + "\n";
      TerminatedLinesSnoc(asciimg[..i], asciimg[i]);
      assert asciimg[..i + 1] == asciimg[..i] + [asciimg[i]];
    }
    assert asciimg[..|asciimg|] == asciimg;
  }

  // ---------------------------------------------------------------------------
  // Reading the output back

  /** Reads one colour cell at the start of s; gives the pixel and what follows. */
  function DecodeCell(s: string): (r: Option<(Rgb, string)>)
    ensures r.Some? ==> |r.value.1| < |s|
  {
    match ParseSgr(s)
    case None => None
    case Some((ps, t)) =>
      if |ps| == 5 && ps[0] == 48 && ps[1] == 2 && ps[2] < 256 && ps[3] < 256 && ps[4] < 256
         && |t| > 0 && t[0] == ' '
      then
        match ParseSgr(t[1..])
        case None => None
        case Some((qs, rest)) => if qs == [0] then Some((Rgb(ps[2], ps[3], ps[4]), rest)) else None
      else None
  }

  /** Reads a whole colour row: cells until the text runs out. */
  function DecodeRow(s: string): Option<seq<Rgb>>
    decreases |s|
  {
    if s == [] then Some([])
    else
      match DecodeCell(s)
      case None => None
      case Some((p, rest)) =>
        match DecodeRow(rest)
        case None => None
        case Some(ps) => Some([p] + ps)
  }

  /** The text up to the first newline, and the text after it. */
  function FirstLine(s: string): (p: (string, string))
    ensures s != [] ==> |p.1| < |s|
  {
    if s == [] then ([], [])
    else if s[0] == '\n' then ([], s[1..])
    else
      var (l, rest) := FirstLine(s[1..]);
      ([s[0]] + l, rest)
  }

  /** Cuts text into its newline-terminated lines. */
  function SplitLines(s: string): seq<string>
    decreases |s|
  {
    if s == [] then [] else [FirstLine(s).0] + SplitLines(FirstLine(s).1)
  }

  function DecodeRows(lines: seq<string>): Option<seq<seq<Rgb>>> {
    if lines == [] then Some([])
    else
      match DecodeRow(lines[0])
      case None => None
      case Some(row) =>
        match DecodeRows(lines[1..])
        case None => None
        case Some(rows) => Some([row] + rows)
  }

  /** Reads the whole colour output back into pixels. */
  function DecodeColourImage(s: string): Option<seq<seq<Rgb>>> {
    DecodeRows(SplitLines(s))
  }

  predicate NoNewline(s: string) {
    forall i :: 0 <= i < |s| ==> s[i] != '\n'
  }

  /** A cell is read back as its pixel, whatever follows it. */
  lemma CellRoundTrip(p: Rgb, rest: string)
    ensures DecodeCell(CellText(p) + rest) == Some((p, rest))
  {
    var t := " " + Reset + rest;
    assert CellText(p) + rest == RgbBG(p.r, p.g, p.b) + t;
    RgbBGRoundTrip(p.r, p.g, p.b, t);
    assert t[1..] == Reset + rest;
    ResetRoundTrip(rest);
  }

  /** A row is read back as its pixels. */
  lemma {:induction false} RowRoundTrip(row: seq<Rgb>)
    ensures DecodeRow(RowText(row)) == Some(row)
  {
    if row != [] {
      var tail := RowText(row[1..]);
      CellRoundTrip(row[0], tail);
      assert CellText(row[0]) != [];
      RowRoundTrip(row[1..]);
      assert [row[0]] + row[1..] == row;
    }
  }

  lemma {:induction false} FirstLineOf(l: string, rest: string)
    requires NoNewline(l)
    ensures FirstLine(l + "\n" + rest) == (l, rest)
  {
    var s := l + "\n" + rest;
    if l == [] {
      assert s == "\n" + rest;
      assert s[1..] == rest;
    } else {
      assert s[1..] == l[1..] + "\n" + rest;
      FirstLineOf(l[1..], rest);
      assert [l[0]] + l[1..] == l;
    }
  }

  /** Lines without newlines, printed one per line, are cut back into the same lines. */
  lemma {:induction false} SplitTerminatedLines(lines: seq<string>)
    requires forall i :: 0 <= i < |lines| ==> NoNewline(lines[i])
    ensures SplitLines(TerminatedLines(lines)) == lines
  {
    if lines != [] {
      var rest := TerminatedLines(lines[1..]);
      FirstLineOf(lines[0], rest);
      assert TerminatedLines(lines) == lines[0] + "\n" + rest;
      SplitTerminatedLines(lines[1..]);
      assert [lines[0]] + lines[1..] == lines;
    }
  }

  /** A colour row is a single line of text. */
  lemma {:induction false} RowTextNoNewline(row: seq<Rgb>)
    ensures NoNewline(RowText(row))
  {
    if row != [] {
      var p := row[0];
      DigitsNoNewline(p.r);
      DigitsNoNewline(p.g);
      DigitsNoNewline(p.b);
      RowTextNoNewline(row[1..]);
    }
  }

  lemma {:induction false} DecodeRowTexts(image: seq<seq<Rgb>>)
    ensures DecodeRows(RowTexts(image)) == Some(image)
  {
    if image != [] {
      RowRoundTrip(image[0]);
      assert RowTexts(image)[1..] == RowTexts(image[1..]);
      DecodeRowTexts(image[1..]);
      assert [image[0]] + image[1..] == image;
    }
  }

  /** The colour output is read back as exactly the image it was written from. */
  lemma ColourImageRoundTrip(image: seq<seq<Rgb>>)
    ensures DecodeColourImage(ColourImageText(image)) == Some(image)
  {
    forall i | 0 <= i < |image| ensures NoNewline(RowTexts(image)[i]) {
      RowTextNoNewline(image[i]);
    }
    SplitTerminatedLines(RowTexts(image));
    DecodeRowTexts(image);
  }

  /** The ASCII output is cut back into exactly the lines it was printed from. */
  lemma AsciiImageRoundTrip(asciimg: seq<string>)
    requires forall i, k :: 0 <= i < |asciimg| && 0 <= k < |asciimg[i]| ==> asciimg[i][k] in Luminance.AsciiScale
    ensures SplitLines(TerminatedLines(asciimg)) == asciimg
  {
    SplitTerminatedLines(asciimg);
  }
}
