/**
 * The colour path: the resized 'RGB' image, read pixel by pixel into rows of
 * (r, g, b) triples.
 */
module Colour {
  import opened Pixels

  /** Every pixel of the array has the three channels of an 'RGB' image. */
  ghost predicate ThreeChannels(c: seq<seq<seq<Byte>>>) {
    forall r, k :: 0 <= r < |c| && 0 <= k < |c[r]| ==> |c[r][k]| == 3
  }

  /**
   * The loop of convertImageToColour over np.array of the resized image:
   * one list per row, one triple of channels 0, 1, 2 per pixel.
   */
  method ConvertToColour(c: seq<seq<seq<Byte>>>, rows: nat, cols: nat) returns (colours: seq<seq<Rgb>>)
    requires IsGrid(c, rows, cols) && ThreeChannels(c)
    ensures IsGrid(colours, rows, cols)
    ensures forall r, k :: 0 <= r < rows && 0 <= k < cols ==>
              colours[r][k] == Rgb(c[r][k][0], c[r][k][1], c[r][k][2])
    // nothing is dropped: each pixel's channels are recovered from its triple
    ensures forall r, k :: 0 <= r < rows && 0 <= k < cols ==>
              c[r][k] == [colours[r][k].r, colours[r][k].g, colours[r][k].b]
  {
    colours := [];
    for row := 0 to rows
      invariant IsGrid(colours, row, cols)
      invariant forall r, k :: 0 <= r < row && 0 <= k < cols ==>
                  colours[r][k] == Rgb(c[r][k][0], c[r][k][1], c[r][k][2])
    {
      colours := colours + [[]];
      for col := 0 to cols
        invariant |colours| == row + 1 && |colours[row]| == col
        invariant IsGrid(colours[..row], row, cols)
        invariant forall r, k :: 0 <= r < row && 0 <= k < cols ==>
                    colours[r][k] == Rgb(c[r][k][0], c[r][k][1], c[r][k][2])
        invariant forall k :: 0 <= k < col ==>
                    colours[row][k] == Rgb(c[row][k][0], c[row][k][1], c[row][k][2])
      {
        colours := colours[row := colours[row] + [Rgb(c[row][col][0], c[row][col][1], c[row][col][2])]];
      }
    }
  }
}
