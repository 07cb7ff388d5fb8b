/** The pixel values the renderers consume: what np.array(img) holds after PIL's resize. */
module Pixels {

  /** One 8-bit channel (numpy uint8). */
  type Byte = x: int | 0 <= x < 256

  /** One pixel of an 'RGB' image, as the 3-tuple the colour extraction builds. */
  datatype Rgb = Rgb(r: Byte, g: Byte, b: Byte)

  /** `grid` is a rows x cols array, as np.array of an image resized to (cols, rows). */
  ghost predicate IsGrid<T>(grid: seq<seq<T>>, rows: nat, cols: nat) {
    |grid| == rows && forall r :: 0 <= r < rows ==> |grid[r]| == cols
  }
}
