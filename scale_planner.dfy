/**
 * The arithmetic of getImageScale: from the image's width W and height H and
 * the terminal's column count, the character grid the image is resized to and
 * how many source pixels each character stands for along each axis.
 */
module ScalePlanner {
  import opened Options
  import opened Fractions

  /**
   * cols x rows characters; each covers xSegment source pixels across and
   * ySegment down.
   */
  datatype ScalePlan = ScalePlan(cols: nat, rows: nat, xSegment: Frac, ySegment: Frac)

  /** The divisions by zero getImageScale can run into, in the order it meets them. */
  datatype PlanError =
    | ZeroWidth   // the aspect ratio (H/2)/W with W == 0
    | ZeroColumns // x_segment = W/x with x == 0 columns
    | ZeroRows    // y_segment = H/y when y truncated to 0

  /**
   * The height the image gets at `columns` wide: (H/2)/W * columns truncated
   * to an integer, which for non-negative values is the floor of H * columns / (2 * W).
   */
  function TargetRows(W: nat, H: nat, columns: nat): (rows: nat)
    requires W > 0
    ensures 2 * W * rows <= H * columns < 2 * W * (rows + 1)
  {
    (H * columns) / (2 * W)
  }

  /** The height truncates to no rows exactly when H * columns falls short of 2 * W. */
  lemma ZeroRowsExactly(W: nat, H: nat, columns: nat)
    requires W > 0
    ensures TargetRows(W, H, columns) == 0 <==> H * columns < 2 * W
  {
    var y := TargetRows(W, H, columns);
    if y > 0 {
      MulMonotone(1, y, 2 * W);
    }
  }

  const One: Frac := Frac(1, 1)

  /** getImageScale without the terminal query and the verbose report. */
  function Plan(W: nat, H: nat, columns: nat): (r: Result<ScalePlan, PlanError>)
    // the aspect ratio divides by W before anything else
    ensures W == 0 <==> r == Failure(ZeroWidth)
    // an image no wider than the terminal is shown pixel for pixel
    ensures 0 < W <= columns ==> r == Success(ScalePlan(W, H, One, One))
    // a wider image is shrunk to the terminal width, its height to the floor of the halved aspect ratio
    ensures 0 < W && columns < W && r.Success? ==>
              && r.value.cols == columns
              && 2 * W * r.value.rows <= H * columns < 2 * W * (r.value.rows + 1)
    // the shrink fails exactly when there are no columns or the height truncates to 0 rows
    ensures 0 < W && columns < W ==>
              (columns == 0 <==> r == Failure(ZeroColumns))
              && (0 < columns && H * columns < 2 * W <==> r == Failure(ZeroRows))
    // the segments times the grid give back the image
    ensures r.Success? ==> Scales(r.value.xSegment, r.value.cols, W)
                           && Scales(r.value.ySegment, r.value.rows, H)
  {
    if W == 0 then Failure(ZeroWidth)
    else
      var y := TargetRows(W, H, columns);
      ZeroRowsExactly(W, H, columns);
      if W <= columns then Success(ScalePlan(W, H, One, One))
      else if columns == 0 then Failure(ZeroColumns)
      else if y == 0 then Failure(ZeroRows)
      else Success(ScalePlan(columns, y, Frac(W, columns), Frac(H, y)))
  }

  /** The plan never upscales: a shrunk image is narrower and at most half as tall in rows. */
  lemma PlanNeverUpscales(W: nat, H: nat, columns: nat)
    requires Plan(W, H, columns).Success?
    ensures Plan(W, H, columns).value.cols <= W
    ensures Plan(W, H, columns).value.rows <= H
    ensures columns < W ==> Plan(W, H, columns).value.cols < W
                            && 2 * Plan(W, H, columns).value.rows <= H
  {
    var p := Plan(W, H, columns).value;
    if columns < W {
      var rows := p.rows;
      assert 2 * W * rows <= H * columns;
      assert H * columns <= H * W by {
        Fractions.MulMonotone(columns, W, H);
      }
      assert (2 * rows) * W <= H * W;
      HalvedHeight(2 * rows, H, W);
    }
  }

  lemma HalvedHeight(a: nat, H: nat, W: nat)
    requires W > 0 && a * W <= H * W
    ensures a <= H
  {
    if a > H {
      assert (H + 1) * W == H * W + W;
      Fractions.MulMonotone(H + 1, a, W);
    }
  }

  /** Every segment covers at least one source pixel. */
  lemma SegmentsAtLeastOne(W: nat, H: nat, columns: nat)
    requires Plan(W, H, columns).Success?
    ensures Plan(W, H, columns).value.xSegment.num >= Plan(W, H, columns).value.xSegment.den
    ensures Plan(W, H, columns).value.ySegment.num >= Plan(W, H, columns).value.ySegment.den
  {
    PlanNeverUpscales(W, H, columns);
  }

  /** 800 x 400 on 80 columns: 80 x 20 characters, each 800/80 x 400/20 pixels. */
  lemma ScenarioDownscale()
    ensures Plan(800, 400, 80) == Success(ScalePlan(80, 20, Frac(800, 80), Frac(400, 20)))
  {
    assert TargetRows(800, 400, 80) == 20;
  }

  /** 40 x 20 on 80 columns: shown at native size. */
  lemma ScenarioPassthrough()
    ensures Plan(40, 20, 80) == Success(ScalePlan(40, 20, One, One))
  {
  }

  /** A panorama 4000 x 40 on 80 columns truncates to no rows, and y_segment = H/y divides by zero. */
  lemma WideImageHasNoRows()
    ensures Plan(4000, 40, 80) == Failure(ZeroRows)
  {
    assert TargetRows(4000, 40, 80) == 0;
  }

  /**
   * getImageScale with the height kept at one row at least, as the aspect
   * computation evidently intends for wide images.
   */
  function PlanAtLeastOneRow(W: nat, H: nat, columns: nat): (r: Result<ScalePlan, PlanError>)
    // only a zero width or zero columns still fail
    ensures W == 0 <==> r == Failure(ZeroWidth)
    ensures 0 < W && 0 < columns ==> r.Success?
    ensures 0 < W && columns < W ==> (columns == 0 <==> r == Failure(ZeroColumns))
    ensures 0 < W <= columns ==> r == Success(ScalePlan(W, H, One, One))
    ensures 0 < columns < W ==> r.Success? && r.value.cols == columns
    // a shrunk image has at least one row, and one more than the floor at most
    ensures 0 < columns < W && r.Success? ==>
              && r.value.rows >= 1
              && 2 * W * (r.value.rows - 1) <= H * columns
              && (H * columns >= 2 * W ==> 2 * W * r.value.rows <= H * columns < 2 * W * (r.value.rows + 1))
    ensures r.Success? ==> Scales(r.value.xSegment, r.value.cols, W)
                           && Scales(r.value.ySegment, r.value.rows, H)
    ensures r.Success? && H > 0 ==> r.value.rows <= H && r.value.cols <= W
  {
    if W == 0 then Failure(ZeroWidth)
    else if W <= columns then Success(ScalePlan(W, H, One, One))
    else if columns == 0 then Failure(ZeroColumns)
    else
      var y := TargetRows(W, H, columns);
      var rows := if y == 0 then 1 else y;
      RowsWithinHeight(W, H, columns, y);
      Success(ScalePlan(columns, rows, Frac(W, columns), Frac(H, rows)))
  }

  lemma RowsWithinHeight(W: nat, H: nat, columns: nat, y: nat)
    requires 0 < columns < W && y == TargetRows(W, H, columns)
    ensures 2 * y <= H
  {
    assert H * columns <= H * W by {
      Fractions.MulMonotone(columns, W, H);
    }
    assert (2 * y) * W <= H * W;
    HalvedHeight(2 * y, H, W);
  }

  /** Where the source does not fail, the corrected plan is the same plan. */
  lemma AtLeastOneRowAgrees(W: nat, H: nat, columns: nat)
    requires Plan(W, H, columns).Success?
    ensures PlanAtLeastOneRow(W, H, columns) == Plan(W, H, columns)
  {
  }

  /**
   * The report's two aspect ratios, Fraction(W, H) and Fraction(cols, rows),
   * each through limit_denominator().
   */
  function AspectRatios(W: nat, H: nat, cols: nat, rows: nat): (r: Result<(Frac, Frac), FractionError>)
    ensures r.Success? ==>
              && Gcd(r.value.0.num, r.value.0.den) == 1 && Scales(r.value.0, H, W)
              && Gcd(r.value.1.num, r.value.1.den) == 1 && Scales(r.value.1, rows, cols)
    ensures H == 0 ==> r == Failure(ZeroDenominator)
    ensures 0 < H && Reduce(W, H).den <= MaxDenominator && rows == 0 ==> r == Failure(ZeroDenominator)
    ensures r.Success? <==> 0 < H && 0 < rows
                            && Reduce(W, H).den <= MaxDenominator && Reduce(cols, rows).den <= MaxDenominator
    ensures 0 < H <= MaxDenominator && 0 < rows <= MaxDenominator ==> r.Success?
  {
    var ratio1 :- LimitDenominator(W, H);
    var ratio2 :- LimitDenominator(cols, rows);
    Success((ratio1, ratio2))
  }

  /** At native size the image keeps its aspect ratio exactly. */
  lemma {:induction false} PassthroughKeepsAspect(W: nat, H: nat, columns: nat)
    requires 0 < W <= columns && 0 < H <= MaxDenominator
    ensures Plan(W, H, columns).Success?
    ensures var p := Plan(W, H, columns).value;
            AspectRatios(W, H, p.cols, p.rows).Success?
            && AspectRatios(W, H, p.cols, p.rows).value.0 == AspectRatios(W, H, p.cols, p.rows).value.1
  {
  }
}
