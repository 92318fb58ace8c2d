/**
 * Values shared by the two generations of the C layout-box API
 * (`src/layout/types.h`): a box's bounding box and the document item a box
 * lays out; and the integer arithmetic the second generation does on Pango
 * units.
 */
module LayoutTypes {
  import opened TextModel

  /**
   * `TextDimensions`. The C fields are `gdouble`, but every value the
   * layout code stores in them is an `int`, so they are integers here.
   */
  datatype Dimensions = Dimensions(x: int, y: int, width: int, height: int)

  /** The `TextItem` a layout box points at: a paragraph, a frame or a fragment. */
  datatype Item = ParagraphItem(paragraph: Paragraph) | FrameItem(frame: Frame) | FragmentItem(fragment: Fragment)

  /** `PANGO_SCALE`: Pango units per device pixel. */
  const PangoScale: int := 1024

  /** C's `/` on `int`: the quotient truncated toward zero. */
  function CDiv(a: int, b: int): int
    requires b > 0
  {
    if a >= 0 then a / b else -((-a) / b)
  }
}
