/**
 * The positioned text fragments the pipeline works on: the raw items the
 * PDF text-layout engine reports for a page, and the simplified items every
 * stage after the normaliser consumes and produces.
 */
module TextItems {

  /** Reading direction reported by the layout engine. */
  datatype Direction = Ltr | Rtl | Ttb

  /** The engine's 2-D affine matrix [a, b, c, d, e, f] (transform[0..5]):
      a/d scale, b/c skew or rotation, e/f translation. */
  datatype Transform = Transform(a: real, b: real, c: real, d: real, e: real, f: real)

  /** A raw text item as the layout engine reports it (the fields the
      pipeline reads). */
  datatype TextItem = TextItem(str: string, dir: Direction, transform: Transform, width: real, height: real)

  /** A simplified text item; (x, y) is the bottom-left corner in page units,
      origin at the bottom-left of the page. The source stores `arabic` as the
      strings 'true' / 'false'. */
  datatype SimpleTextItem = SimpleTextItem(value: string, arabic: bool, x: real, y: real, width: real, height: real)

  /** The x coordinate of an item's right edge. */
  function RightEdge(item: SimpleTextItem): (r: real) {
    item.x + item.width
  }
}
