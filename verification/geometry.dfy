/** Integer rectangles, colours and the draw commands the widgets issue to the renderer. */
module Draw {

  /** `Rect` from the engine's util header: top-left corner and size in pixels. */
  datatype Rect = Rect(x: int, y: int, w: int, h: int)

  /** An 8-bit-per-channel colour. */
  datatype Color = Color(r: int, g: int, b: int, a: int)

  /** A pair of integers, as the text-size queries fill it: `x` is a width, `y` a height. */
  datatype Point = Point(x: int, y: int)

  /** One call into the renderer, recorded instead of executed. */
  datatype DrawCmd =
    | FillRect(rect: Rect, color: Color)
    | FillOutline(around: Rect, size: int, color: Color)
    | DrawText(pt: int, style: int, text: string, x: int, y: int)

  /** Text measurement (`engine_render_text_size_s`): the width and height of a string at the box's size. */
  type Measure = string -> Point
}
