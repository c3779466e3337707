/** Window rectangles, by their edges, and the columns of the guest's screen. */
module Rects {

  /** Each application has a column this wide, to the right of the shell's. */
  const SLOT_W := 640

  datatype Rect = Rect(left: int, top: int, right: int, bottom: int)

  function Width(r: Rect): int { r.right - r.left }

  function Height(r: Rect): int { r.bottom - r.top }

  function At(x: int, y: int, w: int, h: int): Rect { Rect(x, y, x + w, y + h) }
}
