/** Message shapes exchanged with the host, and the window record mirrored locally.
    Numbers on the wire are pixel coordinates; they are modelled as unbounded integers. */
module Protocol {

  /** Height of the title bar drawn above a window's content area. */
  const BORDER_WIDTH: int := 20

  /** Placement requested for a new window the host reports at the origin. */
  const DEFAULT_X: int := 100
  const DEFAULT_Y: int := 100

  /** One entry of the window buffer (`WindowData`). */
  datatype WindowData = WindowData(window: string, visible: bool, x: int, y: int, width: int, height: int)

  /** The fields of an inbound `window_map` segment. */
  datatype MapReply = MapReply(window: string, visible: bool, x: int, y: int, width: int, height: int)

  /** One inbound segment of a reply batch, already parsed; `Unhandled` stands for every
      other tag (`window_close`, `window_icon`, `reload`, ...), which the loop ignores. */
  datatype Segment =
    | WindowFocus(window: string)
    | RenderReply
    | MouseMove(x: int, y: int)
    | WindowMap(reply: MapReply)
    | Unhandled(t: string)

  /** One outbound request queued in `message_queue`. */
  datatype Request =
    | RenderRequest
    | FocusRequest(window: string)
    | MapRequest(window: string, x: int, y: int, width: int, height: int)
    | ReorderRequest(windows: seq<string>)
    | RegisterBorderRequest(window: string, x: int, y: int, width: int, height: int)
}
