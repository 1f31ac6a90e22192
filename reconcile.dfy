/** The engine's state as a value, and what each inbound segment and each pointer event
    does to it. The class `Engine.WindowManager` is proved to follow these functions. */
module Reconcile {
  import opened Protocol
  import opened Stacking

  /** The engine's mutable state: `window_buffer` (`buffer`), the value `windows` showed at
      its last change notification (`published`), `window_order`, the ids that have a
      frame in `window_frames`, and `message_queue`. */
  datatype EngineState = EngineState(
    buffer: map<string, WindowData>,
    published: map<string, WindowData>,
    order: seq<string>,
    frames: set<string>,
    queue: seq<Request>)

  /** The state before the first reply: everything empty. */
  const Initial: EngineState := EngineState(map[], map[], [], {}, [])

  /** What every reachable state satisfies: a window has a frame exactly when it is in the
      buffer, the published view covers the same windows, each record is keyed by its own
      id, and the stacking order has no duplicates. */
  predicate Valid(s: EngineState) {
    && s.frames == s.buffer.Keys
    && s.published.Keys == s.buffer.Keys
    && (forall k :: k in s.buffer ==> s.buffer[k].window == k)
    && (forall k :: k in s.published ==> s.published[k].window == k)
    && NoDup(s.order)
  }

  /** The drag session of one mounted frame: its window, the `mousedown` flag and the
      pointer offsets captured at mousedown. */
  datatype DragSession = DragSession(window: string, mousedown: bool, offsetX: int, offsetY: int)

  /** The sessions' windows are all in the buffer (a frame exists only for a mapped window). */
  predicate SessionsIn(s: EngineState, drags: seq<DragSession>) {
    forall i :: 0 <= i < |drags| ==> drags[i].window in s.buffer
  }

  // ---------------------------------------------------------------- window_focus

  /** A `window_focus` reply: the id is moved to the top of the order, and the order's
      change listener queues the whole new order. */
  function FocusWindow(s: EngineState, id: string): (r: EngineState)
    ensures r.buffer == s.buffer && r.published == s.published && r.frames == s.frames
    ensures r.order != [] && r.order[|r.order| - 1] == id
    ensures r.queue == s.queue + [ReorderRequest(r.order)]
  {
    var o := FocusOrder(s.order, id);
    s.(order := o, queue := s.queue + [ReorderRequest(o)])
  }

  // ---------------------------------------------------------------- render_reply

  /** A `render_reply`: `windows` is (re)assigned the buffer and its observers see it. */
  function Publish(s: EngineState): (r: EngineState)
    ensures r.published == r.buffer == s.buffer
    ensures r.order == s.order && r.frames == s.frames && r.queue == s.queue
  {
    s.(published := s.buffer)
  }

  // ---------------------------------------------------------------- window_map

  /** A window the buffer does not know, reported visible at (0,0), gets a request to
      place it at the default position with the reported size. */
  function Correct(s: EngineState, m: MapReply): (r: EngineState)
    ensures r.buffer == s.buffer && r.published == s.published
    ensures r.order == s.order && r.frames == s.frames
    ensures s.queue <= r.queue
    ensures |r.queue| == |s.queue| + 1 <==> m.window !in s.buffer && m.x == 0 && m.y == 0 && m.visible
    ensures |r.queue| <= |s.queue| + 1
    ensures |r.queue| > |s.queue| ==> r.queue[|s.queue|] == MapRequest(m.window, 100, 100, m.width, m.height)
  {
    if m.window !in s.buffer && m.x == 0 && m.y == 0 && m.visible then
      s.(queue := s.queue + [MapRequest(m.window, DEFAULT_X, DEFAULT_Y, m.width, m.height)])
    else s
  }

  /** The buffer update: a new window is stored with the reported fields and published; a
      known window keeps its buffered position and takes the reported visibility and size. */
  function Store(s: EngineState, m: MapReply): (r: EngineState)
    ensures r.buffer.Keys == s.buffer.Keys + {m.window}
    ensures forall k :: k in s.buffer && k != m.window ==> r.buffer[k] == s.buffer[k]
    ensures var n := r.buffer[m.window];
      && n.window == m.window && n.visible == m.visible
      && n.width == m.width && n.height == m.height
      && (m.window in s.buffer ==> n.x == s.buffer[m.window].x && n.y == s.buffer[m.window].y)
      && (m.window !in s.buffer ==> n.x == m.x && n.y == m.y)
    ensures r.published == if m.window in s.buffer then s.published else r.buffer
    ensures r.order == s.order && r.frames == s.frames && r.queue == s.queue
  {
    if m.window !in s.buffer then
      var b := s.buffer[m.window := WindowData(m.window, m.visible, m.x, m.y, m.width, m.height)];
      s.(buffer := b, published := b)
    else
      var was := s.buffer[m.window];
      s.(buffer := s.buffer[m.window := WindowData(m.window, m.visible, was.x, was.y, m.width, m.height)])
  }

  /** A window not yet in the order is pushed on top, and the listener queues the order. */
  function Enlist(s: EngineState, id: string): (r: EngineState)
    ensures id in r.order && s.order <= r.order && |r.order| <= |s.order| + 1
    ensures r.order == s.order <==> id in s.order
    ensures NoDup(s.order) ==> NoDup(r.order)
    ensures r.queue == if r.order == s.order then s.queue else s.queue + [ReorderRequest(r.order)]
    ensures r.buffer == s.buffer && r.published == s.published && r.frames == s.frames
  {
    if id in s.order then s
    else
      var o := s.order + [id];
      assert NoDup(s.order) ==> NoDup(o) by {
        if NoDup(s.order) {
          AppendFreshNoDup(s.order, id);
        }
      }
      s.(order := o, queue := s.queue + [ReorderRequest(o)])
  }

  /** A window seen for the first time gets its frame and a one-time border registration:
      a hit-test margin of the title bar's height above the content. */
  function Frame(s: EngineState, id: string): (r: EngineState)
    ensures r.frames == s.frames + {id}
    ensures s.queue <= r.queue
    ensures |r.queue| == |s.queue| + (if id in s.frames then 0 else 1)
    ensures id !in s.frames ==> r.queue[|r.queue| - 1] == RegisterBorderRequest(id, 0, -20, 0, 0)
    ensures r.buffer == s.buffer && r.published == s.published && r.order == s.order
  {
    if id in s.frames then s
    else s.(frames := s.frames + {id},
            queue := s.queue + [RegisterBorderRequest(id, 0, -BORDER_WIDTH, 0, 0)])
  }

  /** A `window_map` reply: the four blocks of the handler in their order. */
  function MapWindow(s: EngineState, m: MapReply): (r: EngineState)
    ensures r.buffer.Keys == s.buffer.Keys + {m.window}
    ensures m.window in r.order && m.window in r.frames
    ensures s.order <= r.order && s.queue <= r.queue
    ensures r.frames == s.frames + {m.window}
  {
    Frame(Enlist(Store(Correct(s, m), m), m.window), m.window)
  }

  // ---------------------------------------------------------------- drag session

  /** Mousedown on a frame, as the engine sees it: a focus request for the frame's window. */
  function PressFocus(s: EngineState, w: string): (r: EngineState)
    ensures r.queue == s.queue + [FocusRequest(w)]
    ensures r.buffer == s.buffer && r.published == s.published
    ensures r.order == s.order && r.frames == s.frames
  {
    s.(queue := s.queue + [FocusRequest(w)])
  }

  /** Mousedown on a frame, as the session sees it: the flag is set and the offsets from the
      pointer to the position the frame shows (`shown`, the published view) are captured. */
  function Grab(shown: map<string, WindowData>, w: string, cx: int, cy: int): (d: DragSession)
    requires w in shown
    ensures d.window == w && d.mousedown
    ensures cx + d.offsetX == shown[w].x && cy + d.offsetY == shown[w].y
  {
    DragSession(w, true, shown[w].x - cx, shown[w].y - cy)
  }

  /** Mouseup anywhere: the flag is cleared. */
  function Release(d: DragSession): (r: DragSession)
    ensures !r.mousedown
    ensures r.window == d.window && r.offsetX == d.offsetX && r.offsetY == d.offsetY
  {
    d.(mousedown := false)
  }

  /** Mousemove while the flag is set: the window is requested at, and buffered at, the
      pointer plus the captured offset, with its current size. Otherwise nothing happens. */
  function DragTo(s: EngineState, d: DragSession, cx: int, cy: int): (r: EngineState)
    requires d.window in s.buffer
    ensures r.buffer.Keys == s.buffer.Keys && r.published == s.published
    ensures r.order == s.order && r.frames == s.frames && s.queue <= r.queue
  {
    if !d.mousedown then s
    else
      var w := s.buffer[d.window];
      var nx, ny := cx + d.offsetX, cy + d.offsetY;
      s.(buffer := s.buffer[d.window := w.(x := nx, y := ny)],
         queue := s.queue + [MapRequest(w.window, nx, ny, w.width, w.height)])
  }

  /** One pointer move delivered to every mounted frame's listener, in mount order. */
  function DragAll(s: EngineState, drags: seq<DragSession>, cx: int, cy: int): (r: EngineState)
    requires SessionsIn(s, drags)
    ensures r.buffer.Keys == s.buffer.Keys && r.published == s.published
    ensures r.order == s.order && r.frames == s.frames && s.queue <= r.queue
    decreases |drags|
  {
    if drags == [] then s
    else DragAll(DragTo(s, drags[0], cx, cy), drags[1..], cx, cy)
  }

  // ---------------------------------------------------------------- the reply loop

  /** One segment of a reply batch; tags other than the four handled ones change nothing. */
  function Step(s: EngineState, seg: Segment, drags: seq<DragSession>): (r: EngineState)
    requires SessionsIn(s, drags)
    ensures s.buffer.Keys <= r.buffer.Keys && s.queue <= r.queue
  {
    match seg
    case WindowFocus(id) => FocusWindow(s, id)
    case RenderReply => Publish(s)
    case MouseMove(x, y) => DragAll(s, drags, x, y)
    case WindowMap(m) => MapWindow(s, m)
    case Unhandled(_) => s
  }

  /** The segments of one reply, applied in array order. */
  function Run(s: EngineState, segs: seq<Segment>, drags: seq<DragSession>): (r: EngineState)
    requires SessionsIn(s, drags)
    ensures s.buffer.Keys <= r.buffer.Keys
    ensures s.queue <= r.queue
    decreases |segs|
  {
    if segs == [] then s
    else Run(Step(s, segs[0], drags), segs[1..], drags)
  }

  /** What one tick sends: the queue as it stands. A reorder request holds the order array
      itself, not a copy, so every one of them is serialized with the order of the moment. */
  function Outbound(q: seq<Request>, order: seq<string>): (b: seq<Request>)
    ensures |b| == |q|
    ensures forall i :: 0 <= i < |q| ==> b[i].ReorderRequest? == q[i].ReorderRequest?
    ensures forall i :: 0 <= i < |q| && b[i].ReorderRequest? ==> b[i].windows == order
    ensures forall i :: 0 <= i < |q| && !q[i].ReorderRequest? ==> b[i] == q[i]
  {
    seq(|q|, i requires 0 <= i < |q| => if q[i].ReorderRequest? then ReorderRequest(order) else q[i])
  }
}
