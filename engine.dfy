/** The window-mirror engine as the program runs it: one object holding the buffer, the
    published view, the stacking order, the framed ids and the outbound queue, updated in
    place by the reply loop; and one object per mounted window frame holding its drag
    session. Each method is proved to follow the functions of `Reconcile`. */
module Engine {
  import opened Protocol
  import opened Stacking
  import opened Reconcile
  import Properties

  class WindowManager {
    var buffer: map<string, WindowData>
    var published: map<string, WindowData>
    var order: seq<string>
    var frames: set<string>
    var queue: seq<Request>

    /** The state as a value. */
    function State(): EngineState
      reads this
    {
      EngineState(buffer, published, order, frames, queue)
    }

    predicate Valid()
      reads this
    {
      Reconcile.Valid(State())
    }

    constructor ()
      ensures State() == Initial && Valid()
    {
      buffer, published, order, frames, queue := map[], map[], [], {}, [];
    }

    /** One animation frame: a render request is queued and the whole queue is sent. The
        queue is not cleared here; only a reply clears it. */
    method Tick() returns (batch: seq<Request>)
      modifies this`queue
      ensures queue == old(queue) + [RenderRequest]
      ensures batch == Outbound(queue, order)
    {
      queue := queue + [RenderRequest];
      batch := Outbound(queue, order);
    }

    /** The `window_focus` branch of the reply loop. */
    method FocusReply(id: string)
      requires Valid()
      modifies this
      ensures Valid()
      ensures State() == FocusWindow(old(State()), id)
    {
      var at := IndexOf(order, id);
      order := SpliceOne(order, at) + [id];
      queue := queue + [ReorderRequest(order)];
      Properties.FocusValid(old(State()), id);
    }

    /** The `render_reply` branch of the reply loop. */
    method RenderReply()
      requires Valid()
      modifies this`published
      ensures Valid()
      ensures State() == Publish(old(State()))
    {
      published := buffer;
    }

    /** The `window_map` branch of the reply loop. */
    method MapReply(m: MapReply)
      requires Valid()
      modifies this
      ensures Valid()
      ensures State() == MapWindow(old(State()), m)
    {
      if m.window !in buffer && m.x == 0 && m.y == 0 && m.visible {
        queue := queue + [MapRequest(m.window, DEFAULT_X, DEFAULT_Y, m.width, m.height)];
      }
      if m.window !in buffer {
        buffer := buffer[m.window := WindowData(m.window, m.visible, m.x, m.y, m.width, m.height)];
        published := buffer;
      } else {
        var was := buffer[m.window];
        buffer := buffer[m.window := WindowData(m.window, m.visible, was.x, was.y, m.width, m.height)];
      }
      if m.window !in order {
        order := order + [m.window];
        queue := queue + [ReorderRequest(order)];
      }
      if m.window !in frames {
        frames := frames + {m.window};
        queue := queue + [RegisterBorderRequest(m.window, 0, -BORDER_WIDTH, 0, 0)];
      }
      Properties.MapValid(old(State()), m);
    }

    /** A synthetic mousemove dispatched to the document: every mounted frame's listener
        runs, in the order the frames were mounted. */
    method DispatchMouseMove(x: int, y: int, mounted: seq<WindowFrame>)
      requires Valid()
      requires forall i :: 0 <= i < |mounted| ==> mounted[i].eng == this && mounted[i].window in buffer
      modifies this
      ensures Valid()
      ensures State() == DragAll(old(State()), Sessions(mounted), x, y)
    {
      ghost var drags := Sessions(mounted);
      var j := 0;
      while j < |mounted|
        invariant 0 <= j <= |mounted|
        invariant Valid() && SessionsIn(State(), drags)
        invariant Sessions(mounted) == drags
        invariant DragAll(State(), drags[j..], x, y) == DragAll(old(State()), drags, x, y)
      {
        mounted[j].MouseMove(x, y);
        assert drags[j..][1..] == drags[j + 1..];
        j := j + 1;
      }
    }

    /** One segment of the reply loop, dispatched on its tag; other tags are ignored. */
    method HandleSegment(seg: Segment, mounted: seq<WindowFrame>)
      requires Valid()
      requires forall i :: 0 <= i < |mounted| ==> mounted[i].eng == this && mounted[i].window in buffer
      modifies this
      ensures Valid()
      ensures State() == Step(old(State()), seg, Sessions(mounted))
    {
      match seg {
        case WindowFocus(id) =>
          FocusReply(id);
        case RenderReply =>
          RenderReply();
        case MouseMove(x, y) =>
          DispatchMouseMove(x, y, mounted);
        case WindowMap(m) =>
          MapReply(m);
        case Unhandled(_) =>
      }
    }

    /** A successful reply: the queue is emptied, then the segments are handled in array
        order. */
    method ProcessReply(segs: seq<Segment>, mounted: seq<WindowFrame>)
      requires Valid()
      requires forall i :: 0 <= i < |mounted| ==> mounted[i].eng == this && mounted[i].window in buffer
      modifies this
      ensures Valid()
      ensures State() == Run(old(State()).(queue := []), segs, Sessions(mounted))
    {
      queue := [];
      ghost var drags := Sessions(mounted);
      ghost var s0 := State();
      var i := 0;
      while i < |segs|
        invariant 0 <= i <= |segs|
        invariant Valid() && SessionsIn(State(), drags)
        invariant Sessions(mounted) == drags
        invariant Run(State(), segs[i..], drags) == Run(s0, segs, drags)
      {
        HandleSegment(segs[i], mounted);
        assert segs[i..][1..] == segs[i + 1..];
        i := i + 1;
      }
    }
  }

  /** The drag session of a mounted frame: the window it shows, the `mousedown` flag and
      the offsets captured at mousedown. Its position props are read from the manager's
      published view, its size through the buffer. */
  class WindowFrame {
    const eng: WindowManager
    const window: string
    var mousedown: bool
    var offsetX: int
    var offsetY: int

    function Session(): DragSession
      reads this
    {
      DragSession(window, mousedown, offsetX, offsetY)
    }

    /** Mounting a frame: no button held, both offsets 0. */
    constructor (eng: WindowManager, window: string)
      ensures this.eng == eng && this.window == window
      ensures Session() == DragSession(window, false, 0, 0)
    {
      this.eng := eng;
      this.window := window;
      mousedown, offsetX, offsetY := false, 0, 0;
    }

    /** Mousedown on the frame. */
    method MouseDown(cx: int, cy: int)
      requires eng.Valid() && window in eng.buffer
      modifies this, eng
      ensures eng.Valid()
      ensures Session() == Grab(old(eng.published), window, cx, cy)
      ensures eng.State() == PressFocus(old(eng.State()), window)
    {
      mousedown := true;
      offsetX := eng.published[window].x - cx;
      offsetY := eng.published[window].y - cy;
      eng.queue := eng.queue + [FocusRequest(window)];
    }

    /** Mouseup anywhere in the document. Every mounted frame registers its own document
        listener, so one mouseup clears the flag of every frame: a caller calls this on each
        mounted frame. */
    method MouseUp()
      modifies this
      ensures Session() == Release(old(Session()))
    {
      mousedown := false;
    }

    /** Mousemove anywhere in the document. */
    method MouseMove(cx: int, cy: int)
      requires eng.Valid() && window in eng.buffer
      modifies eng
      ensures eng.Valid()
      ensures eng.State() == DragTo(old(eng.State()), Session(), cx, cy)
    {
      if mousedown {
        var w := eng.buffer[window];
        eng.queue := eng.queue + [MapRequest(w.window, cx + offsetX, cy + offsetY, w.width, w.height)];
        eng.buffer := eng.buffer[window := w.(x := cx + offsetX, y := cy + offsetY)];
      }
    }
  }

  /** A client of the two classes: the first window is mapped, a frame is mounted for it,
      and the user drags it 50 pixels to the right and back, then releases the button. */
  method DragScenario()
  {
    var wm := new WindowManager();
    wm.ProcessReply([WindowMap(MapReply("w1", true, 200, 150, 500, 400))], []);
    assert wm.buffer["w1"] == wm.published["w1"] == WindowData("w1", true, 200, 150, 500, 400);
    var f := new WindowFrame(wm, "w1");
    f.MouseDown(210, 160);
    f.MouseMove(260, 160);
    assert wm.buffer["w1"].x == 250 && wm.queue[|wm.queue| - 1] == MapRequest("w1", 250, 150, 500, 400);
    f.MouseMove(210, 160);
    assert wm.buffer["w1"] == WindowData("w1", true, 200, 150, 500, 400);
    f.MouseUp();
    f.MouseMove(300, 300);
    assert wm.buffer["w1"].x == 200;
  }

  /** The drag sessions of the mounted frames, in mount order. */
  function Sessions(mounted: seq<WindowFrame>): (r: seq<DragSession>)
    reads mounted
    ensures |r| == |mounted|
    ensures forall i :: 0 <= i < |mounted| ==> r[i] == mounted[i].Session()
  {
    seq(|mounted|, i requires 0 <= i < |mounted| reads mounted => mounted[i].Session())
  }
}
