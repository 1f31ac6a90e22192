/** What the reply handler and the drag session promise, proved about the functions of
    `Reconcile`. */
module Properties {
  import opened Protocol
  import opened Stacking
  import opened Reconcile

  /** The number of `window_map` requests in a queue. */
  function MapCount(q: seq<Request>): nat
  {
    if q == [] then 0 else (if q[0].MapRequest? then 1 else 0) + MapCount(q[1..])
  }

  /** The number of `window_register_border` requests in a queue. */
  function BorderCount(q: seq<Request>): nat
  {
    if q == [] then 0 else (if q[0].RegisterBorderRequest? then 1 else 0) + BorderCount(q[1..])
  }

  lemma {:induction false} CountsConcat(a: seq<Request>, b: seq<Request>)
    ensures MapCount(a + b) == MapCount(a) + MapCount(b)
    ensures BorderCount(a + b) == BorderCount(a) + BorderCount(b)
  {
    if a == [] {
      assert a + b == b;
    } else {
      assert (a + b)[1..] == a[1..] + b;
      CountsConcat(a[1..], b);
    }
  }

  /** The requests a window_map reply adds to the queue, in the order the handler adds
      them: the correction, the reorder notification, the border registration. */
  function MapAdded(s: EngineState, m: MapReply): seq<Request>
  {
    Correction(s, m) + Announcement(s, m.window) + Registration(s, m.window)
  }

  function Correction(s: EngineState, m: MapReply): seq<Request>
  {
    if m.window !in s.buffer && m.x == 0 && m.y == 0 && m.visible
    then [MapRequest(m.window, DEFAULT_X, DEFAULT_Y, m.width, m.height)] else []
  }

  function Announcement(s: EngineState, id: string): seq<Request>
  {
    if id in s.order then [] else [ReorderRequest(s.order + [id])]
  }

  function Registration(s: EngineState, id: string): seq<Request>
  {
    if id in s.frames then [] else [RegisterBorderRequest(id, 0, -BORDER_WIDTH, 0, 0)]
  }

  lemma MapWindowQueue(s: EngineState, m: MapReply)
    ensures MapWindow(s, m).queue == s.queue + MapAdded(s, m)
  {
  }

  /** How many requests of each kind the three parts hold. */
  lemma AddedCounts(s: EngineState, m: MapReply)
    ensures MapCount(MapAdded(s, m)) == |Correction(s, m)|
    ensures BorderCount(MapAdded(s, m)) == |Registration(s, m.window)|
  {
    var c, o, f := Correction(s, m), Announcement(s, m.window), Registration(s, m.window);
    CountsConcat(c + o, f);
    CountsConcat(c, o);
    assert MapCount(o) == 0 && BorderCount(o) == 0 by {
      if o != [] { assert o[1..] == []; }
    }
    assert MapCount(c) == |c| && BorderCount(c) == 0 by {
      if c != [] { assert c[1..] == []; }
    }
    assert MapCount(f) == 0 && BorderCount(f) == |f| by {
      if f != [] { assert f[1..] == []; }
    }
  }

  /** A window_map reply for a window the buffer does not know, reported visible at (0,0),
      queues exactly one window_map request, for the default position (100,100) with the
      reported size, ahead of anything else it queues; any other window_map reply queues none. */
  lemma MapCorrection(s: EngineState, m: MapReply)
    ensures var r := MapWindow(s, m);
      var corrected := m.window !in s.buffer && m.x == 0 && m.y == 0 && m.visible;
      && |s.queue| <= |r.queue|
      && MapCount(r.queue[|s.queue|..]) == (if corrected then 1 else 0)
      && (corrected ==> r.queue[|s.queue|] == MapRequest(m.window, 100, 100, m.width, m.height))
  {
    var r := MapWindow(s, m);
    MapWindowQueue(s, m);
    assert r.queue[|s.queue|..] == MapAdded(s, m);
    AddedCounts(s, m);
  }

  /** A window_register_border request, with x 0, y minus the title bar height and no
      size, is queued exactly when the window has no frame yet, as the last request. */
  lemma MapRegistersBorderOnce(s: EngineState, m: MapReply)
    ensures var r := MapWindow(s, m);
      && |s.queue| <= |r.queue|
      && BorderCount(r.queue[|s.queue|..]) == (if m.window in s.frames then 0 else 1)
      && (m.window !in s.frames ==>
            r.queue[|r.queue| - 1] == RegisterBorderRequest(m.window, 0, -20, 0, 0))
  {
    var r := MapWindow(s, m);
    MapWindowQueue(s, m);
    assert r.queue[|s.queue|..] == MapAdded(s, m);
    AddedCounts(s, m);
  }

  /** A window the buffer does not know is stored with exactly the reported fields, and the
      buffer is published; no other entry changes. */
  lemma MapNewWindow(s: EngineState, m: MapReply)
    requires m.window !in s.buffer
    ensures var r := MapWindow(s, m);
      && r.buffer == s.buffer[m.window := WindowData(m.window, m.visible, m.x, m.y, m.width, m.height)]
      && r.published == r.buffer
  {
  }

  /** A known window keeps its buffered x and y and takes the reported visibility, width
      and height; no other entry changes and the published view is left alone. */
  lemma MapKnownWindow(s: EngineState, m: MapReply)
    requires m.window in s.buffer
    ensures var r := MapWindow(s, m);
      && r.buffer.Keys == s.buffer.Keys
      && r.buffer[m.window].x == s.buffer[m.window].x
      && r.buffer[m.window].y == s.buffer[m.window].y
      && r.buffer[m.window].visible == m.visible
      && r.buffer[m.window].width == m.width
      && r.buffer[m.window].height == m.height
      && (forall k :: k in s.buffer && k != m.window ==> r.buffer[k] == s.buffer[k])
      && r.published == s.published
  {
  }

  /** After a window_map reply the window is in the order; it was appended only if it was
      absent, so a duplicate-free order stays duplicate-free. */
  lemma MapOrder(s: EngineState, m: MapReply)
    requires NoDup(s.order)
    ensures var r := MapWindow(s, m);
      && m.window in r.order
      && r.order == (if m.window in s.order then s.order else s.order + [m.window])
      && NoDup(r.order)
  {
  }

  /** Every reachable-state invariant survives a window_map reply. */
  lemma MapValid(s: EngineState, m: MapReply)
    requires Valid(s)
    ensures Valid(MapWindow(s, m))
  {
    if m.window !in s.order {
      AppendFreshNoDup(s.order, m.window);
    }
  }

  /** Applying the same window_map reply twice in a row changes nothing the second time:
      in particular it queues no corrective request and no second border registration. */
  lemma MapIdempotent(s: EngineState, m: MapReply)
    ensures MapWindow(MapWindow(s, m), m) == MapWindow(s, m)
  {
    var r := MapWindow(s, m);
    assert m.window in r.buffer && m.window in r.order && m.window in r.frames;
    assert r.buffer[m.window := r.buffer[m.window]] == r.buffer;
  }

  /** Every reachable-state invariant survives a focus reply, a render reply and a drag. */
  lemma FocusValid(s: EngineState, id: string)
    requires Valid(s)
    ensures Valid(FocusWindow(s, id))
  {
    FocusKeepsNoDup(s.order, id);
  }

  lemma {:induction false} DragAllValid(s: EngineState, drags: seq<DragSession>, cx: int, cy: int)
    requires Valid(s) && SessionsIn(s, drags)
    ensures Valid(DragAll(s, drags, cx, cy))
    decreases |drags|
  {
    if drags != [] {
      var t := DragTo(s, drags[0], cx, cy);
      assert SessionsIn(t, drags[1..]);
      DragAllValid(t, drags[1..], cx, cy);
    }
  }

  lemma StepValid(s: EngineState, seg: Segment, drags: seq<DragSession>)
    requires Valid(s) && SessionsIn(s, drags)
    ensures Valid(Step(s, seg, drags))
  {
    match seg
    case WindowFocus(id) => FocusValid(s, id);
    case RenderReply =>
    case MouseMove(x, y) => DragAllValid(s, drags, x, y);
    case WindowMap(m) => MapValid(s, m);
    case Unhandled(_) =>
  }

  /** A whole reply keeps the invariants. */
  lemma {:induction false} RunValid(s: EngineState, segs: seq<Segment>, drags: seq<DragSession>)
    requires Valid(s) && SessionsIn(s, drags)
    ensures Valid(Run(s, segs, drags))
    decreases |segs|
  {
    if segs != [] {
      StepValid(s, segs[0], drags);
      RunValid(Step(s, segs[0], drags), segs[1..], drags);
    }
  }

  /** Segments are handled one after the other in array order: handling a batch is handling
      its first part and then the rest. */
  lemma {:induction false} RunConcat(s: EngineState, a: seq<Segment>, b: seq<Segment>, drags: seq<DragSession>)
    requires SessionsIn(s, drags)
    ensures SessionsIn(Run(s, a, drags), drags)
    ensures Run(s, a + b, drags) == Run(Run(s, a, drags), b, drags)
    decreases |a|
  {
    if a == [] {
      assert a + b == b;
    } else {
      assert (a + b)[1..] == a[1..] + b;
      RunConcat(Step(s, a[0], drags), a[1..], b, drags);
    }
  }

  /** A batch of segments with tags the loop does not handle leaves the state as it was. */
  lemma {:induction false} RunUnhandled(s: EngineState, segs: seq<Segment>, drags: seq<DragSession>)
    requires SessionsIn(s, drags)
    requires forall i :: 0 <= i < |segs| ==> segs[i].Unhandled?
    ensures Run(s, segs, drags) == s
    decreases |segs|
  {
    if segs != [] {
      RunUnhandled(s, segs[1..], drags);
    }
  }

  /** Whenever a segment changes the order, the requests it queues include a reorder request
      carrying the whole new order. */
  lemma OrderChangeAnnounced(s: EngineState, seg: Segment, drags: seq<DragSession>)
    requires SessionsIn(s, drags)
    ensures var r := Step(s, seg, drags);
      r.order != s.order ==> ReorderRequest(r.order) in r.queue[|s.queue|..]
  {
    var r := Step(s, seg, drags);
    match seg
    case WindowFocus(id) =>
      assert r.queue[|s.queue|..] == [ReorderRequest(r.order)];
    case WindowMap(m) =>
      MapWindowQueue(s, m);
      assert r.queue[|s.queue|..] == MapAdded(s, m);
      if m.window !in s.order {
        assert MapAdded(s, m) == Correction(s, m) + [ReorderRequest(r.order)] + Registration(s, m.window);
      }
    case RenderReply =>
    case MouseMove(_, _) =>
    case Unhandled(_) =>
  }

  // ---------------------------------------------------------------- the drag session

  /** A sequence of pointer positions delivered to one frame's mousemove listener. */
  function DragAlong(s: EngineState, d: DragSession, path: seq<(int, int)>): (r: EngineState)
    requires d.window in s.buffer
    ensures r.buffer.Keys == s.buffer.Keys
    decreases |path|
  {
    if path == [] then s
    else DragAlong(DragTo(s, d, path[0].0, path[0].1), d, path[1..])
  }

  /** While the button is down, after any non-empty run of moves the window is buffered at
      the last pointer position plus the offset, with its size and visibility kept; one
      window_map request per move has been queued, the last one for that position; and no
      other window changed. */
  lemma {:induction false} DragAlongEnds(s: EngineState, d: DragSession, path: seq<(int, int)>)
    requires d.window in s.buffer && d.mousedown && path != []
    ensures var r := DragAlong(s, d, path);
      var w := s.buffer[d.window];
      var cx, cy := path[|path| - 1].0, path[|path| - 1].1;
      && r.buffer[d.window] == w.(x := cx + d.offsetX, y := cy + d.offsetY)
      && (forall k :: k in s.buffer && k != d.window ==> r.buffer[k] == s.buffer[k])
      && |r.queue| == |s.queue| + |path|
      && r.queue[..|s.queue|] == s.queue
      && (forall k :: 0 <= k < |path| ==>
            r.queue[|s.queue| + k] == MapRequest(w.window, path[k].0 + d.offsetX, path[k].1 + d.offsetY, w.width, w.height))
      && r.queue[|r.queue| - 1] == MapRequest(w.window, cx + d.offsetX, cy + d.offsetY, w.width, w.height)
    decreases |path|
  {
    var w := s.buffer[d.window];
    var t := DragTo(s, d, path[0].0, path[0].1);
    var first := MapRequest(w.window, path[0].0 + d.offsetX, path[0].1 + d.offsetY, w.width, w.height);
    assert t.queue == s.queue + [first];
    if |path| > 1 {
      DragAlongEnds(t, d, path[1..]);
      var r := DragAlong(s, d, path);
      assert r == DragAlong(t, d, path[1..]);
      assert r.queue[..|t.queue|] == t.queue;
      forall k | 0 <= k < |path|
        ensures r.queue[|s.queue| + k] == MapRequest(w.window, path[k].0 + d.offsetX, path[k].1 + d.offsetY, w.width, w.height)
      {
        if k == 0 {
          assert r.queue[|s.queue|] == t.queue[|s.queue|];
        } else {
          assert path[1..][k - 1] == path[k];
          assert r.queue[|t.queue| + (k - 1)] == r.queue[|s.queue| + k];
        }
      }
    }
  }

  /** Once mouseup has cleared the flag, moves change nothing. */
  lemma {:induction false} ReleasedDragIsInert(s: EngineState, d: DragSession, path: seq<(int, int)>)
    requires d.window in s.buffer
    ensures DragAlong(s, Release(d), path) == s
    decreases |path|
  {
    if path != [] {
      ReleasedDragIsInert(s, d, path[1..]);
    }
  }

  /** A session grabbed at a pointer position, followed by any drag that ends back at that
      position, puts the window back where the frame showed it at mousedown, with its
      buffered size; this holds whatever happened to the state in between. */
  lemma DragBackRestores(s: EngineState, shown: map<string, WindowData>, w: string, cx: int, cy: int, path: seq<(int, int)>)
    requires w in shown && w in s.buffer
    requires path != [] && path[|path| - 1] == (cx, cy)
    ensures var r := DragAlong(s, Grab(shown, w, cx, cy), path);
      && r.buffer[w].x == shown[w].x
      && r.buffer[w].y == shown[w].y
      && r.buffer[w].width == s.buffer[w].width
      && r.buffer[w].height == s.buffer[w].height
  {
    DragAlongEnds(s, Grab(shown, w, cx, cy), path);
  }

  // ---------------------------------------------------------------- a worked scenario

  /** From the empty state, a reply mapping a new visible window at (0,0) with size
      500x500 queues the correction to (100,100), the new order and the border
      registration; the buffer keeps the reported (0,0). */
  lemma FirstWindowScenario()
    ensures
      var m := MapReply("w1", true, 0, 0, 500, 500);
      Run(Initial, [WindowMap(m)], []) == EngineState(
        map["w1" := WindowData("w1", true, 0, 0, 500, 500)],
        map["w1" := WindowData("w1", true, 0, 0, 500, 500)],
        ["w1"],
        {"w1"},
        [MapRequest("w1", 100, 100, 500, 500),
         ReorderRequest(["w1"]),
         RegisterBorderRequest("w1", 0, -20, 0, 0)])
  {
    var m := MapReply("w1", true, 0, 0, 500, 500);
    var w := WindowData("w1", true, 0, 0, 500, 500);
    var s1 := Correct(Initial, m);
    assert s1.queue == [MapRequest("w1", 100, 100, 500, 500)];
    var s2 := Store(s1, m);
    assert s2.buffer == s2.published == map["w1" := w];
    var s3 := Enlist(s2, "w1");
    assert s3.order == ["w1"];
    assert s3.queue == [MapRequest("w1", 100, 100, 500, 500), ReorderRequest(["w1"])];
    var s4 := Frame(s3, "w1");
    assert s4.frames == {"w1"};
    assert [WindowMap(m)][1..] == [];
    assert Run(Initial, [WindowMap(m)], []) == Run(s4, [], []);
  }
}
