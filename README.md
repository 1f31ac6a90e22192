# Window-mirror engine of the dreamland window-manager shell

This project is a Dafny model of the engine in `src/main.tsx`. The engine runs in the browser and mirrors windows that a host compositor owns. It keeps four pieces of state:

- the window buffer: a map from window id to `{window, visible, x, y, width, height}`;
- the stacking order: a sequence of ids, topmost last;
- the set of windows that already have a frame;
- the outbound message queue.

Every animation frame queues a `render_request` and sends the whole queue. The host answers with a batch of tagged segments. The reply handler empties the queue and applies the segments in order:

- `window_focus` raises a window;
- `render_reply` publishes the buffer;
- `mouse_move` is forwarded to the frames' mousemove listeners;
- `window_map` creates or merges a window record.

Each frame also runs a small drag session. Mousedown records the pointer offset and asks the host for focus. Mousemove with the button held moves the buffered window and asks the host to move it. Mouseup ends the session.

Files:

- `protocol.dfy` (module `Protocol`): the window record, the inbound segments, the outbound requests, and the constants `BORDER_WIDTH = 20` and the default placement `(100, 100)`.
- `stacking.dfy` (module `Stacking`): JavaScript's `indexOf` and `splice(i, 1)` written out, the focus update of the order, and the z-index `indexOf + 1`. It also has `Raise`, a reference definition of "move to top". For an id present in a duplicate-free order, the focus update is proved equal to it.
- `reconcile.dfy` (module `Reconcile`): the engine state as a value (`EngineState`) and one function per segment kind and per pointer event. `Step` handles one segment and `Run` handles a whole reply. `Outbound` builds the batch a tick sends.
- `properties.dfy` (module `Properties`): lemmas about those functions.
- `engine.dfy` (module `Engine`): the imperative model.
  - Class `WindowManager` has fields `buffer`, `published`, `order`, `frames` and `queue`. Its methods `Tick`, `ProcessReply`, `HandleSegment`, `FocusReply`, `RenderReply`, `MapReply` and `DispatchMouseMove` update those fields in place. Each method's postcondition ties the new state to the matching function of `Reconcile`.
  - Class `WindowFrame` has fields `mousedown`, `offsetX` and `offsetY`, with methods `MouseDown`, `MouseMove` and `MouseUp`.

Two features of the source are modelled explicitly:

- **`windows` and `window_buffer`.** The source assigns `state.windows = state.window_buffer`, so the two names refer to one object. The model keeps one buffer plus `published`: the value `windows` had at its last change notification. Notifications happen on `render_reply` and when a new window is stored. `published` is what the frames display, so mousedown takes its offset from it. Mousemove reads the window's width and height through the alias, that is from the live buffer.
- **The `window_reorder` payload.** The request the order listener queues holds the order array itself, not a copy. `Outbound` therefore serializes every reorder request with the order as it stands when the batch is sent.

Where the intended design and the code disagree, the model follows the code:

- A new window reported visible at (0,0) is stored at (0,0), not at the corrected (100,100). Only the correcting request is queued.
- A known window keeps its buffered x and y and takes the reported visibility, width and height. No corrective request is re-sent when the reported geometry differs from the buffered one.
- A `window_focus` for an id that is not in the order removes the last id of the order, because `splice(-1, 1)` removes the final element. A focus of an id that is absent but framed can therefore drop another window from the stacking order. `FocusAbsentDropsLast` and `FocusUnknownExample` state this.
- Nothing limits the engine to one round trip in flight. Every frame sends the current queue. The queue is emptied only when a reply arrives, which also discards anything queued after the request was sent. The failure callback does nothing, so after a failure the queue is sent again on the next frame.
- A frame's mousedown does not raise the window locally. It only queues a `window_focus` request, and the order changes when the host replies with `window_focus`.

## Model

| member | source | states |
|---|---|---|
| `Stacking.IndexOf` | src/main.tsx:193 | the result is -1 exactly when the id is absent; otherwise the id stands there and nowhere earlier |
| `Stacking.SpliceOne` | src/main.tsx:192-195 | `splice(i, 1)` removes at most one element and adds none; at a position inside the array it removes exactly that element, and at -1 it removes the last one |
| `Stacking.FocusOrder` | src/main.tsx:192-196 | the splice-at-`indexOf` and push puts the id last; the length is kept (an empty order becomes the id alone) and no id other than the focused one appears |
| `Stacking.Raise` | src/main.tsx:192-196 | reference definition of moving an id to the top: it ends last, and every other id is in the result exactly when it was in the input |
| `Stacking.ZIndex` | src/main.tsx:131 | the stacking index is 0 exactly when the window is not in the order; otherwise it is between 1 and the order's length and points at the window |
| `Stacking.ZIndexInjective` | src/main.tsx:131 | in a duplicate-free order, distinct windows get distinct stacking indices |
| `Stacking.FocusPresentIsRaise` | src/main.tsx:192-197 | for an id already in a duplicate-free order, the splice-and-push update equals the reference raise: drop the id, append it |
| `Stacking.FocusPresent` | src/main.tsx:192-197 | such an id ends up exactly once, at the tail; the length is unchanged; the other ids keep their relative order |
| `Stacking.FocusAbsentDropsLast` | src/main.tsx:192-196 | for an id not in the order, the last id is removed before the push (an empty order just becomes the id) |
| `Stacking.FocusUnknownExample` | src/main.tsx:192-196 | focusing "c" in ["a","b"] gives ["a","c"] |
| `Stacking.FocusKeepsNoDup` | src/main.tsx:192-197 | whatever id is focused, a duplicate-free order stays duplicate-free |
| `Stacking.FocusTwice` | src/main.tsx:192-197 | focusing the same id twice in a row equals focusing it once |
| `Stacking.FocusedOnTop` | src/main.tsx:131 | after a focus the focused window has the highest stacking index, above every other window in the order |
| `Reconcile.FocusWindow` | src/main.tsx:189-198 | a focus reply leaves buffer, published view and frames alone, puts the id on top, and queues one reorder request carrying the new order |
| `Reconcile.Publish` | src/main.tsx:199-201 | a render reply makes the published view equal the buffer and changes nothing else |
| `Reconcile.Correct` | src/main.tsx:214-228 | one request is added exactly when the window is unknown and reported visible at (0,0): a window_map for (100,100) with the reported size; nothing else changes |
| `Reconcile.Store` | src/main.tsx:230-249 | the window is in the buffer afterwards with the reported id, visibility and size; a known window keeps its buffered x and y, a new one takes the reported x and y; other entries are kept; the buffer is published only for a new window |
| `Reconcile.Enlist` | src/main.tsx:253-256 | the id ends up in the order, which changes exactly when the id was absent, by one append; a duplicate-free order stays duplicate-free; a changed order queues one reorder request carrying it |
| `Reconcile.Frame` | src/main.tsx:258-288 | the id joins the framed set; a border registration (0, -20, 0, 0) is queued, last, exactly when the id had no frame |
| `Reconcile.MapWindow` | src/main.tsx:211-291 | after a window_map reply the id is buffered, ordered and framed; the buffer gains only that id; the order and the queue are only extended |
| `Reconcile.PressFocus` | src/main.tsx:90-99 | mousedown queues one focus request for the frame's window and changes nothing else in the engine |
| `Reconcile.Grab` | src/main.tsx:90-99 | mousedown sets the flag, and the captured offsets added to the pointer give the position the frame shows |
| `Reconcile.Release` | src/main.tsx:100-102 | mouseup clears the flag and keeps the window and the offsets |
| `Reconcile.DragTo` | src/main.tsx:103-119 | a mousemove keeps the set of windows, the published view, the order and the frames, and only appends to the queue |
| `Reconcile.DragAll` | src/main.tsx:203-210 | the forwarded mousemove delivered to every frame keeps the same things and only appends to the queue |
| `Reconcile.Step` | src/main.tsx:188-291 | handling one segment never forgets a window and never removes a queued request |
| `Reconcile.Run` | src/main.tsx:188-292 | handling a whole reply never forgets a window and never removes a request queued during it |
| `Reconcile.Outbound` | src/main.tsx:165-182 | the sent batch has the queue's requests in order; every reorder request carries the order at send time and every other request is sent as queued |
| `Properties.MapWindowQueue` | src/main.tsx:211-291 | a window_map reply appends, in order: the correction (if any), the reorder (if the id was not in the order), the border registration (if the id had no frame) |
| `Properties.MapCorrection` | src/main.tsx:214-228 | exactly one window_map request, for (100,100) with the reported size, is queued iff the window was unknown and reported visible at (0,0); otherwise none is queued |
| `Properties.MapRegistersBorderOnce` | src/main.tsx:258-288 | a border registration (0, -20, 0, 0) is queued exactly when the window has no frame yet, as the last new request |
| `Properties.MapNewWindow` | src/main.tsx:230-239 | an unknown window is stored with exactly the reported fields, no other entry changes, and the buffer is published |
| `Properties.MapKnownWindow` | src/main.tsx:240-249 | a known window keeps its buffered x and y, takes the reported visibility, width and height; no other entry and not the published view changes |
| `Properties.MapOrder` | src/main.tsx:253-256 | after a window_map reply the id is in the order; it was appended iff absent; a duplicate-free order stays duplicate-free |
| `Properties.MapValid` | src/main.tsx:211-291 | a window_map reply keeps the state invariant (frames = buffered ids = published ids, records keyed by their id, order without duplicates) |
| `Properties.MapIdempotent` | src/main.tsx:211-291 | applying the same window_map reply twice equals applying it once, so the second queues nothing |
| `Properties.FocusValid` | src/main.tsx:189-198 | a focus reply keeps the state invariant |
| `Properties.DragAllValid` | src/main.tsx:203-210 | a forwarded mousemove keeps the state invariant |
| `Properties.StepValid` | src/main.tsx:188-291 | every segment kind keeps the state invariant |
| `Properties.RunValid` | src/main.tsx:188-292 | a whole reply keeps the state invariant |
| `Properties.RunConcat` | src/main.tsx:188 | segments are handled in array order: a batch is its first part followed by the rest |
| `Properties.RunUnhandled` | src/main.tsx:188-291 | a batch of segments with unhandled tags changes nothing |
| `Properties.OrderChangeAnnounced` | src/main.tsx:165-170 | whenever a segment changes the order, the requests it queues include a reorder request carrying the whole new order |
| `Properties.DragAlongEnds` | src/main.tsx:103-119 | while the button is down, after any run of moves the window sits at the last pointer position plus the offset with size and visibility kept, no other window changed, and one window_map request per move was queued, in order, each for its own pointer position plus the offset with the window's size; the earlier queue is kept as a prefix |
| `Properties.ReleasedDragIsInert` | src/main.tsx:100-104 | after mouseup, mousemoves change nothing |
| `Properties.DragBackRestores` | src/main.tsx:90-116 | mousedown at a point followed by a drag ending at that point puts the window back at the position the frame showed at mousedown, with its size |
| `Properties.FirstWindowScenario` | src/main.tsx:211-291 | from the empty state, mapping w1 visible at (0,0) 500x500 queues the (100,100) correction, the order ["w1"] and the border registration, and stores w1 at (0,0) |
| `Engine.WindowManager.constructor` | src/main.tsx:150-163 | the engine starts with an empty buffer, published view, order, frames and queue |
| `Engine.WindowManager.Tick` | src/main.tsx:173-182 | a tick appends one render request, changes nothing else, and sends the whole queue as `Outbound` serializes it |
| `Engine.WindowManager.FocusReply` | src/main.tsx:189-198 | the in-place splice and push produce `FocusWindow` of the old state and keep the invariant |
| `Engine.WindowManager.RenderReply` | src/main.tsx:199-201 | the assignment produces `Publish` of the old state, touching only the published view |
| `Engine.WindowManager.MapReply` | src/main.tsx:211-291 | the four in-place blocks produce `MapWindow` of the old state and keep the invariant |
| `Engine.WindowManager.DispatchMouseMove` | src/main.tsx:203-210 | delivering a pointer move to every mounted frame in turn produces `DragAll` of the old state over their sessions |
| `Engine.WindowManager.HandleSegment` | src/main.tsx:188-291 | one pass of the loop body produces `Step` of the old state |
| `Engine.WindowManager.ProcessReply` | src/main.tsx:183-293 | a reply empties the queue and then the loop produces `Run` over the segments from that state, so the queue afterwards holds only requests generated by this reply; the invariant is kept |
| `Engine.WindowFrame.constructor` | src/main.tsx:86-88 | a mounted frame starts with the button up and both offsets 0 |
| `Engine.WindowFrame.MouseDown` | src/main.tsx:90-99 | mousedown sets the flag, records the offsets from the pointer to the displayed position, and queues one focus request |
| `Engine.WindowFrame.MouseUp` | src/main.tsx:100-102 | mouseup clears the flag and leaves the offsets; every frame has its own document listener, so a caller calls this on each mounted frame |
| `Engine.WindowFrame.MouseMove` | src/main.tsx:103-119 | mousemove produces `DragTo` of the old state for this frame's session |

## Left out

- The host bridge (`window.cefQuery`), `JSON.stringify` and `JSON.parse`, and `requestAnimationFrame` are I/O and scheduling. `ProcessReply` takes already-parsed segments. `Tick` returns the batch instead of sending it. Who calls `Tick` and when is up to the caller.
- The `elapsed` timestamp, the `start` bookkeeping and the console logging are timing and diagnostics. Only the one `render_request` queued per tick is modelled.
- Overlapping round trips are left out. The model does not track which batches are in flight; a caller may interleave `Tick` and `ProcessReply` in any order.
- The failure callback is empty, so it has no method. Its only effect is that the queue is kept, which the model shows because nothing but `ProcessReply` empties the queue.
- The synthetic `MouseEvent` built for a `mouse_move` segment is DOM forwarding. It is modelled as a call to `MouseMove` on each frame passed to `ProcessReply`, in that order. The `App` component's own mousemove listener is presentation and is left out.
- The reactive library (`use(...).map`, `.listen`, assign-to-self notification) is not modelled. Assigning `window_order` to itself is taken to notify the listener once, so it queues one reorder request. Assigning `windows` is taken to publish the buffer.
- Frame instantiation: `window_frames` is modelled as the set of ids that have a frame. The JSX element, its reactive props and its mounting are presentation. `WindowFrame` objects are constructed by the caller, for windows already in the buffer.
- JSX rendering, CSS, the title-bar markup and its buttons, the `App` component and the contextmenu handler are presentation.
- Coordinates are JavaScript numbers; the model uses unbounded integers, so fractional pointer positions are not modelled.
- Window ids are modelled as plain map keys. The source tests `window_buffer[id]` and `window_frames[id]` on plain JavaScript objects, so an id naming an inherited `Object.prototype` property (`constructor`, `toString`, `__proto__`) already looks known the first time it is seen: the source queues no correction, takes the known-window branch with an undefined `x`, creates no frame and queues no border registration. `Correct`, `Store` and `Frame` treat such an id as new.
- The `.listen` callback on `window_order` is assumed to run synchronously inside the self-assignment. The order of the requests a window_map reply queues (correction, reorder, border registration) that `MapWindowQueue` states depends on that assumption.
- Inbound tags the loop does not handle (`window_close`, `window_icon`, `mouse_press`, `reload`, ...) are one `Unhandled` segment. The loop ignores them, and so does the model.
