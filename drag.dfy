/** The drag handlers `dragstarted`/`dragged`/`dragended`, identical in
    js/main.js and src/web/js/graph.js: a drag pins a node of the force
    simulation at a fixed position (`fx`, `fy`) and drag-end releases it.
    The simulation itself is left out; only the reheat/cool requests it
    receives are recorded. */
module Drag {
  import opened Wrappers

  /** The position fields the force simulation keeps on a node: where it is
      (`x`, `y`) and where it is pinned (`fx`, `fy`; `None` is JavaScript `null`). */
  datatype SimNode = SimNode(x: real, y: real, fx: Option<real>, fy: Option<real>)

  /** A d3-drag event; `active` is the number of other drag gestures in
      progress (`event.active`), and `px`, `py` the pointer (`event.x`, `event.y`). */
  datatype DragEvent =
    | DragStart(active: nat)
    | Dragged(px: real, py: real, active: nat)
    | DragEnd(active: nat)

  /** What the handlers ask of the simulation: its alpha target and how many
      times it was restarted. */
  datatype Simulation = Simulation(alphaTarget: real, restarts: nat)

  /** `simulation.alphaTarget(0.3)` on the first drag start. */
  const ReheatTarget: real := 0.3

  predicate IsPinned(n: SimNode) {
    n.fx.Some? && n.fy.Some?
  }

  predicate IsFree(n: SimNode) {
    n.fx.None? && n.fy.None?
  }

  /** The effect of one handler on the dragged node. */
  function Step(n: SimNode, e: DragEvent): (r: SimNode)
    ensures r.x == n.x && r.y == n.y
    ensures e.DragEnd? <==> IsFree(r)
  {
    match e
    case DragStart(_) => n.(fx := Some(n.x), fy := Some(n.y))
    case Dragged(px, py, _) => n.(fx := Some(px), fy := Some(py))
    case DragEnd(_) => n.(fx := None, fy := None)
  }

  /** The effect of one handler on the simulation: only a gesture that starts
      or ends while no other gesture is active reheats or cools it. */
  function Control(s: Simulation, e: DragEvent): (r: Simulation)
    ensures r.restarts == s.restarts + (if e.DragStart? && e.active == 0 then 1 else 0)
    ensures e.DragStart? && e.active == 0 ==> r.alphaTarget == ReheatTarget
    ensures e.DragEnd? && e.active == 0 ==> r.alphaTarget == 0.0
    ensures e.Dragged? || e.active != 0 ==> r.alphaTarget == s.alphaTarget
  {
    match e
    case DragStart(active) => if active == 0 then Simulation(ReheatTarget, s.restarts + 1) else s
    case Dragged(_, _, _) => s
    case DragEnd(active) => if active == 0 then s.(alphaTarget := 0.0) else s
  }

  /** The node after a sequence of events, in order. */
  function Run(n: SimNode, events: seq<DragEvent>): SimNode
    decreases |events|
  {
    if events == [] then n else Run(Step(n, events[0]), events[1..])
  }

  /** The simulation after a sequence of events, in order. */
  function RunControl(s: Simulation, events: seq<DragEvent>): Simulation
    decreases |events|
  {
    if events == [] then s else RunControl(Control(s, events[0]), events[1..])
  }

  lemma {:induction false} RunAppend(n: SimNode, a: seq<DragEvent>, b: seq<DragEvent>)
    ensures Run(n, a + b) == Run(Run(n, a), b)
    decreases |a|
  {
    if a == [] {
      assert a + b == b;
    } else {
      assert (a + b)[1..] == a[1..] + b;
      RunAppend(Step(n, a[0]), a[1..], b);
    }
  }

  lemma {:induction false} RunControlAppend(s: Simulation, a: seq<DragEvent>, b: seq<DragEvent>)
    ensures RunControl(s, a + b) == RunControl(RunControl(s, a), b)
    decreases |a|
  {
    if a == [] {
      assert a + b == b;
    } else {
      assert (a + b)[1..] == a[1..] + b;
      RunControlAppend(Control(s, a[0]), a[1..], b);
    }
  }

  /** Whatever came before, a drag-end leaves the node free: both pins cleared. */
  lemma EndReleases(n: SimNode, events: seq<DragEvent>, active: nat)
    ensures IsFree(Run(n, events + [DragEnd(active)]))
    ensures Run(n, events + [DragEnd(active)]).x == n.x && Run(n, events + [DragEnd(active)]).y == n.y
  {
    RunAppend(n, events, [DragEnd(active)]);
    RunKeepsPosition(n, events);
  }

  /** The handlers never move the node themselves; only the pins change. */
  lemma {:induction false} RunKeepsPosition(n: SimNode, events: seq<DragEvent>)
    ensures Run(n, events).x == n.x && Run(n, events).y == n.y
    decreases |events|
  {
    if events != [] {
      RunKeepsPosition(Step(n, events[0]), events[1..]);
    }
  }

  /** While a gesture lasts, the node stays pinned: once pinned, no sequence
      without a drag-end frees it. */
  lemma {:induction false} PinnedUntilEnd(n: SimNode, events: seq<DragEvent>)
    requires IsPinned(n)
    requires forall i :: 0 <= i < |events| ==> !events[i].DragEnd?
    ensures IsPinned(Run(n, events))
    decreases |events|
  {
    if events != [] {
      PinnedUntilEnd(Step(n, events[0]), events[1..]);
    }
  }

  /** A gesture in progress, a drag-start followed by drag moves, pins the node
      at the last pointer position, or where it was if the pointer has not moved. */
  lemma {:induction false} GesturePinsAtPointer(n: SimNode, active: nat, moves: seq<DragEvent>)
    requires forall i :: 0 <= i < |moves| ==> moves[i].Dragged?
    ensures var r := Run(n, [DragStart(active)] + moves);
      if moves == [] then r.fx == Some(n.x) && r.fy == Some(n.y)
      else r.fx == Some(moves[|moves| - 1].px) && r.fy == Some(moves[|moves| - 1].py)
    decreases |moves|
  {
    if moves != [] {
      var init := moves[..|moves| - 1];
      var last := moves[|moves| - 1];
      assert [DragStart(active)] + moves == ([DragStart(active)] + init) + [last];
      RunAppend(n, [DragStart(active)] + init, [last]);
      GesturePinsAtPointer(n, active, init);
    }
  }

  /** A lone gesture (no other gesture active at its start and end) restarts
      the simulation once and leaves its alpha target at 0: the layout cools
      down again after the node is released. */
  lemma LoneGestureCools(s: Simulation, moves: seq<DragEvent>)
    requires forall i :: 0 <= i < |moves| ==> moves[i].Dragged?
    ensures var r := RunControl(s, [DragStart(0)] + moves + [DragEnd(0)]);
      r.alphaTarget == 0.0 && r.restarts == s.restarts + 1
  {
    RunControlAppend(s, [DragStart(0)] + moves, [DragEnd(0)]);
    RunControlAppend(s, [DragStart(0)], moves);
    MovesKeepControl(Control(s, DragStart(0)), moves);
  }

  lemma {:induction false} MovesKeepControl(s: Simulation, moves: seq<DragEvent>)
    requires forall i :: 0 <= i < |moves| ==> moves[i].Dragged?
    ensures RunControl(s, moves) == s
    decreases |moves|
  {
    if moves != [] {
      MovesKeepControl(s, moves[1..]);
    }
  }
}
