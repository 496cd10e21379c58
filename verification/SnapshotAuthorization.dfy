/** The iterative lineage evaluator: an explicit-stack depth-first search with a memo of completed verdicts
    that lives across calls. */
module SnapshotAuthorization {
  import opened Options
  import opened Lineage

  /** One entry of the explicit stack; the sources are absent until the node's own checks have passed. */
  datatype Frame = Frame(node: Node, sources: Option<seq<NodeId>>, position: nat)

  ghost predicate Resolves(g: Snapshot, n: Node) {
    Lookup(g, n.id) == Found(n)
  }

  // ----- what the verdicts of an evaluator are true of -----

  /** The snapshot with the given record under its id. */
  function Overlaid(g: Snapshot, n: Node): Snapshot {
    g.(nodes := g.nodes[n.id := n], raising := g.raising - {n.id})
  }

  /** A record that is refused when it is met again on a path: it passes its own checks and has sources. */
  predicate HasLineage(n: Node) {
    OwnChecksPass(n) && n.sources != []
  }

  /** The snapshot as seen from a caller's path: its members count as denied, unless they have no sources. */
  function Guarded(g: Snapshot, callers: set<NodeId>): Snapshot {
    g.(nodes := map id | id in g.nodes ::
         if id in callers && HasLineage(g.nodes[id]) then g.nodes[id].(scope := OutOfScope) else g.nodes[id])
  }

  /** In the view `g` the callers' members with lineage are denied. */
  ghost predicate Guards(g: Snapshot, callers: set<NodeId>) {
    forall id | id in callers && Lookup(g, id).Found? :: !HasLineage(Lookup(g, id).node)
  }

  /** `n` is the record that the view `g` has under its id, up to its being denied as a caller's member. */
  ghost predicate Presents(g: Snapshot, callers: set<NodeId>, n: Node) {
    Resolves(g, n) || (n.id in callers && HasLineage(n) && Lookup(g, n.id) == Found(n.(scope := OutOfScope)))
  }

  lemma GuardedView(g: Snapshot, callers: set<NodeId>)
    requires Faithful(g)
    ensures Faithful(Guarded(g, callers)) && Guards(Guarded(g, callers), callers)
    ensures forall id ::
              match Lookup(g, id)
              case Raises => Lookup(Guarded(g, callers), id).Raises?
              case Absent => Lookup(Guarded(g, callers), id).Absent?
              case Found(n) => n.id == id && Presents(Guarded(g, callers), callers, n)
  {
  }

  lemma OverlaidView(g: Snapshot, n: Node)
    requires Faithful(g)
    ensures Faithful(Overlaid(g, n)) && Resolves(Overlaid(g, n), n)
    ensures forall id | id != n.id :: Lookup(Overlaid(g, n), id) == Lookup(g, id)
  {
  }

  /** The node's own checks have passed, and so have the sources before the position. */
  ghost predicate Opened(g: Snapshot, f: Frame) {
    && Resolves(g, f.node) && OwnChecksPass(f.node)
    && f.sources == Some(f.node.sources) && f.position <= |f.node.sources|
    && forall i | 0 <= i < f.position :: Allowed(g, f.node.sources[i])
  }

  /** An opened frame whose next source is `next`. */
  ghost predicate WaitsFor(g: Snapshot, f: Frame, next: NodeId) {
    Opened(g, f) && f.position < |f.node.sources| && f.node.sources[f.position] == next
  }

  /** Every frame of the path waits for the next one, and the last one for `next`. */
  ghost predicate Linked(g: Snapshot, path: seq<Frame>, next: NodeId)
    decreases |path|
  {
    path == [] || (var n := |path| - 1; WaitsFor(g, path[n], next) && Linked(g, path[..n], path[n].node.id))
  }

  ghost function Ids(path: seq<Frame>): set<NodeId> {
    if path == [] then {} else Ids(path[..|path| - 1]) + {path[|path| - 1].node.id}
  }

  ghost function IdsIfOpened(top: Frame): set<NodeId> {
    if top.sources.Some? then {top.node.id} else {}
  }

  // ----- what the path tells about verdicts -----

  lemma {:induction false} LinkedAt(g: Snapshot, path: seq<Frame>, next: NodeId, i: nat)
    requires Linked(g, path, next) && i < |path|
    ensures WaitsFor(g, path[i], if i + 1 < |path| then path[i + 1].node.id else next)
    decreases |path|
  {
    if i < |path| - 1 {
      LinkedAt(g, path[..|path| - 1], path[|path| - 1].node.id, i);
    }
  }

  lemma {:induction false} IdsAt(path: seq<Frame>, id: NodeId) returns (i: nat)
    requires id in Ids(path)
    ensures i < |path| && path[i].node.id == id
  {
    var n := |path| - 1;
    if path[n].node.id == id {
      i := n;
    } else {
      i := IdsAt(path[..n], id);
    }
  }

  /** A path that waits for one of its own members has closed a cycle: the member and the last frame are
      refused, for the reason the evaluator gives. */
  lemma ClosedPath(g: Snapshot, path: seq<Frame>, next: NodeId)
    requires Linked(g, path, next) && next in Ids(path)
    ensures TrueVerdict(g, next) == Verdict(false, "denied")
    ensures TrueVerdict(g, path[|path| - 1].node.id) == Verdict(false, "denied")
  {
    var j := IdsAt(path, next);
    var cycle := set i | j <= i < |path| :: path[i].node.id;
    forall x | x in cycle
      ensures BlockedInside(g, cycle, x)
    {
      var i :| j <= i < |path| && path[i].node.id == x;
      BlockedByNext(g, path, next, j, cycle, i);
    }
    CycleVerdict(g, cycle, next);
    assert path[|path| - 1].node.id in cycle;
    CycleVerdict(g, cycle, path[|path| - 1].node.id);
  }

  lemma BlockedByNext(g: Snapshot, path: seq<Frame>, next: NodeId, j: nat, cycle: set<NodeId>, i: nat)
    requires Linked(g, path, next) && j <= i < |path| && path[j].node.id == next
    requires cycle == set k | j <= k < |path| :: path[k].node.id
    ensures BlockedInside(g, cycle, path[i].node.id)
  {
    var successor := if i + 1 < |path| then path[i + 1].node.id else next;
    LinkedAt(g, path, next, i);
    assert successor in cycle;
    forall depth: nat {
      NotAllowedOnClosedPath(g, path, next, j, cycle, successor, depth);
    }
    assert !Allowed(g, successor);
    assert FirstBlocked(g, path[i].node.sources) == path[i].position;
  }

  lemma NotAllowedOnClosedPath(g: Snapshot, path: seq<Frame>, next: NodeId, j: nat, cycle: set<NodeId>, x: NodeId,
                               depth: nat)
    requires Linked(g, path, next) && j < |path| && path[j].node.id == next
    requires cycle == set k | j <= k < |path| :: path[k].node.id
    requires x in cycle
    ensures !AllowedWithin(g, x, depth)
  {
    forall y | y in cycle && Lookup(g, y).Found?
      ensures exists i :: 0 <= i < |Lookup(g, y).node.sources| && Lookup(g, y).node.sources[i] in cycle
    {
      var i :| j <= i < |path| && path[i].node.id == y;
      LinkedAt(g, path, next, i);
      assert (if i + 1 < |path| then path[i + 1].node.id else next) in cycle;
      assert Lookup(g, y).node.sources[path[i].position] in cycle;
    }
    CycleIsNotAllowed(g, cycle, x, depth);
  }

  lemma WaitingInheritsRefusal(g: Snapshot, f: Frame, next: NodeId)
    requires WaitsFor(g, f, next) && !TrueVerdict(g, next).allowed
    ensures TrueVerdict(g, f.node.id) == TrueVerdict(g, next)
  {
    InheritedVerdict(g, f.node.id, f.position);
  }

  lemma FinishedIsAllowed(g: Snapshot, f: Frame)
    requires Opened(g, f) && f.position == |f.node.sources|
    ensures TrueVerdict(g, f.node.id) == Verdict(true, "")
  {
    AllowedIsFixedPoint(g, f.node.id);
  }

  // ----- the search state: the frames under the top one, and the top frame -----

  ghost predicate VerdictsTrue(g: Snapshot, verdicts: map<NodeId, Verdict>) {
    forall id | id in verdicts :: verdicts[id] == TrueVerdict(g, id)
  }

  /** No id occurs twice on the path. */
  ghost predicate DistinctPath(path: seq<Frame>)
    decreases |path|
  {
    path == [] || (path[|path| - 1].node.id !in Ids(path[..|path| - 1]) && DistinctPath(path[..|path| - 1]))
  }

  /** The next source of the top frame has been refused, so the top frame will be too. */
  ghost predicate Unwinding(top: Frame, verdicts: map<NodeId, Verdict>) {
    && top.sources.Some? && top.position < |top.node.sources|
    && top.node.sources[top.position] in verdicts && !verdicts[top.node.sources[top.position]].allowed
  }

  /** The search in progress.  `repeated` says that an ancestor has been pushed a second time (only legacy
      mode does that); from then on frames are only popped, each one refused. */
  ghost predicate Searching(g: Snapshot, callers: set<NodeId>, path: seq<Frame>, top: Frame,
                            verdicts: map<NodeId, Verdict>, active: set<NodeId>, repeated: bool)
  {
    && Presents(g, callers, top.node)
    && (if top.sources.Some? then Opened(g, top) else top.position == 0 && top.node.id !in verdicts)
    && Linked(g, path, top.node.id)
    && (if repeated then
          Unwinding(top, verdicts) || (top.sources.None? && top.node.id in Ids(path) && top.node.id in active)
        else
          && top.node.id !in Ids(path) && DistinctPath(path)
          && IsActive(callers, path, top, verdicts, active))
  }

  /** Active are the ids of the path, and the caller's until they are decided. */
  ghost predicate IsActive(callers: set<NodeId>, path: seq<Frame>, top: Frame, verdicts: map<NodeId, Verdict>,
                           active: set<NodeId>)
  {
    && Ids(path) + IdsIfOpened(top) <= active <= Ids(path) + IdsIfOpened(top) + callers
    && callers - verdicts.Keys <= active
  }

  lemma {:induction false} LinkedIdsResolve(g: Snapshot, path: seq<Frame>, next: NodeId, id: NodeId)
    requires Linked(g, path, next) && id in Ids(path)
    ensures Lookup(g, id).Found? && OwnChecksPass(Lookup(g, id).node) && Lookup(g, id).node.sources != []
    ensures Faithful(g) ==> Lookup(g, id).node.id == id
  {
    var i := IdsAt(path, id);
    LinkedAt(g, path, next, i);
  }

  /** The ids that can still be pushed. */
  ghost function Unvisited(g: Snapshot, verdicts: map<NodeId, Verdict>, path: seq<Frame>, top: Frame): set<NodeId> {
    g.nodes.Keys - verdicts.Keys - Ids(path) - {top.node.id}
  }

  /** What is left to do in a frame, counting whether the next source's verdict is known. */
  ghost function Work(f: Frame, verdicts: map<NodeId, Verdict>): nat {
    if f.sources.None? || f.position > |f.node.sources| then 2 * |f.node.sources| + 2
    else
      2 * (|f.node.sources| - f.position)
      + if f.position < |f.node.sources| && f.node.sources[f.position] in verdicts then 0 else 1
  }

  // ----- the steps of the loop keep the state -----

  /** `complete`: the top frame's verdict is stored and the frame popped. */
  lemma CompleteStep(g: Snapshot, callers: set<NodeId>, path: seq<Frame>, top: Frame, verdicts: map<NodeId, Verdict>,
                     active: set<NodeId>, repeated: bool, v: Verdict)
    requires Searching(g, callers, path, top, verdicts, active, repeated) && VerdictsTrue(g, verdicts) && path != []
    requires v == TrueVerdict(g, top.node.id) && (repeated ==> !v.allowed)
    ensures var (id, n) := (top.node.id, |path| - 1);
            && Searching(g, callers, path[..n], path[n], verdicts[id := v], active - {id}, repeated)
            && Unvisited(g, verdicts[id := v], path[..n], path[n]) == Unvisited(g, verdicts, path, top)
  {
    assert WaitsFor(g, path[|path| - 1], top.node.id);
  }

  /** The reason `check` gives on the spot is the true one. */
  lemma RefusedOnTheSpot(g: Snapshot, callers: set<NodeId>, path: seq<Frame>, top: Frame,
                         verdicts: map<NodeId, Verdict>, active: set<NodeId>, repeated: bool)
    requires Searching(g, callers, path, top, verdicts, active, repeated) && Guards(g, callers) && top.sources.None?
    ensures top.node.scope == ScopeRaises ==> TrueVerdict(g, top.node.id) == Verdict(false, "lookup_error")
    ensures top.node.scope == OutOfScope ==> TrueVerdict(g, top.node.id) == Verdict(false, "denied")
    ensures top.node.scope == InScope && top.node.facts == FactsRaise ==>
              TrueVerdict(g, top.node.id) == Verdict(false, "lookup_error")
    ensures top.node.scope == InScope && top.node.facts == FactsChanged ==>
              TrueVerdict(g, top.node.id) == Verdict(false, "source_changed")
    ensures HasLineage(top.node) && top.node.id in active ==> TrueVerdict(g, top.node.id) == Verdict(false, "denied")
    ensures OwnChecksPass(top.node) && !(top.node.sources != [] && top.node.id in active) ==>
              !repeated && Resolves(g, top.node)
  {
    if DirectRefusal(g, top.node.id).Some? {
      DirectVerdict(g, top.node.id);
    } else if repeated {
      LinkedIdsResolve(g, path, top.node.id, top.node.id);
      ClosedPath(g, path, top.node.id);
    }
    if repeated {
      LinkedIdsResolve(g, path, top.node.id, top.node.id);
    }
  }

  /** The own checks of a first-time frame have passed: its sources are opened. */
  lemma OpenStep(g: Snapshot, callers: set<NodeId>, path: seq<Frame>, top: Frame, verdicts: map<NodeId, Verdict>,
                 active: set<NodeId>)
    requires Searching(g, callers, path, top, verdicts, active, false) && top.sources.None?
    requires Resolves(g, top.node) && OwnChecksPass(top.node)
    ensures var ready := Frame(top.node, Some(top.node.sources), top.position);
            && Searching(g, callers, path, ready, verdicts, active + {top.node.id}, false)
            && Work(ready, verdicts) < Work(top, verdicts)
  {
  }

  /** The next source is known to be allowed: the position moves past it. */
  lemma AdvanceStep(g: Snapshot, callers: set<NodeId>, path: seq<Frame>, top: Frame, verdicts: map<NodeId, Verdict>,
                    active: set<NodeId>, repeated: bool)
    requires Searching(g, callers, path, top, verdicts, active, repeated) && VerdictsTrue(g, verdicts)
    requires top.sources.Some? && top.position < |top.node.sources|
    requires var source := top.node.sources[top.position]; source in verdicts && verdicts[source].allowed
    ensures var moved := Frame(top.node, top.sources, top.position + 1);
            && Searching(g, callers, path, moved, verdicts, active, repeated)
            && Work(moved, verdicts) < Work(top, verdicts)
  {
    assert TrueVerdict(g, top.node.sources[top.position]).allowed;
  }

  /** The next source is absent: that is its verdict, and the top frame will consume it. */
  lemma AbsentStep(g: Snapshot, callers: set<NodeId>, path: seq<Frame>, top: Frame, verdicts: map<NodeId, Verdict>,
                   active: set<NodeId>, repeated: bool, source: NodeId)
    requires Searching(g, callers, path, top, verdicts, active, repeated) && VerdictsTrue(g, verdicts)
    requires WaitsFor(g, top, source) && source !in verdicts && Lookup(g, source).Absent?
    ensures var verdicts' := verdicts[source := Verdict(false, AbsenceReason(g, source))];
            && Searching(g, callers, path, top, verdicts', active, repeated) && VerdictsTrue(g, verdicts')
            && Unvisited(g, verdicts', path, top) <= Unvisited(g, verdicts, path, top)
            && Work(top, verdicts') < Work(top, verdicts)
            && source !in Ids(path) && source != top.node.id
  {
    DirectVerdict(g, source);
    if source in Ids(path) {
      LinkedIdsResolve(g, path, top.node.id, source);
    }
  }

  /** The next source is found and undecided: its own frame goes on the stack.  If it is an ancestor, the
      search has closed a cycle and can only unwind from here. */
  lemma PushStep(g: Snapshot, callers: set<NodeId>, path: seq<Frame>, top: Frame, verdicts: map<NodeId, Verdict>,
                 active: set<NodeId>, repeated: bool, source: Node)
    requires Searching(g, callers, path, top, verdicts, active, repeated) && Faithful(g)
    requires WaitsFor(g, top, source.id) && source.id !in verdicts && Presents(g, callers, source)
    ensures !repeated
    ensures var (pushed, frame) := (path + [top], Frame(source, None, 0));
            && Searching(g, callers, pushed, frame, verdicts, active, source.id in Ids(pushed))
            && Ids(pushed) == Ids(path) + {top.node.id}
            && (source.id !in Ids(pushed) ==> Unvisited(g, verdicts, pushed, frame) < Unvisited(g, verdicts, path, top))
  {
    Extend(g, path, top, source.id);
  }

  lemma Extend(g: Snapshot, path: seq<Frame>, top: Frame, next: NodeId)
    ensures Ids(path + [top]) == Ids(path) + {top.node.id}
    ensures DistinctPath(path + [top]) <==> top.node.id !in Ids(path) && DistinctPath(path)
    ensures Linked(g, path + [top], next) <==> WaitsFor(g, top, next) && Linked(g, path, top.node.id)
  {
    assert (path + [top])[..|path|] == path;
  }

  /** The next source is on the path already, which strict mode refuses without looking. */
  lemma CycleStep(g: Snapshot, callers: set<NodeId>, path: seq<Frame>, top: Frame, verdicts: map<NodeId, Verdict>,
                  active: set<NodeId>, source: NodeId)
    requires Searching(g, callers, path, top, verdicts, active, false)
    requires WaitsFor(g, top, source) && source in active && callers == {}
    ensures TrueVerdict(g, top.node.id) == Verdict(false, "denied")
  {
    Extend(g, path, top, source);
    ClosedPath(g, path + [top], source);
  }

  // ----- the evaluator -----

  function Top(stack: seq<Frame>): Frame
    requires stack != []
  {
    stack[|stack| - 1]
  }

  ghost function Remaining(g: Snapshot, verdicts: map<NodeId, Verdict>, stack: seq<Frame>): nat {
    |UnvisitedBy(g, verdicts, stack)|
  }

  lemma FewerIds(s: set<NodeId>, t: set<NodeId>)
    requires s <= t
    ensures |s| <= |t| && (s != t ==> |s| < |t|)
  {
    assert |t - s| == |t| - |s|;
    if s != t {
      var x :| x in t && x !in s;
      assert x in t - s;
    }
  }

  /** Lexicographic order on quadruples. */
  ghost predicate Earlier(a: (nat, nat, nat, nat), b: (nat, nat, nat, nat)) {
    a.0 < b.0 || (a.0 == b.0 && (a.1 < b.1 || (a.1 == b.1 && (a.2 < b.2 || (a.2 == b.2 && a.3 < b.3)))))
  }

  ghost function WorkOf(stack: seq<Frame>, verdicts: map<NodeId, Verdict>): nat {
    if stack == [] then 0 else Work(Top(stack), verdicts)
  }

  lemma TopIsLast(stack: seq<Frame>)
    requires stack != []
    ensures Top(stack) == stack[|stack| - 1]
  {
  }

  /** The frames under the top one. */
  ghost function Below(stack: seq<Frame>): seq<Frame>
    requires stack != []
  {
    stack[..|stack| - 1]
  }

  ghost predicate SearchingStack(g: Snapshot, callers: set<NodeId>, stack: seq<Frame>, verdicts: map<NodeId, Verdict>,
                                 active: set<NodeId>, repeated: bool)
  {
    && Faithful(g) && VerdictsTrue(g, verdicts)
    && (stack != [] ==> Searching(g, callers, Below(stack), Top(stack), verdicts, active, repeated))
  }

  ghost function UnvisitedBy(g: Snapshot, verdicts: map<NodeId, Verdict>, stack: seq<Frame>): set<NodeId> {
    if stack == [] then {} else Unvisited(g, verdicts, Below(stack), Top(stack))
  }

  lemma CompleteStack(g: Snapshot, callers: set<NodeId>, stack: seq<Frame>, verdicts: map<NodeId, Verdict>,
                      active: set<NodeId>, repeated: bool, v: Verdict)
    requires SearchingStack(g, callers, stack, verdicts, active, repeated) && stack != []
    requires v == TrueVerdict(g, Top(stack).node.id) && (repeated ==> !v.allowed)
    ensures var (id, rest) := (Top(stack).node.id, stack[..|stack| - 1]);
            && SearchingStack(g, callers, rest, verdicts[id := v], active - {id}, repeated)
            && UnvisitedBy(g, verdicts[id := v], rest) <= UnvisitedBy(g, verdicts, stack)
  {
    var rest := stack[..|stack| - 1];
    if rest != [] {
      CompleteStep(g, callers, Below(stack), Top(stack), verdicts, active, repeated, v);
      var below := Below(stack);
      assert below[..|below| - 1] == Below(rest) && below[|below| - 1] == Top(rest);
    }
  }

  lemma StartSearching(g: Snapshot, callers: set<NodeId>, node: Node, verdicts: map<NodeId, Verdict>)
    requires Faithful(g) && VerdictsTrue(g, verdicts) && Presents(g, callers, node) && node.id !in verdicts
    ensures var stack := [Frame(node, None, 0)];
            && SearchingStack(g, callers, stack, verdicts, callers, false)
            && Ids(stack) == {node.id} && OpenIds(stack) == {}
  {
    var stack := [Frame(node, None, 0)];
    assert stack[..0] == [];
  }

  lemma TopIsOpened(g: Snapshot, callers: set<NodeId>, stack: seq<Frame>, verdicts: map<NodeId, Verdict>,
                    active: set<NodeId>, repeated: bool)
    requires SearchingStack(g, callers, stack, verdicts, active, repeated) && stack != [] && Top(stack).sources.Some?
    ensures Opened(g, Top(stack)) && Top(stack).sources.value == Top(stack).node.sources
    ensures Top(stack).position <= |Top(stack).node.sources|
    ensures repeated ==> Unwinding(Top(stack), verdicts)
  {
  }

  /** Replacing the top frame. */
  lemma ReplaceTop(stack: seq<Frame>, top: Frame)
    requires stack != []
    ensures var stack' := stack[|stack| - 1 := top];
            && stack' != [] && Below(stack') == Below(stack)
            && Top(stack') == top && stack'[..|stack| - 1] == stack[..|stack| - 1]
  {
    assert stack[|stack| - 1 := top][..|stack| - 1] == stack[..|stack| - 1];
  }

  lemma PushOnStack(stack: seq<Frame>, top: Frame)
    requires stack != []
    ensures var stack' := stack + [top];
            && stack' != [] && Below(stack') == Below(stack) + [Top(stack)]
            && Top(stack') == top && stack'[..|stack|] == stack
  {
    assert (stack + [top])[..|stack|] == stack;
  }

  /** The ids on the stack whose own checks have passed. */
  ghost function OpenIds(stack: seq<Frame>): set<NodeId> {
    if stack == [] then {} else Ids(stack[..|stack| - 1]) + IdsIfOpened(Top(stack))
  }

  /** In strict mode every expanded id is decided or still open on the stack, and no id is both. */
  ghost predicate Accounted(expanded: set<NodeId>, verdicts: map<NodeId, Verdict>, stack: seq<Frame>) {
    expanded <= verdicts.Keys + OpenIds(stack) && Ids(stack) !! verdicts.Keys
  }

  lemma AccountedAfterComplete(expanded: set<NodeId>, verdicts: map<NodeId, Verdict>, stack: seq<Frame>, v: Verdict)
    requires stack != [] && Top(stack).node.id !in Ids(stack[..|stack| - 1]) && Ids(stack) !! verdicts.Keys
    requires expanded <= verdicts.Keys + OpenIds(stack) + {Top(stack).node.id}
    requires |stack| > 1 ==> Top(stack[..|stack| - 1]).sources.Some?
    ensures Accounted(expanded, verdicts[Top(stack).node.id := v], stack[..|stack| - 1])
  {
  }

  lemma TopIsNew(g: Snapshot, callers: set<NodeId>, stack: seq<Frame>, verdicts: map<NodeId, Verdict>,
                 active: set<NodeId>)
    requires stack != [] && Searching(g, callers, stack[..|stack| - 1], Top(stack), verdicts, active, false)
    ensures |stack| > 1 ==> Top(stack[..|stack| - 1]).sources.Some?
    ensures Top(stack).node.id !in Ids(stack[..|stack| - 1])
  {
    var below := stack[..|stack| - 1];
    if below != [] {
      LinkedAt(g, below, Top(stack).node.id, |below| - 1);
    }
  }

  /** In strict mode the frame about to be expanded has not been expanded before. */
  lemma FirstExpansion(g: Snapshot, callers: set<NodeId>, stack: seq<Frame>, verdicts: map<NodeId, Verdict>,
                       active: set<NodeId>, expanded: set<NodeId>)
    requires stack != [] && Searching(g, callers, stack[..|stack| - 1], Top(stack), verdicts, active, false)
    requires Accounted(expanded, verdicts, stack) && Top(stack).sources.None?
    ensures Top(stack).node.id !in expanded
  {
    TopIsNew(g, callers, stack, verdicts, active);
  }

  lemma {:induction false} BottomIsThere(stack: seq<Frame>)
    requires stack != []
    ensures stack[0].node.id in Ids(stack)
  {
    if |stack| > 1 {
      BottomIsThere(stack[..|stack| - 1]);
    }
  }

  class Evaluator {
    /** What the lookup returns. */
    const table: Snapshot
    /** Absent for the strict snapshot semantics; otherwise the ids the caller has on its own path. */
    const legacyPath: Option<set<NodeId>>
    var verdicts: map<NodeId, Verdict>
    /** The ids whose own checks have been run, and how often that happened. */
    ghost var expanded: set<NodeId>
    ghost var expansions: nat

    /** The snapshot that the verdicts are true of: the table, as seen from the caller's path; or, for a strict
        evaluator of one queried record that the lookup need not return, the table overlaid with that record. */
    ghost const view: Snapshot
    ghost const callers: set<NodeId>
    ghost const queried: Option<Node>

    ghost predicate Wired() {
      && Faithful(table)
      && (match legacyPath
          case None => callers == {} && view == if queried.None? then table else Overlaid(table, queried.value)
          case Some(ids) => callers == ids && view == Guarded(table, ids))
    }

    /** Every stored verdict is the true one, whatever search it was found in.  In strict mode there have
        been no more expansions than expanded ids, and all of these are decided. */
    ghost predicate Valid()
      reads this
    {
      && Wired() && VerdictsTrue(view, verdicts)
      && (legacyPath.None? ==> expansions == |expanded| && expanded <= verdicts.Keys)
    }

    constructor (table: Snapshot, legacyPath: Option<set<NodeId>>, ghost queried: Option<Node>)
      requires Faithful(table)
      ensures Valid() && this.table == table && this.legacyPath == legacyPath && this.queried == queried
      ensures verdicts == map[] && expanded == {}
    {
      this.table, this.legacyPath, this.queried := table, legacyPath, queried;
      verdicts, expanded, expansions := map[], {}, 0;
      callers := match legacyPath case None => {} case Some(ids) => ids;
      view := match legacyPath
        case None => if queried.None? then table else Overlaid(table, queried.value)
        case Some(ids) => Guarded(table, ids);
    }

    /** What may be checked: in legacy mode, and in a strict evaluator at large, what the lookup returns. */
    ghost predicate Checkable(node: Node) {
      if legacyPath.None? && queried.Some? then node == queried.value else Resolves(table, node)
    }

    /** The lookup returns what the view has, up to members of the caller's path; the queried record is not
        looked up. */
    lemma LookupAgrees(id: NodeId)
      requires Wired() && (legacyPath.None? && queried.Some? ==> id != queried.value.id)
      ensures Faithful(view) && Guards(view, callers) && view.failure == table.failure
      ensures match Lookup(table, id)
              case Raises => Lookup(view, id).Raises?
              case Absent => Lookup(view, id).Absent?
              case Found(n) => n.id == id && Presents(view, callers, n)
    {
      ViewIsSound();
      if legacyPath.Some? {
        GuardedView(table, callers);
      } else if queried.Some? {
        OverlaidView(table, queried.value);
      }
    }

    lemma ViewIsSound()
      requires Wired()
      ensures Faithful(view) && Guards(view, callers) && view.failure == table.failure
    {
      if legacyPath.Some? {
        GuardedView(table, callers);
      } else if queried.Some? {
        OverlaidView(table, queried.value);
      }
    }

    lemma CheckableIsPresented(node: Node)
      requires Wired() && Checkable(node)
      ensures Presents(view, callers, node)
    {
      if legacyPath.None? && queried.Some? {
        OverlaidView(table, queried.value);
      } else {
        LookupAgrees(node.id);
      }
    }

    /** The queried record is at the bottom of the stack. */
    ghost predicate Rooted(stack: seq<Frame>) {
      stack != [] && legacyPath.None? && queried.Some? ==> stack[0].node.id == queried.value.id
    }

    /** `check`: the verdict of a record, independent of the path on which its sources were met and of the
        calls before. */
    method Check(node: Node) returns (verdict: Verdict)
      requires Valid() && Checkable(node)
      modifies this
      ensures Valid() && verdict == TrueVerdict(view, node.id)
      ensures old(verdicts).Keys <= verdicts.Keys
    {
      hide Lineage.TrueVerdict;
      hide Lineage.Allowed;
      if node.id in verdicts {
        return verdicts[node.id];
      }
      var active: set<NodeId> := match legacyPath { case None => {} case Some(ids) => ids };
      ViewIsSound();
      CheckableIsPresented(node);
      StartSearching(view, callers, node, verdicts);
      verdict := Search(node, active);
    }

    /** The loop of `check`, from a stack with the record's own frame. */
    method Search(node: Node, active0: set<NodeId>) returns (verdict: Verdict)
      requires Wired() && Rooted([Frame(node, None, 0)])
      requires SearchingStack(view, callers, [Frame(node, None, 0)], verdicts, active0, false)
      requires legacyPath.None? ==>
                 && expansions == |expanded|
                 && Accounted(expanded, verdicts, [Frame(node, None, 0)])
      modifies this
      ensures Valid() && verdict == TrueVerdict(view, node.id)
      ensures old(verdicts).Keys <= verdicts.Keys
    {
      var stack, active := [Frame(node, None, 0)], active0;
      ghost var repeated := false;
      hide SearchingStack;
      hide Accounted;
      hide Measure;
      hide Valid;
      hide Ids;
      while stack != []
        invariant SearchingStack(view, callers, stack, verdicts, active, repeated) && Rooted(stack)
        invariant if stack == [] then node.id in verdicts else stack[0].node.id == node.id
        invariant old(verdicts).Keys <= verdicts.Keys
        invariant legacyPath.None? ==>
                    !repeated && expansions == |expanded| && Accounted(expanded, verdicts, stack)
        decreases Measure(stack, verdicts, repeated).0, Measure(stack, verdicts, repeated).1,
                  Measure(stack, verdicts, repeated).2, Measure(stack, verdicts, repeated).3
      {
        stack, active, repeated := Step(stack, active, repeated);
      }
      SearchIsOver(active, repeated);
      verdict := verdicts[node.id];
    }

    /** One iteration. */
    method Step(stack: seq<Frame>, active: set<NodeId>, ghost repeated: bool)
      returns (stack': seq<Frame>, active': set<NodeId>, ghost repeated': bool)
      requires Wired() && Rooted(stack)
      requires stack != [] && SearchingStack(view, callers, stack, verdicts, active, repeated)
      requires legacyPath.None? ==>
                 !repeated && expansions == |expanded| && Accounted(expanded, verdicts, stack)
      modifies this
      ensures SearchingStack(view, callers, stack', verdicts, active', repeated')
      ensures old(verdicts).Keys <= verdicts.Keys
      ensures if stack' == [] then stack[0].node.id in verdicts else stack'[0].node.id == stack[0].node.id
      ensures legacyPath.None? ==> !repeated' && expansions == |expanded| && Accounted(expanded, verdicts, stack')
      ensures Earlier(Measure(stack', verdicts, repeated'), Measure(stack, old(verdicts), repeated))
    {
      hide *;
      TopIsLast(stack);
      ghost var verdicts0 := verdicts;
      if stack[|stack| - 1].sources.None? {
        stack', active' := Expand(stack, active, repeated);
        repeated' := repeated;
      } else {
        stack', active', repeated' := Visit(stack, active, repeated);
      }
      ProgressDecreases(stack, verdicts0, repeated, stack', verdicts, repeated');
    }

    /** The termination measure of the loop. */
    ghost function Measure(stack: seq<Frame>, verdicts: map<NodeId, Verdict>, repeated: bool): (nat, nat, nat, nat) {
      (if repeated then 0 else 1, Remaining(view, verdicts, stack), |stack|, WorkOf(stack, verdicts))
    }

    lemma ProgressDecreases(stack: seq<Frame>, verdicts: map<NodeId, Verdict>, repeated: bool,
                            stack': seq<Frame>, verdicts': map<NodeId, Verdict>, repeated': bool)
      requires Progress(stack, verdicts, repeated, stack', verdicts', repeated')
      ensures Earlier(Measure(stack', verdicts', repeated'), Measure(stack, verdicts, repeated))
    {
      var u, u' := UnvisitedBy(view, verdicts, stack), UnvisitedBy(view, verdicts', stack');
      if u' <= u {
        FewerIds(u', u);
      }
    }

    lemma SearchIsOver(active: set<NodeId>, repeated: bool)
      requires Wired() && SearchingStack(view, callers, [], verdicts, active, repeated)
      requires legacyPath.None? ==> expansions == |expanded| && Accounted(expanded, verdicts, [])
      ensures Valid()
      ensures forall id | id in verdicts :: verdicts[id] == TrueVerdict(view, id)
    {
    }

    /** First visit of the top frame: its own checks. */
    method Expand(stack: seq<Frame>, active: set<NodeId>, ghost repeated: bool)
      returns (stack': seq<Frame>, active': set<NodeId>)
      requires Wired() && stack != [] && Top(stack).sources.None?
      requires SearchingStack(view, callers, stack, verdicts, active, repeated)
      requires legacyPath.None? ==>
                 !repeated && expansions == |expanded| && Accounted(expanded, verdicts, stack)
      modifies this
      ensures SearchingStack(view, callers, stack', verdicts, active', repeated)
      ensures old(verdicts).Keys <= verdicts.Keys
      ensures if stack' == [] then stack[0].node.id in verdicts else stack'[0].node.id == stack[0].node.id
      ensures legacyPath.None? ==> expansions == |expanded| && Accounted(expanded, verdicts, stack')
      ensures Progress(stack, old(verdicts), repeated, stack', verdicts, repeated)
    {
      hide Lineage.TrueVerdict;
      hide Lineage.Allowed;
      hide Searching;
      hide Progress;
      var last := |stack| - 1;
      var current := stack[last].node;
      if legacyPath.None? {
        FirstExpansion(view, callers, stack, verdicts, active, expanded);
      }
      expanded, expansions := expanded + {current.id}, expansions + 1;
      ViewIsSound();
      RefusedOnTheSpot(view, callers, Below(stack), Top(stack), verdicts, active, repeated);
      var refusal := Inspect(current, active);
      if refusal.Some? {
        ghost var still;
        stack', active', still := Complete(stack, active, repeated, Verdict(false, refusal.value));
      } else {
        stack', active' := Open(stack, active);
      }
    }

    method Open(stack: seq<Frame>, active: set<NodeId>)
      returns (stack': seq<Frame>, active': set<NodeId>)
      requires stack != [] && Top(stack).sources.None?
      requires OwnChecksPass(Top(stack).node) && Resolves(view, Top(stack).node)
      requires SearchingStack(view, callers, stack, verdicts, active, false)
      requires legacyPath.None? ==> StrictStack(stack)
      ensures SearchingStack(view, callers, stack', verdicts, active', false)
      ensures |stack'| == |stack| && stack'[0].node.id == stack[0].node.id
      ensures legacyPath.None? ==> Accounted(expanded, verdicts, stack')
      ensures Progress(stack, verdicts, false, stack', verdicts, false)
    {
      var Frame(current, _, position) := Top(stack);
      var ready := Frame(current, Some(current.sources), position);
      OpenStep(view, callers, Below(stack), Top(stack), verdicts, active);
      ReplaceTop(stack, ready);
      active' := active + {current.id};
      stack' := stack[|stack| - 1 := ready];
    }

    function Inspect(current: Node, active: set<NodeId>): Option<string> {
      if current.scope == ScopeRaises then Some("lookup_error")
      else if current.scope == OutOfScope then Some("denied")
      else if current.facts == FactsRaise then Some("lookup_error")
      else if current.facts == FactsChanged then Some("source_changed")
      else if current.sources != [] && current.id in active then Some("denied")
      else None
    }

    /** Later visits of the top frame: one source at a time. */
    method Visit(stack: seq<Frame>, active: set<NodeId>, ghost repeated: bool)
      returns (stack': seq<Frame>, active': set<NodeId>, ghost repeated': bool)
      requires Wired() && Rooted(stack) && stack != [] && Top(stack).sources.Some?
      requires SearchingStack(view, callers, stack, verdicts, active, repeated)
      requires legacyPath.None? ==>
                 !repeated && expansions == |expanded| && Accounted(expanded, verdicts, stack)
      modifies this`verdicts
      ensures SearchingStack(view, callers, stack', verdicts, active', repeated')
      ensures old(verdicts).Keys <= verdicts.Keys
      ensures if stack' == [] then stack[0].node.id in verdicts else stack'[0].node.id == stack[0].node.id
      ensures legacyPath.None? ==> !repeated' && Accounted(expanded, verdicts, stack')
      ensures Progress(stack, old(verdicts), repeated, stack', verdicts, repeated')
    {
      hide Lineage.TrueVerdict;
      hide Lineage.Allowed;
      TopIsOpened(view, callers, stack, verdicts, active, repeated);
      assert legacyPath.None? ==> StrictStack(stack);
      hide StrictStack;
      hide Searching;
      hide Opened;
      var Frame(current, opened_, position) := Top(stack);
      var sources, last := opened_.value, |stack| - 1;
      if position >= |sources| {
        FinishedIsAllowed(view, Top(stack));
        stack', active', repeated' := Complete(stack, active, repeated, Verdict(true, ""));
        return;
      }
      var source := sources[position];
      if source in verdicts {
        if !verdicts[source].allowed {
          WaitingInheritsRefusal(view, Top(stack), source);
          stack', active', repeated' := Complete(stack, active, repeated, verdicts[source]);
        } else {
          var moved := Frame(current, opened_, position + 1);
          AdvanceStep(view, callers, Below(stack), Top(stack), verdicts, active, repeated);
          ReplaceTop(stack, moved);
          stack', active', repeated' := stack[last := moved], active, repeated;
        }
        return;
      }
      stack', active', repeated' := Meet(stack, active, repeated, source);
    }

    /** The next source has no verdict yet: refuse a cycle, note an absence, or search it first. */
    method Meet(stack: seq<Frame>, active: set<NodeId>, ghost repeated: bool, source: NodeId)
      returns (stack': seq<Frame>, active': set<NodeId>, ghost repeated': bool)
      requires Wired() && Rooted(stack)
      requires stack != [] && WaitsFor(view, Top(stack), source) && source !in verdicts
      requires SearchingStack(view, callers, stack, verdicts, active, repeated) && !repeated
      requires legacyPath.None? ==> expansions == |expanded| && Accounted(expanded, verdicts, stack)
      modifies this`verdicts
      ensures SearchingStack(view, callers, stack', verdicts, active', repeated')
      ensures old(verdicts).Keys <= verdicts.Keys
      ensures if stack' == [] then stack[0].node.id in verdicts else stack'[0].node.id == stack[0].node.id
      ensures legacyPath.None? ==> !repeated' && Accounted(expanded, verdicts, stack')
      ensures Progress(stack, old(verdicts), repeated, stack', verdicts, repeated')
    {
      assert legacyPath.None? ==> StrictStack(stack);
      hide *;
      if source in active && legacyPath.None? {
        CycleStep(view, callers, Below(stack), Top(stack), verdicts, active, source);
        stack', active', repeated' := Complete(stack, active, repeated, Verdict(false, "denied"));
        return;
      }
      RootIsActive(stack, active);
      LookupAgrees(source);
      match Lookup(table, source) {
        case Raises =>
          RaisedSource(stack, source);
          stack', active', repeated' := Complete(stack, active, repeated, Verdict(false, "lookup_error"));
        case Absent =>
          NoteAbsence(stack, active, source);
          verdicts := verdicts[source := Verdict(false, AbsenceReason(table, source))];
          stack', active', repeated' := stack, active, repeated;
        case Found(node) =>
          SearchFirst(stack, active, node);
          stack', active', repeated' := stack + [Frame(node, None, 0)], active, source in Ids(stack);
      }
    }

    lemma RaisedSource(stack: seq<Frame>, source: NodeId)
      requires stack != [] && WaitsFor(view, Top(stack), source) && Lookup(view, source).Raises? && Faithful(view)
      ensures TrueVerdict(view, Top(stack).node.id) == Verdict(false, "lookup_error")
    {
      hide Lineage.TrueVerdict;
      DirectVerdict(view, source);
      WaitingInheritsRefusal(view, Top(stack), source);
    }

    /** While a source is waited for, the record at the bottom of the stack is active. */
    lemma RootIsActive(stack: seq<Frame>, active: set<NodeId>)
      requires stack != [] && Top(stack).sources.Some? && SearchingStack(view, callers, stack, verdicts, active, false)
      ensures stack[0].node.id in active
    {
      BottomIsThere(stack);
      if |stack| > 1 {
        BottomIsThere(stack[..|stack| - 1]);
      }
    }

    lemma NoteAbsence(stack: seq<Frame>, active: set<NodeId>, source: NodeId)
      requires stack != [] && WaitsFor(view, Top(stack), source) && source !in verdicts && Lookup(view, source).Absent?
      requires SearchingStack(view, callers, stack, verdicts, active, false)
      requires view.failure == table.failure
      ensures var verdicts' := verdicts[source := Verdict(false, AbsenceReason(table, source))];
              && SearchingStack(view, callers, stack, verdicts', active, false)
              && Progress(stack, verdicts, false, stack, verdicts', false)
              && (Accounted(expanded, verdicts, stack) ==> Accounted(expanded, verdicts', stack))
    {
      hide Lineage.TrueVerdict;
      hide Lineage.Allowed;
      AbsentStep(view, callers, Below(stack), Top(stack), verdicts, active, false, source);
    }

    lemma SearchFirst(stack: seq<Frame>, active: set<NodeId>, node: Node)
      requires stack != [] && WaitsFor(view, Top(stack), node.id) && node.id !in verdicts
      requires Presents(view, callers, node)
      requires SearchingStack(view, callers, stack, verdicts, active, false)
      ensures var stack' := stack + [Frame(node, None, 0)];
              && SearchingStack(view, callers, stack', verdicts, active, node.id in Ids(stack))
              && Progress(stack, verdicts, false, stack', verdicts, node.id in Ids(stack))
              && Ids(stack) <= active
              && (Accounted(expanded, verdicts, stack) ==> Accounted(expanded, verdicts, stack'))
    {
      hide Lineage.TrueVerdict;
      hide Lineage.Allowed;
      TopIsOpened(view, callers, stack, verdicts, active, false);
      PushStep(view, callers, Below(stack), Top(stack), verdicts, active, false, node);
      PushOnStack(stack, Frame(node, None, 0));
    }

    ghost predicate Progress(stack: seq<Frame>, verdicts: map<NodeId, Verdict>, repeated: bool,
                             stack': seq<Frame>, verdicts': map<NodeId, Verdict>, repeated': bool)
    {
      || (repeated' && !repeated)
      || (repeated' == repeated &&
          (var (u, u') := (UnvisitedBy(view, verdicts, stack), UnvisitedBy(view, verdicts', stack'));
           || u' < u
           || (u' <= u && (|stack'| < |stack| ||
                           (&& stack != [] && |stack'| == |stack|
                            && Work(Top(stack'), verdicts') < Work(Top(stack), verdicts))))))
    }

    /** What `complete` needs of the bookkeeping, while or after the top frame is expanded. */
    ghost predicate StrictStack(stack: seq<Frame>)
      requires stack != []
      reads this
    {
      Ids(stack) !! verdicts.Keys && expanded <= verdicts.Keys + OpenIds(stack) + {Top(stack).node.id}
    }

    /** `complete`: store the verdict, leave the active set, pop the frame. */
    method Complete(stack: seq<Frame>, active: set<NodeId>, ghost repeated: bool, v: Verdict)
      returns (stack': seq<Frame>, active': set<NodeId>, ghost repeated': bool)
      requires stack != [] && SearchingStack(view, callers, stack, verdicts, active, repeated)
      requires v == TrueVerdict(view, Top(stack).node.id) && (repeated ==> !v.allowed)
      requires legacyPath.None? ==> !repeated && StrictStack(stack)
      modifies this`verdicts
      ensures verdicts == old(verdicts)[Top(stack).node.id := v] && stack' == stack[..|stack| - 1]
      ensures repeated' == repeated
      ensures SearchingStack(view, callers, stack', verdicts, active', repeated)
      ensures Progress(stack, old(verdicts), repeated, stack', verdicts, repeated')
      ensures legacyPath.None? ==> Accounted(expanded, verdicts, stack')
    {
      CompleteStack(view, callers, stack, verdicts, active, repeated, v);
      if legacyPath.None? {
        TopIsNew(view, callers, stack, verdicts, active);
        AccountedAfterComplete(expanded, verdicts, stack, v);
      }
      verdicts := verdicts[Top(stack).node.id := v];
      active', stack', repeated' := active - {Top(stack).node.id}, stack[..|stack| - 1], repeated;
    }
  }
}
