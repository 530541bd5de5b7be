/** The cancellation tree of src/context/context.go: registration, lazily made
    done channels, once-only errors and causes, timers and after-funcs.  Contexts
    are numbered in creation order. */
module Context {
  import opened Basics

  type Id = nat

  datatype Error = Canceled | DeadlineExceeded | Custom(code: nat)

  datatype Kind = Background | ValueCtx(key: nat, val: int) | WithoutCancel | CancelCtx | TimerCtx | AfterFuncCtx

  /** What never changes about a context: its type and its parent. */
  datatype Link = Link(kind: Kind, parent: Id)

  /** The done field: not made yet, a channel of its own that is open or closed,
      or the one shared closed channel. */
  datatype Done = NilDone | OpenDone | ClosedDone | SharedClosed

  /** The once of an after-func: unused, spent running f, or spent stopping it. */
  datatype Once = Unused | Ran | Stopped

  /** The mutable fields of a cancellable context; pending marks one whose
      creation is between looking at its parent and registering with it. */
  datatype Node = Node(
    err: Option<Error>,
    cause: Option<Error>,
    done: Done,
    children: set<Id>,
    pending: bool,
    timer: bool,
    once: Once)

  /** A top-level call of a cancel function. */
  datatype Event = Event(target: Id, err: Error, cause: Error)

  datatype Outcome = Alive | Dead(err: Error, cause: Error)

  datatype Forest = Forest(tree: seq<Link>, nodes: seq<Node>, log: seq<Event>)

  // ----- the shape of the tree

  predicate Cancellable(k: Kind) { k.CancelCtx? || k.TimerCtx? || k.AfterFuncCtx? }

  ghost predicate WellFormed(tree: seq<Link>) {
    forall i | 0 <= i < |tree| && !tree[i].kind.Background? :: tree[i].parent < i
  }

  /** The cancellable context whose done channel is the context's own: values look
      through to their parent, a WithoutCancel hides everything above it. */
  function Nearest(tree: seq<Link>, c: Id): (p: Option<Id>)
    requires c < |tree| && WellFormed(tree)
    ensures p.Some? ==> p.value <= c && Cancellable(tree[p.value].kind)
    decreases c
  {
    var l := tree[c];
    if Cancellable(l.kind) then Some(c)
    else if l.kind.ValueCtx? then Nearest(tree, l.parent)
    else None
  }

  /** The context a cancellable context registers with. */
  function Owner(tree: seq<Link>, c: Id): (p: Option<Id>)
    requires c < |tree| && WellFormed(tree) && Cancellable(tree[c].kind)
    ensures p.Some? ==> p.value < c && Cancellable(tree[p.value].kind)
  {
    Nearest(tree, tree[c].parent)
  }

  /** The value a context carries under a key: that of the nearest value context on the way up, which no
      WithoutCancel hides. */
  function Lookup(tree: seq<Link>, c: Id, key: nat): Option<int>
    requires c < |tree| && WellFormed(tree)
    decreases c
  {
    match tree[c].kind
    case Background => None
    case ValueCtx(k, val) => if k == key then Some(val) else Lookup(tree, tree[c].parent, key)
    case _ => Lookup(tree, tree[c].parent, key)
  }

  /** The way up from a context. */
  function Ancestry(tree: seq<Link>, c: Id): (path: seq<Id>)
    requires c < |tree| && WellFormed(tree)
    ensures path != [] && path[0] == c && forall i :: 0 <= i < |path| ==> path[i] <= c
    decreases c
  {
    if tree[c].kind.Background? then [c] else [c] + Ancestry(tree, tree[c].parent)
  }

  predicate Carries(k: Kind, key: nat) { k.ValueCtx? && k.key == key }

  /** The first context on the path that carries the key is the i-th, with that value. */
  predicate FirstAt(tree: seq<Link>, path: seq<Id>, key: nat, val: int, i: nat)
    requires forall k :: 0 <= k < |path| ==> path[k] < |tree|
  {
    i < |path| && tree[path[i]].kind == ValueCtx(key, val) && NoneCarries(tree, path[..i], key)
  }

  predicate NoneCarries(tree: seq<Link>, path: seq<Id>, key: nat)
    requires forall k :: 0 <= k < |path| ==> path[k] < |tree|
  {
    forall k :: 0 <= k < |path| ==> !Carries(tree[path[k]].kind, key)
  }

  /** v is what the first context on the path that carries the key holds, or there is no such context. */
  ghost predicate IsNearestValue(tree: seq<Link>, path: seq<Id>, key: nat, v: Option<int>)
    requires forall k :: 0 <= k < |path| ==> path[k] < |tree|
  {
    if v.None? then NoneCarries(tree, path, key) else exists i: nat :: FirstAt(tree, path, key, v.value, i)
  }

  /** A lookup finds the first context on the way up that carries the key, past any WithoutCancel. */
  lemma {:induction false} LookupIsNearest(tree: seq<Link>, c: Id, key: nat)
    requires c < |tree| && WellFormed(tree)
    ensures IsNearestValue(tree, Ancestry(tree, c), key, Lookup(tree, c, key))
    decreases c
  {
    var path, v := Ancestry(tree, c), Lookup(tree, c, key);
    if Carries(tree[c].kind, key) {
      assert FirstAt(tree, path, key, v.value, 0);
    } else if !tree[c].kind.Background? {
      var up := Ancestry(tree, tree[c].parent);
      LookupIsNearest(tree, tree[c].parent, key);
      assert path == [c] + up;
      if v.Some? {
        var i: nat :| FirstAt(tree, up, key, v.value, i);
        assert path[..i + 1] == [c] + up[..i] && path[i + 1] == up[i];
        assert FirstAt(tree, path, key, v.value, i + 1);
      }
    }
    assert IsNearestValue(tree, path, key, v);
  }

  lemma {:induction false} LookupExtends(tree: seq<Link>, l: Link, c: Id, key: nat)
    requires WellFormed(tree) && WellFormed(tree + [l]) && c < |tree|
    ensures Lookup(tree + [l], c, key) == Lookup(tree, c, key)
    decreases c
  {
    if !tree[c].kind.Background? && !Carries(tree[c].kind, key) {
      LookupExtends(tree, l, tree[c].parent, key);
    }
  }

  /** The context and every context whose cancellation reaches it. */
  function Chain(tree: seq<Link>, c: Id): (s: set<Id>)
    requires c < |tree| && WellFormed(tree) && Cancellable(tree[c].kind)
    ensures c in s && forall x | x in s :: x <= c
    decreases c
  {
    var p := Owner(tree, c);
    if p.None? then {c} else {c} + Chain(tree, p.value)
  }

  /** c is the i-th context on the path, and no context before it is a WithoutCancel. */
  predicate ClearTo(tree: seq<Link>, path: seq<Id>, c: Id, i: nat)
    requires forall k :: 0 <= k < |path| ==> path[k] < |tree|
  {
    i < |path| && path[i] == c && forall j :: 0 <= j < i ==> !tree[path[j]].kind.WithoutCancel?
  }

  /** c can be cancelled and is k or above it, with no WithoutCancel on the way. */
  ghost predicate Above(tree: seq<Link>, c: Id, k: Id)
    requires c < |tree| && k < |tree| && WellFormed(tree)
  {
    Cancellable(tree[c].kind) && exists i: nat :: ClearTo(tree, Ancestry(tree, k), c, i)
  }

  lemma ClearFromParent(tree: seq<Link>, c: Id, k: Id)
    requires c < |tree| && k < |tree| && WellFormed(tree) && !tree[k].kind.Background? && c != k
    ensures Above(tree, c, k) <==> !tree[k].kind.WithoutCancel? && Above(tree, c, tree[k].parent)
  {
    var path, up := Ancestry(tree, k), Ancestry(tree, tree[k].parent);
    assert path == [k] + up;
    if i: nat :| ClearTo(tree, path, c, i) {
      assert forall j :: 0 <= j < i - 1 ==> up[j] == path[j + 1];
      assert tree[path[0]].kind == tree[k].kind;
      assert ClearTo(tree, up, c, i - 1);
    }
    if i: nat :| ClearTo(tree, up, c, i) {
      assert !tree[k].kind.WithoutCancel? ==> ClearTo(tree, path, c, i + 1);
    }
  }

  /** What a cancel of c reaches is what stands below c on the way up. */
  lemma {:induction false} AboveIsNearest(tree: seq<Link>, c: Id, k: Id)
    requires c < |tree| && k < |tree| && WellFormed(tree)
    ensures Above(tree, c, k) <==> Nearest(tree, k).Some? && c in Chain(tree, Nearest(tree, k).value)
    decreases k
  {
    if c == k {
      assert ClearTo(tree, Ancestry(tree, c), c, 0);
    } else if !tree[k].kind.Background? {
      hide Above;
      ClearFromParent(tree, c, k);
      AboveIsNearest(tree, c, tree[k].parent);
    }
  }

  lemma ChainIsAbove(tree: seq<Link>, c: Id, k: Id)
    requires c < |tree| && k < |tree| && WellFormed(tree) && Cancellable(tree[k].kind)
    ensures c in Chain(tree, k) <==> Above(tree, c, k)
  {
    hide Above, Chain;
    AboveIsNearest(tree, c, k);
  }

  /** p is the i-th context on the path and those before it are value contexts. */
  predicate PastValues(tree: seq<Link>, path: seq<Id>, p: Id, i: nat)
    requires forall k :: 0 <= k < |path| ==> path[k] < |tree|
  {
    i < |path| && path[i] == p && forall j :: 0 <= j < i ==> tree[path[j]].kind.ValueCtx?
  }

  /** p is k or is reached from it through value contexts only. */
  ghost predicate BeyondValues(tree: seq<Link>, k: Id, p: Id)
    requires k < |tree| && WellFormed(tree)
  {
    exists i: nat :: PastValues(tree, Ancestry(tree, k), p, i)
  }

  lemma BeyondOneMore(tree: seq<Link>, k: Id, p: Id)
    requires k < |tree| && WellFormed(tree) && tree[k].kind.ValueCtx? && p != k
    ensures BeyondValues(tree, k, p) <==> BeyondValues(tree, tree[k].parent, p)
  {
    var path, up := Ancestry(tree, k), Ancestry(tree, tree[k].parent);
    assert path == [k] + up;
    if i: nat :| PastValues(tree, path, p, i) {
      assert forall j :: 0 <= j < i - 1 ==> up[j] == path[j + 1];
      assert PastValues(tree, up, p, i - 1);
    }
    if i: nat :| PastValues(tree, up, p, i) {
      assert PastValues(tree, path, p, i + 1);
    }
  }

  /** The nearest cancellable context is found past value contexts and nothing else. */
  lemma {:induction false} NearestIsFirst(tree: seq<Link>, k: Id, p: Id)
    requires k < |tree| && p < |tree| && WellFormed(tree)
    ensures Nearest(tree, k) == Some(p) <==> Cancellable(tree[p].kind) && BeyondValues(tree, k, p)
    decreases k
  {
    if p == k {
      assert PastValues(tree, Ancestry(tree, k), k, 0);
    } else if tree[k].kind.ValueCtx? {
      hide BeyondValues;
      BeyondOneMore(tree, k, p);
      NearestIsFirst(tree, tree[k].parent, p);
    } else {
      assert Ancestry(tree, k)[0] == k;
    }
  }

  /** What the earliest logged cancel among the targets decided. */
  function Earliest(log: seq<Event>, targets: set<Id>): Outcome {
    if log == [] then Alive
    else if log[0].target in targets then Dead(log[0].err, log[0].cause)
    else Earliest(log[1..], targets)
  }

  lemma {:induction false} EarliestAppend(log: seq<Event>, e: Event, targets: set<Id>)
    ensures Earliest(log + [e], targets) ==
            if Earliest(log, targets).Dead? then Earliest(log, targets)
            else if e.target in targets then Dead(e.err, e.cause) else Alive
  {
    if log != [] {
      assert (log + [e])[1..] == log[1..] + [e];
      EarliestAppend(log[1..], e, targets);
    }
  }

  /** The i-th event is the first that names one of the targets. */
  ghost predicate FirstNamed(log: seq<Event>, targets: set<Id>, i: nat) {
    i < |log| && log[i].target in targets && forall j :: 0 <= j < i ==> log[j].target !in targets
  }

  lemma {:induction false} EarliestIsFirst(log: seq<Event>, targets: set<Id>)
    ensures Earliest(log, targets).Alive? ==> forall i :: 0 <= i < |log| ==> log[i].target !in targets
    ensures forall i: nat :: FirstNamed(log, targets, i) ==> Earliest(log, targets) == Dead(log[i].err, log[i].cause)
    ensures Earliest(log, targets).Dead? ==> exists i: nat :: FirstNamed(log, targets, i)
  {
    if log != [] {
      if log[0].target in targets {
        assert FirstNamed(log, targets, 0);
      } else {
        EarliestIsFirst(log[1..], targets);
        forall i: nat | FirstNamed(log, targets, i) ensures Earliest(log, targets) == Dead(log[i].err, log[i].cause) {
          assert forall j :: 0 <= j < i - 1 ==> log[1..][j] == log[j + 1];
          assert FirstNamed(log[1..], targets, i - 1);
        }
        if i: nat :| FirstNamed(log[1..], targets, i) {
          assert forall j :: 0 < j < i + 1 ==> log[j] == log[1..][j - 1];
          assert FirstNamed(log, targets, i + 1);
        }
      }
    }
  }

  /** A target no event names changes nothing. */
  lemma {:induction false} EarliestExtra(log: seq<Event>, c: Id, targets: set<Id>)
    requires forall i | 0 <= i < |log| :: log[i].target != c
    ensures Earliest(log, {c} + targets) == Earliest(log, targets)
  {
    if log != [] {
      assert forall i | 0 <= i < |log[1..]| :: log[1..][i] == log[i + 1];
      EarliestExtra(log[1..], c, targets);
    }
  }

  lemma {:induction false} EarliestMonotone(log: seq<Event>, small: set<Id>, large: set<Id>)
    requires small <= large
    ensures Earliest(log, small).Dead? ==> Earliest(log, large).Dead?
  {
    if log != [] {
      EarliestMonotone(log[1..], small, large);
    }
  }

  /** Adding contexts does not change the shape of the old ones. */
  lemma {:induction false} NearestExtends(tree: seq<Link>, l: Link, c: Id)
    requires WellFormed(tree) && WellFormed(tree + [l]) && c < |tree|
    ensures Nearest(tree + [l], c) == Nearest(tree, c)
    decreases c
  {
    if tree[c].kind.ValueCtx? { NearestExtends(tree, l, tree[c].parent); }
  }

  lemma {:induction false} ChainExtends(tree: seq<Link>, l: Link, c: Id)
    requires WellFormed(tree) && WellFormed(tree + [l]) && c < |tree| && Cancellable(tree[c].kind)
    ensures Owner(tree + [l], c) == Owner(tree, c) && Chain(tree + [l], c) == Chain(tree, c)
    decreases c
  {
    NearestExtends(tree, l, tree[c].parent);
    var p := Owner(tree, c);
    if p.Some? { ChainExtends(tree, l, p.value); }
  }

  // ----- cancelling a subtree

  /** k is registered with its owner, and the owner has not been cancelled. */
  predicate Registered(tree: seq<Link>, nodes: seq<Node>, k: Id)
    requires WellFormed(tree) && |tree| == |nodes| && k < |tree| && Cancellable(tree[k].kind)
  {
    var p := Owner(tree, k);
    p.Some? && nodes[p.value].err.None? && k in nodes[p.value].children
  }

  /** k is one of the tops or hangs below one through registrations with live
      contexts. */
  predicate Below(tree: seq<Link>, nodes: seq<Node>, tops: set<Id>, k: Id)
    requires WellFormed(tree) && |tree| == |nodes| && k < |tree|
    decreases k
  {
    Cancellable(tree[k].kind) &&
    (k in tops || (Registered(tree, nodes, k) && Below(tree, nodes, tops, Owner(tree, k).value)))
  }

  function Cancelled(kind: Kind, n: Node, err: Error, cause: Error): Node {
    Node(Some(err), Some(cause), if n.done.OpenDone? then ClosedDone else SharedClosed, {}, n.pending, false,
         if kind.AfterFuncCtx? && n.once.Unused? then Ran else n.once)
  }

  function CancelSubtree(tree: seq<Link>, nodes: seq<Node>, c: Id, err: Error, cause: Error): (nodes': seq<Node>)
    requires WellFormed(tree) && |tree| == |nodes|
    ensures |nodes'| == |nodes|
  {
    seq(|nodes|, k requires 0 <= k < |nodes| =>
      if Below(tree, nodes, {c}, k) && nodes[k].err.None? then Cancelled(tree[k].kind, nodes[k], err, cause) else nodes[k])
  }

  /** The lazily made channel. */
  function EnsureDone(nodes: seq<Node>, p: Id): (nodes': seq<Node>)
    requires p < |nodes|
    ensures |nodes'| == |nodes|
  {
    if nodes[p].done.NilDone? then nodes[p := nodes[p].(done := OpenDone)] else nodes
  }

  /** removeChild: nothing to do when the owner is the shared closed channel. */
  function RemoveFromOwner(tree: seq<Link>, nodes: seq<Node>, c: Id): (nodes': seq<Node>)
    requires WellFormed(tree) && |tree| == |nodes| && c < |tree| && Cancellable(tree[c].kind)
    ensures |nodes'| == |nodes|
  {
    var p := Owner(tree, c);
    if p.None? then nodes
    else
      var made := EnsureDone(nodes, p.value);
      if made[p.value].done.SharedClosed? then made
      else made[p.value := made[p.value].(children := made[p.value].children - {c})]
  }

  // ----- the steps

  datatype Action =
    | NewValue(parent: Id, key: nat, val: int)
    | NewWithoutCancel(parent: Id)
    | Begin(parent: Id, kind: Kind)           // propagateCancel up to its select
    | Register(id: Id)                        // the rest of it, under the owner's mutex
    | Cancel(id: Id, remove: bool, err: Error, cause: Option<Error>)
    | StartTimer(id: Id)
    | Stop(id: Id)                            // the stop function of an AfterFunc
    | CallDone(id: Id)

  const FRESH := Node(None, None, NilDone, {}, false, false, Unused)

  const INITIAL := Forest([Link(Background, 0)], [FRESH], [])

  predicate Usable(f: Forest, id: Id) { id < |f.tree| && |f.tree| == |f.nodes| && !f.nodes[id].pending }

  predicate UsableKind(f: Forest, id: Id) { Usable(f, id) && Cancellable(f.tree[id].kind) }

  predicate Enabled(f: Forest, a: Action) {
    match a
    case NewValue(parent, _, _) => Usable(f, parent)
    case NewWithoutCancel(parent) => Usable(f, parent)
    case Begin(parent, kind) => Usable(f, parent) && Cancellable(kind)
    case Register(id) => id < |f.tree| && |f.tree| == |f.nodes| && Cancellable(f.tree[id].kind) && f.nodes[id].pending
    case Cancel(id, _, _, _) => UsableKind(f, id)
    case StartTimer(id) => UsableKind(f, id) && f.tree[id].kind.TimerCtx?
    case Stop(id) => UsableKind(f, id) && f.tree[id].kind.AfterFuncCtx?
    case CallDone(id) => UsableKind(f, id)
  }

  function ApplyBegin(f: Forest, parent: Id, kind: Kind): Forest
    requires WellFormed(f.tree) && Usable(f, parent) && Cancellable(kind)
  {
    var tree := f.tree + [Link(kind, parent)];
    var p := Nearest(f.tree, parent);
    if p.None? then
      f.(tree := tree, nodes := f.nodes + [FRESH])
    else
      var n := f.nodes[p.value];
      var nodes := EnsureDone(f.nodes, p.value);
      f.(tree := tree, nodes := nodes +
        [if n.err.Some? && n.cause.Some? then Cancelled(kind, FRESH, n.err.value, n.cause.value) else FRESH.(pending := true)])
  }

  function ApplyRegister(f: Forest, id: Id): Forest
    requires WellFormed(f.tree) && Enabled(f, Register(id)) && Owner(f.tree, id).Some?
  {
    var p := Owner(f.tree, id).value;
    var nodes := f.nodes[id := f.nodes[id].(pending := false)];
    if nodes[p].err.Some? && nodes[p].cause.Some? then
      f.(nodes := nodes[id := Cancelled(f.tree[id].kind, nodes[id], nodes[p].err.value, nodes[p].cause.value)])
    else
      f.(nodes := nodes[p := nodes[p].(children := nodes[p].children + {id})])
  }

  /** Whether a cancel call gets as far as removing the context from its owner: a plain context returns
      early when it has been cancelled before, the other kinds do not. */
  predicate Removes(f: Forest, id: Id, remove: bool)
    requires UsableKind(f, id)
  {
    remove && (f.tree[id].kind.CancelCtx? ==> f.nodes[id].err.None?)
  }

  function ApplyCancel(f: Forest, id: Id, remove: bool, err: Error, cause: Option<Error>): Forest
    requires WellFormed(f.tree) && UsableKind(f, id)
  {
    var why := if cause.None? then err else cause.value;
    var nodes := CancelSubtree(f.tree, f.nodes, id, err, why);
    f.(nodes := if Removes(f, id, remove) then RemoveFromOwner(f.tree, nodes, id) else nodes, log := f.log + [Event(id, err, why)])
  }

  function Apply(f: Forest, a: Action): Forest
    requires WellFormed(f.tree) && Enabled(f, a)
    requires a.Register? ==> Owner(f.tree, a.id).Some?
  {
    match a
    case NewValue(parent, key, val) => f.(tree := f.tree + [Link(ValueCtx(key, val), parent)], nodes := f.nodes + [FRESH])
    case NewWithoutCancel(parent) => f.(tree := f.tree + [Link(WithoutCancel, parent)], nodes := f.nodes + [FRESH])
    case Begin(parent, kind) => ApplyBegin(f, parent, kind)
    case Register(id) => ApplyRegister(f, id)
    case Cancel(id, remove, err, cause) => ApplyCancel(f, id, remove, err, cause)
    case StartTimer(id) => if f.nodes[id].err.None? then f.(nodes := f.nodes[id := f.nodes[id].(timer := true)]) else f
    case Stop(id) =>
      if f.nodes[id].once.Unused?
      then ApplyCancel(f.(nodes := f.nodes[id := f.nodes[id].(once := Stopped)]), id, true, Canceled, None)
      else f
    case CallDone(id) => f.(nodes := EnsureDone(f.nodes, id))
  }

  // ----- what every reachable forest satisfies

  function OutcomeOf(n: Node): Outcome {
    if n.err.Some? && n.cause.Some? then Dead(n.err.value, n.cause.value) else Alive
  }

  predicate Closed(d: Done) { d.ClosedDone? || d.SharedClosed? }

  /** A context's own fields agree with each other. */
  predicate NodeOk(kind: Kind, n: Node) {
    && (n.err.Some? <==> n.cause.Some?)
    && (n.err.Some? <==> Closed(n.done))
    && (n.err.Some? ==> n.children == {} && !n.timer && !n.pending && (kind.AfterFuncCtx? ==> !n.once.Unused?))
    && (n.pending ==> n.children == {})
    && (n.once.Ran? ==> n.err.Some?)
    && (n.timer ==> kind.TimerCtx?)
  }

  /** A context's place in the tree: who owns it, whom it owns, and what it owes to
      the log. */
  predicate LinksOk(f: Forest, k: Id)
    requires WellFormed(f.tree) && |f.tree| == |f.nodes| && k < |f.tree| && Cancellable(f.tree[k].kind)
  {
    var n, p := f.nodes[k], Owner(f.tree, k);
    && (p.Some? ==> !f.nodes[p.value].pending)
    && (n.pending ==> p.Some? && (f.nodes[p.value].done.OpenDone? || f.nodes[p.value].done.ClosedDone?))
    && (!n.pending && n.err.None? && p.Some? ==> k in f.nodes[p.value].children)
    && (!n.pending ==> OutcomeOf(n) == Earliest(f.log, Chain(f.tree, k)))
  }

  predicate ChildOk(f: Forest, k: Id, c: Id)
    requires WellFormed(f.tree) && |f.tree| == |f.nodes|
  {
    c < |f.tree| && Cancellable(f.tree[c].kind) && Owner(f.tree, c) == Some(k) && !f.nodes[c].pending
  }

  ghost predicate Invariant(f: Forest) {
    && WellFormed(f.tree) && |f.tree| == |f.nodes|
    && (forall k | 0 <= k < |f.tree| && Cancellable(f.tree[k].kind) :: NodeOk(f.tree[k].kind, f.nodes[k]) && LinksOk(f, k))
    && (forall k, c | 0 <= k < |f.tree| && c in f.nodes[k].children :: ChildOk(f, k, c))
    && (forall k | 0 <= k < |f.tree| && !Cancellable(f.tree[k].kind) :: f.nodes[k] == FRESH)
    && (forall k | 0 <= k < |f.tree| && f.tree[k].kind.ValueCtx? :: !f.nodes[f.tree[k].parent].pending)
    && (forall i | 0 <= i < |f.log| :: f.log[i].target < |f.tree| && !f.nodes[f.log[i].target].pending)
  }

  lemma InitialOk()
    ensures Invariant(INITIAL)
  {
  }

  // ----- cancelling reaches exactly the right contexts

  /** A live context whose chain contains c hangs below c: no link of the chain
      was lost. */
  lemma {:induction false} ChainMeansBelow(f: Forest, c: Id, k: Id)
    requires Invariant(f) && k < |f.tree| && Cancellable(f.tree[k].kind)
    requires !f.nodes[k].pending && f.nodes[k].err.None? && c in Chain(f.tree, k)
    ensures Below(f.tree, f.nodes, {c}, k)
    decreases k
  {
    if k != c {
      var p := Owner(f.tree, k).value;
      OwnerAlive(f, k);
      ChainMeansBelow(f, c, p);
    }
  }

  /** The owner of a live context is live and knows it. */
  lemma OwnerAlive(f: Forest, k: Id)
    requires Invariant(f) && k < |f.tree| && Cancellable(f.tree[k].kind)
    requires !f.nodes[k].pending && f.nodes[k].err.None? && Owner(f.tree, k).Some?
    ensures var p := Owner(f.tree, k).value; f.nodes[p].err.None? && !f.nodes[p].pending && Registered(f.tree, f.nodes, k)
  {
    var p := Owner(f.tree, k).value;
    assert LinksOk(f, k) && NodeOk(f.tree[k].kind, f.nodes[k]);
    assert LinksOk(f, p) && NodeOk(f.tree[p].kind, f.nodes[p]);
    EarliestMonotone(f.log, Chain(f.tree, p), Chain(f.tree, k));
  }

  lemma {:induction false} BelowMeansChain(tree: seq<Link>, nodes: seq<Node>, c: Id, k: Id)
    requires WellFormed(tree) && |tree| == |nodes| && k < |tree| && Below(tree, nodes, {c}, k)
    ensures c in Chain(tree, k)
    decreases k
  {
    if k != c { BelowMeansChain(tree, nodes, c, Owner(tree, k).value); }
  }

  /** Cancelling c reaches a live context exactly when c is it or above it. */
  lemma ReachesExactlyBelow(f: Forest, c: Id, k: Id)
    requires Invariant(f) && k < |f.tree| && Cancellable(f.tree[k].kind)
    requires !f.nodes[k].pending && f.nodes[k].err.None?
    ensures Below(f.tree, f.nodes, {c}, k) <==> c in Chain(f.tree, k)
  {
    hide Invariant, Below, Chain;
    InvariantShape(f);
    if c in Chain(f.tree, k) {
      ChainMeansBelow(f, c, k);
    } else if Below(f.tree, f.nodes, {c}, k) {
      BelowMeansChain(f.tree, f.nodes, c, k);
    }
  }

  lemma BelowNotPending(f: Forest, c: Id, k: Id)
    requires Invariant(f) && k < |f.tree| && Below(f.tree, f.nodes, {c}, k) && c < |f.tree| && !f.nodes[c].pending
    ensures !f.nodes[k].pending
  {
    if k != c {
      assert ChildOk(f, Owner(f.tree, k).value, k);
    }
  }

  /** The cancelled forest before any removal from the owner. */
  function CancelledForest(f: Forest, c: Id, err: Error, cause: Error): Forest
    requires WellFormed(f.tree) && UsableKind(f, c)
  {
    Forest(f.tree, CancelSubtree(f.tree, f.nodes, c, err, cause), f.log + [Event(c, err, cause)])
  }

  lemma CancelNode(f: Forest, c: Id, err: Error, cause: Error, k: Id)
    requires Invariant(f) && UsableKind(f, c) && k < |f.tree| && Cancellable(f.tree[k].kind)
    ensures var f' := CancelledForest(f, c, err, cause);
            && NodeOk(f'.tree[k].kind, f'.nodes[k]) && LinksOk(f', k) && f'.nodes[k].pending == f.nodes[k].pending
  {
    hide Chain, Earliest;
    var f' := CancelledForest(f, c, err, cause);
    assert NodeOk(f.tree[k].kind, f.nodes[k]) && LinksOk(f, k);
    EarliestAppend(f.log, Event(c, err, cause), Chain(f.tree, k));
    if Below(f.tree, f.nodes, {c}, k) {
      BelowNotPending(f, c, k);
      BelowMeansChain(f.tree, f.nodes, c, k);
    } else if !f.nodes[k].pending && f.nodes[k].err.None? && c in Chain(f.tree, k) {
      ChainMeansBelow(f, c, k);
    }
    var p := Owner(f.tree, k);
    if p.Some? {
      assert NodeOk(f.tree[p.value].kind, f.nodes[p.value]);
    }
  }

  lemma CancelKeeps(f: Forest, c: Id, err: Error, cause: Error)
    requires Invariant(f) && UsableKind(f, c)
    ensures Invariant(CancelledForest(f, c, err, cause))
    ensures CancelledForest(f, c, err, cause).nodes[c].err.Some?
  {
    hide NodeOk, LinksOk, Earliest, Chain;
    var f' := CancelledForest(f, c, err, cause);
    forall k | 0 <= k < |f.tree| && Cancellable(f.tree[k].kind)
      ensures NodeOk(f'.tree[k].kind, f'.nodes[k]) && LinksOk(f', k) && f'.nodes[k].pending == f.nodes[k].pending
    {
      CancelNode(f, c, err, cause, k);
    }
    forall k, d | 0 <= k < |f.tree| && d in f'.nodes[k].children
      ensures ChildOk(f', k, d)
    {
      assert ChildOk(f, k, d);
    }
  }

  /** Changing fields that nothing else depends on. */
  lemma EnsureDoneKeeps(f: Forest, p: Id)
    requires Invariant(f) && UsableKind(f, p)
    ensures Invariant(f.(nodes := EnsureDone(f.nodes, p)))
  {
    hide Earliest, Chain;
    var f' := f.(nodes := EnsureDone(f.nodes, p));
    forall k | 0 <= k < |f.tree| && Cancellable(f.tree[k].kind)
      ensures NodeOk(f'.tree[k].kind, f'.nodes[k]) && LinksOk(f', k)
    {
      assert NodeOk(f.tree[k].kind, f.nodes[k]) && LinksOk(f, k);
    }
    forall k, d | 0 <= k < |f.tree| && d in f'.nodes[k].children
      ensures ChildOk(f', k, d)
    {
      assert ChildOk(f, k, d);
    }
  }

  lemma RemoveKeeps(f: Forest, c: Id)
    requires Invariant(f) && UsableKind(f, c) && f.nodes[c].err.Some?
    ensures Invariant(f.(nodes := RemoveFromOwner(f.tree, f.nodes, c)))
  {
    hide Earliest, Chain;
    var p := Owner(f.tree, c);
    if p.Some? {
      assert LinksOk(f, c);
      EnsureDoneKeeps(f, p.value);
      DropChildKeeps(f.(nodes := EnsureDone(f.nodes, p.value)), p.value, c);
    }
  }

  lemma DropChildKeeps(f: Forest, p: Id, c: Id)
    requires Invariant(f) && UsableKind(f, p) && c < |f.tree| && Cancellable(f.tree[c].kind) && f.nodes[c].err.Some?
    ensures Invariant(f.(nodes := f.nodes[p := f.nodes[p].(children := f.nodes[p].children - {c})]))
  {
    hide Earliest, Chain, NodeOk, LinksOk;
    var f' := f.(nodes := f.nodes[p := f.nodes[p].(children := f.nodes[p].children - {c})]);
    forall k | 0 <= k < |f.tree| && Cancellable(f.tree[k].kind)
      ensures NodeOk(f'.tree[k].kind, f'.nodes[k]) && LinksOk(f', k)
    {
      DropChildNode(f, f', p, c, k);
    }
    forall k, d | 0 <= k < |f.tree| && d in f'.nodes[k].children
      ensures ChildOk(f', k, d)
    {
      SameChild(f, f', k, d);
    }
  }

  lemma SameChild(f: Forest, f': Forest, k: Id, d: Id)
    requires WellFormed(f.tree) && f'.tree == f.tree && |f.tree| == |f.nodes| == |f'.nodes| && ChildOk(f, k, d)
    requires f'.nodes[d].pending == f.nodes[d].pending
    ensures ChildOk(f', k, d)
  {
  }

  lemma DropChildNode(f: Forest, f': Forest, p: Id, c: Id, k: Id)
    requires WellFormed(f.tree) && |f.tree| == |f.nodes| && p < |f.nodes| && c < |f.tree| && f.nodes[c].err.Some?
    requires f' == f.(nodes := f.nodes[p := f.nodes[p].(children := f.nodes[p].children - {c})])
    requires k < |f.tree| && Cancellable(f.tree[k].kind) && NodeOk(f.tree[k].kind, f.nodes[k]) && LinksOk(f, k)
    ensures NodeOk(f'.tree[k].kind, f'.nodes[k]) && LinksOk(f', k)
  {
    hide Earliest, Chain;
  }

  lemma ApplyCancelKeeps(f: Forest, id: Id, remove: bool, err: Error, cause: Option<Error>)
    requires Invariant(f) && UsableKind(f, id)
    ensures Invariant(ApplyCancel(f, id, remove, err, cause))
  {
    hide Invariant, RemoveFromOwner, CancelSubtree;
    InvariantShape(f);
    var why := if cause.None? then err else cause.value;
    CancelKeeps(f, id, err, why);
    var f' := CancelledForest(f, id, err, why);
    NotPendingAfter(f, id, err, why);
    if remove { RemoveKeeps(f', id); }
  }

  lemma InvariantShape(f: Forest)
    requires Invariant(f)
    ensures WellFormed(f.tree) && |f.tree| == |f.nodes|
  {
  }

  lemma NotPendingAfter(f: Forest, id: Id, err: Error, why: Error)
    requires Invariant(f) && UsableKind(f, id)
    ensures UsableKind(CancelledForest(f, id, err, why), id)
  {
  }

  // ----- creating contexts

  lemma LinksExtend(f: Forest, l: Link, n: Node, k: Id)
    requires WellFormed(f.tree) && WellFormed(f.tree + [l]) && |f.tree| == |f.nodes|
    requires k < |f.tree| && Cancellable(f.tree[k].kind) && LinksOk(f, k)
    ensures LinksOk(Forest(f.tree + [l], f.nodes + [n], f.log), k)
  {
    hide Earliest, Chain;
    ChainExtends(f.tree, l, k);
  }

  /** A new context whose own fields are in order. */
  lemma AppendKeeps(f: Forest, l: Link, n: Node)
    requires Invariant(f) && l.parent < |f.tree| && !l.kind.Background?
    requires l.kind.ValueCtx? ==> !f.nodes[l.parent].pending
    requires if Cancellable(l.kind) then NodeOk(l.kind, n) && n.children == {} else n == FRESH
    requires Cancellable(l.kind) ==> LinksOk(Forest(f.tree + [l], f.nodes + [n], f.log), |f.tree|)
    ensures Invariant(Forest(f.tree + [l], f.nodes + [n], f.log))
  {
    hide Earliest, Chain, LinksOk;
    var f' := Forest(f.tree + [l], f.nodes + [n], f.log);
    forall k | 0 <= k < |f'.tree| && Cancellable(f'.tree[k].kind)
      ensures NodeOk(f'.tree[k].kind, f'.nodes[k]) && LinksOk(f', k)
    {
      if k < |f.tree| {
        LinksExtend(f, l, n, k);
        assert NodeOk(f.tree[k].kind, f.nodes[k]);
      }
    }
    forall k, d | 0 <= k < |f'.tree| && d in f'.nodes[k].children
      ensures ChildOk(f', k, d)
    {
      assert ChildOk(f, k, d);
      ChainExtends(f.tree, l, d);
    }
  }

  lemma NewOwner(f: Forest, l: Link)
    requires Invariant(f) && Cancellable(l.kind) && Usable(f, l.parent)
    ensures WellFormed(f.tree + [l])
    ensures Owner(f.tree + [l], |f.tree|) == Nearest(f.tree, l.parent)
    ensures Nearest(f.tree, l.parent).Some? ==>
              var p := Nearest(f.tree, l.parent).value;
              && !f.nodes[p].pending
              && Earliest(f.log, Chain(f.tree + [l], |f.tree|)) == Earliest(f.log, Chain(f.tree, p))
              && OutcomeOf(f.nodes[p]) == Earliest(f.log, Chain(f.tree, p))
    ensures Nearest(f.tree, l.parent).None? ==> Earliest(f.log, Chain(f.tree + [l], |f.tree|)) == Alive
  {
    hide Earliest;
    NearestExtends(f.tree, l, l.parent);
    var p := Nearest(f.tree, l.parent);
    NearestUsable(f, l.parent);
    if p.Some? {
      ChainExtends(f.tree, l, p.value);
      EarliestExtra(f.log, |f.tree|, Chain(f.tree, p.value));
      assert LinksOk(f, p.value);
    } else {
      EarliestExtra(f.log, |f.tree|, {});
      EarliestNobody(f.log);
      assert {|f.tree|} + {} == {|f.tree|};
    }
  }

  lemma {:induction false} EarliestNobody(log: seq<Event>)
    ensures Earliest(log, {}) == Alive
  {
    if log != [] { EarliestNobody(log[1..]); }
  }

  /** A context that is in use looks through to one that is in use. */
  lemma {:induction false} NearestUsable(f: Forest, c: Id)
    requires Invariant(f) && Usable(f, c)
    ensures Nearest(f.tree, c).Some? ==> Usable(f, Nearest(f.tree, c).value)
    decreases c
  {
    if f.tree[c].kind.ValueCtx? {
      NearestUsable(f, f.tree[c].parent);
    }
  }

  lemma BeginKeeps(f: Forest, parent: Id, kind: Kind)
    requires Invariant(f) && Usable(f, parent) && Cancellable(kind)
    ensures Invariant(ApplyBegin(f, parent, kind))
  {
    hide Earliest, Chain;
    var l := Link(kind, parent);
    var p := Nearest(f.tree, parent);
    NewOwner(f, l);
    if p.None? {
      AppendKeeps(f, l, FRESH);
    } else {
      assert NodeOk(f.tree[p.value].kind, f.nodes[p.value]);
      var f1 := f.(nodes := EnsureDone(f.nodes, p.value));
      EnsureDoneKeeps(f, p.value);
      NewOwner(f1, l);
      AppendKeeps(f1, l, ApplyBegin(f, parent, kind).nodes[|f.nodes|]);
    }
  }

  lemma RegisterKeeps(f: Forest, id: Id)
    requires Invariant(f) && Enabled(f, Register(id))
    ensures Owner(f.tree, id).Some? && Invariant(ApplyRegister(f, id))
  {
    hide Earliest, Chain;
    assert NodeOk(f.tree[id].kind, f.nodes[id]) && LinksOk(f, id);
    var p := Owner(f.tree, id).value;
    assert NodeOk(f.tree[p].kind, f.nodes[p]) && LinksOk(f, p);
    UnnamedOutcome(f, id);
    if f.nodes[p].err.Some? {
      RegisterDead(f, id, p);
    } else {
      RegisterAlive(f, id, p);
    }
  }

  lemma RegisterDead(f: Forest, id: Id, p: Id)
    requires Invariant(f) && Enabled(f, Register(id)) && Owner(f.tree, id) == Some(p)
    requires f.nodes[p].err.Some? && f.nodes[p].cause.Some? && !f.nodes[p].pending
    requires OutcomeOf(f.nodes[p]) == Earliest(f.log, Chain(f.tree, id))
    ensures Invariant(ApplyRegister(f, id))
  {
    hide Earliest, Chain, NodeOk, ChildOk;
    var f' := ApplyRegister(f, id);
    CancelledOk(f.tree[id].kind, f.nodes[id].(pending := false), f.nodes[p].err.value, f.nodes[p].cause.value);
    forall k | 0 <= k < |f.tree| && Cancellable(f.tree[k].kind)
      ensures NodeOk(f'.tree[k].kind, f'.nodes[k]) && LinksOk(f', k)
    {
      assert NodeOk(f.tree[k].kind, f.nodes[k]) && LinksOk(f, k);
      RegisterDeadLinks(f, id, p, k);
    }
    hide LinksOk;
    forall k, d | 0 <= k < |f.tree| && d in f'.nodes[k].children
      ensures ChildOk(f', k, d)
    {
      RegisterDeadChild(f, id, p, k, d);
    }
  }

  lemma RegisterDeadLinks(f: Forest, id: Id, p: Id, k: Id)
    requires WellFormed(f.tree) && |f.tree| == |f.nodes| && Enabled(f, Register(id)) && Owner(f.tree, id) == Some(p)
    requires f.nodes[p].err.Some? && f.nodes[p].cause.Some? && !f.nodes[p].pending
    requires OutcomeOf(f.nodes[p]) == Earliest(f.log, Chain(f.tree, id))
    requires k < |f.tree| && Cancellable(f.tree[k].kind) && LinksOk(f, k)
    ensures LinksOk(ApplyRegister(f, id), k)
  {
    hide Earliest, Chain;
  }

  lemma RegisterDeadChild(f: Forest, id: Id, p: Id, k: Id, d: Id)
    requires Invariant(f) && Enabled(f, Register(id)) && Owner(f.tree, id) == Some(p)
    requires f.nodes[p].err.Some? && f.nodes[p].cause.Some?
    requires k < |f.tree| && d in ApplyRegister(f, id).nodes[k].children
    ensures ChildOk(ApplyRegister(f, id), k, d)
  {
    hide LinksOk, NodeOk, Earliest, Chain;
    assert ChildOk(f, k, d);
  }

  lemma CancelledOk(kind: Kind, n: Node, err: Error, cause: Error)
    requires !n.pending
    ensures NodeOk(kind, Cancelled(kind, n, err, cause))
  {
  }

  lemma RegisterAlive(f: Forest, id: Id, p: Id)
    requires Invariant(f) && Enabled(f, Register(id)) && Owner(f.tree, id) == Some(p)
    requires f.nodes[p].err.None? && !f.nodes[p].pending && p != id
    requires OutcomeOf(f.nodes[p]) == Earliest(f.log, Chain(f.tree, id))
    ensures Invariant(ApplyRegister(f, id))
  {
    hide Earliest, Chain, ChildOk, LinksOk;
    var f' := ApplyRegister(f, id);
    forall k | 0 <= k < |f.tree| && Cancellable(f.tree[k].kind)
      ensures NodeOk(f'.tree[k].kind, f'.nodes[k]) && LinksOk(f', k)
    {
      assert NodeOk(f.tree[k].kind, f.nodes[k]);
      RegisterAliveLinks(f, id, p, k);
    }
    RegisteredChildren(f, id, p);
  }

  lemma RegisterAliveLinks(f: Forest, id: Id, p: Id, k: Id)
    requires WellFormed(f.tree) && |f.tree| == |f.nodes| && Enabled(f, Register(id)) && Owner(f.tree, id) == Some(p)
    requires f.nodes[p].err.None? && !f.nodes[p].pending && p != id
    requires OutcomeOf(f.nodes[p]) == Earliest(f.log, Chain(f.tree, id)) && NodeOk(f.tree[id].kind, f.nodes[id])
    requires k < |f.tree| && Cancellable(f.tree[k].kind) && LinksOk(f, k) && f.nodes[id].err.None?
    ensures LinksOk(ApplyRegister(f, id), k)
  {
    hide Earliest, Chain;
  }

  lemma RegisteredChildren(f: Forest, id: Id, p: Id)
    requires Invariant(f) && Enabled(f, Register(id)) && Owner(f.tree, id) == Some(p) && p != id
    requires f.nodes[p].err.None?
    ensures var f' := ApplyRegister(f, id);
            forall k, d | 0 <= k < |f.tree| && d in f'.nodes[k].children :: ChildOk(f', k, d)
  {
    hide LinksOk, NodeOk;
    var f' := ApplyRegister(f, id);
    forall k, d | 0 <= k < |f.tree| && d in f'.nodes[k].children
      ensures ChildOk(f', k, d)
    {
      if d in f.nodes[k].children { assert ChildOk(f, k, d); }
    }
  }

  /** A pending context is in no event, so its outcome is its owner's. */
  lemma UnnamedOutcome(f: Forest, id: Id)
    requires Invariant(f) && id < |f.tree| && Cancellable(f.tree[id].kind) && f.nodes[id].pending && Owner(f.tree, id).Some?
    ensures Earliest(f.log, Chain(f.tree, id)) == Earliest(f.log, Chain(f.tree, Owner(f.tree, id).value))
  {
    EarliestExtra(f.log, id, Chain(f.tree, Owner(f.tree, id).value));
  }

  /** A change to one context's timer or once. */
  lemma FieldKeeps(f: Forest, id: Id, n: Node)
    requires Invariant(f) && UsableKind(f, id)
    requires n == f.nodes[id].(timer := n.timer, once := n.once) && NodeOk(f.tree[id].kind, n)
    ensures Invariant(f.(nodes := f.nodes[id := n]))
  {
    hide Earliest, Chain;
    var f' := f.(nodes := f.nodes[id := n]);
    forall k | 0 <= k < |f.tree| && Cancellable(f.tree[k].kind)
      ensures NodeOk(f'.tree[k].kind, f'.nodes[k]) && LinksOk(f', k)
    {
      assert NodeOk(f.tree[k].kind, f.nodes[k]) && LinksOk(f, k);
    }
    forall k, d | 0 <= k < |f.tree| && d in f'.nodes[k].children
      ensures ChildOk(f', k, d)
    {
      assert ChildOk(f, k, d);
    }
  }

  lemma StepKeeps(f: Forest, a: Action)
    requires Invariant(f) && Enabled(f, a)
    ensures a.Register? ==> Owner(f.tree, a.id).Some?
    ensures Invariant(Apply(f, a))
  {
    hide LinksOk, ApplyCancel, ApplyBegin, ApplyRegister, Chain, Earliest;
    match a
    case NewValue(parent, key, val) =>
      AppendKeeps(f, Link(ValueCtx(key, val), parent), FRESH);
    case NewWithoutCancel(parent) =>
      AppendKeeps(f, Link(WithoutCancel, parent), FRESH);
    case Begin(parent, kind) =>
      BeginKeeps(f, parent, kind);
    case Register(id) =>
      RegisterKeeps(f, id);
    case Cancel(id, remove, err, cause) =>
      ApplyCancelKeeps(f, id, remove, err, cause);
    case StartTimer(id) =>
      if f.nodes[id].err.None? { FieldKeeps(f, id, f.nodes[id].(timer := true)); }
    case Stop(id) =>
      if f.nodes[id].once.Unused? {
        FieldKeeps(f, id, f.nodes[id].(once := Stopped));
        ApplyCancelKeeps(f.(nodes := f.nodes[id := f.nodes[id].(once := Stopped)]), id, true, Canceled, None);
      }
    case CallDone(id) =>
      EnsureDoneKeeps(f, id);
  }

  // ----- whole runs

  ghost predicate IsRun(f: Forest, actions: seq<Action>)
    requires Invariant(f)
    decreases actions
  {
    actions != [] ==>
      && Enabled(f, actions[0])
      && (StepKeeps(f, actions[0]); IsRun(Apply(f, actions[0]), actions[1..]))
  }

  ghost function End(f: Forest, actions: seq<Action>): (f': Forest)
    requires Invariant(f) && IsRun(f, actions)
    ensures Invariant(f')
    decreases actions
  {
    if actions == [] then f
    else
      StepKeeps(f, actions[0]);
      End(Apply(f, actions[0]), actions[1..])
  }

  /** The forest a run of library steps from a lone background context reaches. */
  ghost function Reached(actions: seq<Action>): (f: Option<Forest>)
    ensures f.Some? ==> Invariant(f.value)
  {
    InitialOk();
    if IsRun(INITIAL, actions) then Some(End(INITIAL, actions)) else None
  }

  /** The i-th cancel is the first of k or of a context above it. */
  ghost predicate FirstAbove(tree: seq<Link>, log: seq<Event>, k: Id, i: nat)
    requires WellFormed(tree) && k < |tree| && forall j :: 0 <= j < |log| ==> log[j].target < |tree|
  {
    i < |log| && Above(tree, log[i].target, k) && forall j :: 0 <= j < i ==> !Above(tree, log[j].target, k)
  }

  /** In every run: a context is done exactly when it or a context above it has
      been cancelled, and then with the error and cause of the earliest such
      cancel; its err is set exactly when its done channel is closed. */
  lemma OutcomeIsEarliest(actions: seq<Action>, k: Id)
    requires Reached(actions).Some?
    requires var f := Reached(actions).value; k < |f.tree| && Cancellable(f.tree[k].kind) && !f.nodes[k].pending
    ensures var f := Reached(actions).value;
            && (f.nodes[k].err.Some? <==> exists i: nat :: FirstAbove(f.tree, f.log, k, i))
            && (forall i: nat :: FirstAbove(f.tree, f.log, k, i) ==>
                 f.nodes[k].err == Some(f.log[i].err) && f.nodes[k].cause == Some(f.log[i].cause))
            && (f.nodes[k].err.Some? <==> Closed(f.nodes[k].done))
            && (f.nodes[k].err.Some? ==> !f.nodes[k].timer && f.nodes[k].children == {})
  {
    hide Chain, Earliest, FirstAbove;
    var f := Reached(actions).value;
    assert NodeOk(f.tree[k].kind, f.nodes[k]) && LinksOk(f, k);
    FirstDecides(f.tree, f.log, k);
  }

  lemma {:induction false} FirstDecides(tree: seq<Link>, log: seq<Event>, k: Id)
    requires WellFormed(tree) && k < |tree| && Cancellable(tree[k].kind)
    requires forall j :: 0 <= j < |log| ==> log[j].target < |tree|
    ensures Earliest(log, Chain(tree, k)).Dead? <==> exists i: nat :: FirstAbove(tree, log, k, i)
    ensures forall i: nat :: FirstAbove(tree, log, k, i) ==> Earliest(log, Chain(tree, k)) == Dead(log[i].err, log[i].cause)
  {
    hide Chain, Earliest, Above;
    EarliestIsFirst(log, Chain(tree, k));
    forall i | 0 <= i < |log| ensures log[i].target in Chain(tree, k) <==> Above(tree, log[i].target, k) {
      ChainIsAbove(tree, log[i].target, k);
    }
    assert forall i: nat :: FirstNamed(log, Chain(tree, k), i) <==> FirstAbove(tree, log, k, i);
  }

  /** Cancelling a context cancels it and every context below it that no WithoutCancel cuts off, with the error
      and the cause it is given; the error is the cause if none is given. */
  lemma CancelReachesDescendants(f: Forest, a: Action, k: Id)
    requires Invariant(f) && Enabled(f, a) && a.Cancel?
    requires k < |f.tree| && Cancellable(f.tree[k].kind) && !f.nodes[k].pending
    ensures Above(f.tree, a.id, k) ==> var f' := Apply(f, a);
      && f'.nodes[k].err.Some? && Closed(f'.nodes[k].done)
      && (f.nodes[k].err.None? ==>
           f'.nodes[k].err == Some(a.err) && f'.nodes[k].cause == if a.cause.None? then Some(a.err) else a.cause)
    ensures !Above(f.tree, a.id, k) ==>
      Apply(f, a).nodes[k].err == f.nodes[k].err && Apply(f, a).nodes[k].cause == f.nodes[k].cause
  {
    hide Chain, Earliest, Above;
    ChainIsAbove(f.tree, a.id, k);
    StepKeeps(f, a);
    var f' := Apply(f, a);
    CancelKeeps(f, a.id, a.err, if a.cause.None? then a.err else a.cause.value);
    assert NodeOk(f'.tree[k].kind, f'.nodes[k]) && LinksOk(f', k);
    assert LinksOk(f, k) && NodeOk(f.tree[k].kind, f.nodes[k]);
    EarliestAppend(f.log, Event(a.id, a.err, if a.cause.None? then a.err else a.cause.value), Chain(f.tree, k));
    PendingKept(f, a, k);
  }

  lemma PendingKept(f: Forest, a: Action, k: Id)
    requires Invariant(f) && Enabled(f, a) && a.Cancel? && k < |f.tree|
    ensures Apply(f, a).nodes[k].pending == f.nodes[k].pending && Apply(f, a).tree == f.tree
    ensures Apply(f, a).log == f.log + [Event(a.id, a.err, if a.cause.None? then a.err else a.cause.value)]
  {
    hide Below;
    SubtreeNode(f, a.id, a.err, if a.cause.None? then a.err else a.cause.value, k);
    RemoveNode(f, CancelSubtree(f.tree, f.nodes, a.id, a.err, if a.cause.None? then a.err else a.cause.value), a.id, k);
  }

  /** What cancelling a subtree does to one context. */
  lemma SubtreeNode(f: Forest, c: Id, err: Error, cause: Error, k: Id)
    requires WellFormed(f.tree) && |f.tree| == |f.nodes| && k < |f.tree|
    ensures var n, n' := f.nodes[k], CancelSubtree(f.tree, f.nodes, c, err, cause)[k];
            && n'.pending == n.pending
            && (n.err.Some? ==> n' == n)
            && (n.once.Stopped? ==> n'.once.Stopped?)
  {
    hide Below;
  }

  /** Removing a child touches only the owner's children and lazily made channel. */
  lemma RemoveNode(f: Forest, nodes: seq<Node>, c: Id, k: Id)
    requires WellFormed(f.tree) && |f.tree| == |nodes| && k < |nodes| && c < |f.tree| && Cancellable(f.tree[c].kind)
    ensures var n, n' := nodes[k], RemoveFromOwner(f.tree, nodes, c)[k];
            && n'.pending == n.pending && n'.err == n.err && n'.cause == n.cause && n'.once == n.once
            && (!n.done.NilDone? ==> n'.done == n.done)
  {
  }

  /** Once set, a context's err and cause never change, and a closed channel is
      not closed again: no step replaces a closed done field. */
  lemma OutcomeNeverChanges(f: Forest, a: Action, k: Id)
    requires Invariant(f) && Enabled(f, a) && k < |f.tree|
    requires Cancellable(f.tree[k].kind) && f.nodes[k].err.Some?
    ensures a.Register? ==> Owner(f.tree, a.id).Some?
    ensures var n, n' := f.nodes[k], Apply(f, a).nodes[k];
            n'.err == n.err && n'.cause == n.cause && n'.done == n.done
  {
    hide Below, CancelSubtree, RemoveFromOwner, Chain, Earliest;
    if a.Register? { RegisterKeeps(f, a.id); }
    assert NodeOk(f.tree[k].kind, f.nodes[k]);
    InvariantShape(f);
    hide Invariant, ApplyCancel, ApplyBegin, ApplyRegister, NodeOk;
    match a
    case Cancel(id, _, err, cause) =>
      CancelNodeKept(f, id, a.remove, err, cause, k);
    case Stop(id) =>
      if f.nodes[id].once.Unused? {
        CancelNodeKept(f.(nodes := f.nodes[id := f.nodes[id].(once := Stopped)]), id, true, Canceled, None, k);
      }
    case Register(id) =>
      RegisterNodeKept(f, id, k);
    case Begin(parent, kind) =>
      BeginNodeKept(f, parent, kind, k);
    case NewValue(_, _, _) =>
    case NewWithoutCancel(_) =>
    case StartTimer(_) =>
    case CallDone(_) =>
  }

  lemma RegisterNodeKept(f: Forest, id: Id, k: Id)
    requires WellFormed(f.tree) && Enabled(f, Register(id)) && Owner(f.tree, id).Some? && k < |f.tree|
    requires NodeOk(f.tree[k].kind, f.nodes[k]) && f.nodes[k].err.Some?
    ensures var n, n' := f.nodes[k], ApplyRegister(f, id).nodes[k];
            n'.err == n.err && n'.cause == n.cause && n'.done == n.done
  {
  }

  lemma BeginNodeKept(f: Forest, parent: Id, kind: Kind, k: Id)
    requires WellFormed(f.tree) && Usable(f, parent) && Cancellable(kind) && k < |f.tree| && !f.nodes[k].done.NilDone?
    ensures ApplyBegin(f, parent, kind).nodes[k] == f.nodes[k]
  {
  }

  lemma CancelNodeKept(f: Forest, id: Id, remove: bool, err: Error, cause: Option<Error>, k: Id)
    requires WellFormed(f.tree) && UsableKind(f, id) && k < |f.tree| && f.nodes[k].err.Some? && Closed(f.nodes[k].done)
    ensures var n, n' := f.nodes[k], ApplyCancel(f, id, remove, err, cause).nodes[k];
            n'.err == n.err && n'.cause == n.cause && n'.done == n.done
  {
    hide Below, CancelSubtree, RemoveFromOwner;
    var why := if cause.None? then err else cause.value;
    SubtreeNode(f, id, err, why, k);
    RemoveNode(f, CancelSubtree(f.tree, f.nodes, id, err, why), id, k);
  }

  // ----- after-funcs, timers and registrations

  /** What a cancel does to the once of one context. */
  lemma CancelSpends(f: Forest, id: Id, remove: bool, err: Error, cause: Option<Error>, k: Id)
    requires WellFormed(f.tree) && UsableKind(f, id) && k < |f.tree|
    ensures var n, n' := f.nodes[k], ApplyCancel(f, id, remove, err, cause).nodes[k];
      && (n.once != Unused ==> n'.once == n.once)
      && (n.once.Unused? && !n'.once.Unused? ==> n'.once.Ran? && n'.err.Some? && f.tree[k].kind.AfterFuncCtx?)
      && (k == id ==> n'.err.Some?)
  {
    assert Below(f.tree, f.nodes, {id}, id);
    hide Below;
    RemoveNode(f, CancelSubtree(f.tree, f.nodes, id, err, if cause.None? then err else cause.value), id, k);
  }

  /** The once of an after-func is spent at most once: by its own stop, which keeps the function from running, or
      by whatever else cancels it, which starts the function. */
  lemma OnceIsSpentOnce(f: Forest, a: Action, k: Id)
    requires Invariant(f) && Enabled(f, a) && k < |f.tree|
    ensures a.Register? ==> Owner(f.tree, a.id).Some?
    ensures var n, n' := f.nodes[k], Apply(f, a).nodes[k];
      && (n.once != Unused ==> n'.once == n.once)
      && (n.once == Unused && n'.once != Unused ==>
           f.tree[k].kind.AfterFuncCtx? && n'.err.Some? && n'.once == if a == Stop(k) then Stopped else Ran)
      && (a == Stop(k) && n.once == Unused ==> n'.once == Stopped)
  {
    hide Below, CancelSubtree, RemoveFromOwner, Chain, Earliest, ApplyCancel, Invariant, Nearest;
    InvariantShape(f);
    match a
    case Cancel(id, remove, err, cause) =>
      CancelSpends(f, id, remove, err, cause, k);
    case Stop(id) =>
      StopSpends(f, id, k);
    case Register(id) =>
      RegisterKeeps(f, id);
    case Begin(_, _) =>
    case NewValue(_, _, _) =>
    case NewWithoutCancel(_) =>
    case StartTimer(_) =>
    case CallDone(_) =>
  }

  lemma StopSpends(f: Forest, id: Id, k: Id)
    requires Invariant(f) && Enabled(f, Stop(id)) && k < |f.tree|
    ensures var n, n' := f.nodes[k], Apply(f, Stop(id)).nodes[k];
      && (n.once != Unused ==> n'.once == n.once)
      && (n.once == Unused && n'.once != Unused ==>
           f.tree[k].kind.AfterFuncCtx? && n'.err.Some? && n'.once == if k == id then Stopped else Ran)
      && (k == id && n.once == Unused ==> n'.once == Stopped)
  {
    hide Below, CancelSubtree, RemoveFromOwner, Chain, Earliest, ApplyCancel;
    if f.nodes[id].once.Unused? {
      CancelSpends(f.(nodes := f.nodes[id := f.nodes[id].(once := Stopped)]), id, true, Canceled, None, k);
    }
  }

  /** What a cancel of c leaves of a context k: what is below c and was live has the given error and cause, its
      channel is closed and its function, if there is one, has been started; what is not below c is as live as
      it was. */
  ghost predicate IsReached(f: Forest, f': Forest, c: Id, err: Error, why: Error, k: Id)
    requires WellFormed(f.tree) && |f.tree| == |f.nodes| == |f'.nodes| && c < |f.tree| && k < |f.tree|
  {
    var n, n' := f.nodes[k], f'.nodes[k];
    if Above(f.tree, c, k) && n.err.None? then
      && n'.err == Some(err) && n'.cause == Some(why) && Closed(n'.done)
      && (f.tree[k].kind.AfterFuncCtx? && n.once == Unused ==> n'.once == Ran)
    else n'.err == n.err && n'.cause == n.cause && n'.once == n.once
  }

  lemma CancelIsReached(f: Forest, c: Id, remove: bool, err: Error, cause: Option<Error>)
    requires Invariant(f) && UsableKind(f, c)
    ensures var f' := ApplyCancel(f, c, remove, err, cause);
      && |f'.nodes| == |f.nodes|
      && forall k | 0 <= k < |f.tree| && UsableKind(f, k) ::
           IsReached(f, f', c, err, if cause.None? then err else cause.value, k)
  {
    hide Above, Chain, Below, CancelSubtree, RemoveFromOwner, NodeOk, LinksOk, Invariant;
    InvariantShape(f);
    var a := Cancel(c, remove, err, cause);
    StepKeeps(f, a);
    forall k | 0 <= k < |f.tree| && UsableKind(f, k)
      ensures IsReached(f, Apply(f, a), c, err, if cause.None? then err else cause.value, k)
    {
      CancelReachesDescendants(f, a, k);
      PendingKept(f, a, k);
      OnceIsSpentOnce(f, a, k);
      if f.nodes[k].err.Some? { OutcomeNeverChanges(f, a, k); }
      if f.tree[k].kind.AfterFuncCtx? { SpentIfDone(Apply(f, a), k); }
      if f.tree[k].kind.AfterFuncCtx? { SpentIfDone(f, k); }
    }
  }

  lemma SpentIfDone(f: Forest, k: Id)
    requires Invariant(f) && k < |f.tree| && f.tree[k].kind.AfterFuncCtx?
    ensures f.nodes[k].err.Some? ==> f.nodes[k].once != Unused
  {
    assert NodeOk(f.tree[k].kind, f.nodes[k]);
  }

  /** In every run: the function of an after-func has been started exactly if the context is done and its own
      stop did not come first. */
  lemma AfterFuncRuns(actions: seq<Action>, k: Id)
    requires Reached(actions).Some?
    requires var f := Reached(actions).value; k < |f.tree| && f.tree[k].kind.AfterFuncCtx?
    ensures var n := Reached(actions).value.nodes[k];
      && (n.err.Some? <==> n.once == Ran || n.once == Stopped)
      && (n.once == Stopped ==> Stop(k) in actions)
  {
    var f := Reached(actions).value;
    assert NodeOk(f.tree[k].kind, f.nodes[k]);
    InitialOk();
    hide IsRun, End, Invariant;
    StoppedByStop(INITIAL, actions, k);
  }

  /** A context whose own stop came first is done. */
  predicate StoppedIsDone(f: Forest, k: Id) {
    k < |f.nodes| && f.nodes[k].once == Stopped ==> f.nodes[k].err.Some?
  }

  lemma {:induction false} StoppedByStop(f: Forest, actions: seq<Action>, k: Id)
    requires Invariant(f) && IsRun(f, actions) && StoppedIsDone(f, k)
    ensures StoppedIsDone(End(f, actions), k)
    ensures k < |End(f, actions).nodes| && End(f, actions).nodes[k].once == Stopped ==>
      Stop(k) in actions || (k < |f.nodes| && f.nodes[k].once == Stopped)
    decreases actions
  {
    if actions != [] {
      var a := actions[0];
      StepKeeps(f, a);
      StopStep(f, a, k);
      hide Invariant, Apply;
      StoppedByStop(Apply(f, a), actions[1..], k);
    }
  }

  lemma StopStep(f: Forest, a: Action, k: Id)
    requires Invariant(f) && Enabled(f, a) && StoppedIsDone(f, k)
    ensures a.Register? ==> Owner(f.tree, a.id).Some?
    ensures StoppedIsDone(Apply(f, a), k)
    ensures k < |Apply(f, a).nodes| && Apply(f, a).nodes[k].once == Stopped ==>
      a == Stop(k) || (k < |f.nodes| && f.nodes[k].once == Stopped)
  {
    if k < |f.nodes| {
      hide Apply;
      OnceIsSpentOnce(f, a, k);
      if f.nodes[k].once == Stopped {
        OutcomeNeverChanges(f, a, k);
      }
    } else {
      StepKeeps(f, a);
      hide CancelSubtree, Nearest, Owner;
    }
  }

  /** A timer is started exactly on a live context. */
  lemma TimerStarts(f: Forest, id: Id)
    requires Invariant(f) && Enabled(f, StartTimer(id))
    ensures Apply(f, StartTimer(id)).nodes[id].timer <==> f.nodes[id].err.None?
  {
    assert NodeOk(f.tree[id].kind, f.nodes[id]);
  }

  /** A cancel function that is called leaves no trace of a live context with the context's owner. */
  lemma CancelUnregisters(f: Forest, a: Action)
    requires Invariant(f) && Enabled(f, a) && a.Cancel? && a.remove && f.nodes[a.id].err.None?
    ensures Owner(f.tree, a.id).Some? ==> a.id !in Apply(f, a).nodes[Owner(f.tree, a.id).value].children
  {
    hide Below, Chain, Earliest;
    StepKeeps(f, a);
    var p, f' := Owner(f.tree, a.id), Apply(f, a);
    if p.Some? {
      assert NodeOk(f'.tree[p.value].kind, f'.nodes[p.value]);
      PendingKept(f, a, p.value);
    }
  }

  /** No step changes what an existing context carries; a new value hides only the same key. */
  lemma ValuesNeverChange(f: Forest, a: Action, c: Id, key: nat)
    requires Invariant(f) && Enabled(f, a) && c < |f.tree|
    ensures a.Register? ==> Owner(f.tree, a.id).Some?
    ensures WellFormed(Apply(f, a).tree) && c < |Apply(f, a).tree|
    ensures Lookup(Apply(f, a).tree, c, key) == Lookup(f.tree, c, key)
    ensures a.NewValue? ==>
      Lookup(Apply(f, a).tree, |f.tree|, key) == if key == a.key then Some(a.val) else Lookup(f.tree, a.parent, key)
  {
    hide Invariant, CancelSubtree, EnsureDone, RemoveFromOwner;
    StepKeeps(f, a);
    InvariantShape(f);
    InvariantShape(Apply(f, a));
    match a
    case NewValue(parent, k, val) =>
      LookupExtends(f.tree, Link(ValueCtx(k, val), parent), c, key);
      LookupExtends(f.tree, Link(ValueCtx(k, val), parent), parent, key);
    case NewWithoutCancel(parent) => LookupExtends(f.tree, Link(WithoutCancel, parent), c, key);
    case Begin(parent, kind) => LookupExtends(f.tree, Link(kind, parent), c, key);
    case _ =>
  }
}
