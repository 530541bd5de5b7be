/** The methods of src/context/context.go that change the tree in place, with the
    mutexes they hold, proved against the steps of module Context. */
module ContextTree {
  import opened Basics
  import opened Context

  // ----- subtrees reached from several tops

  /** Nothing at or before c hangs below later tops. */
  lemma {:induction false} BelowIsLater(tree: seq<Link>, nodes: seq<Node>, tops: set<Id>, c: Id, k: Id)
    requires WellFormed(tree) && |tree| == |nodes| && k < |tree| && k <= c
    requires forall d | d in tops :: d > c
    ensures !Below(tree, nodes, tops, k)
    decreases k
  {
    if Cancellable(tree[k].kind) && Registered(tree, nodes, k) {
      BelowIsLater(tree, nodes, tops, c, Owner(tree, k).value);
    }
  }

  lemma {:induction false} BelowUnion(tree: seq<Link>, nodes: seq<Node>, a: set<Id>, b: set<Id>, k: Id)
    requires WellFormed(tree) && |tree| == |nodes| && k < |tree|
    ensures Below(tree, nodes, a + b, k) == (Below(tree, nodes, a, k) || Below(tree, nodes, b, k))
    decreases k
  {
    if Cancellable(tree[k].kind) && Registered(tree, nodes, k) {
      BelowUnion(tree, nodes, a, b, Owner(tree, k).value);
    }
  }

  /** The tops are all owned by c. */
  ghost predicate ChildrenOf(tree: seq<Link>, c: Id, tops: set<Id>)
    requires WellFormed(tree)
  {
    forall d | d in tops :: c < d < |tree| && Cancellable(tree[d].kind) && Owner(tree, d) == Some(c)
  }

  /** Subtrees of different children of c do not meet. */
  lemma {:induction false} SubtreesDisjoint(tree: seq<Link>, nodes: seq<Node>, c: Id, done: set<Id>, d: Id, k: Id)
    requires WellFormed(tree) && |tree| == |nodes| && k < |tree|
    requires ChildrenOf(tree, c, done + {d}) && d !in done
    ensures !(Below(tree, nodes, done, k) && Below(tree, nodes, {d}, k))
    decreases k
  {
    BelowIsLater(tree, nodes, done, c, c);
    BelowIsLater(tree, nodes, {d}, c, c);
    if Cancellable(tree[k].kind) && Registered(tree, nodes, k) {
      SubtreesDisjoint(tree, nodes, c, done, d, Owner(tree, k).value);
    }
  }

  /** The subtree of a live context is the context and its children's subtrees. */
  lemma {:induction false} BelowChildren(tree: seq<Link>, nodes: seq<Node>, c: Id, k: Id)
    requires WellFormed(tree) && |tree| == |nodes| && k < |tree| && c < |tree| && Cancellable(tree[c].kind)
    requires nodes[c].err.None? && ChildrenOf(tree, c, nodes[c].children)
    ensures k != c ==> Below(tree, nodes, {c}, k) == Below(tree, nodes, nodes[c].children, k)
    decreases k
  {
    if k != c && Cancellable(tree[k].kind) && Registered(tree, nodes, k) {
      var p := Owner(tree, k).value;
      BelowChildren(tree, nodes, c, p);
      BelowIsLater(tree, nodes, nodes[c].children, c, c);
    }
  }

  /** The fields cancelCtx.cancel itself sets. */
  function CoreCancelled(n: Node, err: Error, cause: Error): Node {
    n.(err := Some(err), cause := Some(cause), done := if n.done.OpenDone? then ClosedDone else SharedClosed)
  }

  /** The state in the middle of c's loop: c is marked, the subtrees of the
      children in finished are cancelled, the rest is as before. */
  ghost predicate Midway(tree: seq<Link>, before: seq<Node>, mid: seq<Node>, c: Id, finished: set<Id>, err: Error, cause: Error)
    requires WellFormed(tree) && |tree| == |before|
  {
    && |mid| == |before| && c < |before|
    && mid[c] == CoreCancelled(before[c], err, cause)
    && forall k | 0 <= k < |before| && k != c ::
         mid[k] == if Below(tree, before, finished, k) && before[k].err.None? then Cancelled(tree[k].kind, before[k], err, cause)
                   else before[k]
  }

  /** A subtree not yet visited looks the same in the middle as it did before. */
  lemma {:induction false} UnvisitedSubtree(tree: seq<Link>, before: seq<Node>, mid: seq<Node>, c: Id, finished: set<Id>, d: Id,
                                           err: Error, cause: Error, k: Id)
    requires WellFormed(tree) && |tree| == |before| && Midway(tree, before, mid, c, finished, err, cause)
    requires ChildrenOf(tree, c, finished + {d}) && d !in finished && k < |tree|
    ensures Below(tree, mid, {d}, k) == Below(tree, before, {d}, k)
    decreases k
  {
    if Cancellable(tree[k].kind) && k != d {
      var p := Owner(tree, k);
      if p.Some? {
        UnvisitedSubtree(tree, before, mid, c, finished, d, err, cause, p.value);
        SubtreesDisjoint(tree, before, c, finished, d, p.value);
        BelowIsLater(tree, before, {d}, c, c);
      }
    }
  }

  /** Cancelling one more child's subtree. */
  lemma MidwayStep(tree: seq<Link>, before: seq<Node>, mid: seq<Node>, c: Id, finished: set<Id>, d: Id, err: Error, cause: Error)
    requires WellFormed(tree) && |tree| == |before| && Midway(tree, before, mid, c, finished, err, cause)
    requires ChildrenOf(tree, c, finished + {d}) && d !in finished
    ensures Midway(tree, before, CancelSubtree(tree, mid, d, err, cause), c, finished + {d}, err, cause)
  {
    hide Below;
    var mid' := CancelSubtree(tree, mid, d, err, cause);
    forall k | 0 <= k < |before| && k != c
      ensures mid'[k] == if Below(tree, before, finished + {d}, k) && before[k].err.None?
                         then Cancelled(tree[k].kind, before[k], err, cause) else before[k]
    {
      UnvisitedSubtree(tree, before, mid, c, finished, d, err, cause, k);
      BelowUnion(tree, before, finished, {d}, k);
    }
  }

  /** When every child is done, clearing c's children gives the cancelled subtree. */
  lemma MidwayDone(tree: seq<Link>, before: seq<Node>, mid: seq<Node>, c: Id, err: Error, cause: Error)
    requires WellFormed(tree) && |tree| == |before| && c < |tree| && Cancellable(tree[c].kind) && before[c].err.None?
    requires ChildrenOf(tree, c, before[c].children)
    requires Midway(tree, before, mid, c, before[c].children, err, cause)
    ensures forall k | 0 <= k < |tree| && k != c :: mid[k] == CancelSubtree(tree, before, c, err, cause)[k]
    ensures CancelSubtree(tree, before, c, err, cause)[c] == Cancelled(tree[c].kind, before[c], err, cause)
  {
    forall k | 0 <= k < |tree| && k != c
      ensures mid[k] == CancelSubtree(tree, before, c, err, cause)[k]
    {
      BelowChildren(tree, before, c, k);
    }
  }

  lemma NothingBelow(tree: seq<Link>, nodes: seq<Node>)
    requires WellFormed(tree) && |tree| == |nodes|
    ensures forall k | 0 <= k < |tree| :: !Below(tree, nodes, {}, k)
  {
    forall k | 0 <= k < |tree|
      ensures !Below(tree, nodes, {}, k)
    {
      BelowIsLater(tree, nodes, {}, k, k);
    }
  }

  /** A cancelled context has nothing registered below it. */
  lemma {:induction false} DeadSubtree(tree: seq<Link>, nodes: seq<Node>, c: Id, k: Id)
    requires WellFormed(tree) && |tree| == |nodes| && k < |tree| && c < |tree| && nodes[c].err.Some?
    ensures Below(tree, nodes, {c}, k) ==> k == c
    decreases k
  {
    if k != c && Cancellable(tree[k].kind) && Registered(tree, nodes, k) {
      DeadSubtree(tree, nodes, c, Owner(tree, k).value);
    }
  }

  /** From c on, children are owned where they are listed, and cancelled contexts, and no others, have a
      closed channel and have spent their timer and once. */
  ghost predicate Ready(tree: seq<Link>, nodes: seq<Node>, c: Id)
    requires WellFormed(tree) && |tree| == |nodes|
  {
    forall k | c <= k < |tree| ::
      && ChildrenOf(tree, k, nodes[k].children)
      && (nodes[k].timer ==> tree[k].kind.TimerCtx?)
      && (nodes[k].err.Some? <==> Closed(nodes[k].done))
      && (nodes[k].err.Some? ==> !nodes[k].timer && (tree[k].kind.AfterFuncCtx? ==> !nodes[k].once.Unused?))
  }

  lemma MidwayReady(tree: seq<Link>, before: seq<Node>, mid: seq<Node>, c: Id, finished: set<Id>, err: Error, cause: Error)
    requires WellFormed(tree) && |tree| == |before| && Midway(tree, before, mid, c, finished, err, cause)
    requires Ready(tree, before, c)
    ensures Ready(tree, mid, c + 1)
  {
    hide Below;
  }

  lemma ChildrenReady(tree: seq<Link>, nodes: seq<Node>, c: Id)
    requires WellFormed(tree) && |tree| == |nodes| && c < |tree| && Ready(tree, nodes, c)
    ensures ChildrenOf(tree, c, nodes[c].children)
    ensures nodes[c].err.Some? <==> Closed(nodes[c].done)
  {
  }

  lemma ReadyLater(tree: seq<Link>, nodes: seq<Node>, c: Id, d: Id)
    requires WellFormed(tree) && |tree| == |nodes| && Ready(tree, nodes, c) && c <= d
    ensures Ready(tree, nodes, d)
  {
  }

  // ----- lock order

  /** A mutex and the mutexes held while it was acquired. */
  datatype Acquisition = Acquisition(held: seq<Id>, mutex: Id)

  /** Everything held is a proper ancestor of the mutex acquired. */
  ghost predicate InOrder(tree: seq<Link>, held: seq<Id>, mutex: Id)
    requires WellFormed(tree)
  {
    && mutex < |tree| && Cancellable(tree[mutex].kind)
    && forall i | 0 <= i < |held| :: held[i] != mutex && held[i] in Chain(tree, mutex)
  }

  ghost predicate AllInOrder(tree: seq<Link>, acquired: seq<Acquisition>)
    requires WellFormed(tree)
  {
    forall i | 0 <= i < |acquired| :: InOrder(tree, acquired[i].held, acquired[i].mutex)
  }

  /** The mutexes held for c and c itself are proper ancestors of c's children. */
  lemma HeldAboveChild(tree: seq<Link>, held: seq<Id>, c: Id, d: Id)
    requires WellFormed(tree) && InOrder(tree, held, c)
    requires d < |tree| && Cancellable(tree[d].kind) && Owner(tree, d) == Some(c)
    ensures InOrder(tree, held + [c], d)
  {
  }

  lemma OrderExtends(tree: seq<Link>, l: Link, acquired: seq<Acquisition>)
    requires WellFormed(tree) && WellFormed(tree + [l]) && AllInOrder(tree, acquired)
    ensures AllInOrder(tree + [l], acquired)
  {
    forall i | 0 <= i < |acquired|
      ensures InOrder(tree + [l], acquired[i].held, acquired[i].mutex)
    {
      ChainExtends(tree, l, acquired[i].mutex);
    }
  }

  /** Goroutines that hold and want mutexes. */
  datatype Goroutine = Goroutine(held: seq<Id>, wants: Option<Id>)

  /** i waits for j: it wants a mutex that j holds. */
  predicate WaitsFor(g: Goroutine, h: Goroutine) { g.wants.Some? && g.wants.value in h.held }

  /** A chain of waits climbs strictly in creation order, so it never closes. */
  lemma {:induction false} WaitsClimb(tree: seq<Link>, gs: seq<Goroutine>)
    requires WellFormed(tree) && |gs| >= 2
    requires forall i | 0 <= i < |gs| && gs[i].wants.Some? :: InOrder(tree, gs[i].held, gs[i].wants.value)
    requires forall i | 0 <= i < |gs| - 1 :: WaitsFor(gs[i], gs[i + 1])
    ensures gs[0].wants.Some?
    ensures gs[|gs| - 1].wants.Some? ==> gs[0].wants.value < gs[|gs| - 1].wants.value
    ensures gs[|gs| - 1] != gs[0]
    decreases |gs|
  {
    var n := |gs| - 1;
    assert WaitsFor(gs[n - 1], gs[n]);
    if n > 1 {
      WaitsClimb(tree, gs[..n]);
    }
    assert WaitsFor(gs[0], gs[1]);
    if gs[n].wants.Some? {
      var i :| 0 <= i < |gs[n].held| && gs[n].held[i] == gs[n - 1].wants.value;
      assert gs[n].held[i] in Chain(tree, gs[n].wants.value);
    }
  }

  /** Whatever the goroutine holds and wants is an acquisition the methods have made. */
  ghost predicate Recorded(g: Goroutine, acquired: seq<Acquisition>) {
    g.wants.Some? ==> Acquisition(g.held, g.wants.value) in acquired
  }

  // ----- the tree and its methods

  class Contexts {
    var tree: seq<Link>
    var nodes: seq<Node>
    ghost var log: seq<Event>
    ghost var held: seq<Id>
    ghost var acquired: seq<Acquisition>

    ghost function Value(): Forest
      reads this
    {
      Forest(tree, nodes, log)
    }

    /** Between operations: a reachable forest, no mutex held, and every mutex
        acquired so far acquired in order. */
    ghost predicate Valid()
      reads this
    {
      Invariant(Value()) && held == [] && AllInOrder(tree, acquired)
    }

    constructor ()
      ensures Valid() && Value() == INITIAL
    {
      tree, nodes, log, held, acquired := [Link(Background, 0)], [FRESH], [], [], [];
      new;
      InitialOk();
    }

    ghost method Lock(m: Id)
      requires WellFormed(tree) && InOrder(tree, held, m) && AllInOrder(tree, acquired)
      modifies this`held, this`acquired
      ensures held == old(held) + [m] && acquired == old(acquired) + [Acquisition(old(held), m)]
      ensures AllInOrder(tree, acquired)
    {
      acquired := acquired + [Acquisition(held, m)];
      held := held + [m];
    }

    ghost method Unlock(m: Id)
      requires held != [] && held[|held| - 1] == m
      modifies this`held
      ensures held == old(held)[..|old(held)| - 1]
    {
      held := held[..|held| - 1];
    }

    /** What a recursive cancel of c may rely on: the children of c and of later
        contexts are theirs, and cancelled ones among them are spent. */
    ghost predicate CanCancel(c: Id)
      reads this
    {
      && WellFormed(tree) && |tree| == |nodes| && c < |tree| && Cancellable(tree[c].kind)
      && AllInOrder(tree, acquired) && Ready(tree, nodes, c)
    }

    /** cancelCtx.cancel up to the unlock: mark, close the channel, cancel the
        children while holding the mutex, forget them. */
    method CancelCore(c: Id, err: Error, cause: Error) returns (first: bool)
      requires CanCancel(c) && InOrder(tree, held, c)
      modifies this`nodes, this`held, this`acquired
      ensures held == old(held) && AllInOrder(tree, acquired) && |nodes| == |old(nodes)|
      ensures first == old(nodes[c].err.None?)
      ensures old(nodes[c].err.Some?) ==> nodes == old(nodes)
      ensures old(nodes[c].err.None?) ==>
                && nodes[c] == CoreCancelled(old(nodes)[c], err, cause).(children := {})
                && forall k | 0 <= k < |nodes| && k != c :: nodes[k] == CancelSubtree(tree, old(nodes), c, err, cause)[k]
      decreases |tree| - c, 1
    {
      hide Below, Chain, CancelSubtree, Ready;
      Lock(c);
      if nodes[c].err.Some? {
        Unlock(c);
        assert held == old(held);
        return false;
      }
      ghost var before := nodes;
      ChildrenReady(tree, before, c);
      MarkCancelled(c, err, cause);
      CancelChildren(c, before, err, cause);
      MidwayDone(tree, before, nodes, c, err, cause);
      nodes := nodes[c := nodes[c].(children := {})];
      Unlock(c);
      assert held == old(held);
      return true;
    }

    /** Sets err and cause and closes the done channel, which nobody has closed before. */
    method MarkCancelled(c: Id, err: Error, cause: Error)
      requires c < |nodes| && !Closed(nodes[c].done)
      modifies this`nodes
      ensures nodes == old(nodes)[c := CoreCancelled(old(nodes)[c], err, cause)]
    {
      nodes := nodes[c := nodes[c].(err := Some(err), cause := Some(cause))];
      if nodes[c].done.OpenDone? {
        nodes := nodes[c := nodes[c].(done := ClosedDone)];
      } else {
        nodes := nodes[c := nodes[c].(done := SharedClosed)];
      }
    }

    /** The loop over c's children, with c's mutex held. */
    method CancelChildren(c: Id, ghost before: seq<Node>, err: Error, cause: Error)
      requires WellFormed(tree) && |tree| == |before| == |nodes| && c < |tree| && Cancellable(tree[c].kind)
      requires nodes == before[c := CoreCancelled(before[c], err, cause)] && Ready(tree, before, c)
      requires held != [] && held[|held| - 1] == c && InOrder(tree, held[..|held| - 1], c) && AllInOrder(tree, acquired)
      modifies this`nodes, this`held, this`acquired
      ensures held == old(held) && AllInOrder(tree, acquired) && |nodes| == |before|
      ensures Midway(tree, before, nodes, c, before[c].children, err, cause)
      decreases |tree| - c, 0
    {
      hide Below, Chain, CancelSubtree, Ready;
      var todo := nodes[c].children;
      ghost var finished: set<Id> := {};
      NothingBelow(tree, before);
      ChildrenReady(tree, before, c);
      while todo != {}
        invariant todo !! finished && todo + finished == before[c].children
        invariant Midway(tree, before, nodes, c, finished, err, cause)
        invariant held == old(held) && AllInOrder(tree, acquired)
        decreases todo
      {
        var d :| d in todo;
        todo := todo - {d};
        HeldAboveChild(tree, old(held)[..|old(held)| - 1], c, d);
        assert old(held) == old(held)[..|old(held)| - 1] + [c];
        MidwayReady(tree, before, nodes, c, finished, err, cause);
        ReadyLater(tree, nodes, c + 1, d);
        MidwayStep(tree, before, nodes, c, finished, d, err, cause);
        var _ := CancelChild(d, err, cause);
        finished := finished + {d};
      }
      assert finished == before[c].children;
    }

    /** child.cancel(false, err, cause) on whichever type the child has. */
    method CancelChild(c: Id, err: Error, cause: Error) returns (first: bool)
      requires CanCancel(c) && InOrder(tree, held, c)
      modifies this`nodes, this`held, this`acquired
      ensures held == old(held) && AllInOrder(tree, acquired)
      ensures nodes == CancelSubtree(tree, old(nodes), c, err, cause)
      ensures first == old(nodes[c].err.None?)
      decreases |tree| - c, 2
    {
      hide Chain;
      ghost var before := nodes;
      first := CancelCore(c, err, cause);
      if tree[c].kind.TimerCtx? {
        Lock(c);
        if nodes[c].timer {
          nodes := nodes[c := nodes[c].(timer := false)];
        }
        Unlock(c);
        assert held == old(held);
      } else if tree[c].kind.AfterFuncCtx? {
        if nodes[c].once.Unused? {
          nodes := nodes[c := nodes[c].(once := Ran)];
        }
      }
      if before[c].err.Some? {
        forall k | 0 <= k < |tree|
          ensures CancelSubtree(tree, before, c, err, cause)[k] == before[k]
        {
          DeadSubtree(tree, before, c, k);
        }
      } else {
        assert CancelSubtree(tree, before, c, err, cause)[c] == Cancelled(tree[c].kind, before[c], err, cause);
      }
    }

    /** The walk of value(c, &cancelCtxKey). */
    method FindCancelCtx(c: Id) returns (p: Option<Id>)
      requires WellFormed(tree) && c < |tree|
      ensures p == Nearest(tree, c)
      ensures forall q | 0 <= q < |tree| :: p == Some(q) <==> Cancellable(tree[q].kind) && BeyondValues(tree, c, q)
    {
      hide BeyondValues;
      forall q | 0 <= q < |tree|
        ensures Nearest(tree, c) == Some(q) <==> Cancellable(tree[q].kind) && BeyondValues(tree, c, q)
      {
        NearestIsFirst(tree, c, q);
      }
      var cur := c;
      while tree[cur].kind.ValueCtx?
        invariant 0 <= cur < |tree| && Nearest(tree, cur) == Nearest(tree, c)
        decreases cur
      {
        cur := tree[cur].parent;
      }
      p := if Cancellable(tree[cur].kind) then Some(cur) else None;
    }

    /** The walk of value(c, key) for a key of the program's own. */
    method ValueOf(c: Id, key: nat) returns (v: Option<int>)
      requires WellFormed(tree) && c < |tree|
      ensures v == Lookup(tree, c, key)
    {
      var cur := c;
      while !tree[cur].kind.Background?
        invariant 0 <= cur < |tree| && Lookup(tree, cur, key) == Lookup(tree, c, key)
        decreases cur
      {
        if tree[cur].kind.ValueCtx? && tree[cur].kind.key == key {
          return Some(tree[cur].kind.val);
        }
        cur := tree[cur].parent;
      }
      return None;
    }

    /** cancelCtx.Done: the channel is made under the mutex on first use. */
    method MakeDone(p: Id)
      requires WellFormed(tree) && |tree| == |nodes| && p < |nodes| && InOrder(tree, held, p) && AllInOrder(tree, acquired)
      modifies this`nodes, this`held, this`acquired
      ensures nodes == EnsureDone(old(nodes), p) && held == old(held) && AllInOrder(tree, acquired)
    {
      if nodes[p].done.NilDone? {
        Lock(p);
        nodes := nodes[p := nodes[p].(done := OpenDone)];
        Unlock(p);
        assert held == old(held);
      }
    }

    /** removeChild: the owner is looked up through its done channel and does not
        need the deletion when that is the shared closed channel. */
    method RemoveChild(c: Id)
      requires WellFormed(tree) && |tree| == |nodes| && c < |tree| && Cancellable(tree[c].kind)
      requires held == [] && AllInOrder(tree, acquired)
      modifies this`nodes, this`held, this`acquired
      ensures nodes == RemoveFromOwner(tree, old(nodes), c) && held == [] && AllInOrder(tree, acquired)
    {
      var p := FindCancelCtx(tree[c].parent);
      if p.None? {
        return;
      }
      MakeDone(p.value);
      if nodes[p.value].done.SharedClosed? {
        return;
      }
      Lock(p.value);
      nodes := nodes[p.value := nodes[p.value].(children := nodes[p.value].children - {c})];
      Unlock(p.value);
    }

    /** A top-level cancel: c.cancel(remove, err, cause). */
    method Cancel(c: Id, remove: bool, err: Error, cause: Option<Error>)
      requires Valid() && UsableKind(Value(), c)
      modifies this
      ensures Valid() && Value() == ApplyCancel(old(Value()), c, remove, err, cause)
      ensures tree == old(tree) && |nodes| == |old(nodes)| == |tree|
      ensures forall k | 0 <= k < |tree| && UsableKind(old(Value()), k) ::
        IsReached(old(Value()), Value(), c, err, if cause.None? then err else cause.value, k)
    {
      hide Invariant, CancelSubtree, RemoveFromOwner, Chain, IsReached;
      InvariantShape(Value());
      ApplyCancelKeeps(Value(), c, remove, err, cause);
      CancelIsReached(Value(), c, remove, err, cause);
      ForestReady(Value(), c);
      var why := if cause.None? then err else cause.value;
      var first := CancelChild(c, err, why);
      if remove && (tree[c].kind.CancelCtx? ==> first) {
        RemoveChild(c);
      }
      log := log + [Event(c, err, why)];
    }

    method StartTimer(c: Id)
      requires Valid() && Enabled(Value(), Action.StartTimer(c))
      modifies this
      ensures Valid() && Value() == Apply(old(Value()), Action.StartTimer(c))
    {
      hide Invariant, Chain;
      InvariantShape(Value());
      StepKeeps(Value(), Action.StartTimer(c));
      Lock(c);
      if nodes[c].err.None? {
        nodes := nodes[c := nodes[c].(timer := true)];
      }
      Unlock(c);
    }

    /** The stop function of an after-func; true when it kept f from running. */
    method Stop(c: Id) returns (stopped: bool)
      requires Valid() && Enabled(Value(), Action.Stop(c))
      modifies this
      ensures Valid() && Value() == Apply(old(Value()), Action.Stop(c))
      ensures stopped == old(nodes)[c].once.Unused?
      ensures stopped ==> nodes[c].once.Stopped?
    {
      hide Invariant, ApplyCancel, Chain;
      InvariantShape(Value());
      stopped := nodes[c].once.Unused?;
      if stopped {
        StopFields(Value(), c);
        nodes := nodes[c := nodes[c].(once := Stopped)];
        Cancel(c, true, Canceled, None);
        StoppedStays(old(Value()).(nodes := old(nodes)[c := old(nodes)[c].(once := Stopped)]), c);
      }
    }

    method NewValue(parent: Id, key: nat, val: int) returns (c: Id)
      requires Valid() && Usable(Value(), parent)
      modifies this
      ensures Valid() && c == |old(tree)| && Value() == Apply(old(Value()), Action.NewValue(parent, key, val))
    {
      StepKeeps(Value(), Action.NewValue(parent, key, val));
      c := Append(Link(ValueCtx(key, val), parent), FRESH);
    }

    method NewWithoutCancel(parent: Id) returns (c: Id)
      requires Valid() && Usable(Value(), parent)
      modifies this
      ensures Valid() && c == |old(tree)| && Value() == Apply(old(Value()), Action.NewWithoutCancel(parent))
    {
      StepKeeps(Value(), Action.NewWithoutCancel(parent));
      c := Append(Link(WithoutCancel, parent), FRESH);
    }

    method Append(l: Link, n: Node) returns (c: Id)
      requires WellFormed(tree) && l.parent < |tree| && AllInOrder(tree, acquired)
      modifies this`tree, this`nodes
      ensures c == |old(tree)| && tree == old(tree) + [l] && nodes == old(nodes) + [n]
      ensures WellFormed(tree) && AllInOrder(tree, acquired)
    {
      hide Chain;
      OrderExtends(tree, l, acquired);
      c := |tree|;
      tree, nodes := tree + [l], nodes + [n];
    }

    /** propagateCancel up to its select: a parent that is done cancels the new
        context on the spot, otherwise registration is still to come. */
    method Begin(parent: Id, kind: Kind) returns (c: Id)
      requires Valid() && Usable(Value(), parent) && Cancellable(kind)
      modifies this
      ensures Valid() && c == |old(tree)| && Value() == Apply(old(Value()), Action.Begin(parent, kind))
    {
      hide Invariant, Chain;
      InvariantShape(Value());
      StepKeeps(Value(), Action.Begin(parent, kind));
      var p := FindCancelCtx(parent);
      if p.None? {
        c := Append(Link(kind, parent), FRESH);
        return;
      }
      DoneMeansErr(Value(), p.value);
      MakeDone(p.value);
      if Closed(nodes[p.value].done) {
        // parent.Err() and Cause(parent), each under the owner's mutex
        Lock(p.value);
        var err := nodes[p.value].err;
        Unlock(p.value);
        Lock(p.value);
        var cause := nodes[p.value].cause;
        Unlock(p.value);
        c := Append(Link(kind, parent), Cancelled(kind, FRESH, err.value, cause.value));
      } else {
        c := Append(Link(kind, parent), FRESH.(pending := true));
      }
    }

    /** The rest of propagateCancel, under the owner's mutex. */
    method Register(c: Id)
      requires Valid() && Enabled(Value(), Action.Register(c))
      modifies this
      ensures old(Owner(tree, c)).Some? && Valid() && Value() == Apply(old(Value()), Action.Register(c))
    {
      hide Invariant, Chain;
      InvariantShape(Value());
      StepKeeps(Value(), Action.Register(c));
      PendingFields(Value(), c);
      var p := FindCancelCtx(tree[c].parent);
      ghost var before := nodes;
      Lock(p.value);
      nodes := nodes[c := nodes[c].(pending := false)];
      if nodes[p.value].err.Some? {
        ChildlessSubtree(tree, nodes, c, nodes[p.value].err.value, nodes[p.value].cause.value);
        PendingReady(tree, before, c);
        var _ := CancelChild(c, nodes[p.value].err.value, nodes[p.value].cause.value);
      } else {
        nodes := nodes[p.value := nodes[p.value].(children := nodes[p.value].children + {c})];
      }
      Unlock(p.value);
    }
  }

  /** Goroutines that hold and want mutexes as the methods acquire them never wait for one another in a
      circle, however many they are. */
  lemma NoCircleOfWaits(t: Contexts, gs: seq<Goroutine>)
    requires t.Valid() && gs != []
    requires forall i | 0 <= i < |gs| :: Recorded(gs[i], t.acquired)
    requires forall i | 0 <= i < |gs| - 1 :: WaitsFor(gs[i], gs[i + 1])
    ensures !WaitsFor(gs[|gs| - 1], gs[0])
  {
    hide Invariant;
    var circle := gs + [gs[0]];
    if WaitsFor(gs[|gs| - 1], gs[0]) {
      InvariantShape(t.Value());
      forall i | 0 <= i < |circle| && circle[i].wants.Some?
        ensures InOrder(t.tree, circle[i].held, circle[i].wants.value)
      {
        assert Recorded(if i < |gs| then gs[i] else gs[0], t.acquired);
      }
      WaitsClimb(t.tree, circle);
    }
  }

  // ----- facts the methods use about a valid forest

  lemma StopFields(f: Forest, c: Id)
    requires Invariant(f) && UsableKind(f, c) && f.nodes[c].once.Unused?
    ensures Invariant(f.(nodes := f.nodes[c := f.nodes[c].(once := Stopped)]))
  {
    assert NodeOk(f.tree[c].kind, f.nodes[c]);
    FieldKeeps(f, c, f.nodes[c].(once := Stopped));
  }

  lemma StoppedStays(f: Forest, c: Id)
    requires WellFormed(f.tree) && UsableKind(f, c) && f.nodes[c].once.Stopped?
    ensures ApplyCancel(f, c, true, Canceled, None).nodes[c].once.Stopped?
  {
    hide CancelSubtree, RemoveFromOwner;
    SubtreeNode(f, c, Canceled, Canceled, c);
    RemoveNode(f, CancelSubtree(f.tree, f.nodes, c, Canceled, Canceled), c, c);
  }

  lemma DoneMeansErr(f: Forest, p: Id)
    requires Invariant(f) && p < |f.tree| && Cancellable(f.tree[p].kind)
    ensures Closed(f.nodes[p].done) <==> f.nodes[p].err.Some? && f.nodes[p].cause.Some?
    ensures InOrder(f.tree, [], p)
  {
    assert NodeOk(f.tree[p].kind, f.nodes[p]);
  }

  lemma PendingFields(f: Forest, c: Id)
    requires Invariant(f) && Enabled(f, Action.Register(c))
    ensures Owner(f.tree, c).Some?
    ensures var p := Owner(f.tree, c).value;
            && (f.nodes[p].err.Some? <==> f.nodes[p].cause.Some?)
            && InOrder(f.tree, [], p) && InOrder(f.tree, [p], c)
    ensures f.nodes[c].err.None? && f.nodes[c].children == {}
    ensures Ready(f.tree, f.nodes, c)
  {
    assert NodeOk(f.tree[c].kind, f.nodes[c]) && LinksOk(f, c);
    var p := Owner(f.tree, c).value;
    assert NodeOk(f.tree[p].kind, f.nodes[p]);
    ForestReady(f, c);
  }

  lemma PendingReady(tree: seq<Link>, nodes: seq<Node>, c: Id)
    requires WellFormed(tree) && |tree| == |nodes| && c < |tree| && Ready(tree, nodes, c)
    ensures Ready(tree, nodes[c := nodes[c].(pending := false)], c)
  {
  }

  lemma ForestReady(f: Forest, c: Id)
    requires Invariant(f)
    ensures Ready(f.tree, f.nodes, c)
  {
    forall k | c <= k < |f.tree|
      ensures && ChildrenOf(f.tree, k, f.nodes[k].children)
              && (f.nodes[k].timer ==> f.tree[k].kind.TimerCtx?)
              && (f.nodes[k].err.Some? <==> Closed(f.nodes[k].done))
              && (f.nodes[k].err.Some? ==> !f.nodes[k].timer && (f.tree[k].kind.AfterFuncCtx? ==> !f.nodes[k].once.Unused?))
    {
      if Cancellable(f.tree[k].kind) { assert NodeOk(f.tree[k].kind, f.nodes[k]); }
      forall d | d in f.nodes[k].children
        ensures k < d < |f.tree| && Cancellable(f.tree[d].kind) && Owner(f.tree, d) == Some(k)
      {
        assert ChildOk(f, k, d);
      }
    }
  }

  /** A context without children is its own whole subtree. */
  lemma ChildlessSubtree(tree: seq<Link>, nodes: seq<Node>, c: Id, err: Error, cause: Error)
    requires WellFormed(tree) && |tree| == |nodes| && c < |tree| && Cancellable(tree[c].kind)
    requires nodes[c].err.None? && nodes[c].children == {}
    ensures CancelSubtree(tree, nodes, c, err, cause) == nodes[c := Cancelled(tree[c].kind, nodes[c], err, cause)]
  {
    NothingBelow(tree, nodes);
    forall k | 0 <= k < |tree| && k != c
      ensures CancelSubtree(tree, nodes, c, err, cause)[k] == nodes[k]
    {
      BelowChildren(tree, nodes, c, k);
    }
  }
}
