/** Cancelling as other goroutines see it: a call of cancel in src/context/context.go marks a context and
    closes its channel, and then cancels the children one at a time, holding the mutexes of the contexts it
    is inside; between these steps other goroutines cancel, create and remove contexts. */
module ContextSteps {
  import opened Basics
  import opened Context
  import ContextTree

  /** A context whose mutex a call holds, and its children that the loop has not come to. */
  datatype Frame = Frame(ctx: Id, todo: set<Id>)

  /** A top-level call of cancel: the contexts it is inside, the outermost first, and the one whose mutex it
      waits for.  It has returned when it is in no context and waits for none. */
  datatype Call = Call(target: Id, err: Error, cause: Error, remove: bool, frames: seq<Frame>, wants: Option<Id>)

  datatype State = State(f: Forest, calls: seq<Call>)

  datatype Step =
    | Lone(a: Action)                       // a step of module Context that does not cancel
    | Start(id: Id, remove: bool, err: Error, cause: Option<Error>)
    | Enter(i: nat)                         // takes the mutex; marks the context, or finds it marked
    | Visit(i: nat, d: Id)                  // goes on to a child
    | Leave(i: nat)                         // forgets the children and releases the mutex
    | Remove(i: nat)                        // removeChild, after the cancel

  const ALONE := State(INITIAL, [])

  // ----- the steps

  predicate Returned(c: Call) { c.frames == [] && c.wants.None? }

  predicate HoldsAt(calls: seq<Call>, i: int, j: int, id: Id) {
    0 <= i < |calls| && 0 <= j < |calls[i].frames| && calls[i].frames[j].ctx == id
  }

  ghost predicate Locked(calls: seq<Call>, id: Id) { exists i, j :: HoldsAt(calls, i, j, id) }

  ghost predicate Shape(f: Forest) { WellFormed(f.tree) && |f.tree| == |f.nodes| }

  /** The mutexes that a step of module Context takes must be free. */
  ghost predicate LonePossible(s: State, a: Action)
    requires Shape(s.f)
  {
    Enabled(s.f, a) &&
    match a
    case NewValue(_, _, _) => true
    case NewWithoutCancel(_) => true
    case CallDone(_) => true          // a channel that is still to be made belongs to a context no call is in
    case StartTimer(id) => !Locked(s.calls, id)
    case Begin(parent, _) => var p := Nearest(s.f.tree, parent); p.Some? ==> !Locked(s.calls, p.value)
    case Register(id) => var p := Owner(s.f.tree, id); p.Some? && !Locked(s.calls, p.value)
    case Cancel(_, _, _, _) => false
    case Stop(_) => false
  }

  function Top(c: Call): Frame
    requires c.frames != []
  {
    c.frames[|c.frames| - 1]
  }

  ghost predicate Possible(s: State, a: Step)
    requires Shape(s.f)
  {
    match a
    case Lone(b) => LonePossible(s, b)
    case Start(id, _, _, _) => UsableKind(s.f, id)
    case Enter(i) => i < |s.calls| && s.calls[i].wants.Some? && CanEnter(s, s.calls[i].wants.value)
    case Visit(i, d) =>
      i < |s.calls| && s.calls[i].wants.None? && s.calls[i].frames != [] && d in Top(s.calls[i]).todo
    case Leave(i) =>
      && i < |s.calls| && s.calls[i].wants.None? && s.calls[i].frames != []
      && Top(s.calls[i]).todo == {} && Top(s.calls[i]).ctx < |s.f.nodes|
    case Remove(i) =>
      && i < |s.calls| && Returned(s.calls[i]) && s.calls[i].remove && UsableKind(s.f, s.calls[i].target)
      && var p := Owner(s.f.tree, s.calls[i].target);
         p.Some? ==> !Locked(s.calls, p.value) || s.f.nodes[p.value].done.SharedClosed?
  }

  ghost predicate CanEnter(s: State, w: Id) { w < |s.f.tree| && w < |s.f.nodes| && !Locked(s.calls, w) }

  /** A call goes into a context: a plain context that was cancelled before makes it return at once. */
  function EnterOne(f: Forest, c: Call, w: Id): (Forest, Call)
    requires w < |f.tree| == |f.nodes|
  {
    var n := f.nodes[w];
    if n.err.Some? then (f, c.(wants := None, remove := c.remove && !(c.frames == [] && f.tree[w].kind.CancelCtx?)))
    else (f.(nodes := f.nodes[w := ContextTree.CoreCancelled(n, c.err, c.cause)]),
          c.(wants := None, frames := c.frames + [Frame(w, n.children)]))
  }

  function VisitOne(c: Call, d: Id): Call
    requires c.frames != []
  {
    var last := |c.frames| - 1;
    c.(wants := Some(d), frames := c.frames[last := Frame(c.frames[last].ctx, c.frames[last].todo - {d})])
  }

  ghost function Take(s: State, a: Step): State
    requires Shape(s.f) && Possible(s, a)
  {
    match a
    case Lone(b) => s.(f := Apply(s.f, b))
    case Start(id, remove, err, cause) =>
      var why := if cause.None? then err else cause.value;
      State(s.f.(log := s.f.log + [Event(id, err, why)]), s.calls + [Call(id, err, why, remove, [], Some(id))])
    case Enter(i) =>
      var (f, c) := EnterOne(s.f, s.calls[i], s.calls[i].wants.value);
      State(f, s.calls[i := c])
    case Visit(i, d) => s.(calls := s.calls[i := VisitOne(s.calls[i], d)])
    case Leave(i) =>
      var c := s.calls[i];
      State(s.f.(nodes := s.f.nodes[Top(c).ctx := s.f.nodes[Top(c).ctx].(children := {})]),
            s.calls[i := c.(frames := c.frames[..|c.frames| - 1])])
    case Remove(i) =>
      State(s.f.(nodes := RemoveFromOwner(s.f.tree, s.f.nodes, s.calls[i].target)),
            s.calls[i := s.calls[i].(remove := false)])
  }

  // ----- what every reachable state satisfies

  /** A context that is in use and that the cancel of c is to reach. */
  predicate Under(f: Forest, c: Id, k: Id)
    requires Shape(f)
  {
    k < |f.tree| && Cancellable(f.tree[k].kind) && !f.nodes[k].pending && c in Chain(f.tree, k)
  }

  ghost predicate AllDead(f: Forest, c: Id)
    requires Shape(f)
  {
    forall k | 0 <= k < |f.tree| && Under(f, c, k) :: f.nodes[k].err.Some?
  }

  /** A context's own fields agree with each other. */
  predicate FieldsOk(n: Node) {
    && (n.err.Some? <==> n.cause.Some?)
    && (n.err.Some? <==> Closed(n.done))
    && (n.pending ==> n.err.None?)
  }

  /** A context's owner is in use, and a context in use carries an outcome that some cancel above it asked for. */
  ghost predicate PlaceOk(f: Forest, k: Id)
    requires Shape(f) && k < |f.tree| && Cancellable(f.tree[k].kind)
  {
    var p := Owner(f.tree, k);
    && (p.Some? ==> !f.nodes[p.value].pending)
    && (f.nodes[k].pending ==> p.Some?)
    && (f.nodes[k].err.Some? ==> exists e :: e in f.log && Blamed(f, k, e))
  }

  predicate Blamed(f: Forest, k: Id, e: Event)
    requires Shape(f) && k < |f.tree| && Cancellable(f.tree[k].kind)
  {
    e.target in Chain(f.tree, k) && f.nodes[k].err == Some(e.err) && f.nodes[k].cause == Some(e.cause)
  }

  ghost predicate ForestOk(f: Forest)
    ensures ForestOk(f) ==> Shape(f)
  {
    && Shape(f)
    && (forall k | 0 <= k < |f.tree| && Cancellable(f.tree[k].kind) :: FieldsOk(f.nodes[k]) && PlaceOk(f, k))
    && (forall k, c | 0 <= k < |f.tree| && c in f.nodes[k].children :: ChildOk(f, k, c))
    && (forall k | 0 <= k < |f.tree| && f.tree[k].kind.ValueCtx? :: !f.nodes[f.tree[k].parent].pending)
    && (forall k | 0 <= k < |f.tree| && !Cancellable(f.tree[k].kind) :: !f.nodes[k].pending)
  }

  predicate FrameOk(f: Forest, c: Call, j: nat)
    requires Shape(f) && j < |c.frames|
  {
    var x := c.frames[j].ctx;
    && Under(f, c.target, x) && f.nodes[x].err.Some?
    && (forall d | d in c.frames[j].todo :: ChildOk(f, x, d))
    && (if j == 0 then x == c.target else Owner(f.tree, x) == Some(c.frames[j - 1].ctx))
    && (forall i | 0 <= i < j :: c.frames[i].ctx < x)
  }

  predicate WantsOk(f: Forest, c: Call)
    requires Shape(f) && c.wants.Some?
  {
    var w := c.wants.value;
    && Under(f, c.target, w)
    && (if c.frames == [] then w == c.target else Owner(f.tree, w) == Some(Top(c).ctx))
    && (forall i | 0 <= i < |c.frames| :: c.frames[i].ctx < w)
  }

  /** A call is inside a chain of cancelled contexts; when it has returned, all under its target are cancelled. */
  ghost predicate CallOk(f: Forest, c: Call)
    requires Shape(f)
  {
    && UsableKind(f, c.target) && Event(c.target, c.err, c.cause) in f.log
    && (forall j | 0 <= j < |c.frames| :: FrameOk(f, c, j))
    && (c.wants.Some? ==> WantsOk(f, c))
    && (Returned(c) ==> AllDead(f, c.target))
  }

  /** k is the child that the call is at in its j-th context. */
  predicate Current(c: Call, j: nat, k: Id)
    requires j < |c.frames|
  {
    if j == |c.frames| - 1 then c.wants == Some(k) else c.frames[j + 1].ctx == k
  }

  /** A call that is inside p has k still to come to, or is at it. */
  predicate CoveredAt(calls: seq<Call>, i: int, j: int, p: Id, k: Id) {
    HoldsAt(calls, i, j, p) && (k in calls[i].frames[j].todo || Current(calls[i], j, k))
  }

  ghost predicate Covered(calls: seq<Call>, p: Id, k: Id) { exists i, j :: CoveredAt(calls, i, j, p, k) }

  /** k is not lost: all under it are cancelled, or its owner is not cancelled and knows it, or the call that is
      inside its owner comes to it. */
  ghost predicate Settled(s: State, k: Id)
    requires Shape(s.f) && k < |s.f.tree| && Cancellable(s.f.tree[k].kind)
  {
    var p := Owner(s.f.tree, k);
    p.Some? ==>
      AllDead(s.f, k) || (s.f.nodes[p.value].err.None? && k in s.f.nodes[p.value].children) || Covered(s.calls, p.value, k)
  }

  /** A mutex has one holder, who takes it once. */
  ghost predicate Exclusive(calls: seq<Call>) {
    forall i, j, i', j' | 0 <= i < |calls| && 0 <= i' < |calls| && 0 <= j < |calls[i].frames| && 0 <= j' < |calls[i'].frames| ::
      calls[i].frames[j].ctx == calls[i'].frames[j'].ctx ==> i == i' && j == j'
  }

  ghost predicate AllSettled(s: State)
    requires Shape(s.f)
  {
    forall k | 0 <= k < |s.f.tree| && Cancellable(s.f.tree[k].kind) && !s.f.nodes[k].pending :: Settled(s, k)
  }

  /** While something under a cancelled context is not cancelled, a call is inside that context. */
  ghost predicate AllGuarded(s: State)
    requires Shape(s.f)
  {
    forall p | 0 <= p < |s.f.tree| && Cancellable(s.f.tree[p].kind) && s.f.nodes[p].err.Some? ::
      AllDead(s.f, p) || Locked(s.calls, p)
  }

  ghost predicate AllCallsOk(s: State)
    requires Shape(s.f)
  {
    forall i | 0 <= i < |s.calls| :: CallOk(s.f, s.calls[i])
  }

  ghost predicate Sound(s: State)
    ensures Sound(s) ==> Shape(s.f)
  {
    ForestOk(s.f) && AllCallsOk(s) && Exclusive(s.calls) && AllSettled(s) && AllGuarded(s)
  }

  lemma AloneIsSound()
    ensures Sound(ALONE)
  {
  }

  // ----- what no step undoes

  /** A context keeps its place, a context in use stays in use, and an outcome stays. */
  ghost predicate Kept(f: Forest, f': Forest, k: Id)
    requires Shape(f) && Shape(f') && k < |f.tree| && k < |f'.tree|
  {
    && f'.tree[k] == f.tree[k]
    && (Cancellable(f.tree[k].kind) ==> Owner(f'.tree, k) == Owner(f.tree, k) && Chain(f'.tree, k) == Chain(f.tree, k))
    && (!f.nodes[k].pending ==> !f'.nodes[k].pending)
    && (f.nodes[k].err.Some? ==> f'.nodes[k].err == f.nodes[k].err && f'.nodes[k].cause == f.nodes[k].cause && f'.nodes[k].done == f.nodes[k].done)
  }

  /** A context that comes into use under a cancelled owner is cancelled. */
  predicate Joins(f: Forest, k: Id)
    requires Shape(f) && k < |f.tree| && Cancellable(f.tree[k].kind)
  {
    var p := Owner(f.tree, k);
    p.Some? && f.nodes[p.value].err.Some? ==> f.nodes[k].err.Some?
  }

  ghost predicate Later(f: Forest, f': Forest)
    requires Shape(f) && Shape(f')
  {
    && |f.tree| <= |f'.tree|
    && (forall e | e in f.log :: e in f'.log)
    && (forall k | 0 <= k < |f.tree| :: Kept(f, f', k))
    && (forall k | 0 <= k < |f'.tree| && Cancellable(f'.tree[k].kind) && !f'.nodes[k].pending && (k < |f.tree| ==> f.nodes[k].pending) ::
          Joins(f', k))
  }

  /** What was all cancelled stays all cancelled, whatever is created since. */
  lemma {:induction false} DeadLater(f: Forest, f': Forest, c: Id, k: Id)
    requires ForestOk(f) && ForestOk(f') && Later(f, f')
    requires c < |f.tree| && !f.nodes[c].pending && AllDead(f, c) && Under(f', c, k)
    ensures f'.nodes[k].err.Some?
    decreases k
  {
    hide Chain, Owner;
    if k < |f.tree| && !f.nodes[k].pending {
      assert Kept(f, f', k);
      assert Under(f, c, k);
    } else {
      assert Joins(f', k);
      ChainStep(f'.tree, c, k);
      assert PlaceOk(f', k);
      DeadLater(f, f', c, Owner(f'.tree, k).value);
    }
  }

  lemma ChainStep(tree: seq<Link>, c: Id, k: Id)
    requires WellFormed(tree) && k < |tree| && Cancellable(tree[k].kind) && c in Chain(tree, k) && c != k
    ensures Owner(tree, k).Some? && c in Chain(tree, Owner(tree, k).value)
  {
  }

  lemma AllDeadLater(f: Forest, f': Forest, c: Id)
    requires ForestOk(f) && ForestOk(f') && Later(f, f')
    requires c < |f.tree| && !f.nodes[c].pending && AllDead(f, c)
    ensures AllDead(f', c)
  {
    hide ForestOk, Later, Under;
    forall k | 0 <= k < |f'.tree| && Under(f', c, k)
      ensures f'.nodes[k].err.Some?
    {
      DeadLater(f, f', c, k);
    }
  }

  lemma ChildLater(f: Forest, f': Forest, k: Id, c: Id)
    requires Shape(f) && Shape(f') && Later(f, f') && ChildOk(f, k, c)
    ensures ChildOk(f', k, c)
  {
    assert Kept(f, f', c);
  }

  lemma UnderLater(f: Forest, f': Forest, c: Id, k: Id)
    requires Shape(f) && Shape(f') && Later(f, f') && Under(f, c, k)
    ensures Under(f', c, k)
  {
    assert Kept(f, f', k);
  }

  lemma CallLater(f: Forest, f': Forest, c: Call)
    requires ForestOk(f) && ForestOk(f') && Later(f, f') && CallOk(f, c)
    ensures CallOk(f', c)
  {
    hide ForestOk, Under, ChildOk, Chain;
    assert Kept(f, f', c.target);
    forall j | 0 <= j < |c.frames|
      ensures FrameOk(f', c, j)
    {
      FrameLater(f, f', c, j);
    }
    if c.wants.Some? {
      UnderLater(f, f', c.target, c.wants.value);
      assert c.wants.value < |f.tree| by { UnderMeans(f, c.target, c.wants.value); }
      assert Kept(f, f', c.wants.value);
    }
    if Returned(c) {
      AllDeadLater(f, f', c.target);
    }
  }

  lemma UnderMeans(f: Forest, c: Id, k: Id)
    requires Shape(f) && Under(f, c, k)
    ensures k < |f.tree| && Cancellable(f.tree[k].kind) && !f.nodes[k].pending
  {
  }

  lemma FrameLater(f: Forest, f': Forest, c: Call, j: nat)
    requires Shape(f) && Shape(f') && Later(f, f') && j < |c.frames| && FrameOk(f, c, j)
    ensures FrameOk(f', c, j)
  {
    hide Under, ChildOk, Chain;
    var x := c.frames[j].ctx;
    UnderMeans(f, c.target, x);
    UnderLater(f, f', c.target, x);
    assert Kept(f, f', x);
    forall d | d in c.frames[j].todo
      ensures ChildOk(f', x, d)
    {
      ChildLater(f, f', x, d);
    }
  }

  // ----- the steps that do not cancel

  /** Contexts in use keep their outcome and children; one that comes into use is settled; one that is
      cancelled on coming into use has nothing under it. */
  ghost predicate Newcomer(f: Forest, k: Id)
    requires Shape(f) && k < |f.tree| && Cancellable(f.tree[k].kind)
  {
    var p := Owner(f.tree, k);
    && (p.Some? ==> AllDead(f, k) || (f.nodes[p.value].err.None? && k in f.nodes[p.value].children))
    && (f.nodes[k].err.Some? ==> AllDead(f, k))
  }

  ghost predicate Undisturbed(f: Forest, f': Forest)
    requires Shape(f) && Shape(f')
  {
    && |f.tree| <= |f'.tree|
    && (forall p | 0 <= p < |f.tree| && !f.nodes[p].pending ::
          f'.nodes[p].err == f.nodes[p].err && f.nodes[p].children <= f'.nodes[p].children)
    && (forall k | 0 <= k < |f'.tree| && Cancellable(f'.tree[k].kind) && !f'.nodes[k].pending && (k < |f.tree| ==> f.nodes[k].pending) ::
          Newcomer(f', k))
  }

  lemma LoneSettled(s: State, f': Forest, k: Id)
    requires Sound(s) && ForestOk(f') && Later(s.f, f') && Undisturbed(s.f, f')
    requires k < |f'.tree| && Cancellable(f'.tree[k].kind) && !f'.nodes[k].pending
    ensures Settled(State(f', s.calls), k)
  {
    hide Chain, AllCallsOk, Exclusive, AllGuarded, AllDead, Covered;
    if k < |s.f.tree| && !s.f.nodes[k].pending {
      assert Kept(s.f, f', k) && Settled(s, k);
      var p := Owner(s.f.tree, k);
      if AllDead(s.f, k) {
        AllDeadLater(s.f, f', k);
      }
      assert PlaceOk(s.f, k);
    } else {
      assert Newcomer(f', k);
    }
  }

  lemma LoneGuarded(s: State, f': Forest, p: Id)
    requires Sound(s) && ForestOk(f') && Later(s.f, f') && Undisturbed(s.f, f')
    requires p < |f'.tree| && Cancellable(f'.tree[p].kind) && f'.nodes[p].err.Some?
    ensures AllDead(f', p) || Locked(s.calls, p)
  {
    hide Chain, AllCallsOk, Exclusive, AllSettled, AllDead, Locked;
    assert FieldsOk(f'.nodes[p]);
    if p < |s.f.tree| && !s.f.nodes[p].pending {
      assert Kept(s.f, f', p);
      if AllDead(s.f, p) {
        AllDeadLater(s.f, f', p);
      }
    } else {
      assert Newcomer(f', p);
    }
  }

  lemma LoneKeeps(s: State, f': Forest)
    requires Sound(s) && ForestOk(f') && Later(s.f, f') && Undisturbed(s.f, f')
    ensures Sound(State(f', s.calls))
  {
    hide ForestOk, Later, Undisturbed, CallOk, Settled, AllDead, Locked;
    forall i | 0 <= i < |s.calls|
      ensures CallOk(f', s.calls[i])
    {
      CallLater(s.f, f', s.calls[i]);
    }
    forall k | 0 <= k < |f'.tree| && Cancellable(f'.tree[k].kind) && !f'.nodes[k].pending
      ensures Settled(State(f', s.calls), k)
    {
      LoneSettled(s, f', k);
    }
    forall p | 0 <= p < |f'.tree| && Cancellable(f'.tree[p].kind) && f'.nodes[p].err.Some?
      ensures AllDead(f', p) || Locked(s.calls, p)
    {
      LoneGuarded(s, f', p);
    }
  }

  /** Changing the fields of contexts, but not the tree. */
  ghost predicate FieldsLater(f: Forest, f': Forest, k: Id)
    requires Shape(f) && f'.tree == f.tree && |f'.nodes| == |f.nodes| && k < |f.tree|
  {
    var n, n' := f.nodes[k], f'.nodes[k];
    && (n'.pending ==> n.pending)
    && (n.err.Some? ==> n'.err == n.err && n'.cause == n.cause && n'.done == n.done)
    && (Cancellable(f.tree[k].kind) ==>
          && FieldsOk(n')
          && (n.err.None? && n'.err.Some? ==> exists e :: e in f'.log && Blamed(f', k, e))
          && (n.pending && !n'.pending ==> Joins(f', k)))
    && (forall c | c in n'.children :: ChildOk(f', k, c))
  }

  lemma SameTree(f: Forest, f': Forest)
    requires ForestOk(f) && f'.tree == f.tree && |f'.nodes| == |f.nodes|
    requires forall e | e in f.log :: e in f'.log
    requires forall k | 0 <= k < |f.tree| :: FieldsLater(f, f', k)
    ensures ForestOk(f') && Later(f, f')
  {
    hide Chain, Owner, ChildOk, FieldsOk, Joins;
    forall k | 0 <= k < |f.tree| && Cancellable(f.tree[k].kind)
      ensures FieldsOk(f'.nodes[k]) && PlaceOk(f', k)
    {
      assert FieldsLater(f, f', k);
      OwnerInUse(f, f', k);
      if f.nodes[k].err.Some? {
        var e :| e in f.log && Blamed(f, k, e);
        assert e in f'.log && Blamed(f', k, e);
      }
    }
    forall k, c | 0 <= k < |f.tree| && c in f'.nodes[k].children
      ensures ChildOk(f', k, c)
    {
      assert FieldsLater(f, f', k);
    }
    forall k | 0 <= k < |f.tree| && !Cancellable(f.tree[k].kind)
      ensures !f'.nodes[k].pending
    {
      assert FieldsLater(f, f', k);
    }
    forall k | 0 <= k < |f.tree| && f.tree[k].kind.ValueCtx?
      ensures !f'.nodes[f.tree[k].parent].pending
    {
      assert FieldsLater(f, f', f.tree[k].parent);
    }
    forall k | 0 <= k < |f.tree|
      ensures Kept(f, f', k)
    {
      assert FieldsLater(f, f', k);
    }
    forall k | 0 <= k < |f'.tree| && Cancellable(f'.tree[k].kind) && !f'.nodes[k].pending && f.nodes[k].pending
      ensures Joins(f', k)
    {
      assert FieldsLater(f, f', k);
    }
  }

  lemma OwnerInUse(f: Forest, f': Forest, k: Id)
    requires ForestOk(f) && f'.tree == f.tree && |f'.nodes| == |f.nodes|
    requires forall k | 0 <= k < |f.tree| :: FieldsLater(f, f', k)
    requires k < |f.tree| && Cancellable(f.tree[k].kind)
    ensures var p := Owner(f.tree, k); (p.Some? ==> !f'.nodes[p.value].pending) && (f'.nodes[k].pending ==> p.Some?)
  {
    assert PlaceOk(f, k);
    var p := Owner(f.tree, k);
    assert p.Some? ==> FieldsLater(f, f', p.value);
    assert FieldsLater(f, f', k);
  }

  /** Changing one context's channel or timer. */
  lemma SmallChange(f: Forest, p: Id, n: Node)
    requires ForestOk(f) && p < |f.tree| && n == f.nodes[p].(done := n.done, timer := n.timer)
    requires f.nodes[p].err.Some? ==> n.done == f.nodes[p].done
    requires Cancellable(f.tree[p].kind) ==> FieldsOk(n)
    ensures var f' := f.(nodes := f.nodes[p := n]); ForestOk(f') && Later(f, f') && Undisturbed(f, f')
  {
    hide Chain, Owner;
    var f' := f.(nodes := f.nodes[p := n]);
    forall k | 0 <= k < |f.tree|
      ensures FieldsLater(f, f', k)
    {
      forall c | c in f'.nodes[k].children
        ensures ChildOk(f', k, c)
      {
        assert ChildOk(f, k, c);
      }
    }
    SameTree(f, f');
  }

  lemma EnsureDoneSmall(f: Forest, p: Id)
    requires ForestOk(f) && p < |f.tree| && Cancellable(f.tree[p].kind)
    ensures var f' := f.(nodes := EnsureDone(f.nodes, p)); ForestOk(f') && Later(f, f') && Undisturbed(f, f')
  {
    hide ForestOk, Later, Undisturbed;
    var n := f.nodes[p];
    assert FieldsOk(n) by { FieldsOf(f, p); }
    var n' := if n.done.NilDone? then n.(done := OpenDone) else n;
    SmallChange(f, p, n');
    assert EnsureDone(f.nodes, p) == f.nodes[p := n'];
  }

  lemma FieldsOf(f: Forest, k: Id)
    requires ForestOk(f) && k < |f.tree| && Cancellable(f.tree[k].kind)
    ensures FieldsOk(f.nodes[k]) && PlaceOk(f, k)
  {
  }

  /** A context in creation owns nothing. */
  lemma {:induction false} NobodyBelow(f: Forest, id: Id, k: Id)
    requires ForestOk(f) && id < |f.tree| && f.nodes[id].pending
    requires k < |f.tree| && Cancellable(f.tree[k].kind) && id in Chain(f.tree, k)
    ensures k == id
    decreases k
  {
    if k != id {
      ChainStep(f.tree, id, k);
      FieldsOf(f, k);
      NobodyBelow(f, id, Owner(f.tree, k).value);
    }
  }

  /** The rest of a registration, its owner's mutex being free. */
  lemma RegisterSound(s: State, id: Id)
    requires Sound(s) && LonePossible(s, Register(id))
    ensures Sound(State(ApplyRegister(s.f, id), s.calls)) && Later(s.f, ApplyRegister(s.f, id))
  {
    hide AllCallsOk, Exclusive, AllSettled, AllGuarded, Chain, Undisturbed, Later, ForestOk, Locked;
    var f, f' := s.f, ApplyRegister(s.f, id);
    FieldsOf(f, id);
    FieldsOf(f, Owner(f.tree, id).value);
    forall k | 0 <= k < |f.tree|
      ensures FieldsLater(f, f', k)
    {
      RegisterFields(f, id, k);
    }
    SameTree(f, f');
    RegisterUndisturbed(f, id);
    LoneKeeps(s, f');
  }

  lemma RegisterFields(f: Forest, id: Id, k: Id)
    requires ForestOk(f) && Enabled(f, Register(id)) && Owner(f.tree, id).Some? && k < |f.tree|
    ensures FieldsLater(f, ApplyRegister(f, id), k)
  {
    hide Earliest;
    var f', p := ApplyRegister(f, id), Owner(f.tree, id).value;
    FieldsOf(f, id);
    FieldsOf(f, p);
    if Cancellable(f.tree[k].kind) {
      FieldsOf(f, k);
    }
    forall c | c in f'.nodes[k].children
      ensures ChildOk(f', k, c)
    {
      if c in f.nodes[k].children {
        assert ChildOk(f, k, c);
      }
    }
    if k == id && f.nodes[p].err.Some? {
      var e :| e in f.log && Blamed(f, p, e);
      assert e in f'.log && Blamed(f', id, e);
    }
  }

  lemma RegisterUndisturbed(f: Forest, id: Id)
    requires ForestOk(f) && Enabled(f, Register(id)) && Owner(f.tree, id).Some?
    ensures Undisturbed(f, ApplyRegister(f, id))
  {
    hide Chain;
    var f', p := ApplyRegister(f, id), Owner(f.tree, id).value;
    FieldsOf(f, id);
    FieldsOf(f, p);
    forall k | 0 <= k < |f.tree| && Under(f', id, k)
      ensures k == id
    {
      NobodyBelow(f, id, k);
    }
    assert f'.nodes[id].err.Some? ==> AllDead(f', id);
    assert Newcomer(f', id);
  }

  /** A new context, at the end of the tree. */
  lemma AppendSound(s: State, l: Link, n: Node)
    requires Sound(s) && l.parent < |s.f.tree| && !l.kind.Background? && n.children == {}
    requires l.kind.ValueCtx? ==> !s.f.nodes[l.parent].pending
    requires WellFormed(s.f.tree + [l])
    requires if Cancellable(l.kind) then FieldsOk(n) && PlaceOk(Appended(s.f, l, n), |s.f.tree|) else !n.pending
    requires Cancellable(l.kind) && !n.pending ==> n.err.Some? || Owner(s.f.tree + [l], |s.f.tree|).None?
    ensures Sound(State(Appended(s.f, l, n), s.calls)) && Later(s.f, Appended(s.f, l, n))
  {
    hide AllCallsOk, Exclusive, AllSettled, AllGuarded, Chain, Undisturbed, Later;
    var f, f' := s.f, Appended(s.f, l, n);
    AppendKept(f, l, n);
    AppendForest(f, l, n);
    AppendUndisturbed(f, l, n);
    LoneKeeps(s, f');
  }

  function Appended(f: Forest, l: Link, n: Node): Forest {
    Forest(f.tree + [l], f.nodes + [n], f.log)
  }

  lemma AppendKept(f: Forest, l: Link, n: Node)
    requires Shape(f) && WellFormed(f.tree + [l])
    ensures forall k | 0 <= k < |f.tree| :: Kept(f, Appended(f, l, n), k)
  {
    hide Chain, Owner;
    forall k | 0 <= k < |f.tree|
      ensures Kept(f, Appended(f, l, n), k)
    {
      if Cancellable(f.tree[k].kind) {
        ChainExtends(f.tree, l, k);
      }
    }
  }

  lemma AppendForest(f: Forest, l: Link, n: Node)
    requires ForestOk(f) && l.parent < |f.tree| && !l.kind.Background? && n.children == {}
    requires l.kind.ValueCtx? ==> !f.nodes[l.parent].pending
    requires WellFormed(f.tree + [l])
    requires if Cancellable(l.kind) then FieldsOk(n) && PlaceOk(Appended(f, l, n), |f.tree|) else !n.pending
    requires forall k | 0 <= k < |f.tree| :: Kept(f, Appended(f, l, n), k)
    ensures ForestOk(Appended(f, l, n))
  {
    hide Chain, Owner, FieldsOk;
    var f' := Appended(f, l, n);
    forall k | 0 <= k < |f'.tree| && Cancellable(f'.tree[k].kind)
      ensures FieldsOk(f'.nodes[k]) && PlaceOk(f', k)
    {
      if k < |f.tree| {
        assert Kept(f, f', k) && FieldsOk(f.nodes[k]) && PlaceOk(f, k);
        if f.nodes[k].err.Some? {
          var e :| e in f.log && Blamed(f, k, e);
          assert e in f'.log && Blamed(f', k, e);
        }
      }
    }
    forall k, c | 0 <= k < |f'.tree| && c in f'.nodes[k].children
      ensures ChildOk(f', k, c)
    {
      assert ChildOk(f, k, c) && Kept(f, f', c);
    }
  }

  lemma AppendUndisturbed(f: Forest, l: Link, n: Node)
    requires ForestOk(f) && ForestOk(Appended(f, l, n)) && WellFormed(f.tree + [l])
    requires Cancellable(l.kind) && !n.pending ==> n.err.Some? || Owner(f.tree + [l], |f.tree|).None?
    requires forall k | 0 <= k < |f.tree| :: Kept(f, Appended(f, l, n), k)
    ensures Later(f, Appended(f, l, n)) && Undisturbed(f, Appended(f, l, n))
  {
    hide Owner, Chain, ForestOk, Kept;
    var f', id := Appended(f, l, n), |f.tree|;
    if Cancellable(l.kind) && !n.pending {
      LastIsAlone(f', id);
      assert Newcomer(f', id) && Joins(f', id);
    }
  }

  /** The context created last has nothing below it. */
  lemma LastIsAlone(f: Forest, id: Id)
    requires Shape(f) && |f.tree| == id + 1 && Cancellable(f.tree[id].kind)
    ensures f.nodes[id].err.Some? ==> AllDead(f, id)
  {
    hide Chain, Owner;
    assert forall k | 0 <= k < |f.tree| && Under(f, id, k) :: k == id;
  }

  lemma {:induction false} NearestInUse(f: Forest, c: Id)
    requires ForestOk(f) && Usable(f, c)
    ensures Nearest(f.tree, c).Some? ==> !f.nodes[Nearest(f.tree, c).value].pending
    decreases c
  {
    if f.tree[c].kind.ValueCtx? {
      NearestInUse(f, f.tree[c].parent);
    }
  }

  /** Creating a cancellable context, up to its registration. */
  lemma BeginSound(s: State, parent: Id, kind: Kind)
    requires Sound(s) && Usable(s.f, parent) && Cancellable(kind)
    ensures Sound(State(ApplyBegin(s.f, parent, kind), s.calls))
    ensures forall k | 0 <= k < |s.f.tree| :: Kept(s.f, ApplyBegin(s.f, parent, kind), k)
  {
    hide AllCallsOk, Exclusive, AllSettled, AllGuarded, Chain, Undisturbed, ForestOk;
    var f, l, p := s.f, Link(kind, parent), Nearest(s.f.tree, parent);
    var id := |f.tree|;
    NearestExtends(f.tree, l, parent);
    NearestInUse(f, parent);
    if p.None? {
      AppendSound(s, l, FRESH);
    } else {
      var n, f1 := f.nodes[p.value], f.(nodes := EnsureDone(f.nodes, p.value));
      EnsureDoneSmall(f, p.value);
      LoneKeeps(s, f1);
      FieldsOf(f, p.value);
      FieldsOf(f1, p.value);
      var n' := ApplyBegin(f, parent, kind).nodes[id];
      if n.err.Some? {
        BornDead(f1, l, n', p.value);
      }
      AppendSound(State(f1, s.calls), l, n');
      KeptTwice(f, f1, ApplyBegin(f, parent, kind));
    }
  }

  /** A context created under a cancelled owner has its owner's outcome. */
  lemma BornDead(f: Forest, l: Link, n: Node, p: Id)
    requires ForestOk(f) && Cancellable(l.kind) && WellFormed(f.tree + [l]) && l.parent < |f.tree|
    requires Owner(f.tree + [l], |f.tree|) == Some(p) && p < |f.tree| && Cancellable(f.tree[p].kind)
    requires f.nodes[p].err.Some? && n.err == f.nodes[p].err && n.cause == f.nodes[p].cause && !n.pending
    ensures PlaceOk(Appended(f, l, n), |f.tree|)
  {
    hide Owner, ForestOk, Chain;
    var f', id := Appended(f, l, n), |f.tree|;
    FieldsOf(f, p);
    var e :| e in f.log && Blamed(f, p, e);
    ChainExtends(f.tree, l, p);
    assert Chain(f'.tree, p) <= Chain(f'.tree, id) by { OwnChain(f'.tree, id); }
    assert e in f'.log && Blamed(f', id, e);
  }

  lemma OwnChain(tree: seq<Link>, k: Id)
    requires WellFormed(tree) && k < |tree| && Cancellable(tree[k].kind) && Owner(tree, k).Some?
    ensures Chain(tree, k) == {k} + Chain(tree, Owner(tree, k).value)
  {
  }

  lemma KeptTwice(f: Forest, f1: Forest, f2: Forest)
    requires Shape(f) && Shape(f1) && Shape(f2) && |f.tree| <= |f1.tree| <= |f2.tree|
    requires forall k | 0 <= k < |f.tree| :: Kept(f, f1, k)
    requires forall k | 0 <= k < |f1.tree| :: Kept(f1, f2, k)
    ensures forall k | 0 <= k < |f.tree| :: Kept(f, f2, k)
  {
    hide Chain, Owner;
    forall k | 0 <= k < |f.tree|
      ensures Kept(f, f2, k)
    {
      assert Kept(f, f1, k) && Kept(f1, f2, k);
    }
  }

  lemma LoneSound(s: State, a: Action)
    requires Sound(s) && LonePossible(s, a)
    ensures Sound(State(Apply(s.f, a), s.calls)) && |s.f.tree| <= |Apply(s.f, a).tree|
    ensures forall k | 0 <= k < |s.f.tree| :: Kept(s.f, Apply(s.f, a), k)
  {
    hide AllCallsOk, Exclusive, AllSettled, AllGuarded, Chain, Undisturbed, ForestOk, Locked;
    match a
    case NewValue(parent, key, val) => AppendSound(s, Link(ValueCtx(key, val), parent), FRESH);
    case NewWithoutCancel(parent) => AppendSound(s, Link(WithoutCancel, parent), FRESH);
    case Begin(parent, kind) => BeginSound(s, parent, kind);
    case Register(id) => RegisterSound(s, id);
    case CallDone(id) =>
      EnsureDoneSmall(s.f, id);
      LoneKeeps(s, Apply(s.f, a));
    case StartTimer(id) =>
      var n := s.f.nodes[id];
      FieldsOf(s.f, id);
      var n' := if n.err.None? then n.(timer := true) else n;
      SmallChange(s.f, id, n');
      assert Apply(s.f, a) == s.f.(nodes := s.f.nodes[id := n']);
      LoneKeeps(s, Apply(s.f, a));
  }

  // ----- the steps of a call

  lemma StartSound(s: State, id: Id, remove: bool, err: Error, cause: Option<Error>)
    requires Sound(s) && UsableKind(s.f, id)
    ensures Sound(Take(s, Start(id, remove, err, cause))) && Later(s.f, Take(s, Start(id, remove, err, cause)).f)
  {
    hide Chain, CallOk, ForestOk, AllDead, Undisturbed, Later, Locked, Covered;
    var s' := Take(s, Start(id, remove, err, cause));
    var f, f' := s.f, s'.f;
    forall k | 0 <= k < |f.tree|
      ensures FieldsLater(f, f', k)
    {
      SameFields(f, f', k);
    }
    SameTree(f, f');
    forall i | 0 <= i < |s'.calls|
      ensures CallOk(f', s'.calls[i])
    {
      if i < |s.calls| {
        CallLater(f, f', s.calls[i]);
      } else {
        StartedOk(f', s'.calls[i]);
      }
    }
    forall k | 0 <= k < |f.tree| && Cancellable(f.tree[k].kind) && !f.nodes[k].pending
      ensures Settled(s', k)
    {
      assert Settled(s, k);
      if AllDead(f, k) {
        AllDeadLater(f, f', k);
      }
      var p := Owner(f.tree, k);
      if p.Some? && Covered(s.calls, p.value, k) {
        MoreCalls(s.calls, s'.calls[|s.calls|], p.value, k);
      }
    }
    forall p | 0 <= p < |f.tree| && Cancellable(f.tree[p].kind) && f.nodes[p].err.Some?
      ensures AllDead(f', p) || Locked(s'.calls, p)
    {
      FieldsOf(f, p);
      if AllDead(f, p) {
        AllDeadLater(f, f', p);
      } else {
        MoreCalls(s.calls, s'.calls[|s.calls|], p, p);
      }
    }
  }

  lemma SameFields(f: Forest, f': Forest, k: Id)
    requires ForestOk(f) && f'.tree == f.tree && f'.nodes == f.nodes && k < |f.tree|
    ensures FieldsLater(f, f', k)
  {
    hide Chain, Owner;
    forall c | c in f'.nodes[k].children
      ensures ChildOk(f', k, c)
    {
      assert ChildOk(f, k, c);
    }
  }

  lemma StartedOk(f: Forest, c: Call)
    requires ForestOk(f) && UsableKind(f, c.target) && Event(c.target, c.err, c.cause) in f.log
    requires c.frames == [] && c.wants == Some(c.target)
    ensures CallOk(f, c)
  {
  }

  lemma MoreCalls(calls: seq<Call>, c: Call, p: Id, k: Id)
    ensures Covered(calls, p, k) ==> Covered(calls + [c], p, k)
    ensures Locked(calls, p) ==> Locked(calls + [c], p)
  {
    if Covered(calls, p, k) {
      var i, j :| CoveredAt(calls, i, j, p, k);
      assert CoveredAt(calls + [c], i, j, p, k);
    }
    if Locked(calls, p) {
      var i, j :| HoldsAt(calls, i, j, p);
      assert HoldsAt(calls + [c], i, j, p);
    }
  }

  lemma OtherCallsOk(s: State, f': Forest, i: nat, c: Call)
    requires Sound(s) && ForestOk(f') && Later(s.f, f') && i < |s.calls| && CallOk(f', c)
    ensures AllCallsOk(State(f', s.calls[i := c]))
  {
    hide CallOk, ForestOk, Later, AllSettled, AllGuarded, Exclusive;
    var calls := s.calls[i := c];
    forall k | 0 <= k < |calls|
      ensures CallOk(f', calls[k])
    {
      if k != i {
        CallLater(s.f, f', s.calls[k]);
      }
    }
  }

  /** What a call covers stays covered if the call still covers it after its step. */
  lemma StillCovered(calls: seq<Call>, i: nat, c: Call, p: Id, k: Id)
    requires i < |calls| && Covered(calls, p, k)
    requires forall j | CoveredAt(calls, i, j, p, k) :: Covered(calls[i := c], p, k)
    ensures Covered(calls[i := c], p, k)
  {
    hide Current;
    var i', j :| CoveredAt(calls, i', j, p, k);
    if i' != i {
      assert CoveredAt(calls[i := c], i', j, p, k);
    }
  }

  lemma StillLocked(calls: seq<Call>, i: nat, c: Call, p: Id)
    requires i < |calls| && Locked(calls, p)
    requires |calls[i].frames| <= |c.frames| && forall j | 0 <= j < |calls[i].frames| :: c.frames[j].ctx == calls[i].frames[j].ctx
    ensures Locked(calls[i := c], p)
  {
    var i', j :| HoldsAt(calls, i', j, p);
    assert HoldsAt(calls[i := c], i', j, p);
  }

  // ----- entering a context

  lemma MarkForest(f: Forest, c: Call, w: Id)
    requires ForestOk(f) && CallOk(f, c) && c.wants == Some(w) && w < |f.tree| && f.nodes[w].err.None?
    ensures var f' := EnterOne(f, c, w).0; ForestOk(f') && Later(f, f')
  {
    hide Chain, Owner, Later;
    var f' := EnterOne(f, c, w).0;
    var e := Event(c.target, c.err, c.cause);
    assert e in f'.log && Blamed(f', w, e);
    forall k | 0 <= k < |f.tree|
      ensures FieldsLater(f, f', k)
    {
      forall d | d in f'.nodes[k].children
        ensures ChildOk(f', k, d)
      {
        assert ChildOk(f, k, d);
      }
      if Cancellable(f.tree[k].kind) {
        FieldsOf(f, k);
      }
    }
    SameTree(f, f');
  }

  lemma EnteredOk(f: Forest, c: Call, w: Id)
    requires ForestOk(f) && CallOk(f, c) && c.wants == Some(w) && w < |f.tree| && f.nodes[w].err.None?
    requires var f' := EnterOne(f, c, w).0; ForestOk(f') && Later(f, f')
    ensures var (f', c') := EnterOne(f, c, w); CallOk(f', c')
  {
    hide Chain, Owner, ForestOk, AllDead;
    var (f', c') := EnterOne(f, c, w);
    CallLater(f, f', c);
    forall j | 0 <= j < |c'.frames|
      ensures FrameOk(f', c', j)
    {
      if j < |c.frames| {
        assert FrameOk(f', c, j);
      } else {
        forall d | d in f'.nodes[w].children
          ensures ChildOk(f', w, d)
        {
          ChildOf(f', w, d);
        }
        assert c'.frames[j] == Frame(w, f.nodes[w].children);
      }
    }
  }

  lemma ChildOf(f: Forest, k: Id, d: Id)
    requires ForestOk(f) && k < |f.tree| && d in f.nodes[k].children
    ensures ChildOk(f, k, d)
  {
  }

  lemma EnterCovers(calls: seq<Call>, i: nat, w: Id, todo: set<Id>, p: Id, k: Id)
    requires i < |calls| && calls[i].wants == Some(w)
    requires Covered(calls, p, k) || (p == w && k in todo)
    ensures Covered(calls[i := calls[i].(wants := None, frames := calls[i].frames + [Frame(w, todo)])], p, k)
  {
    var c := calls[i].(wants := None, frames := calls[i].frames + [Frame(w, todo)]);
    if p == w && k in todo {
      assert CoveredAt(calls[i := c], i, |calls[i].frames|, p, k);
    } else {
      forall j | CoveredAt(calls, i, j, p, k)
        ensures Covered(calls[i := c], p, k)
      {
        assert CoveredAt(calls[i := c], i, j, p, k);
      }
      StillCovered(calls, i, c, p, k);
    }
  }

  lemma EnterExclusive(calls: seq<Call>, i: nat, w: Id, todo: set<Id>)
    requires i < |calls| && Exclusive(calls) && !Locked(calls, w)
    ensures Exclusive(calls[i := calls[i].(wants := None, frames := calls[i].frames + [Frame(w, todo)])])
  {
    var calls' := calls[i := calls[i].(wants := None, frames := calls[i].frames + [Frame(w, todo)])];
    forall a, j, b, k | 0 <= a < |calls| && 0 <= b < |calls| && 0 <= j < |calls'[a].frames| && 0 <= k < |calls'[b].frames|
      ensures calls'[a].frames[j].ctx == calls'[b].frames[k].ctx ==> a == b && j == k
    {
      assert !HoldsAt(calls, a, j, w) && !HoldsAt(calls, b, k, w);
    }
  }

  lemma EnterSettled(s: State, i: nat, k: Id)
    requires Sound(s) && Possible(s, Enter(i)) && s.f.nodes[s.calls[i].wants.value].err.None?
    requires var f' := Take(s, Enter(i)).f; ForestOk(f') && Later(s.f, f')
    requires k < |s.f.tree| && Cancellable(s.f.tree[k].kind) && !s.f.nodes[k].pending
    ensures Settled(Take(s, Enter(i)), k)
  {
    hide ForestOk, Later, AllCallsOk, Exclusive, AllGuarded, Chain, AllDead, Covered, Locked;
    var f, s', w, p := s.f, Take(s, Enter(i)), s.calls[i].wants.value, Owner(s.f.tree, k);
    assert Settled(s, k);
    if p.Some? {
      if AllDead(f, k) {
        AllDeadLater(f, s'.f, k);
      } else if Covered(s.calls, p.value, k) || p.value == w {
        EnterCovers(s.calls, i, w, f.nodes[w].children, p.value, k);
      }
    }
  }

  lemma EnterGuarded(s: State, i: nat, p: Id)
    requires Sound(s) && Possible(s, Enter(i)) && s.f.nodes[s.calls[i].wants.value].err.None?
    requires var f' := Take(s, Enter(i)).f; ForestOk(f') && Later(s.f, f')
    requires var f' := Take(s, Enter(i)).f; p < |s.f.tree| && Cancellable(s.f.tree[p].kind) && f'.nodes[p].err.Some?
    ensures AllDead(Take(s, Enter(i)).f, p) || Locked(Take(s, Enter(i)).calls, p)
  {
    hide ForestOk, Later, AllCallsOk, Exclusive, AllSettled, Chain, AllDead, Locked;
    var s', w := Take(s, Enter(i)), s.calls[i].wants.value;
    if p == w {
      assert HoldsAt(s'.calls, i, |s.calls[i].frames|, w);
      HeldIsLocked(s'.calls, i, |s.calls[i].frames|, w);
    } else {
      FieldsOf(s.f, p);
      if AllDead(s.f, p) {
        AllDeadLater(s.f, s'.f, p);
      } else {
        StillLocked(s.calls, i, s'.calls[i], p);
      }
    }
  }

  lemma HeldIsLocked(calls: seq<Call>, i: int, j: int, p: Id)
    requires HoldsAt(calls, i, j, p)
    ensures Locked(calls, p)
  {
  }

  lemma EnterMarks(s: State, i: nat)
    requires Sound(s) && Possible(s, Enter(i)) && s.f.nodes[s.calls[i].wants.value].err.None?
    ensures Sound(Take(s, Enter(i))) && Later(s.f, Take(s, Enter(i)).f)
  {
    hide ForestOk, Later, CallOk, Settled, Chain, AllDead, Locked;
    var c, w, s' := s.calls[i], s.calls[i].wants.value, Take(s, Enter(i));
    assert CallOk(s.f, c);
    MarkForest(s.f, c, w);
    EnteredOk(s.f, c, w);
    OtherCallsOk(s, s'.f, i, s'.calls[i]);
    EnterExclusive(s.calls, i, w, s.f.nodes[w].children);
    forall k | 0 <= k < |s.f.tree| && Cancellable(s.f.tree[k].kind) && !s'.f.nodes[k].pending
      ensures Settled(s', k)
    {
      EnterSettled(s, i, k);
    }
    forall p | 0 <= p < |s.f.tree| && Cancellable(s.f.tree[p].kind) && s'.f.nodes[p].err.Some?
      ensures AllDead(s'.f, p) || Locked(s'.calls, p)
    {
      EnterGuarded(s, i, p);
    }
  }

  /** A call that finds its context marked, and its mutex free, goes no further: all under it are cancelled. */
  lemma EnterFindsMarked(s: State, i: nat)
    requires Sound(s) && Possible(s, Enter(i)) && s.f.nodes[s.calls[i].wants.value].err.Some?
    ensures Sound(Take(s, Enter(i))) && Later(s.f, Take(s, Enter(i)).f)
  {
    hide ForestOk, Chain, AllDead, Locked, Covered, Owner;
    var c, w, s' := s.calls[i], s.calls[i].wants.value, Take(s, Enter(i));
    assert CallOk(s.f, c) && Later(s.f, s.f);
    assert AllDead(s.f, w);
    GiveUpOk(s.f, c, s'.calls[i]);
    OtherCallsOk(s, s.f, i, s'.calls[i]);
    forall k | 0 <= k < |s.f.tree| && Cancellable(s.f.tree[k].kind) && !s.f.nodes[k].pending
      ensures Settled(s', k)
    {
      assert Settled(s, k);
      var p := Owner(s.f.tree, k);
      if p.Some? && k != w && Covered(s.calls, p.value, k) {
        GiveUpCovers(s.calls, i, s'.calls[i], p.value, k);
      }
    }
    forall p | 0 <= p < |s.f.tree| && Cancellable(s.f.tree[p].kind) && s.f.nodes[p].err.Some?
      ensures AllDead(s.f, p) || Locked(s'.calls, p)
    {
      if !AllDead(s.f, p) {
        StillLocked(s.calls, i, s'.calls[i], p);
      }
    }
  }

  lemma GiveUpOk(f: Forest, c: Call, c': Call)
    requires Shape(f) && CallOk(f, c) && c.wants.Some? && AllDead(f, c.wants.value)
    requires c' == c.(wants := None, remove := c'.remove)
    ensures CallOk(f, c')
  {
    hide AllDead, Under, ChildOk, Owner;
    forall j | 0 <= j < |c.frames|
      ensures FrameOk(f, c', j)
    {
      assert FrameOk(f, c, j);
    }
  }

  lemma GiveUpCovers(calls: seq<Call>, i: nat, c: Call, p: Id, k: Id)
    requires i < |calls| && c.frames == calls[i].frames && c.wants.None? && calls[i].wants != Some(k)
    requires Covered(calls, p, k)
    ensures Covered(calls[i := c], p, k)
  {
    forall j | CoveredAt(calls, i, j, p, k)
      ensures Covered(calls[i := c], p, k)
    {
      assert CoveredAt(calls[i := c], i, j, p, k);
    }
    StillCovered(calls, i, c, p, k);
  }

  // ----- the loop over the children, and the end of it

  lemma VisitSound(s: State, i: nat, d: Id)
    requires Sound(s) && Possible(s, Visit(i, d))
    ensures Sound(Take(s, Visit(i, d))) && Later(s.f, Take(s, Visit(i, d)).f)
  {
    hide ForestOk, Chain, AllDead, Locked, Covered, Owner;
    var c, s' := s.calls[i], Take(s, Visit(i, d));
    assert CallOk(s.f, c) && Later(s.f, s.f);
    VisitedOk(s.f, c, d);
    OtherCallsOk(s, s.f, i, s'.calls[i]);
    forall k | 0 <= k < |s.f.tree| && Cancellable(s.f.tree[k].kind) && !s.f.nodes[k].pending
      ensures Settled(s', k)
    {
      assert Settled(s, k);
      var p := Owner(s.f.tree, k);
      if p.Some? && Covered(s.calls, p.value, k) {
        VisitCovers(s.calls, i, d, p.value, k);
      }
    }
    forall p | 0 <= p < |s.f.tree| && Cancellable(s.f.tree[p].kind) && s.f.nodes[p].err.Some?
      ensures AllDead(s.f, p) || Locked(s'.calls, p)
    {
      if !AllDead(s.f, p) {
        StillLocked(s.calls, i, s'.calls[i], p);
      }
    }
  }

  lemma VisitedOk(f: Forest, c: Call, d: Id)
    requires ForestOk(f) && CallOk(f, c) && c.wants.None? && c.frames != [] && d in Top(c).todo
    ensures CallOk(f, VisitOne(c, d))
  {
    hide ForestOk, AllDead;
    var c', last := VisitOne(c, d), |c.frames| - 1;
    assert FrameOk(f, c, last) && ChildOk(f, Top(c).ctx, d);
    OwnChain(f.tree, d);
    forall j | 0 <= j < |c'.frames|
      ensures FrameOk(f, c', j)
    {
      assert FrameOk(f, c, j);
    }
  }

  lemma VisitCovers(calls: seq<Call>, i: nat, d: Id, p: Id, k: Id)
    requires i < |calls| && calls[i].frames != [] && calls[i].wants.None? && Covered(calls, p, k)
    ensures Covered(calls[i := VisitOne(calls[i], d)], p, k)
  {
    forall j | CoveredAt(calls, i, j, p, k)
      ensures Covered(calls[i := VisitOne(calls[i], d)], p, k)
    {
      assert CoveredAt(calls[i := VisitOne(calls[i], d)], i, j, p, k);
    }
    StillCovered(calls, i, VisitOne(calls[i], d), p, k);
  }

  /** When the loop is over, all under the context are cancelled. */
  lemma LoopIsDone(s: State, i: nat)
    requires Sound(s) && Possible(s, Leave(i))
    ensures AllDead(s.f, Top(s.calls[i]).ctx)
  {
    hide ForestOk, Chain, Owner;
    var x := Top(s.calls[i]).ctx;
    assert CallOk(s.f, s.calls[i]) && FrameOk(s.f, s.calls[i], |s.calls[i].frames| - 1);
    forall k | 0 <= k < |s.f.tree| && Under(s.f, x, k)
      ensures s.f.nodes[k].err.Some?
    {
      LoopReached(s, i, k);
    }
  }

  lemma {:induction false} LoopReached(s: State, i: nat, k: Id)
    requires Sound(s) && Possible(s, Leave(i)) && Under(s.f, Top(s.calls[i]).ctx, k)
    ensures s.f.nodes[k].err.Some?
    ensures k != Top(s.calls[i]).ctx ==> exists d :: Under(s.f, Top(s.calls[i]).ctx, d) && d in Chain(s.f.tree, k) && AllDead(s.f, d)
    decreases k
  {
    hide ForestOk, Chain, Owner, AllDead, Locked, AllCallsOk, AllGuarded;
    var x := Top(s.calls[i]).ctx;
    assert CallOk(s.f, s.calls[i]) && FrameOk(s.f, s.calls[i], |s.calls[i].frames| - 1) by { CallOf(s, i); }
    if k != x {
      ChainStep(s.f.tree, x, k);
      var p := Owner(s.f.tree, k).value;
      FieldsOf(s.f, k);
      OwnChain(s.f.tree, k);
      if p == x {
        assert Settled(s, k);
        NothingCovered(s, i, k);
        DeadSelf(s.f, k);
        assert Under(s.f, x, k) && k in Chain(s.f.tree, k) && AllDead(s.f, k);
      } else {
        LoopReached(s, i, p);
        var d :| Under(s.f, x, d) && d in Chain(s.f.tree, p) && AllDead(s.f, d);
        DeadUnder(s.f, d, k);
        assert Under(s.f, x, d) && d in Chain(s.f.tree, k) && AllDead(s.f, d);
      }
    }
  }

  lemma CallOf(s: State, i: nat)
    requires Sound(s) && i < |s.calls|
    ensures CallOk(s.f, s.calls[i])
    ensures forall j | 0 <= j < |s.calls[i].frames| :: FrameOk(s.f, s.calls[i], j)
  {
  }

  lemma DeadSelf(f: Forest, k: Id)
    requires Shape(f) && k < |f.tree| && Cancellable(f.tree[k].kind) && !f.nodes[k].pending && AllDead(f, k)
    ensures f.nodes[k].err.Some?
  {
    assert Under(f, k, k);
  }

  lemma DeadUnder(f: Forest, d: Id, k: Id)
    requires Shape(f) && AllDead(f, d) && k < |f.tree| && Cancellable(f.tree[k].kind) && !f.nodes[k].pending && d in Chain(f.tree, k)
    ensures f.nodes[k].err.Some?
  {
    assert Under(f, d, k);
  }

  /** The call whose loop is over is the only one inside the context, and it covers no child. */
  lemma NothingCovered(s: State, i: nat, k: Id)
    requires Sound(s) && Possible(s, Leave(i))
    ensures !Covered(s.calls, Top(s.calls[i]).ctx, k)
  {
    hide ForestOk, AllCallsOk, AllSettled, AllGuarded, AllDead;
    var x, last := Top(s.calls[i]).ctx, |s.calls[i].frames| - 1;
    assert HoldsAt(s.calls, i, last, x);
    assert forall i', j :: HoldsAt(s.calls, i', j, x) ==> i' == i && j == last;
    assert !CoveredAt(s.calls, i, last, x, k);
  }

  lemma LeaveForest(f: Forest, x: Id)
    requires ForestOk(f) && x < |f.tree|
    ensures var f' := f.(nodes := f.nodes[x := f.nodes[x].(children := {})]); ForestOk(f') && Later(f, f')
  {
    hide Chain, Owner, Later;
    var f' := f.(nodes := f.nodes[x := f.nodes[x].(children := {})]);
    forall k | 0 <= k < |f.tree|
      ensures FieldsLater(f, f', k)
    {
      forall c | c in f'.nodes[k].children
        ensures ChildOk(f', k, c)
      {
        assert ChildOk(f, k, c);
      }
    }
    SameTree(f, f');
  }

  lemma LeftOk(f: Forest, c: Call)
    requires ForestOk(f) && CallOk(f, c) && c.wants.None? && c.frames != [] && AllDead(f, Top(c).ctx)
    ensures CallOk(f, c.(frames := c.frames[..|c.frames| - 1]))
  {
    hide ForestOk, AllDead, Under, ChildOk, Owner;
    var c' := c.(frames := c.frames[..|c.frames| - 1]);
    assert FrameOk(f, c, |c.frames| - 1);
    forall j | 0 <= j < |c'.frames|
      ensures FrameOk(f, c', j)
    {
      assert FrameOk(f, c, j);
    }
  }

  lemma LeaveCovers(calls: seq<Call>, i: nat, p: Id, k: Id)
    requires i < |calls| && calls[i].wants.None? && calls[i].frames != [] && Covered(calls, p, k)
    requires k != Top(calls[i]).ctx && !CoveredAt(calls, i, |calls[i].frames| - 1, p, k)
    ensures Covered(calls[i := calls[i].(frames := calls[i].frames[..|calls[i].frames| - 1])], p, k)
  {
    var c := calls[i].(frames := calls[i].frames[..|calls[i].frames| - 1]);
    forall j | CoveredAt(calls, i, j, p, k)
      ensures Covered(calls[i := c], p, k)
    {
      assert CoveredAt(calls[i := c], i, j, p, k);
    }
    StillCovered(calls, i, c, p, k);
  }

  lemma LeaveLocked(calls: seq<Call>, i: nat, p: Id)
    requires i < |calls| && calls[i].frames != [] && Locked(calls, p) && p != Top(calls[i]).ctx
    ensures Locked(calls[i := calls[i].(frames := calls[i].frames[..|calls[i].frames| - 1])], p)
  {
    var i', j :| HoldsAt(calls, i', j, p);
    assert HoldsAt(calls[i := calls[i].(frames := calls[i].frames[..|calls[i].frames| - 1])], i', j, p);
  }

  lemma LeaveExclusive(calls: seq<Call>, i: nat)
    requires i < |calls| && calls[i].frames != [] && Exclusive(calls)
    ensures Exclusive(calls[i := calls[i].(frames := calls[i].frames[..|calls[i].frames| - 1])])
  {
  }

  lemma LeaveSettled(s: State, i: nat, k: Id)
    requires Sound(s) && Possible(s, Leave(i)) && AllDead(s.f, Top(s.calls[i]).ctx)
    requires var f' := Take(s, Leave(i)).f; ForestOk(f') && Later(s.f, f')
    requires k < |s.f.tree| && Cancellable(s.f.tree[k].kind) && !s.f.nodes[k].pending
    ensures Settled(Take(s, Leave(i)), k)
  {
    hide ForestOk, Later, Exclusive, AllGuarded, Chain, AllDead, Covered, Locked, Under;
    var x, s', p := Top(s.calls[i]).ctx, Take(s, Leave(i)), Owner(s.f.tree, k);
    assert FrameOk(s.f, s.calls[i], |s.calls[i].frames| - 1) by { CallOf(s, i); }
    assert Settled(s, k);
    if p.Some? {
      if AllDead(s.f, k) {
        AllDeadLater(s.f, s'.f, k);
      } else if Covered(s.calls, p.value, k) {
        if p.value == x {
          NothingCovered(s, i, k);
        } else {
          LeaveCovers(s.calls, i, p.value, k);
        }
      }
    }
  }

  lemma LeaveSound(s: State, i: nat)
    requires Sound(s) && Possible(s, Leave(i))
    ensures Sound(Take(s, Leave(i))) && Later(s.f, Take(s, Leave(i)).f)
  {
    hide ForestOk, Later, CallOk, Settled, Chain, AllDead, Locked;
    var c, x, s' := s.calls[i], Top(s.calls[i]).ctx, Take(s, Leave(i));
    CallOf(s, i);
    assert FrameOk(s.f, c, |c.frames| - 1);
    UnderMeans(s.f, c.target, x);
    LoopIsDone(s, i);
    LeaveForest(s.f, x);
    CallLater(s.f, s'.f, c);
    AllDeadLater(s.f, s'.f, x);
    LeftOk(s'.f, c);
    OtherCallsOk(s, s'.f, i, s'.calls[i]);
    LeaveExclusive(s.calls, i);
    forall k | 0 <= k < |s.f.tree| && Cancellable(s.f.tree[k].kind) && !s'.f.nodes[k].pending
      ensures Settled(s', k)
    {
      LeaveSettled(s, i, k);
    }
    forall p | 0 <= p < |s.f.tree| && Cancellable(s.f.tree[p].kind) && s'.f.nodes[p].err.Some?
      ensures AllDead(s'.f, p) || Locked(s'.calls, p)
    {
      FieldsOf(s.f, p);
      if AllDead(s.f, p) {
        AllDeadLater(s.f, s'.f, p);
      } else if p != x {
        LeaveLocked(s.calls, i, p);
      }
    }
  }

  // ----- removal from the owner

  lemma RemoveForest(f: Forest, c: Id)
    requires ForestOk(f) && UsableKind(f, c)
    ensures var f' := f.(nodes := RemoveFromOwner(f.tree, f.nodes, c)); ForestOk(f') && Later(f, f')
  {
    hide Chain, Later;
    var f' := f.(nodes := RemoveFromOwner(f.tree, f.nodes, c));
    forall k | 0 <= k < |f.tree|
      ensures FieldsLater(f, f', k)
    {
      if Cancellable(f.tree[k].kind) {
        FieldsOf(f, k);
      }
      forall d | d in f'.nodes[k].children
        ensures ChildOk(f', k, d)
      {
        assert ChildOk(f, k, d);
      }
    }
    SameTree(f, f');
  }

  lemma RemoveOthers(f: Forest, c: Id, p: Id, k: Id)
    requires Shape(f) && UsableKind(f, c) && p < |f.tree| && k != c
    ensures var n := RemoveFromOwner(f.tree, f.nodes, c)[p]; n.err == f.nodes[p].err && (k in n.children <==> k in f.nodes[p].children)
  {
  }

  lemma SameFrames(calls: seq<Call>, i: nat, c: Call, p: Id, k: Id)
    requires i < |calls| && c.frames == calls[i].frames && c.wants == calls[i].wants
    ensures Covered(calls, p, k) ==> Covered(calls[i := c], p, k)
    ensures Locked(calls, p) ==> Locked(calls[i := c], p)
  {
    if Covered(calls, p, k) {
      var i', j :| CoveredAt(calls, i', j, p, k);
      assert CoveredAt(calls[i := c], i', j, p, k);
    }
    if Locked(calls, p) {
      StillLocked(calls, i, c, p);
    }
  }

  lemma RemoveSound(s: State, i: nat)
    requires Sound(s) && Possible(s, Remove(i))
    ensures Sound(Take(s, Remove(i))) && Later(s.f, Take(s, Remove(i)).f)
  {
    hide ForestOk, Later, Chain, AllDead, Locked, Covered, RemoveFromOwner, FrameOk;
    var c, s' := s.calls[i], Take(s, Remove(i));
    var t := c.target;
    assert CallOk(s.f, c);
    RemoveForest(s.f, t);
    CallLater(s.f, s'.f, c);
    OtherCallsOk(s, s'.f, i, s'.calls[i]);
    forall k | 0 <= k < |s.f.tree| && Cancellable(s.f.tree[k].kind) && !s'.f.nodes[k].pending
      ensures Settled(s', k)
    {
      RemoveSettled(s, i, k);
    }
    forall p | 0 <= p < |s.f.tree| && Cancellable(s.f.tree[p].kind) && s'.f.nodes[p].err.Some?
      ensures AllDead(s'.f, p) || Locked(s'.calls, p)
    {
      RemoveNode(s.f, s.f.nodes, t, p);
      FieldsOf(s.f, p);
      if AllDead(s.f, p) {
        AllDeadLater(s.f, s'.f, p);
      }
      SameFrames(s.calls, i, s'.calls[i], p, p);
    }
  }

  lemma RemoveSettled(s: State, i: nat, k: Id)
    requires Sound(s) && Possible(s, Remove(i)) && CallOk(s.f, s.calls[i])
    requires var f' := Take(s, Remove(i)).f; ForestOk(f') && Later(s.f, f')
    requires k < |s.f.tree| && Cancellable(s.f.tree[k].kind) && !Take(s, Remove(i)).f.nodes[k].pending
    ensures Settled(Take(s, Remove(i)), k)
  {
    hide ForestOk, Later, Chain, AllDead, Locked, Covered, RemoveFromOwner, FrameOk, AllCallsOk, AllGuarded, Exclusive;
    var t, s', p := s.calls[i].target, Take(s, Remove(i)), Owner(s.f.tree, k);
    RemoveNode(s.f, s.f.nodes, t, k);
    assert Settled(s, k);
    if p.Some? {
      if AllDead(s.f, k) || k == t {
        AllDeadLater(s.f, s'.f, k);
      } else {
        RemoveOthers(s.f, t, p.value, k);
        SameFrames(s.calls, i, s'.calls[i], p.value, k);
      }
    }
  }

  // ----- every step

  /** Every step, in whatever order the calls take theirs, keeps all of it, and what has an outcome keeps it. */
  lemma StepKeeps(s: State, a: Step)
    requires Sound(s) && Possible(s, a)
    ensures Sound(Take(s, a)) && |s.f.tree| <= |Take(s, a).f.tree|
    ensures forall k | 0 <= k < |s.f.tree| :: Kept(s.f, Take(s, a).f, k)
  {
    hide Sound, Kept, LonePossible, Apply;
    SoundForest(s);
    match a
    case Lone(b) => LoneSound(s, b);
    case Start(id, remove, err, cause) => StartSound(s, id, remove, err, cause);
    case Enter(i) =>
      if s.f.nodes[s.calls[i].wants.value].err.None? {
        EnterMarks(s, i);
      } else {
        EnterFindsMarked(s, i);
      }
    case Visit(i, d) => VisitSound(s, i, d);
    case Leave(i) => LeaveSound(s, i);
    case Remove(i) => RemoveSound(s, i);
  }

  lemma SoundForest(s: State)
    requires Sound(s)
    ensures ForestOk(s.f)
  {
  }

  // ----- whole runs

  ghost predicate IsRun(s: State, steps: seq<Step>)
    requires Sound(s)
    decreases steps
  {
    steps != [] ==> Possible(s, steps[0]) && (StepKeeps(s, steps[0]); IsRun(Take(s, steps[0]), steps[1..]))
  }

  ghost function End(s: State, steps: seq<Step>): (s': State)
    requires Sound(s) && IsRun(s, steps)
    ensures Sound(s')
    decreases steps
  {
    if steps == [] then s
    else
      StepKeeps(s, steps[0]);
      End(Take(s, steps[0]), steps[1..])
  }

  /** The state that a run from a lone background context reaches. */
  ghost function Reached(steps: seq<Step>): (s: Option<State>)
    ensures s.Some? ==> Sound(s.value)
  {
    AloneIsSound();
    if IsRun(ALONE, steps) then Some(End(ALONE, steps)) else None
  }

  /** In every interleaving: when a call of cancel has returned, every context in use that the cancel is to
      reach is done, whichever call cancelled it and whenever it was created. */
  lemma ReturnedMeansDead(steps: seq<Step>, i: nat, k: Id)
    requires Reached(steps).Some?
    requires var s := Reached(steps).value;
      && i < |s.calls| && Returned(s.calls[i]) && s.calls[i].target < |s.f.tree|
      && UsableKind(s.f, k) && Above(s.f.tree, s.calls[i].target, k)
    ensures var s := Reached(steps).value; s.f.nodes[k].err.Some? && Closed(s.f.nodes[k].done)
  {
    hide Above, Chain;
    var s := Reached(steps).value;
    ChainIsAbove(s.f.tree, s.calls[i].target, k);
    assert CallOk(s.f, s.calls[i]);
    FieldsOf(s.f, k);
  }

  /** k has the outcome of the cancel e, which is of k or of a context above it. */
  ghost predicate Explains(f: Forest, k: Id, e: Event)
    requires Shape(f) && k < |f.tree|
  {
    e.target < |f.tree| && Above(f.tree, e.target, k) && f.nodes[k].err == Some(e.err) && f.nodes[k].cause == Some(e.cause)
  }

  /** In every interleaving: a context that is done has the error and cause of one and the same cancel of
      itself or of a context above it. */
  lemma OutcomeIsAsked(steps: seq<Step>, k: Id)
    requires Reached(steps).Some?
    requires var s := Reached(steps).value; k < |s.f.tree| && Cancellable(s.f.tree[k].kind)
    ensures var s := Reached(steps).value;
      && (s.f.nodes[k].err.Some? <==> Closed(s.f.nodes[k].done))
      && (s.f.nodes[k].err.Some? ==> exists e :: e in s.f.log && Explains(s.f, k, e))
  {
    hide Above, Chain;
    var f := Reached(steps).value.f;
    FieldsOf(f, k);
    if f.nodes[k].err.Some? {
      assert PlaceOk(f, k);
      var e :| e in f.log && Blamed(f, k, e);
      ChainIsAbove(f.tree, e.target, k);
      assert Explains(f, k, e);
    }
  }

  /** In every interleaving: an outcome is set once, and a closed channel is not closed again. */
  lemma {:induction false} OutcomesStay(s: State, steps: seq<Step>, k: Id)
    requires Sound(s) && IsRun(s, steps)
    requires k < |s.f.tree| && s.f.nodes[k].err.Some?
    ensures var f' := End(s, steps).f;
      && k < |f'.tree| == |f'.nodes| && f'.nodes[k].err == s.f.nodes[k].err
      && f'.nodes[k].cause == s.f.nodes[k].cause && f'.nodes[k].done == s.f.nodes[k].done
    decreases steps
  {
    hide Sound, Possible, Take;
    SoundForest(s);
    if steps != [] {
      StepKeeps(s, steps[0]);
      SoundForest(Take(s, steps[0]));
      assert Kept(s.f, Take(s, steps[0]).f, k);
      OutcomesStay(Take(s, steps[0]), steps[1..], k);
    }
  }

  /** The context that a call goes into and does not find marked has an open channel, or none. */
  lemma ClosesOnce(s: State, i: nat)
    requires Sound(s) && Possible(s, Enter(i)) && s.f.nodes[s.calls[i].wants.value].err.None?
    ensures !Closed(s.f.nodes[s.calls[i].wants.value].done)
  {
    hide Chain, Owner, AllSettled, AllGuarded, AllDead;
    CallOf(s, i);
    UnderMeans(s.f, s.calls[i].target, s.calls[i].wants.value);
    FieldsOf(s.f, s.calls[i].wants.value);
  }

  // ----- no call waits for ever

  /** A step of a call that has not returned. */
  ghost predicate CallMoves(s: State, a: Step)
    requires Shape(s.f)
  {
    (a.Enter? || a.Visit? || a.Leave?) && Possible(s, a)
  }

  /** Calls never wait for one another in a circle: while one has not returned, one of them can go on. */
  lemma {:induction false} SomeCallMoves(s: State, i: nat) returns (a: Step)
    requires Sound(s) && i < |s.calls| && !Returned(s.calls[i])
    ensures CallMoves(s, a)
    decreases |s.f.tree| - Waiting(s, i)
  {
    hide Chain, Owner, AllSettled, AllGuarded, AllDead, ForestOk;
    var c := s.calls[i];
    CallOf(s, i);
    if c.wants.None? {
      var top := Top(c);
      assert FrameOk(s.f, c, |c.frames| - 1);
      if top.todo == {} {
        a := Leave(i);
      } else {
        var d :| d in top.todo;
        a := Visit(i, d);
      }
    } else {
      var w := c.wants.value;
      UnderMeans(s.f, c.target, w);
      if Locked(s.calls, w) {
        var i', j :| HoldsAt(s.calls, i', j, w);
        WaitsLater(s, i', j);
        a := SomeCallMoves(s, i');
      } else {
        a := Enter(i);
      }
    }
  }

  /** What a call waits for; past all contexts when it waits for none. */
  function Waiting(s: State, i: nat): (w: nat)
    requires i < |s.calls|
  {
    if s.calls[i].wants.Some? && s.calls[i].wants.value < |s.f.tree| then s.calls[i].wants.value else |s.f.tree|
  }

  /** A call waits for a context created after all that it holds. */
  lemma WaitsLater(s: State, i: nat, j: nat)
    requires Sound(s) && i < |s.calls| && j < |s.calls[i].frames|
    ensures s.calls[i].frames[j].ctx < Waiting(s, i) && !Returned(s.calls[i])
  {
    hide Chain, Owner, AllSettled, AllGuarded, AllDead, ForestOk;
    CallOf(s, i);
    assert FrameOk(s.f, s.calls[i], j);
  }

  // ----- every call returns

  function AliveCount(nodes: seq<Node>): nat {
    if nodes == [] then 0
    else (if nodes[|nodes| - 1].err.None? then 1 else 0) + AliveCount(nodes[..|nodes| - 1])
  }

  lemma {:induction false} AliveUpdate(nodes: seq<Node>, w: nat, n: Node)
    requires w < |nodes|
    ensures nodes[w].err.None? && n.err.Some? ==> AliveCount(nodes[w := n]) < AliveCount(nodes)
    ensures n.err == nodes[w].err ==> AliveCount(nodes[w := n]) == AliveCount(nodes)
  {
    var last := |nodes| - 1;
    var nodes' := nodes[w := n];
    if w == last {
      assert nodes'[..last] == nodes[..last];
    } else {
      assert nodes'[..last] == nodes[..last][w := n];
      AliveUpdate(nodes[..last], w, n);
    }
  }

  /** The steps that a call can still take if it marks nothing more. */
  function FrameWork(frames: seq<Frame>): nat {
    if frames == [] then 0 else 2 * |frames[|frames| - 1].todo| + 1 + FrameWork(frames[..|frames| - 1])
  }

  function CallWork(c: Call): nat { FrameWork(c.frames) + if c.wants.Some? then 1 else 0 }

  function Work(calls: seq<Call>): nat {
    if calls == [] then 0 else CallWork(calls[|calls| - 1]) + Work(calls[..|calls| - 1])
  }

  lemma {:induction false} WorkUpdate(calls: seq<Call>, i: nat, c: Call)
    requires i < |calls| && CallWork(c) < CallWork(calls[i])
    ensures Work(calls[i := c]) < Work(calls)
  {
    hide CallWork;
    var last := |calls| - 1;
    var calls' := calls[i := c];
    if i == last {
      assert calls'[..last] == calls[..last];
    } else {
      assert calls'[..last] == calls[..last][i := c];
      WorkUpdate(calls[..last], i, c);
    }
  }

  /** Each step of a call marks one more context, or marks none and leaves less to do. */
  lemma MoveProgresses(s: State, a: Step)
    requires Sound(s) && CallMoves(s, a)
    ensures var s' := Take(s, a);
      && |s'.calls| == |s.calls|
      && (AliveCount(s'.f.nodes) < AliveCount(s.f.nodes)
          || (AliveCount(s'.f.nodes) == AliveCount(s.f.nodes) && Work(s'.calls) < Work(s.calls)))
  {
    hide AliveCount, Work, Sound;
    SoundForest(s);
    match a
    case Enter(i) =>
      var c := s.calls[i];
      AliveUpdate(s.f.nodes, c.wants.value, ContextTree.CoreCancelled(s.f.nodes[c.wants.value], c.err, c.cause));
      if s.f.nodes[c.wants.value].err.Some? {
        WorkUpdate(s.calls, i, Take(s, a).calls[i]);
      }
    case Visit(i, d) =>
      VisitWork(s.calls[i], d);
      WorkUpdate(s.calls, i, VisitOne(s.calls[i], d));
    case Leave(i) =>
      var x := Top(s.calls[i]).ctx;
      AliveUpdate(s.f.nodes, x, s.f.nodes[x].(children := {}));
      WorkUpdate(s.calls, i, Take(s, a).calls[i]);
  }

  lemma VisitWork(c: Call, d: Id)
    requires c.frames != [] && c.wants.None? && d in Top(c).todo
    ensures CallWork(VisitOne(c, d)) < CallWork(c)
  {
    var last := |c.frames| - 1;
    var frames := VisitOne(c, d).frames;
    assert frames[..last] == c.frames[..last];
    assert |frames[last].todo| < |c.frames[last].todo| by { assert |{d}| == 1; }
  }

  ghost predicate AllReturned(s: State) { forall i | 0 <= i < |s.calls| :: Returned(s.calls[i]) }

  /** From any reachable state the calls in progress can all return, by steps of their own: none needs a step
      of anything else. */
  lemma {:induction false} EveryCallReturns(s: State) returns (steps: seq<Step>)
    requires Sound(s)
    ensures IsRun(s, steps) && AllReturned(End(s, steps)) && |End(s, steps).calls| == |s.calls|
    ensures forall a | a in steps :: a.Enter? || a.Visit? || a.Leave?
    decreases AliveCount(s.f.nodes), Work(s.calls)
  {
    hide Sound, Possible, Take, AliveCount, Work;
    SoundForest(s);
    if AllReturned(s) {
      steps := [];
    } else {
      var i: nat :| i < |s.calls| && !Returned(s.calls[i]);
      var a := SomeCallMoves(s, i);
      MoveProgresses(s, a);
      StepKeeps(s, a);
      var rest := EveryCallReturns(Take(s, a));
      steps := [a] + rest;
      assert steps[1..] == rest;
    }
  }

  // ----- when the earliest call decides

  /** Whether one of the two is above the other, or they are the same, so that their cancels can meet. */
  predicate Meets(f: Forest, a: Id, b: Id)
    requires Shape(f)
    requires a < |f.tree| && Cancellable(f.tree[a].kind) && b < |f.tree| && Cancellable(f.tree[b].kind)
  {
    a in Chain(f.tree, b) || b in Chain(f.tree, a)
  }

  /** No cancel that has not returned can meet one of id. */
  ghost predicate Clear(s: State, id: Id)
    requires Sound(s) && UsableKind(s.f, id)
  {
    forall i | 0 <= i < |s.calls| && !Returned(s.calls[i]) :: (CallOf(s, i); !Meets(s.f, s.calls[i].target, id))
  }

  /** A run in which each cancel is called only when no other that can meet it is in progress. */
  ghost predicate IsApart(s: State, steps: seq<Step>)
    requires Sound(s) && IsRun(s, steps)
    decreases steps
  {
    steps != [] ==>
      && (steps[0].Start? ==> Clear(s, steps[0].id))
      && (StepKeeps(s, steps[0]); IsApart(Take(s, steps[0]), steps[1..]))
  }

  /** The log lists the calls in order. */
  predicate Logged(s: State) {
    |s.f.log| == |s.calls| && forall i :: 0 <= i < |s.calls| ==> s.f.log[i] == Event(s.calls[i].target, s.calls[i].err, s.calls[i].cause)
  }

  /** Calls in progress do not meet. */
  ghost predicate Apart(s: State)
    requires Sound(s)
  {
    forall i, j | 0 <= i < j < |s.calls| && !Returned(s.calls[i]) && !Returned(s.calls[j]) ::
      (CallOf(s, i); CallOf(s, j); !Meets(s.f, s.calls[i].target, s.calls[j].target))
  }

  predicate IsFirst(f: Forest, k: Id)
    requires Shape(f) && k < |f.tree| && Cancellable(f.tree[k].kind)
  {
    f.nodes[k].err.Some? ==> OutcomeOf(f.nodes[k]) == Earliest(f.log, Chain(f.tree, k))
  }

  ghost predicate AllFirst(f: Forest)
    requires Shape(f)
  {
    forall k | 0 <= k < |f.tree| && Cancellable(f.tree[k].kind) :: IsFirst(f, k)
  }

  ghost predicate Orderly(s: State)
    ensures Orderly(s) ==> Sound(s)
  {
    Sound(s) && Logged(s) && Apart(s) && AllFirst(s.f)
  }

  lemma AloneIsOrderly()
    ensures Orderly(ALONE)
  {
    AloneIsSound();
  }

  /** Of two contexts above a third, one is above the other. */
  lemma {:induction false} ChainsMeet(f: Forest, a: Id, b: Id, k: Id)
    requires Shape(f) && k < |f.tree| && Cancellable(f.tree[k].kind)
    requires a < |f.tree| && Cancellable(f.tree[a].kind) && b < |f.tree| && Cancellable(f.tree[b].kind)
    requires a in Chain(f.tree, k) && b in Chain(f.tree, k)
    ensures Meets(f, a, b)
    decreases k
  {
    if a != k && b != k {
      ChainStep(f.tree, a, k);
      ChainStep(f.tree, b, k);
      ChainsMeet(f, a, b, Owner(f.tree, k).value);
    }
  }

  lemma {:induction false} EarliestOnly(log: seq<Event>, i: nat, targets: set<Id>)
    requires i < |log| && log[i].target in targets
    requires forall j | 0 <= j < |log| && j != i :: log[j].target !in targets
    ensures Earliest(log, targets) == Dead(log[i].err, log[i].cause)
  {
    if i > 0 {
      assert log[0].target !in targets;
      forall j | 0 <= j < |log[1..]| && j != i - 1
        ensures log[1..][j].target !in targets
      {
        assert log[1..][j] == log[j + 1];
      }
      EarliestOnly(log[1..], i - 1, targets);
    }
  }

  lemma ReturnedIsOver(s: State, j: nat, w: Id)
    requires Sound(s) && j < |s.calls| && Returned(s.calls[j])
    requires w < |s.f.tree| && Cancellable(s.f.tree[w].kind) && !s.f.nodes[w].pending
    ensures s.calls[j].target in Chain(s.f.tree, w) ==> s.f.nodes[w].err.Some?
  {
    hide Chain, Owner, AllSettled, AllGuarded, ForestOk, Exclusive;
    CallOf(s, j);
    if s.calls[j].target in Chain(s.f.tree, w) {
      DeadUnder(s.f, s.calls[j].target, w);
    }
  }

  lemma ApartTargets(s: State, i: nat, j: nat)
    requires Sound(s) && Apart(s) && i < |s.calls| && j < |s.calls| && i != j
    requires !Returned(s.calls[i]) && !Returned(s.calls[j])
    ensures UsableKind(s.f, s.calls[i].target) && UsableKind(s.f, s.calls[j].target)
    ensures !Meets(s.f, s.calls[i].target, s.calls[j].target)
  {
    hide Chain, Sound, Returned;
    SoundForest(s);
    CallOf(s, i);
    CallOf(s, j);
  }

  /** When a call marks a context, its own is the only one of all calls so far that is to reach it. */
  lemma OnlyCall(s: State, i: nat, w: Id, j: nat)
    requires Sound(s) && Apart(s) && i < |s.calls| && s.calls[i].wants == Some(w)
    requires Under(s.f, s.calls[i].target, w) && s.f.nodes[w].err.None?
    requires j < |s.calls| && j != i
    ensures s.calls[j].target !in Chain(s.f.tree, w)
  {
    hide Chain, Owner, Sound, Apart, Meets;
    SoundForest(s);
    if Returned(s.calls[j]) {
      ReturnedIsOver(s, j, w);
    } else {
      ApartTargets(s, i, j);
      if s.calls[j].target in Chain(s.f.tree, w) {
        ChainsMeet(s.f, s.calls[i].target, s.calls[j].target, w);
      }
    }
  }

  lemma MarkIsFirst(s: State, i: nat, w: Id)
    requires Orderly(s) && i < |s.calls| && s.calls[i].wants == Some(w)
    requires Under(s.f, s.calls[i].target, w) && s.f.nodes[w].err.None?
    ensures Earliest(s.f.log, Chain(s.f.tree, w)) == Dead(s.calls[i].err, s.calls[i].cause)
  {
    hide Chain, Sound, Apart, AllFirst, Earliest;
    SoundForest(s);
    forall j | 0 <= j < |s.f.log| && j != i
      ensures s.f.log[j].target !in Chain(s.f.tree, w)
    {
      OnlyCall(s, i, w, j);
    }
    EarliestOnly(s.f.log, i, Chain(s.f.tree, w));
  }

  /** Calls that were apart stay apart: a step changes no target, and a call that has returned has returned. */
  lemma ApartKept(s: State, s': State)
    requires Sound(s) && Sound(s') && Apart(s) && |s'.calls| == |s.calls| && |s.f.tree| <= |s'.f.tree|
    requires forall i | 0 <= i < |s.calls| ::
      s'.calls[i].target == s.calls[i].target && (Returned(s.calls[i]) ==> Returned(s'.calls[i]))
    requires forall k | 0 <= k < |s.f.tree| :: Kept(s.f, s'.f, k)
    ensures Apart(s')
  {
    hide Chain, Owner, Sound, Returned;
    forall i, j | 0 <= i < j < |s'.calls| && !Returned(s'.calls[i]) && !Returned(s'.calls[j])
      ensures (CallOf(s', i); CallOf(s', j); !Meets(s'.f, s'.calls[i].target, s'.calls[j].target))
    {
      ApartTargets(s, i, j);
      CallOf(s', i);
      CallOf(s', j);
      assert Kept(s.f, s'.f, s.calls[i].target) && Kept(s.f, s'.f, s.calls[j].target);
    }
  }

  /** A context that keeps its place and its outcome keeps having the first, if no call is added. */
  lemma FirstKept(f: Forest, f': Forest, k: Id)
    requires Shape(f) && Shape(f') && k < |f.tree| && k < |f'.tree| && Kept(f, f', k) && f'.log == f.log
    requires Cancellable(f.tree[k].kind) && IsFirst(f, k) && (f'.nodes[k].err.Some? ==> f.nodes[k].err.Some?)
    ensures IsFirst(f', k)
  {
    hide Chain, Owner, Earliest;
  }

  lemma AllFirstKept(f: Forest, f': Forest)
    requires Shape(f) && Shape(f') && f'.tree == f.tree && f'.log == f.log && AllFirst(f)
    requires forall k | 0 <= k < |f.tree| :: f'.nodes[k].err == f.nodes[k].err && f'.nodes[k].cause == f.nodes[k].cause
    ensures AllFirst(f')
  {
    hide Chain, Earliest;
    forall k | 0 <= k < |f'.tree| && Cancellable(f'.tree[k].kind)
      ensures IsFirst(f', k)
    {
      assert IsFirst(f, k);
    }
  }

  lemma NotNamed(s: State, id: Id)
    requires Sound(s) && Logged(s) && (id >= |s.f.tree| || id >= |s.f.nodes| || s.f.nodes[id].pending)
    ensures forall i | 0 <= i < |s.f.log| :: s.f.log[i].target != id
  {
    hide Sound, FrameOk, WantsOk, AllDead;
    forall i | 0 <= i < |s.f.log|
      ensures s.f.log[i].target != id
    {
      CallOf(s, i);
    }
  }

  /** A context that takes over its owner's outcome has the first one, since no call has named it. */
  lemma HeirIsFirst(f: Forest, k: Id, p: Id)
    requires Shape(f) && k < |f.tree| && Cancellable(f.tree[k].kind) && Owner(f.tree, k) == Some(p)
    requires IsFirst(f, p) && f.nodes[p].err.Some?
    requires f.nodes[k].err == f.nodes[p].err && f.nodes[k].cause == f.nodes[p].cause
    requires forall i | 0 <= i < |f.log| :: f.log[i].target != k
    ensures IsFirst(f, k)
  {
    hide Earliest;
    OwnChain(f.tree, k);
    EarliestExtra(f.log, k, Chain(f.tree, p));
  }

  lemma RegisterFirst(s: State, id: Id)
    requires Sound(s) && Logged(s) && AllFirst(s.f) && LonePossible(s, Register(id))
    requires ForestOk(ApplyRegister(s.f, id)) && forall k | 0 <= k < |s.f.tree| :: Kept(s.f, ApplyRegister(s.f, id), k)
    ensures AllFirst(ApplyRegister(s.f, id))
  {
    hide Chain, Earliest, Sound, Locked, ForestOk;
    SoundForest(s);
    var f, f', p := s.f, ApplyRegister(s.f, id), Owner(s.f.tree, id).value;
    FieldsOf(f, id);
    FieldsOf(f, p);
    NotNamed(s, id);
    forall k | 0 <= k < |f'.tree| && Cancellable(f'.tree[k].kind)
      ensures IsFirst(f', k)
    {
      assert IsFirst(f, k) && Kept(f, f', k);
      if k == id && f.nodes[p].err.Some? {
        assert IsFirst(f, p);
        HeirIsFirst(f', id, p);
      } else {
        FirstKept(f, f', k);
      }
    }
  }

  lemma BeginFirst(s: State, parent: Id, kind: Kind)
    requires Sound(s) && Logged(s) && AllFirst(s.f) && Usable(s.f, parent) && Cancellable(kind)
    requires var f' := ApplyBegin(s.f, parent, kind);
      ForestOk(f') && |s.f.tree| <= |f'.tree| && forall k | 0 <= k < |s.f.tree| :: Kept(s.f, f', k)
    ensures AllFirst(ApplyBegin(s.f, parent, kind))
  {
    hide Chain, Earliest, Sound, ForestOk;
    SoundForest(s);
    var f, f', id, p := s.f, ApplyBegin(s.f, parent, kind), |s.f.tree|, Nearest(s.f.tree, parent);
    NearestExtends(f.tree, Link(kind, parent), parent);
    NotNamed(s, id);
    forall k | 0 <= k < |f'.tree| && Cancellable(f'.tree[k].kind)
      ensures IsFirst(f', k)
    {
      if k < id {
        assert IsFirst(f, k) && Kept(f, f', k);
        FirstKept(f, f', k);
      } else if p.Some? && f.nodes[p.value].err.Some? {
        FieldsOf(f, p.value);
        assert IsFirst(f, p.value) && Kept(f, f', p.value);
        FirstKept(f, f', p.value);
        HeirIsFirst(f', id, p.value);
      }
    }
  }

  lemma OldFirst(f: Forest, f': Forest)
    requires Shape(f) && Shape(f') && |f.tree| <= |f'.tree| && f'.log == f.log && AllFirst(f)
    requires forall k | 0 <= k < |f.tree| :: Kept(f, f', k) && (f'.nodes[k].err.Some? ==> f.nodes[k].err.Some?)
    requires forall k | |f.tree| <= k < |f'.tree| :: !Cancellable(f'.tree[k].kind)
    ensures AllFirst(f')
  {
    hide Chain, Owner, Earliest, IsFirst;
    forall k | 0 <= k < |f'.tree| && Cancellable(f'.tree[k].kind)
      ensures IsFirst(f', k)
    {
      assert Kept(f, f', k);
      assert IsFirst(f, k);
      FirstKept(f, f', k);
    }
  }

  lemma LoneFirst(s: State, a: Action)
    requires Sound(s) && Logged(s) && AllFirst(s.f) && LonePossible(s, a)
    requires var f' := Apply(s.f, a);
      ForestOk(f') && |s.f.tree| <= |f'.tree| && forall k | 0 <= k < |s.f.tree| :: Kept(s.f, f', k)
    ensures AllFirst(Apply(s.f, a))
  {
    hide Chain, Earliest, Sound, Locked, ForestOk, IsFirst, Owner;
    SoundForest(s);
    var f, f' := s.f, Apply(s.f, a);
    match a
    case Begin(parent, kind) => BeginFirst(s, parent, kind);
    case Register(id) => RegisterFirst(s, id);
    case NewValue(_, _, _) => OldFirst(f, f');
    case NewWithoutCancel(_) => OldFirst(f, f');
    case CallDone(_) => OldFirst(f, f');
    case StartTimer(_) => OldFirst(f, f');
    case Cancel(_, _, _, _) =>
    case Stop(_) =>
  }

  lemma StartFirst(f: Forest, e: Event)
    requires ForestOk(f) && AllFirst(f)
    ensures AllFirst(f.(log := f.log + [e]))
  {
    hide Chain, Earliest, ForestOk;
    var f' := f.(log := f.log + [e]);
    forall k | 0 <= k < |f'.tree| && Cancellable(f'.tree[k].kind)
      ensures IsFirst(f', k)
    {
      FieldsOf(f, k);
      assert IsFirst(f, k);
      EarliestAppend(f.log, e, Chain(f.tree, k));
    }
  }

  lemma StartApart(s: State, s': State, id: Id)
    requires Sound(s) && Sound(s') && Apart(s) && UsableKind(s.f, id) && Clear(s, id)
    requires s'.f.tree == s.f.tree && s'.f.nodes == s.f.nodes
    requires |s'.calls| == |s.calls| + 1 && s'.calls[..|s.calls|] == s.calls && s'.calls[|s.calls|].target == id
    ensures Apart(s')
  {
    hide Chain, Owner, Sound, Returned;
    forall i, j | 0 <= i < j < |s'.calls| && !Returned(s'.calls[i]) && !Returned(s'.calls[j])
      ensures (CallOf(s', i); CallOf(s', j); !Meets(s'.f, s'.calls[i].target, s'.calls[j].target))
    {
      CallOf(s', i);
      CallOf(s', j);
      assert s'.calls[i] == s.calls[i];
      if j < |s.calls| {
        assert s'.calls[j] == s.calls[j];
        ApartTargets(s, i, j);
      } else {
        CallOf(s, i);
        assert !Meets(s.f, s.calls[i].target, id);
      }
    }
  }

  lemma EnterFirst(s: State, i: nat)
    requires Orderly(s) && Possible(s, Enter(i))
    ensures AllFirst(Take(s, Enter(i)).f)
  {
    hide Chain, Owner, Sound, Apart, Locked, Earliest;
    SoundForest(s);
    var f, f', w := s.f, Take(s, Enter(i)).f, s.calls[i].wants.value;
    assert WantsOk(f, s.calls[i]) by { CallOf(s, i); }
    UnderMeans(f, s.calls[i].target, w);
    if f.nodes[w].err.None? {
      MarkIsFirst(s, i, w);
    }
    forall k | 0 <= k < |f'.tree| && Cancellable(f'.tree[k].kind)
      ensures IsFirst(f', k)
    {
      assert IsFirst(f, k);
    }
  }

  /** Every step keeps it, if a call is started only when no other that can meet it is in progress. */
  lemma OrderlyKept(s: State, a: Step)
    requires Orderly(s) && Possible(s, a) && (a.Start? ==> Clear(s, a.id))
    ensures Orderly(Take(s, a))
  {
    hide Sound, Apart, AllFirst, Kept, LonePossible, Apply, Locked, Clear, Returned, Logged;
    StepKeeps(s, a);
    var s' := Take(s, a);
    SoundForest(s);
    SoundForest(s');
    if a.Start? {
      StartFirst(s.f, s'.f.log[|s.f.log|]);
      assert s'.calls[..|s.calls|] == s.calls;
      StartApart(s, s', a.id);
      StartLogged(s, a);
    } else {
      CallsStay(s, a);
      ApartKept(s, s');
      StepFirst(s, a);
    }
  }

  lemma StartLogged(s: State, a: Step)
    requires Shape(s.f) && Logged(s) && a.Start? && Possible(s, a)
    ensures Logged(Take(s, a))
  {
  }

  /** A step that is no call leaves the log, and what was asked for, and a call that has returned has returned. */
  lemma CallsStay(s: State, a: Step)
    requires Shape(s.f) && Possible(s, a) && !a.Start?
    ensures var s' := Take(s, a);
      && s'.f.log == s.f.log && |s'.calls| == |s.calls|
      && (forall i | 0 <= i < |s.calls| ::
            s'.calls[i].target == s.calls[i].target && (Returned(s.calls[i]) ==> Returned(s'.calls[i])))
      && (Logged(s) ==> Logged(s'))
  {
    hide Locked, LonePossible, Apply;
    if a.Lone? {
      LoneLog(s, a.a);
    }
  }

  lemma StepFirst(s: State, a: Step)
    requires Orderly(s) && Possible(s, a) && !a.Start? && Sound(Take(s, a)) && |s.f.tree| <= |Take(s, a).f.tree|
    requires forall k | 0 <= k < |s.f.tree| :: Kept(s.f, Take(s, a).f, k)
    ensures AllFirst(Take(s, a).f)
  {
    hide Sound, Apart, AllFirst, Kept, LonePossible, Apply, Locked, Returned;
    SoundForest(s);
    SoundForest(Take(s, a));
    match a
    case Lone(b) => LoneFirst(s, b);
    case Start(_, _, _, _) =>
    case Enter(i) => EnterFirst(s, i);
    case Visit(_, _) => AllFirstKept(s.f, Take(s, a).f);
    case Leave(_) => AllFirstKept(s.f, Take(s, a).f);
    case Remove(i) =>
      RemoveFields(s.f, s.calls[i].target);
      AllFirstKept(s.f, Take(s, a).f);
  }

  lemma LoneLog(s: State, a: Action)
    requires Shape(s.f) && LonePossible(s, a)
    ensures Apply(s.f, a).log == s.f.log
  {
    hide Owner, Locked;
  }

  lemma RemoveFields(f: Forest, c: Id)
    requires Shape(f) && UsableKind(f, c)
    ensures forall k | 0 <= k < |f.tree| ::
      var n := RemoveFromOwner(f.tree, f.nodes, c)[k]; n.err == f.nodes[k].err && n.cause == f.nodes[k].cause
  {
    hide Owner;
  }

  lemma {:induction false} OrderlyRun(s: State, steps: seq<Step>)
    requires Orderly(s) && IsRun(s, steps) && IsApart(s, steps)
    ensures Orderly(End(s, steps))
    decreases steps
  {
    hide Orderly, Sound, Possible, Take, Clear;
    if steps != [] {
      StepKeeps(s, steps[0]);
      OrderlyKept(s, steps[0]);
      OrderlyRun(Take(s, steps[0]), steps[1..]);
    }
  }

  lemma {:induction false} EarliestNone(log: seq<Event>, targets: set<Id>)
    requires forall i | 0 <= i < |log| :: log[i].target !in targets
    ensures Earliest(log, targets) == Alive
  {
    if log != [] {
      assert forall i | 0 <= i < |log[1..]| :: log[1..][i] == log[i + 1];
      EarliestNone(log[1..], targets);
    }
  }

  /** A run from a lone background context in which no call is started while one that can meet it is in progress. */
  ghost predicate NeverMeeting(steps: seq<Step>) {
    AloneIsSound();
    IsRun(ALONE, steps) && IsApart(ALONE, steps)
  }

  /** In every such interleaving: a context that is done has the error and cause of the earliest cancel of
      itself or of a context above it; and when every call has returned, a context in use that is not done has
      not been asked to be. */
  lemma EarliestDecides(steps: seq<Step>, k: Id)
    requires NeverMeeting(steps)
    ensures Reached(steps).Some?
    ensures var s := Reached(steps).value; var f := s.f;
      UsableKind(f, k) && (f.nodes[k].err.Some? || AllReturned(s)) ==>
        && (forall i | 0 <= i < |f.log| :: f.log[i].target < |f.tree|)
        && (f.nodes[k].err.Some? <==> exists i: nat :: FirstAbove(f.tree, f.log, k, i))
        && (forall i: nat :: FirstAbove(f.tree, f.log, k, i) ==>
             f.nodes[k].err == Some(f.log[i].err) && f.nodes[k].cause == Some(f.log[i].cause))
  {
    hide Sound;
    EarliestOutcome(steps, k);
    var s := Reached(steps).value;
    if UsableKind(s.f, k) && (s.f.nodes[k].err.Some? || AllReturned(s)) {
      SoundForest(s);
      LogTargets(steps);
      FieldsOf(s.f, k);
      hide *;
      FirstDecides(s.f.tree, s.f.log, k);
    }
  }

  lemma LogTargets(steps: seq<Step>)
    requires NeverMeeting(steps)
    ensures Reached(steps).Some?
    ensures var f := Reached(steps).value.f; forall i | 0 <= i < |f.log| :: f.log[i].target < |f.tree|
  {
    hide Sound, IsRun, IsApart, End, Apart;
    AloneIsOrderly();
    OrderlyRun(ALONE, steps);
    var s := End(ALONE, steps);
    forall i | 0 <= i < |s.f.log| ensures s.f.log[i].target < |s.f.tree| {
      CallOf(s, i);
    }
  }

  lemma EarliestOutcome(steps: seq<Step>, k: Id)
    requires NeverMeeting(steps)
    ensures Reached(steps).Some?
    ensures var s := Reached(steps).value; var f := s.f;
      k < |f.tree| && Cancellable(f.tree[k].kind) && !f.nodes[k].pending && (f.nodes[k].err.Some? || AllReturned(s)) ==>
        OutcomeOf(f.nodes[k]) == Earliest(f.log, Chain(f.tree, k))
  {
    hide Sound, IsRun, IsApart, End, Apart, Earliest, Chain;
    AloneIsOrderly();
    OrderlyRun(ALONE, steps);
    var s := End(ALONE, steps);
    if k < |s.f.tree| && Cancellable(s.f.tree[k].kind) && !s.f.nodes[k].pending {
      assert IsFirst(s.f, k);
      if AllReturned(s) && s.f.nodes[k].err.None? {
        forall i | 0 <= i < |s.f.log|
          ensures s.f.log[i].target !in Chain(s.f.tree, k)
        {
          ReturnedIsOver(s, i, k);
        }
        EarliestNone(s.f.log, Chain(s.f.tree, k));
      }
    }
  }

  // ----- what a call can win that is started later

  /** k and everything from it up to id is in use and not done. */
  predicate LivePath(f: Forest, id: Id, k: Id)
    requires Shape(f)
    decreases k
  {
    && k < |f.tree| && Cancellable(f.tree[k].kind) && !f.nodes[k].pending && f.nodes[k].err.None?
    && (k == id || (Owner(f.tree, k).Some? && LivePath(f, id, Owner(f.tree, k).value)))
  }

  lemma {:induction false} RunOn(s: State, first: seq<Step>, more: seq<Step>)
    requires Sound(s) && IsRun(s, first) && IsRun(End(s, first), more)
    ensures IsRun(s, first + more) && End(s, first + more) == End(End(s, first), more)
    decreases first
  {
    hide Sound, Possible, Take;
    if first == [] {
      assert first + more == more;
    } else {
      StepKeeps(s, first[0]);
      RunOn(Take(s, first[0]), first[1..], more);
      assert (first + more)[0] == first[0] && (first + more)[1..] == first[1..] + more;
    }
  }

  lemma RunTwo(s: State, a: Step, b: Step)
    requires Sound(s) && Possible(s, a) && Possible(Take(s, a), b)
    ensures Sound(Take(s, a)) && IsRun(s, [a, b]) && End(s, [a, b]) == Take(Take(s, a), b)
  {
    hide Sound, Possible, Take;
    StepKeeps(s, a);
    RunOne(Take(s, a), b);
    assert [a, b][1..] == [b];
  }

  lemma RunOne(s: State, a: Step)
    requires Sound(s) && Possible(s, a)
    ensures IsRun(s, [a]) && End(s, [a]) == Take(s, a)
  {
    hide Sound, Possible, Take;
    StepKeeps(s, a);
    assert [a][1..] == [];
  }

  /** A call that is inside a context has marked it. */
  lemma HeldIsDead(s: State, i: int, j: int, p: Id)
    requires Sound(s) && HoldsAt(s.calls, i, j, p)
    ensures p < |s.f.tree| && s.f.nodes[p].err.Some?
  {
    hide Chain, Owner, AllSettled, AllGuarded, ForestOk, Exclusive;
    CallOf(s, i);
    assert FrameOk(s.f, s.calls[i], j);
  }

  lemma LiveIsFree(s: State, k: Id)
    requires Sound(s) && k < |s.f.tree| && s.f.nodes[k].err.None?
    ensures !Locked(s.calls, k)
  {
    hide Sound;
    if Locked(s.calls, k) {
      var i, j :| HoldsAt(s.calls, i, j, k);
      HeldIsDead(s, i, j, k);
    }
  }

  lemma CoveredIsDead(s: State, p: Id, k: Id)
    requires Sound(s) && Covered(s.calls, p, k)
    ensures p < |s.f.tree| && s.f.nodes[p].err.Some?
  {
    hide Sound, Current;
    var i, j :| CoveredAt(s.calls, i, j, p, k);
    HeldIsDead(s, i, j, p);
  }

  /** A context in use that is not done is known to its owner if that is not done either. */
  lemma LiveIsKnown(s: State, k: Id)
    requires Sound(s) && k < |s.f.tree| && Cancellable(s.f.tree[k].kind) && !s.f.nodes[k].pending && s.f.nodes[k].err.None?
    requires Owner(s.f.tree, k).Some? && s.f.nodes[Owner(s.f.tree, k).value].err.None?
    ensures k in s.f.nodes[Owner(s.f.tree, k).value].children
  {
    hide Chain, Owner, ForestOk, AllCallsOk, AllGuarded, Exclusive, AllDead, Covered;
    var p := Owner(s.f.tree, k).value;
    assert Settled(s, k);
    if AllDead(s.f, k) {
      DeadSelf(s.f, k);
    } else if Covered(s.calls, p, k) {
      CoveredIsDead(s, p, k);
    }
  }

  /** A call that is to enter a context that is not done enters it and goes on to a child that is not done. */
  lemma EnterAndVisit(s: State, n: nat, p: Id, k: Id)
    requires Sound(s) && n < |s.calls| && s.calls[n].wants == Some(p)
    requires p < |s.f.tree| && s.f.nodes[p].err.None?
    requires k < |s.f.tree| && Cancellable(s.f.tree[k].kind) && Owner(s.f.tree, k) == Some(p)
    requires !s.f.nodes[k].pending && s.f.nodes[k].err.None?
    ensures IsRun(s, [Enter(n), Visit(n, k)])
    ensures var s' := End(s, [Enter(n), Visit(n, k)]);
      && s'.f.tree == s.f.tree && s'.f.log == s.f.log && |s'.f.nodes| == |s.f.nodes| && |s'.calls| == |s.calls|
      && s'.calls[n].wants == Some(k) && s'.calls[n].err == s.calls[n].err && s'.calls[n].cause == s.calls[n].cause
      && forall q | p < q < |s.f.nodes| :: s'.f.nodes[q] == s.f.nodes[q]
  {
    hide Sound, Locked, Owner;
    SoundForest(s);
    LiveIsFree(s, p);
    LiveIsKnown(s, k);
    RunTwo(s, Enter(n), Visit(n, k));
  }

  /** From where it is to enter id, a call can go down to k, if nothing on the way is done. */
  lemma {:induction false} Descend(s: State, n: nat, id: Id, k: Id) returns (steps: seq<Step>)
    requires Sound(s) && n < |s.calls| && s.calls[n].wants == Some(id) && LivePath(s.f, id, k)
    ensures IsRun(s, steps) && forall a | a in steps :: (a.Enter? || a.Visit?) && a.i == n
    ensures var s' := End(s, steps);
      && s'.f.tree == s.f.tree && s'.f.log == s.f.log && |s'.f.nodes| == |s.f.nodes| && |s'.calls| == |s.calls|
      && s'.calls[n].wants == Some(k) && s'.calls[n].err == s.calls[n].err && s'.calls[n].cause == s.calls[n].cause
      && forall q | k <= q < |s.f.nodes| :: s'.f.nodes[q] == s.f.nodes[q]
    decreases k
  {
    hide Sound, Possible, Take, Chain, Owner;
    if k == id {
      steps := [];
    } else {
      var p := Owner(s.f.tree, k).value;
      var first := Descend(s, n, id, p);
      var s1 := End(s, first);
      EnterAndVisit(s1, n, p, k);
      RunOn(s, first, [Enter(n), Visit(n, k)]);
      steps := first + [Enter(n), Visit(n, k)];
    }
  }

  /** From every reachable state: a cancel that is called now, whatever others are in progress, can be the one
      that decides the outcome of a context below its target, if nothing on the way down is done yet.  So if
      an earlier call was to reach that context, the earliest does not decide, but by giving the same outcome. */
  lemma LateCallWins(s: State, id: Id, k: Id, err: Error, cause: Error) returns (steps: seq<Step>)
    requires Sound(s) && UsableKind(s.f, id) && LivePath(s.f, id, k)
    ensures IsRun(s, steps) && steps != [] && steps[0] == Start(id, true, err, Some(cause))
    ensures forall a | a in steps[1..] :: (a.Enter? || a.Visit?) && a.i == |s.calls|
    ensures var f := End(s, steps).f;
      && f.tree == s.f.tree && f.log == s.f.log + [Event(id, err, cause)] && |f.nodes| == |s.f.nodes|
      && f.nodes[k].err.Some? && OutcomeOf(f.nodes[k]) == Dead(err, cause)
      && (OutcomeOf(f.nodes[k]) == Earliest(f.log, Chain(f.tree, k)) <==>
           Earliest(s.f.log, Chain(s.f.tree, k)) in {Alive, Dead(err, cause)})
  {
    hide Sound, Locked, Chain, Owner, LivePath, Earliest;
    SoundForest(s);
    var n, start := |s.calls|, Start(id, true, err, Some(cause));
    var s1 := Take(s, start);
    StepKeeps(s, start);
    PathStays(s.f, s1.f, id, k);
    var down := Descend(s1, n, id, k);
    var s2 := End(s1, down);
    PathMeans(s.f, id, k);
    LiveIsFree(s2, k);
    RunOne(s2, Enter(n));
    RunOn(s1, down, [Enter(n)]);
    var rest := down + [Enter(n)];
    steps := [start] + rest;
    assert steps[1..] == rest;
    EarliestAppend(s.f.log, Event(id, err, cause), Chain(s.f.tree, k));
  }

  lemma {:induction false} PathStays(f: Forest, f': Forest, id: Id, k: Id)
    requires Shape(f) && Shape(f') && f'.tree == f.tree && f'.nodes == f.nodes && LivePath(f, id, k)
    ensures LivePath(f', id, k)
    decreases k
  {
    if k != id {
      PathStays(f, f', id, Owner(f.tree, k).value);
    }
  }

  lemma {:induction false} PathMeans(f: Forest, id: Id, k: Id)
    requires Shape(f) && LivePath(f, id, k)
    ensures k < |f.tree| && Cancellable(f.tree[k].kind) && f.nodes[k].err.None? && id in Chain(f.tree, k)
    decreases k
  {
    if k != id {
      OwnChain(f.tree, k);
      PathMeans(f, id, Owner(f.tree, k).value);
    }
  }

  // ----- what interleaving changes

  /** Two contexts, the second below the first.  The cancel of the first has begun, and before it comes to
      the second, that one is cancelled with a cause of its own. */
  const OVERTAKEN: seq<Step> :=
    [Lone(Begin(0, CancelCtx)), Lone(Begin(1, CancelCtx)), Lone(Action.Register(2)),
      Start(1, true, Canceled, Some(Custom(1))), Enter(0), Start(2, true, Canceled, Some(Custom(2))), Enter(1)]

  /** The state of that run after some of its steps. */
  ghost function Overtaken(n: nat): State
    requires n <= 7
  {
    var one, two, four := Link(CancelCtx, 0), Link(CancelCtx, 1), Event(1, Canceled, Custom(1));
    var tree := if n == 0 then INITIAL.tree else if n == 1 then INITIAL.tree + [one] else INITIAL.tree + [one] + [two];
    var marked := FRESH.(done := ClosedDone, children := {2}, err := Some(Canceled), cause := Some(Custom(1)));
    var last := FRESH.(done := SharedClosed, err := Some(Canceled), cause := Some(Custom(2)));
    var nodes :=
      if n == 0 then INITIAL.nodes
      else if n == 1 then [FRESH, FRESH]
      else if n == 2 then [FRESH, FRESH.(done := OpenDone), FRESH.(pending := true)]
      else if n <= 4 then [FRESH, FRESH.(done := OpenDone, children := {2}), FRESH]
      else if n <= 6 then [FRESH, marked, FRESH]
      else [FRESH, marked, last];
    var log := if n < 4 then [] else if n < 6 then [four] else [four, Event(2, Canceled, Custom(2))];
    var first := if n < 5 then Call(1, Canceled, Custom(1), true, [], Some(1)) else Call(1, Canceled, Custom(1), true, [Frame(1, {2})], None);
    var second := if n < 7 then Call(2, Canceled, Custom(2), true, [], Some(2)) else Call(2, Canceled, Custom(2), true, [Frame(2, {})], None);
    State(Forest(tree, nodes, log), if n < 4 then [] else if n < 6 then [first] else [first, second])
  }

  lemma OvertakenTree(n: nat)
    requires n <= 7
    ensures Shape(Overtaken(n).f) && Nearest(Overtaken(n).f.tree, 0) == None
    ensures n >= 1 ==> Nearest(Overtaken(n).f.tree, 1) == Some(1)
    ensures n >= 2 ==> Owner(Overtaken(n).f.tree, 2) == Some(1) && Chain(Overtaken(n).f.tree, 2) == {1, 2}
  {
  }

  lemma OvertakenCreates(n: nat)
    requires n < 3
    ensures Shape(Overtaken(n).f) && Possible(Overtaken(n), OVERTAKEN[n]) && Take(Overtaken(n), OVERTAKEN[n]) == Overtaken(n + 1)
  {
    hide Nearest, Owner, Chain;
    OvertakenTree(n);
    OvertakenTree(n + 1);
    assert Overtaken(n).calls == [];
    var s, s' := Take(Overtaken(n), OVERTAKEN[n]), Overtaken(n + 1);
    if n == 2 {
      assert s.f.nodes[1].children == s'.f.nodes[1].children;
    }
    assert s.f.nodes == s'.f.nodes;
  }

  lemma OvertakenCancels(n: nat)
    requires 3 <= n < 7
    ensures Shape(Overtaken(n).f) && Possible(Overtaken(n), OVERTAKEN[n]) && Take(Overtaken(n), OVERTAKEN[n]) == Overtaken(n + 1)
  {
    hide Nearest, Owner, Chain, LonePossible, Apply;
    OvertakenTree(n);
    OvertakenTree(n + 1);
    assert forall i, j :: n < 5 ==> !HoldsAt(Overtaken(n).calls, i, j, 1);
    assert forall i, j :: !HoldsAt(Overtaken(n).calls, i, j, 2);
    var s, s' := Take(Overtaken(n), OVERTAKEN[n]), Overtaken(n + 1);
    if n == 4 || n == 6 {
      var i := OVERTAKEN[n].i;
      assert s.calls[i].frames == s'.calls[i].frames;
    }
    assert s.calls == s'.calls && s.f.nodes == s'.f.nodes;
  }

  lemma OvertakenStep(n: nat)
    requires n < 7
    ensures Shape(Overtaken(n).f) && Possible(Overtaken(n), OVERTAKEN[n]) && Take(Overtaken(n), OVERTAKEN[n]) == Overtaken(n + 1)
  {
    hide Shape, Overtaken, Possible, Take;
    if n < 3 {
      OvertakenCreates(n);
    } else {
      OvertakenCancels(n);
    }
  }

  lemma {:induction false} OvertakenSound(n: nat)
    requires n <= 7
    ensures Sound(Overtaken(n))
  {
    hide Sound, Possible, Take, Overtaken;
    if n == 0 {
      assert Overtaken(0) == ALONE by { OvertakenStart(); }
      AloneIsSound();
    } else {
      OvertakenSound(n - 1);
      OvertakenStep(n - 1);
      StepKeeps(Overtaken(n - 1), OVERTAKEN[n - 1]);
    }
  }

  lemma OvertakenStart()
    ensures Overtaken(0) == ALONE
  {
  }

  lemma {:induction false} OvertakenRun(n: nat)
    requires n <= 7
    ensures Sound(Overtaken(n)) && IsRun(Overtaken(n), OVERTAKEN[n..]) && End(Overtaken(n), OVERTAKEN[n..]) == Overtaken(7)
    decreases 7 - n
  {
    hide Sound, Possible, Take, Overtaken;
    OvertakenSound(n);
    var rest := OVERTAKEN[n..];
    if n == 7 {
      assert rest == [];
    } else {
      assert rest[0] == OVERTAKEN[n] && rest[1..] == OVERTAKEN[n + 1..];
      OvertakenStep(n);
      OvertakenRun(n + 1);
    }
  }

  lemma OvertakenReached()
    ensures Reached(OVERTAKEN) == Some(Overtaken(7))
  {
    hide Sound, IsRun, End, Overtaken;
    OvertakenStart();
    OvertakenRun(0);
    var steps := OVERTAKEN;
    assert steps[0..] == steps;
  }

  lemma OvertakenOutcome()
    ensures var f := Overtaken(7).f;
      |f.tree| == 3 && Cancellable(f.tree[2].kind) && |f.nodes| == 3 && OutcomeOf(f.nodes[2]) == Dead(Canceled, Custom(2))
      && f.log == [Event(1, Canceled, Custom(1)), Event(2, Canceled, Custom(2))]
  {
  }

  /** Then the second context has the later cause, though the cancel of the first was called before: the
      earliest call does not decide once cancels interleave. */
  lemma EarliestMayLose()
    ensures Reached(OVERTAKEN).Some?
    ensures var f := Reached(OVERTAKEN).value.f;
      |f.tree| == 3 && Cancellable(f.tree[2].kind) && OutcomeOf(f.nodes[2]) == Dead(Canceled, Custom(2))
      && Earliest(f.log, Chain(f.tree, 2)) == Dead(Canceled, Custom(1))
  {
    hide Sound, IsRun, End, Chain, Reached, Overtaken;
    OvertakenReached();
    OvertakenTree(7);
    OvertakenOutcome();
  }
}
