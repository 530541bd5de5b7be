/** The synchronous pipe of src/io/pipe.go as a system of interleaved steps: any
    number of Read, Write and Close calls run concurrently, each shared access
    (channel operation, mutex operation, error load or store) one step. */
module Pipe {
  import opened Basics

  type Id = nat

  datatype Error = EOF | ErrClosedPipe | Custom(code: nat)

  /** Where a Read call stands. */
  datatype ReadPc =
    | ReadCheck                                    // the first select, with a default
    | ReadSelect                                   // waiting on wrCh or done
    | ReadCopy(bw: seq<byte>)                      // has received the writer's slice
    | ReadAck(got: seq<byte>)                      // sending the count on rdCh
    | ReadLoadR                                    // readCloseError, first load
    | ReadLoadW(rerr: Option<Error>)               // readCloseError, second load
    | ReadReturn(got: seq<byte>, err: Option<Error>)

  /** Where a Write call stands; rest is the unsent slice and n the bytes counted. */
  datatype WritePc =
    | WriteCheck
    | WriteLock
    | WriteLoop(once: bool, rest: seq<byte>, n: nat)
    | WriteSelect(rest: seq<byte>, n: nat)
    | WriteAwait(rest: seq<byte>, n: nat)
    | WriteLoadW(n: nat, locked: bool)
    | WriteLoadR(n: nat, locked: bool, werr: Option<Error>)
    | WriteUnlock(n: nat, err: Option<Error>)
    | WriteReturn(n: nat, err: Option<Error>)

  datatype ClosePc = CloseStore | CloseOnce | CloseReturn

  datatype Side = ReadSide | WriteSide

  datatype Call =
    | Read(size: nat, rpc: ReadPc)
    | Write(data: seq<byte>, wpc: WritePc)
    | Close(side: Side, err: Option<Error>, cpc: ClosePc)

  /** One handshake's copy into a reader's buffer. */
  datatype Copy = Copy(reader: Id, bytes: seq<byte>)

  /** The pipe, its calls, and two logs: what each handshake copied, and the
      writes in the order they took wrMu. */
  datatype State = State(
    calls: map<Id, Call>,
    wrMu: Option<Id>,
    once: bool,
    done: bool,
    rerr: Option<Error>,
    werr: Option<Error>,
    copied: seq<Copy>,
    writes: seq<Id>)

  const INITIAL := State(map[], None, false, false, None, None, [], [])

  datatype Action =
    | Start(id: Id, call: Call)      // a new call
    | Local(id: Id)                  // a step of one call
    | TakeDone(id: Id)               // a waiting select receives from done
    | SendSlice(w: Id, r: Id)        // the rendezvous on wrCh
    | SendCount(w: Id, r: Id)        // the rendezvous on rdCh

  // ----- the steps

  function Min(a: nat, b: nat): nat { if a < b then a else b }

  predicate Fresh(c: Call) {
    match c
    case Read(_, pc) => pc.ReadCheck?
    case Write(_, pc) => pc.WriteCheck?
    case Close(_, _, pc) => pc.CloseStore?
  }

  predicate Finished(c: Call) {
    match c
    case Read(_, pc) => pc.ReadReturn?
    case Write(_, pc) => pc.WriteReturn?
    case Close(_, _, pc) => pc.CloseReturn?
  }

  predicate LocalEnabled(s: State, c: Call) {
    match c
    case Read(_, pc) => pc.ReadCheck? || pc.ReadCopy? || pc.ReadLoadR? || pc.ReadLoadW?
    case Write(_, pc) => !pc.WriteSelect? && !pc.WriteAwait? && !pc.WriteReturn? && (pc.WriteLock? ==> s.wrMu.None?)
    case Close(_, _, pc) => !pc.CloseReturn?
  }

  predicate Enabled(s: State, a: Action) {
    match a
    case Start(id, call) => id !in s.calls && Fresh(call)
    case Local(id) => id in s.calls && LocalEnabled(s, s.calls[id])
    case TakeDone(id) =>
      && id in s.calls && s.done
      && (var c := s.calls[id]; (c.Read? && c.rpc.ReadSelect?) || (c.Write? && c.wpc.WriteSelect?))
    case SendSlice(w, r) =>
      && w in s.calls && s.calls[w].Write? && s.calls[w].wpc.WriteSelect?
      && r in s.calls && s.calls[r].Read? && s.calls[r].rpc.ReadSelect?
    case SendCount(w, r) =>
      && w in s.calls && s.calls[w].Write? && s.calls[w].wpc.WriteAwait?
      && r in s.calls && s.calls[r].Read? && s.calls[r].rpc.ReadAck?
  }

  /** The error a closed end reports: the other end's, unless its own was stored
      first. */
  function CloseError(own: Option<Error>, other: Option<Error>): Error {
    if own.None? && other.Some? then other.value else ErrClosedPipe
  }

  function SetRead(s: State, id: Id, c: Call, pc: ReadPc): State
    requires c.Read?
  {
    s.(calls := s.calls[id := c.(rpc := pc)])
  }

  function SetWrite(s: State, id: Id, c: Call, pc: WritePc): State
    requires c.Write?
  {
    s.(calls := s.calls[id := c.(wpc := pc)])
  }

  function LocalRead(s: State, id: Id, c: Call): State
    requires c.Read? && LocalEnabled(s, c)
  {
    match c.rpc
    case ReadCheck => SetRead(s, id, c, if s.done then ReadLoadR else ReadSelect)
    case ReadCopy(bw) =>
      var got := bw[..Min(c.size, |bw|)];
      SetRead(s, id, c, ReadAck(got)).(copied := s.copied + [Copy(id, got)])
    case ReadLoadR => SetRead(s, id, c, ReadLoadW(s.rerr))
    case ReadLoadW(rerr) => SetRead(s, id, c, ReadReturn([], Some(CloseError(rerr, s.werr))))
  }

  function LocalWrite(s: State, id: Id, c: Call): State
    requires c.Write? && LocalEnabled(s, c)
  {
    match c.wpc
    case WriteCheck => SetWrite(s, id, c, if s.done then WriteLoadW(0, false) else WriteLock)
    case WriteLock => SetWrite(s, id, c, WriteLoop(true, c.data, 0)).(wrMu := Some(id), writes := s.writes + [id])
    case WriteLoop(once, rest, n) =>
      SetWrite(s, id, c, if once || rest != [] then WriteSelect(rest, n) else WriteUnlock(n, None))
    case WriteLoadW(n, locked) => SetWrite(s, id, c, WriteLoadR(n, locked, s.werr))
    case WriteLoadR(n, locked, werr) =>
      var e := Some(CloseError(werr, s.rerr));
      SetWrite(s, id, c, if locked then WriteUnlock(n, e) else WriteReturn(n, e))
    case WriteUnlock(n, e) => SetWrite(s, id, c, WriteReturn(n, e)).(wrMu := None)
  }

  /** An error store keeps the first error. */
  function Store(stored: Option<Error>, e: Error): Option<Error> {
    if stored.Some? then stored else Some(e)
  }

  function LocalClose(s: State, id: Id, c: Call): State
    requires c.Close? && LocalEnabled(s, c)
  {
    match c.cpc
    case CloseStore =>
      var e := if c.err.Some? then c.err.value else if c.side.ReadSide? then ErrClosedPipe else EOF;
      var s1 := s.(calls := s.calls[id := c.(cpc := CloseOnce)]);
      if c.side.ReadSide? then s1.(rerr := Store(s.rerr, e)) else s1.(werr := Store(s.werr, e))
    case CloseOnce =>
      s.(calls := s.calls[id := c.(cpc := CloseReturn)], once := true, done := s.done || !s.once)
  }

  function Apply(s: State, a: Action): State
    requires Enabled(s, a)
  {
    match a
    case Start(id, call) => s.(calls := s.calls[id := call])
    case Local(id) =>
      var c := s.calls[id];
      if c.Read? then LocalRead(s, id, c) else if c.Write? then LocalWrite(s, id, c) else LocalClose(s, id, c)
    case TakeDone(id) =>
      var c := s.calls[id];
      if c.Read? then SetRead(s, id, c, ReadLoadR) else SetWrite(s, id, c, WriteLoadW(c.wpc.n, true))
    case SendSlice(w, r) =>
      var cw, cr := s.calls[w], s.calls[r];
      SetRead(SetWrite(s, w, cw, WriteAwait(cw.wpc.rest, cw.wpc.n)), r, cr, ReadCopy(cw.wpc.rest))
    case SendCount(w, r) =>
      var cw, cr := s.calls[w], s.calls[r];
      var nw := |cr.rpc.got|;
      var rest := if nw <= |cw.wpc.rest| then cw.wpc.rest[nw..] else [];
      SetRead(SetWrite(s, w, cw, WriteLoop(false, rest, cw.wpc.n + nw)), r, cr, ReadReturn(cr.rpc.got, None))
  }

  // ----- what every reachable state satisfies

  /** The call is between taking and releasing wrMu. */
  predicate Holds(c: Call) {
    && c.Write?
    && match c.wpc
       case WriteLoop(_, _, _) => true
       case WriteSelect(_, _) => true
       case WriteAwait(_, _) => true
       case WriteLoadW(_, locked) => locked
       case WriteLoadR(_, locked, _) => locked
       case WriteUnlock(_, _) => true
       case _ => false
  }

  predicate InFlight(c: Call) { c.Read? && (c.rpc.ReadCopy? || c.rpc.ReadAck?) }

  predicate Awaiting(c: Call) { c.Write? && c.wpc.WriteAwait? }

  /** How much of its data a write has counted as written. */
  function Counted(c: Call): nat {
    if !c.Write? then 0
    else match c.wpc
      case WriteCheck => 0
      case WriteLock => 0
      case WriteLoop(_, _, n) => n
      case WriteSelect(_, n) => n
      case WriteAwait(_, n) => n
      case WriteLoadW(n, _) => n
      case WriteLoadR(n, _, _) => n
      case WriteUnlock(n, _) => n
      case WriteReturn(n, _) => n
  }

  /** One call's own bookkeeping. */
  predicate CallOk(s: State, c: Call) {
    match c
    case Read(size, pc) =>
      && (pc.ReadLoadR? || pc.ReadLoadW? ==> s.done)
      && (pc.ReadLoadW? && pc.rerr.Some? ==> pc.rerr == s.rerr)
      && (pc.ReadReturn? && pc.err.Some? && s.rerr.None? ==> s.werr == pc.err)
      && (pc.ReadReturn? && pc.err.Some? ==> pc.got == [] && s.done)
    case Write(data, pc) =>
      && Counted(c) <= |data|
      && (pc.WriteLoop? ==> pc.rest == data[pc.n..] && (pc.once ==> pc.n == 0))
      && (pc.WriteSelect? ==> pc.rest == data[pc.n..] && (data != [] ==> pc.n < |data|))
      && (pc.WriteAwait? ==> pc.rest == data[pc.n..] && (data != [] ==> pc.n < |data|))
      && (pc.WriteLoadW? || pc.WriteLoadR? ==> s.done && (data != [] ==> Counted(c) < |data|))
      && (pc.WriteLoadR? && pc.werr.Some? ==> pc.werr == s.werr)
      && (pc.WriteUnlock? || pc.WriteReturn? ==> data != [] ==> (pc.err.None? <==> pc.n == |data|))
      && (pc.WriteUnlock? || pc.WriteReturn? ==> pc.err.Some? && s.werr.None? ==> s.rerr == pc.err)
      && (pc.WriteUnlock? || pc.WriteReturn? ==> pc.err.None? ==> pc.n == |data|)
    case Close(side, err, pc) =>
      && (!pc.CloseStore? ==> if side.ReadSide? then s.rerr.Some? else s.werr.Some?)
      && (pc.CloseReturn? ==> s.done)
  }

  ghost predicate CallsOk(s: State) { forall id | id in s.calls :: CallOk(s, s.calls[id]) }

  /** wrMu is held by exactly the call that is inside the locked region. */
  ghost predicate MutexOk(s: State) {
    && (forall id | id in s.calls :: Holds(s.calls[id]) <==> s.wrMu == Some(id))
    && (s.wrMu.Some? ==> s.wrMu.value in s.calls)
  }

  /** The reader of a handshake in flight matches the awaiting writer. */
  predicate FlightOk(s: State, c: Call)
    requires InFlight(c)
  {
    && s.wrMu.Some? && s.wrMu.value in s.calls
    && var w := s.calls[s.wrMu.value];
    && Awaiting(w)
    && (c.rpc.ReadCopy? ==> c.rpc.bw == w.wpc.rest)
    && (c.rpc.ReadAck? ==> c.rpc.got <= w.wpc.rest && s.copied != [] && s.copied[|s.copied| - 1].bytes == c.rpc.got
                           && |c.rpc.got| == Min(c.size, |w.wpc.rest|))
  }

  ghost predicate FlightsOk(s: State) {
    && (forall r | r in s.calls && InFlight(s.calls[r]) :: FlightOk(s, s.calls[r]))
    && (forall r, r' | r in s.calls && r' in s.calls && InFlight(s.calls[r]) && InFlight(s.calls[r']) :: r == r')
    && (forall w | w in s.calls && Awaiting(s.calls[w]) :: exists r :: r in s.calls && InFlight(s.calls[r]))
  }

  ghost predicate CloseOk(s: State) {
    && s.once == s.done
    && (s.done ==> s.rerr.Some? || s.werr.Some?)
  }

  predicate PastLock(c: Call) { c.Write? && !c.wpc.WriteCheck? && !c.wpc.WriteLock? }

  /** The write log lists each write that ever took wrMu once, the holder last. */
  ghost predicate LogOk(s: State) {
    && (forall i | 0 <= i < |s.writes| :: s.writes[i] in s.calls && PastLock(s.calls[s.writes[i]]))
    && (forall i, j | 0 <= i < j < |s.writes| :: s.writes[i] != s.writes[j])
    && (s.wrMu.Some? ==> s.writes != [] && s.writes[|s.writes| - 1] == s.wrMu.value)
    && (forall id | id in s.calls && id !in s.writes :: !Holds(s.calls[id]) && Counted(s.calls[id]) == 0)
  }

  function Flatten(parts: seq<Copy>): seq<byte> {
    if parts == [] then [] else Flatten(parts[..|parts| - 1]) + parts[|parts| - 1].bytes
  }

  /** The bytes a logged write has counted. */
  function CountedBytes(c: Call): seq<byte> {
    if c.Write? && Counted(c) <= |c.data| then c.data[..Counted(c)] else []
  }

  /** What the logged writes have counted, in the order they took wrMu. */
  function Written(calls: map<Id, Call>, writes: seq<Id>): seq<byte> {
    if writes == [] then []
    else
      var id := writes[|writes| - 1];
      Written(calls, writes[..|writes| - 1]) + (if id in calls then CountedBytes(calls[id]) else [])
  }

  /** A handshake's bytes have been copied but not yet counted. */
  ghost predicate Uncounted(s: State) { exists r :: r in s.calls && Acking(s.calls[r]) }

  predicate Acking(c: Call) { c.Read? && c.rpc.ReadAck? }

  /** Readers received, in handshake order, exactly what writes counted, in wrMu
      order, plus the handshake in flight. */
  ghost predicate BytesOk(s: State) {
    if Uncounted(s) then
      s.copied != [] && Flatten(s.copied) == Written(s.calls, s.writes) + s.copied[|s.copied| - 1].bytes
    else
      Flatten(s.copied) == Written(s.calls, s.writes)
  }

  /** The bytes a read has received, if its handshake has happened. */
  function Received(c: Call): Option<seq<byte>> {
    if c.Read? && c.rpc.ReadAck? then Some(c.rpc.got)
    else if c.Read? && c.rpc.ReadReturn? && c.rpc.err.None? then Some(c.rpc.got)
    else None
  }

  /** The copy log is exactly what successful reads hold, one entry each. */
  ghost predicate ReadersOk(s: State) {
    && (forall i | 0 <= i < |s.copied| ::
          s.copied[i].reader in s.calls && Received(s.calls[s.copied[i].reader]) == Some(s.copied[i].bytes))
    && (forall i, j | 0 <= i < j < |s.copied| :: s.copied[i].reader != s.copied[j].reader)
    && (forall id | id in s.calls && Received(s.calls[id]).Some? ::
          exists i :: 0 <= i < |s.copied| && s.copied[i] == Copy(id, Received(s.calls[id]).value))
  }

  ghost predicate Core(s: State) {
    CallsOk(s) && MutexOk(s) && FlightsOk(s) && CloseOk(s) && LogOk(s) && BytesOk(s)
  }

  ghost predicate Invariant(s: State) {
    Core(s) && ReadersOk(s)
  }

  lemma InitialOk()
    ensures Invariant(INITIAL)
  {
  }

  /** Written depends only on the logged calls' counts. */
  lemma {:induction false} WrittenUnchanged(calls: map<Id, Call>, calls': map<Id, Call>, writes: seq<Id>)
    requires forall id | id in writes :: id in calls && id in calls' && CountedBytes(calls[id]) == CountedBytes(calls'[id])
    ensures Written(calls, writes) == Written(calls', writes)
  {
    if writes != [] {
      var front := writes[..|writes| - 1];
      assert forall id | id in front :: id in writes;
      WrittenUnchanged(calls, calls', front);
      assert writes[|writes| - 1] in writes;
    }
  }

  /** The last logged write counting more bytes appends them. */
  lemma WrittenGrows(calls: map<Id, Call>, calls': map<Id, Call>, writes: seq<Id>, more: seq<byte>)
    requires writes != []
    requires forall i, j | 0 <= i < j < |writes| :: writes[i] != writes[j]
    requires forall id | id in writes :: id in calls && id in calls'
    requires var w := writes[|writes| - 1];
             && CountedBytes(calls'[w]) == CountedBytes(calls[w]) + more
             && forall id | id in writes && id != w :: CountedBytes(calls[id]) == CountedBytes(calls'[id])
    ensures Written(calls', writes) == Written(calls, writes) + more
  {
    hide CountedBytes;
    var front, w := writes[..|writes| - 1], writes[|writes| - 1];
    assert w in writes;
    forall id | id in front
      ensures id in writes && id != w
    {
      var i :| 0 <= i < |front| && front[i] == id;
      assert writes[i] == id;
    }
    WrittenUnchanged(calls, calls', front);
    assert Written(calls, front) + (CountedBytes(calls[w]) + more) == Written(calls, front) + CountedBytes(calls[w]) + more;
  }

  // ----- every step keeps the invariant

  /** Stored errors and the closed flag only ever get set. */
  ghost predicate Later(s: State, s': State) {
    && (s.done ==> s'.done)
    && (s.rerr.Some? ==> s'.rerr == s.rerr)
    && (s.werr.Some? ==> s'.werr == s.werr)
  }

  lemma OthersOk(s: State, s': State, changed: set<Id>)
    requires CallsOk(s) && Later(s, s')
    requires forall id | id in s'.calls && id !in changed :: id in s.calls && s'.calls[id] == s.calls[id]
    requires forall id | id in s'.calls && id in changed :: CallOk(s', s'.calls[id])
    ensures CallsOk(s')
  {
    forall id | id in s'.calls
      ensures CallOk(s', s'.calls[id])
    {
      if id !in changed { assert CallOk(s, s.calls[id]); }
    }
  }

  lemma MutexKept(s: State, s': State)
    requires MutexOk(s) && s'.wrMu == s.wrMu && s.calls.Keys <= s'.calls.Keys
    requires forall id | id in s'.calls :: Holds(s'.calls[id]) == (id in s.calls && Holds(s.calls[id]))
    ensures MutexOk(s')
  {
    hide Holds;
  }

  /** What is in flight is untouched by a step of other calls. */
  lemma FlightsKept(s: State, s': State)
    requires FlightsOk(s) && s'.wrMu == s.wrMu && s'.copied == s.copied && s.calls.Keys <= s'.calls.Keys
    requires forall id | id in s'.calls :: InFlight(s'.calls[id]) || Awaiting(s'.calls[id]) ==> id in s.calls && s'.calls[id] == s.calls[id]
    requires forall id | id in s.calls :: InFlight(s.calls[id]) || Awaiting(s.calls[id]) ==> s'.calls[id] == s.calls[id]
    ensures FlightsOk(s')
  {
    hide InFlight, Awaiting;
    forall r | r in s'.calls && InFlight(s'.calls[r])
      ensures FlightOk(s', s'.calls[r])
    {
      assert FlightOk(s, s.calls[r]);
    }
    forall w | w in s'.calls && Awaiting(s'.calls[w])
      ensures exists r :: r in s'.calls && InFlight(s'.calls[r])
    {
      var r :| r in s.calls && InFlight(s.calls[r]);
      assert r in s'.calls && InFlight(s'.calls[r]);
    }
  }

  lemma LogKept(s: State, s': State)
    requires LogOk(s) && s'.writes == s.writes && (s'.wrMu.Some? ==> s'.wrMu == s.wrMu) && s.calls.Keys <= s'.calls.Keys
    requires forall id | id in s.calls :: PastLock(s.calls[id]) ==> PastLock(s'.calls[id])
    requires forall id | id in s'.calls && (Holds(s'.calls[id]) || Counted(s'.calls[id]) != 0) ::
               id in s.calls && (Holds(s.calls[id]) || Counted(s.calls[id]) != 0)
    ensures LogOk(s')
  {
    hide Holds, Counted, PastLock;
  }

  /** A step of calls that neither counts nor copies bytes leaves the bytes alone. */
  lemma BytesKept(s: State, s': State)
    requires LogOk(s) && BytesOk(s)
    requires s'.writes == s.writes && s'.copied == s.copied && s.calls.Keys <= s'.calls.Keys
    requires forall id | id in s.calls :: CountedBytes(s.calls[id]) == CountedBytes(s'.calls[id])
    requires Uncounted(s) <==> Uncounted(s')
    ensures BytesOk(s')
  {
    hide CountedBytes, Uncounted, Flatten, Written;
    WrittenSame(s, s');
  }

  lemma UncountedSame(s: State, s': State)
    requires s.calls.Keys <= s'.calls.Keys
    requires forall r | r in s'.calls :: Acking(s'.calls[r]) == (r in s.calls && Acking(s.calls[r]))
    ensures Uncounted(s) <==> Uncounted(s')
  {
    hide Acking;
    if Uncounted(s) {
      var r :| r in s.calls && Acking(s.calls[r]);
      assert r in s'.calls && Acking(s'.calls[r]);
    }
  }

  /** A handshake in flight means the mutex holder awaits its count. */
  lemma InFlightMeansAwaiting(s: State)
    requires FlightsOk(s)
    ensures forall r | r in s.calls && InFlight(s.calls[r]) ::
              s.wrMu.Some? && s.wrMu.value in s.calls && Awaiting(s.calls[s.wrMu.value])
  {
    forall r | r in s.calls && InFlight(s.calls[r])
      ensures s.wrMu.Some? && s.wrMu.value in s.calls && Awaiting(s.calls[s.wrMu.value])
    {
      assert FlightOk(s, s.calls[r]);
    }
  }

  lemma WrittenSame(s: State, s': State)
    requires LogOk(s) && s'.writes == s.writes && s.calls.Keys <= s'.calls.Keys
    requires forall id | id in s.calls :: CountedBytes(s.calls[id]) == CountedBytes(s'.calls[id])
    ensures Written(s'.calls, s'.writes) == Written(s.calls, s.writes)
  {
    hide CountedBytes, Written, Holds, Counted;
    WrittenUnchanged(s.calls, s'.calls, s.writes);
  }

  /** The quiet changes of one call: it neither takes nor releases wrMu, is not in
      flight before or after, and counts nothing. */
  predicate Quiet(c: Call, c': Call) {
    && !InFlight(c) && !InFlight(c') && !Awaiting(c) && !Awaiting(c')
    && Holds(c) == Holds(c') && Counted(c) == Counted(c')
    && c.Write? == c'.Write? && (c.Write? ==> c.data == c'.data) && (PastLock(c) ==> PastLock(c'))
  }

  lemma QuietKeeps(s: State, s': State, id: Id, c': Call)
    requires MutexOk(s) && FlightsOk(s) && LogOk(s) && BytesOk(s)
    requires s'.calls == s.calls[id := c'] && s'.wrMu == s.wrMu && s'.copied == s.copied && s'.writes == s.writes
    requires if id in s.calls then Quiet(s.calls[id], c') else Fresh(c')
    ensures MutexOk(s') && FlightsOk(s') && LogOk(s') && BytesOk(s')
  {
    hide MutexOk, FlightsOk, LogOk, BytesOk;
    assert s.calls.Keys <= s'.calls.Keys;
    MutexKept(s, s');
    FlightsKept(s, s');
    LogKept(s, s');
    UncountedSame(s, s');
    BytesKept(s, s');
  }

  lemma StartKeeps(s: State, a: Action)
    requires Core(s) && a.Start? && Enabled(s, a)
    ensures Core(Apply(s, a))
  {
    hide MutexOk, FlightsOk, LogOk, BytesOk, CallsOk;
    var s' := Apply(s, a);
    QuietKeeps(s, s', a.id, a.call);
    OthersOk(s, s', {a.id});
  }

  lemma LocalReadKeeps(s: State, a: Action)
    requires Core(s) && a.Local? && Enabled(s, a) && s.calls[a.id].Read?
    ensures Core(Apply(s, a))
  {
    hide MutexOk, FlightsOk, LogOk, BytesOk;
    var s' := Apply(s, a);
    OthersOk(s, s', {a.id});
    if s.calls[a.id].rpc.ReadCopy? {
      CopyKeeps(s, a.id);
    } else {
      QuietKeeps(s, s', a.id, s'.calls[a.id]);
    }
  }

  /** The copy of a handshake's bytes into the reader's buffer. */
  lemma CopyKeeps(s: State, id: Id)
    requires Core(s) && Enabled(s, Local(id)) && s.calls[id].Read? && s.calls[id].rpc.ReadCopy?
    ensures var s' := Apply(s, Local(id)); MutexOk(s') && FlightsOk(s') && LogOk(s') && BytesOk(s')
  {
    var s' := Apply(s, Local(id));
    MutexKept(s, s') by { hide FlightsOk, LogOk, BytesOk, CallsOk; }
    LogKept(s, s') by { hide FlightsOk, MutexOk, BytesOk, CallsOk; }
    CopyFlights(s, id);
    CopyBytes(s, id);
  }

  lemma CopyFlights(s: State, id: Id)
    requires FlightsOk(s) && Enabled(s, Local(id)) && s.calls[id].Read? && s.calls[id].rpc.ReadCopy?
    ensures FlightsOk(Apply(s, Local(id)))
  {
    var s' := Apply(s, Local(id));
    assert InFlight(s.calls[id]) && FlightOk(s, s.calls[id]);
    assert InFlight(s'.calls[id]);
    assert forall r | r in s.calls && r != id :: !InFlight(s.calls[r]);
  }

  lemma CopyBytes(s: State, id: Id)
    requires FlightsOk(s) && LogOk(s) && BytesOk(s) && Enabled(s, Local(id)) && s.calls[id].Read? && s.calls[id].rpc.ReadCopy?
    ensures BytesOk(Apply(s, Local(id)))
  {
    hide Flatten, Written;
    var s' := Apply(s, Local(id));
    var got := s'.calls[id].rpc.got;
    assert InFlight(s.calls[id]);
    assert Acking(s'.calls[id]);
    assert !Uncounted(s) && Uncounted(s');
    FlattenAppend(s.copied, Copy(id, got));
    WrittenSame(s, s');
  }

  lemma FlattenAppend(parts: seq<Copy>, p: Copy)
    ensures Flatten(parts + [p]) == Flatten(parts) + p.bytes
  {
    assert (parts + [p])[..|parts|] == parts;
  }

  lemma LocalWriteKeeps(s: State, a: Action)
    requires Core(s) && a.Local? && Enabled(s, a) && s.calls[a.id].Write?
    ensures Core(Apply(s, a))
  {
    hide MutexOk, FlightsOk, LogOk, BytesOk, CallsOk;
    var s' := Apply(s, a);
    LocalWriteCalls(s, s', a);
    if s.calls[a.id].wpc.WriteLock? {
      LockKeeps(s, a.id);
    } else if s.calls[a.id].wpc.WriteUnlock? {
      UnlockKeeps(s, a.id);
    } else {
      QuietKeeps(s, s', a.id, s'.calls[a.id]);
    }
  }

  lemma LocalWriteCalls(s: State, s': State, a: Action)
    requires CallsOk(s) && CloseOk(s) && a.Local? && Enabled(s, a) && s.calls[a.id].Write? && s' == Apply(s, a)
    ensures CallsOk(s')
  {
    assert CallOk(s, s.calls[a.id]);
    OthersOk(s, s', {a.id});
  }

  lemma LockKeeps(s: State, id: Id)
    requires Core(s) && Enabled(s, Local(id)) && s.calls[id].Write? && s.calls[id].wpc.WriteLock?
    ensures var s' := Apply(s, Local(id)); MutexOk(s') && FlightsOk(s') && LogOk(s') && BytesOk(s')
  {
    hide Flatten, Written;
    var s' := Apply(s, Local(id));
    assert MutexOk(s') by { hide FlightsOk, LogOk, BytesOk, CallsOk; }
    LockFlights(s, s', id);
    LockLog(s, s', id);
    LockBytes(s, s', id);
  }

  lemma LockFlights(s: State, s': State, id: Id)
    requires MutexOk(s) && FlightsOk(s) && Enabled(s, Local(id)) && s.calls[id].Write? && s.calls[id].wpc.WriteLock?
    requires s' == Apply(s, Local(id))
    ensures FlightsOk(s')
  {
    assert forall w | w in s.calls :: Awaiting(s.calls[w]) ==> Holds(s.calls[w]);
    assert forall w | w in s'.calls :: !Awaiting(s'.calls[w]);
    InFlightMeansAwaiting(s);
    assert forall r | r in s'.calls :: !InFlight(s'.calls[r]);
  }

  lemma LockLog(s: State, s': State, id: Id)
    requires MutexOk(s) && LogOk(s) && Enabled(s, Local(id)) && s.calls[id].Write? && s.calls[id].wpc.WriteLock?
    requires s' == Apply(s, Local(id))
    ensures LogOk(s')
  {
    hide MutexOk;
    assert !PastLock(s.calls[id]);
    assert s'.writes == s.writes + [id];
    assert forall k :: k in s'.writes <==> k in s.writes || k == id;
  }

  lemma LockBytes(s: State, s': State, id: Id)
    requires LogOk(s) && BytesOk(s) && Enabled(s, Local(id)) && s.calls[id].Write? && s.calls[id].wpc.WriteLock?
    requires s' == Apply(s, Local(id))
    ensures BytesOk(s')
  {
    hide Flatten, LogOk, Written;
    LastWritten(s'.calls, s.writes, id);
    assert CountedBytes(s'.calls[id]) == [];
    WrittenSame(s, s'.(writes := s.writes));
    UncountedSame(s, s');
  }

  lemma LastWritten(calls: map<Id, Call>, writes: seq<Id>, id: Id)
    requires id in calls
    ensures Written(calls, writes + [id]) == Written(calls, writes) + CountedBytes(calls[id])
  {
    assert (writes + [id])[..|writes|] == writes;
  }

  lemma UnlockKeeps(s: State, id: Id)
    requires Core(s) && Enabled(s, Local(id)) && s.calls[id].Write? && s.calls[id].wpc.WriteUnlock?
    ensures var s' := Apply(s, Local(id)); MutexOk(s') && FlightsOk(s') && LogOk(s') && BytesOk(s')
  {
    hide Flatten, Written;
    var s' := Apply(s, Local(id));
    assert MutexOk(s') by { hide FlightsOk, LogOk, BytesOk, CallsOk; }
    UnlockFlights(s, s', id);
    UnlockLog(s, s', id);
    UncountedSame(s, s');
    BytesKept(s, s');
  }

  lemma UnlockFlights(s: State, s': State, id: Id)
    requires MutexOk(s) && FlightsOk(s) && Enabled(s, Local(id)) && s.calls[id].Write? && s.calls[id].wpc.WriteUnlock?
    requires s' == Apply(s, Local(id))
    ensures FlightsOk(s')
  {
    assert Holds(s.calls[id]) && s.wrMu == Some(id);
    assert forall w | w in s.calls :: Awaiting(s.calls[w]) ==> Holds(s.calls[w]);
    InFlightMeansAwaiting(s);
    assert forall r | r in s'.calls :: !InFlight(s'.calls[r]);
  }

  lemma UnlockLog(s: State, s': State, id: Id)
    requires MutexOk(s) && LogOk(s) && Enabled(s, Local(id)) && s.calls[id].Write? && s.calls[id].wpc.WriteUnlock?
    requires s' == Apply(s, Local(id))
    ensures LogOk(s')
  {
    assert Holds(s.calls[id]);
    LogKept(s, s');
  }

  lemma LocalCloseKeeps(s: State, a: Action)
    requires Core(s) && a.Local? && Enabled(s, a) && s.calls[a.id].Close?
    ensures Core(Apply(s, a))
  {
    hide MutexOk, FlightsOk, LogOk, BytesOk;
    var s' := Apply(s, a);
    LocalCloseCalls(s, s', a);
    hide CallsOk;
    QuietKeeps(s, s', a.id, s'.calls[a.id]);
  }

  lemma LocalCloseCalls(s: State, s': State, a: Action)
    requires CallsOk(s) && CloseOk(s) && a.Local? && Enabled(s, a) && s.calls[a.id].Close? && s' == Apply(s, a)
    ensures CallsOk(s')
  {
    assert CallOk(s, s.calls[a.id]);
    OthersOk(s, s', {a.id});
  }

  lemma TakeDoneKeeps(s: State, a: Action)
    requires Core(s) && a.TakeDone? && Enabled(s, a)
    ensures Core(Apply(s, a))
  {
    hide MutexOk, FlightsOk, LogOk, BytesOk;
    var s' := Apply(s, a);
    OthersOk(s, s', {a.id});
    QuietKeeps(s, s', a.id, s'.calls[a.id]);
  }

  lemma SendSliceKeeps(s: State, a: Action)
    requires Core(s) && a.SendSlice? && Enabled(s, a)
    ensures Core(Apply(s, a))
  {
    hide MutexOk, FlightsOk, LogOk, BytesOk;
    var s' := Apply(s, a);
    SendSliceCalls(s, s', a);
    SendSliceFlights(s, s', a);
    SendSliceBytes(s, s', a);
  }

  lemma SendSliceCalls(s: State, s': State, a: Action)
    requires Core(s) && a.SendSlice? && Enabled(s, a) && s' == Apply(s, a)
    ensures CallsOk(s') && MutexOk(s') && LogOk(s')
  {
    hide MutexOk, FlightsOk, LogOk, BytesOk, ReadersOk;
    assert CallsOk(s') by {
      assert CallOk(s, s.calls[a.w]);
      OthersOk(s, s', {a.w, a.r});
    }
    hide CallsOk, CallOk;
    MutexKept(s, s');
    LogKept(s, s');
  }

  lemma SendSliceFlights(s: State, s': State, a: Action)
    requires MutexOk(s) && FlightsOk(s) && a.SendSlice? && Enabled(s, a) && s' == Apply(s, a)
    ensures FlightsOk(s')
  {
    assert Holds(s.calls[a.w]);
    assert s.wrMu == Some(a.w);
    InFlightMeansAwaiting(s);
    assert forall r | r in s.calls :: !InFlight(s.calls[r]);
    assert InFlight(s'.calls[a.r]);
  }

  lemma SendSliceBytes(s: State, s': State, a: Action)
    requires FlightsOk(s) && LogOk(s) && BytesOk(s) && a.SendSlice? && Enabled(s, a) && s' == Apply(s, a)
    ensures BytesOk(s')
  {
    hide FlightsOk, LogOk, Flatten, Written;
    UncountedSame(s, s');
    BytesKept(s, s');
  }

  lemma SendCountKeeps(s: State, a: Action)
    requires Core(s) && a.SendCount? && Enabled(s, a)
    ensures Core(Apply(s, a))
  {
    hide MutexOk, FlightsOk, LogOk, BytesOk, CallsOk, FlightOk;
    var s' := Apply(s, a);
    SendCountMatches(s, a);
    SendCountCalls(s, s', a);
    MutexKept(s, s');
    LogKept(s, s');
    SendCountFlights(s, s', a);
    SendCountBytes(s, s', a);
  }

  lemma SendCountMatches(s: State, a: Action)
    requires MutexOk(s) && FlightsOk(s) && CallsOk(s) && a.SendCount? && Enabled(s, a)
    ensures s.wrMu == Some(a.w) && InFlight(s.calls[a.r]) && FlightOk(s, s.calls[a.r])
    ensures forall r | r in s.calls && r != a.r :: !InFlight(s.calls[r])
    ensures var c := s.calls[a.w]; c.wpc.n <= |c.data| && c.wpc.rest == c.data[c.wpc.n..]
  {
    assert Holds(s.calls[a.w]) && InFlight(s.calls[a.r]);
    assert CallOk(s, s.calls[a.w]);
  }

  lemma SendCountCalls(s: State, s': State, a: Action)
    requires CallsOk(s) && a.SendCount? && Enabled(s, a) && s' == Apply(s, a)
    requires s.wrMu == Some(a.w) && InFlight(s.calls[a.r]) && FlightOk(s, s.calls[a.r])
    requires var c := s.calls[a.w]; c.wpc.n <= |c.data| && c.wpc.rest == c.data[c.wpc.n..]
    ensures CallsOk(s')
  {
    var c, got := s.calls[a.w], s.calls[a.r].rpc.got;
    assert c.data[c.wpc.n..][|got|..] == c.data[c.wpc.n + |got|..];
    OthersOk(s, s', {a.w, a.r});
  }

  lemma SendCountFlights(s: State, s': State, a: Action)
    requires MutexOk(s) && FlightsOk(s) && a.SendCount? && Enabled(s, a) && s' == Apply(s, a) && s.wrMu == Some(a.w)
    requires forall r | r in s.calls && r != a.r :: !InFlight(s.calls[r])
    ensures FlightsOk(s')
  {
    assert forall w | w in s.calls :: Awaiting(s.calls[w]) ==> Holds(s.calls[w]);
  }

  lemma SendCountBytes(s: State, s': State, a: Action)
    requires LogOk(s) && BytesOk(s) && a.SendCount? && Enabled(s, a) && s' == Apply(s, a)
    requires s.wrMu == Some(a.w) && FlightOk(s, s.calls[a.r])
    requires forall r | r in s.calls && r != a.r :: !InFlight(s.calls[r])
    requires var c := s.calls[a.w]; c.wpc.n <= |c.data| && c.wpc.rest == c.data[c.wpc.n..]
    ensures BytesOk(s')
  {
    hide Flatten, Written, LogOk;
    var cw, got := s.calls[a.w], s.calls[a.r].rpc.got;
    assert cw.data[..cw.wpc.n + |got|] == cw.data[..cw.wpc.n] + got;
    assert Acking(s.calls[a.r]);
    assert Uncounted(s) && !Uncounted(s');
    CountBytes(s, s', got);
  }

  lemma CountBytes(s: State, s': State, got: seq<byte>)
    requires LogOk(s) && BytesOk(s) && Uncounted(s) && !Uncounted(s') && s.wrMu.Some?
    requires s'.writes == s.writes && s'.copied == s.copied && s.calls.Keys == s'.calls.Keys
    requires s.copied != [] && s.copied[|s.copied| - 1].bytes == got && s.wrMu.value in s.calls
    requires CountedBytes(s'.calls[s.wrMu.value]) == CountedBytes(s.calls[s.wrMu.value]) + got
    requires forall id | id in s.calls && id != s.wrMu.value :: CountedBytes(s.calls[id]) == CountedBytes(s'.calls[id])
    ensures BytesOk(s')
  {
    hide CountedBytes, Flatten, Written, Uncounted, Holds, Counted;
    WrittenGrows(s.calls, s'.calls, s.writes, got);
  }

  lemma ReadersKeep(s: State, a: Action)
    requires ReadersOk(s) && Enabled(s, a)
    ensures ReadersOk(Apply(s, a))
  {
    hide ReadersOk;
    var s' := Apply(s, a);
    if a.Local? && s.calls[a.id].Read? && s.calls[a.id].rpc.ReadCopy? {
      ReadersGrow(s, s', a.id, s'.calls[a.id].rpc.got);
    } else {
      ReceivedSame(s, a);
      ReadersSame(s, s');
    }
  }

  /** Only the copy changes what a read has received. */
  lemma ReceivedSame(s: State, a: Action)
    requires Enabled(s, a) && !(a.Local? && s.calls[a.id].Read? && s.calls[a.id].rpc.ReadCopy?)
    ensures var s' := Apply(s, a);
            && s'.copied == s.copied && s.calls.Keys <= s'.calls.Keys
            && forall id | id in s'.calls :: Received(s'.calls[id]) == if id in s.calls then Received(s.calls[id]) else None
  {
    match a
    case Start(_, _) =>
    case Local(_) =>
    case TakeDone(_) =>
    case SendSlice(_, _) =>
    case SendCount(_, _) =>
  }

  lemma ReadersSame(s: State, s': State)
    requires ReadersOk(s) && s'.copied == s.copied && s.calls.Keys <= s'.calls.Keys
    requires forall id | id in s'.calls :: Received(s'.calls[id]) == if id in s.calls then Received(s.calls[id]) else None
    ensures ReadersOk(s')
  {
    hide Received;
  }

  lemma ReadersGrow(s: State, s': State, id: Id, got: seq<byte>)
    requires ReadersOk(s) && id in s.calls && Received(s.calls[id]).None?
    requires s'.copied == s.copied + [Copy(id, got)] && s'.calls.Keys == s.calls.Keys
    requires Received(s'.calls[id]) == Some(got)
    requires forall k | k in s.calls && k != id :: Received(s'.calls[k]) == Received(s.calls[k])
    ensures ReadersOk(s')
  {
    hide Received;
    forall k | k in s'.calls && Received(s'.calls[k]).Some?
      ensures exists i :: 0 <= i < |s'.copied| && s'.copied[i] == Copy(k, Received(s'.calls[k]).value)
    {
      if k == id {
        assert s'.copied[|s.copied|] == Copy(k, got);
      } else {
        var i :| 0 <= i < |s.copied| && s.copied[i] == Copy(k, Received(s.calls[k]).value);
        assert s'.copied[i] == s.copied[i];
      }
    }
  }

  lemma StepKeeps(s: State, a: Action)
    requires Invariant(s) && Enabled(s, a)
    ensures Invariant(Apply(s, a))
  {
    CoreKept(s, a);
    ReadersKeep(s, a) by { hide MutexOk, FlightsOk, LogOk, BytesOk, CallsOk; }
  }

  lemma CoreKept(s: State, a: Action)
    requires Core(s) && Enabled(s, a)
    ensures Core(Apply(s, a))
  {
    hide Core, Apply;
    match a
    case Start(_, _) => StartKeeps(s, a);
    case Local(id) =>
      if s.calls[id].Read? {
        LocalReadKeeps(s, a);
      } else if s.calls[id].Write? {
        LocalWriteKeeps(s, a);
      } else {
        LocalCloseKeeps(s, a);
      }
    case TakeDone(_) => TakeDoneKeeps(s, a);
    case SendSlice(_, _) => SendSliceKeeps(s, a);
    case SendCount(_, _) => SendCountKeeps(s, a);
  }

  // ----- whole runs

  ghost predicate IsRun(s: State, actions: seq<Action>)
    decreases actions
  {
    actions != [] ==> Enabled(s, actions[0]) && IsRun(Apply(s, actions[0]), actions[1..])
  }

  ghost function End(s: State, actions: seq<Action>): State
    requires IsRun(s, actions)
    decreases actions
  {
    if actions == [] then s else End(Apply(s, actions[0]), actions[1..])
  }

  lemma {:induction false} RunKeeps(s: State, actions: seq<Action>)
    requires Invariant(s) && IsRun(s, actions)
    ensures Invariant(End(s, actions))
    decreases actions
  {
    if actions != [] {
      StepKeeps(s, actions[0]);
      RunKeeps(Apply(s, actions[0]), actions[1..]);
    }
  }

  /** In every interleaving: what readers received, in handshake order, is what
      writes counted, in wrMu order, with at most one handshake copied and not
      yet counted.  The copy log has one entry for each read that got bytes, and
      no other; the write log has each write that counted bytes, once. */
  lemma BytesArriveInOrder(actions: seq<Action>)
    requires IsRun(INITIAL, actions)
    ensures var s := End(INITIAL, actions);
            && (!Uncounted(s) ==> Flatten(s.copied) == Written(s.calls, s.writes))
            && (Uncounted(s) ==>
                  (s.copied != [] && Flatten(s.copied) == Written(s.calls, s.writes) + s.copied[|s.copied| - 1].bytes))
            && (forall id | id in s.calls && Received(s.calls[id]).Some? ::
                  exists i :: 0 <= i < |s.copied| && s.copied[i] == Copy(id, Received(s.calls[id]).value))
            && (forall i | 0 <= i < |s.copied| ::
                  s.copied[i].reader in s.calls && Received(s.calls[s.copied[i].reader]) == Some(s.copied[i].bytes))
            && (forall i, j | 0 <= i < j < |s.copied| :: s.copied[i].reader != s.copied[j].reader)
            && (forall id | id in s.calls && Counted(s.calls[id]) > 0 :: id in s.writes)
            && (forall i, j | 0 <= i < j < |s.writes| :: s.writes[i] != s.writes[j])
            && (forall i | 0 <= i < |s.writes| :: s.writes[i] in s.calls && s.calls[s.writes[i]].Write?)
  {
    hide Flatten, Written, End, IsRun, CallsOk, MutexOk, FlightsOk, Counted, Received;
    InitialOk();
    RunKeeps(INITIAL, actions);
  }

  /** Where a logged write stands in the log, its counted bytes stand in what was written. */
  lemma {:induction false} WrittenAt(calls: map<Id, Call>, writes: seq<Id>, i: nat) returns (after: seq<byte>)
    requires i < |writes| && writes[i] in calls
    ensures Written(calls, writes) == Written(calls, writes[..i]) + CountedBytes(calls[writes[i]]) + after
    decreases |writes|
  {
    var front := writes[..|writes| - 1];
    if i == |writes| - 1 {
      after := [];
    } else {
      var more := WrittenAt(calls, front, i);
      assert front[..i] == writes[..i];
      var last := writes[|writes| - 1];
      after := more + if last in calls then CountedBytes(calls[last]) else [];
    }
  }

  /** In every interleaving, the bytes that a write has counted, whole or in part, reached readers in one
      piece: what the writes before it in wrMu order counted, its own bytes, and then the rest. */
  lemma WritesAreContiguous(actions: seq<Action>, id: Id) returns (i: nat, after: seq<byte>)
    requires IsRun(INITIAL, actions)
    requires var s := End(INITIAL, actions); id in s.calls && Counted(s.calls[id]) > 0
    ensures var s := End(INITIAL, actions);
            && i < |s.writes| && s.writes[i] == id
            && s.calls[id].Write? && Counted(s.calls[id]) <= |s.calls[id].data|
            && CountedBytes(s.calls[id]) == s.calls[id].data[..Counted(s.calls[id])]
            && Flatten(s.copied) == Written(s.calls, s.writes[..i]) + CountedBytes(s.calls[id]) + after
  {
    hide Flatten, Written, End, IsRun, Counted, FlightsOk, MutexOk;
    BytesArriveInOrder(actions);
    var s := End(INITIAL, actions);
    CountedIsPrefix(actions, id);
    i :| 0 <= i < |s.writes| && s.writes[i] == id;
    after := WrittenAt(s.calls, s.writes, i);
    if Uncounted(s) {
      var bytes := s.copied[|s.copied| - 1].bytes;
      var before, own := Written(s.calls, s.writes[..i]), CountedBytes(s.calls[id]);
      assert before + own + after + bytes == before + own + (after + bytes);
      after := after + bytes;
    }
  }

  lemma CountedIsPrefix(actions: seq<Action>, id: Id)
    requires IsRun(INITIAL, actions)
    requires var s := End(INITIAL, actions); id in s.calls && Counted(s.calls[id]) > 0
    ensures var c := End(INITIAL, actions).calls[id]; c.Write? && Counted(c) <= |c.data|
  {
    hide End, IsRun, MutexOk, FlightsOk, LogOk, BytesOk, ReadersOk;
    InitialOk();
    RunKeeps(INITIAL, actions);
    var s := End(INITIAL, actions);
    assert CallOk(s, s.calls[id]);
  }

  /** The two sides of one handshake count the same bytes: as much of what the write has left as the reader has
      room for. */
  lemma HandshakeMoves(s: State, w: Id, r: Id)
    requires Invariant(s) && Enabled(s, SendCount(w, r))
    ensures var c, c', moved := s.calls[w], Apply(s, SendCount(w, r)).calls[w], s.calls[r].rpc.got;
      && Apply(s, SendCount(w, r)).calls[r] == s.calls[r].(rpc := ReadReturn(moved, None))
      && |moved| == (if s.calls[r].size < |c.data| - c.wpc.n then s.calls[r].size else |c.data| - c.wpc.n)
      && c.wpc.n + |moved| <= |c.data| && moved == c.data[c.wpc.n..c.wpc.n + |moved|]
      && c' == c.(wpc := WriteLoop(false, c.data[c.wpc.n + |moved|..], c.wpc.n + |moved|))
  {
    hide BytesOk, LogOk, ReadersOk, CallsOk, MutexOk, FlightsOk, CloseOk;
    SendCountMatches(s, SendCount(w, r));
    var c, moved := s.calls[w], s.calls[r].rpc.got;
    assert c.data[c.wpc.n..][..|moved|] == c.data[c.wpc.n..c.wpc.n + |moved|];
    assert c.data[c.wpc.n..][|moved|..] == c.data[c.wpc.n + |moved|..];
  }

  // ----- the errors that calls report

  /** A close of that side that has stored its error was given e; EOF for the write side, and ErrClosedPipe for the
      read side, is what it is given if it is given no error. */
  predicate Gave(c: Call, side: Side, e: Error) {
    && c.Close? && c.side == side && !c.cpc.CloseStore?
    && (c.err == Some(e) || (c.err == None && e == if side == WriteSide then EOF else ErrClosedPipe))
  }

  ghost predicate Given(calls: map<Id, Call>, side: Side, e: Error) {
    exists id :: id in calls && Gave(calls[id], side, e)
  }

  /** Stored errors were given to a close of their side. */
  ghost predicate ErrorsGiven(s: State) {
    && (s.rerr.Some? ==> Given(s.calls, ReadSide, s.rerr.value))
    && (s.werr.Some? ==> Given(s.calls, WriteSide, s.werr.value))
  }

  lemma GivenStays(s: State, a: Action, side: Side, e: Error)
    requires Enabled(s, a) && Given(s.calls, side, e)
    ensures Given(Apply(s, a).calls, side, e)
  {
    var id :| id in s.calls && Gave(s.calls[id], side, e);
    assert id in Apply(s, a).calls && Gave(Apply(s, a).calls[id], side, e);
  }

  lemma GivenKeeps(s: State, a: Action)
    requires Enabled(s, a) && ErrorsGiven(s)
    ensures ErrorsGiven(Apply(s, a))
  {
    hide Given;
    var s' := Apply(s, a);
    if s.rerr.Some? { GivenStays(s, a, ReadSide, s.rerr.value); }
    if s.werr.Some? { GivenStays(s, a, WriteSide, s.werr.value); }
    if a.Local? && s.calls[a.id].Close? && s.calls[a.id].cpc.CloseStore? {
      StoreIsGiven(s, a.id);
    }
  }

  lemma StoreIsGiven(s: State, id: Id)
    requires Enabled(s, Local(id)) && s.calls[id].Close? && s.calls[id].cpc.CloseStore?
    ensures var s' := Apply(s, Local(id));
      && (s.calls[id].side.ReadSide? && s.rerr.None? ==> Given(s'.calls, ReadSide, s'.rerr.value))
      && (s.calls[id].side.WriteSide? && s.werr.None? ==> Given(s'.calls, WriteSide, s'.werr.value))
  {
    var s' := Apply(s, Local(id));
    assert s.calls[id].side.ReadSide? && s.rerr.None? ==> id in s'.calls && Gave(s'.calls[id], ReadSide, s'.rerr.value);
    assert s.calls[id].side.WriteSide? && s.werr.None? ==> id in s'.calls && Gave(s'.calls[id], WriteSide, s'.werr.value);
  }

  /** A call that fails, or is about to, on the side whose error is own, the other side's being other: it reports
      ErrClosedPipe only if its own side has been closed, and else what the other side was given. */
  predicate FailsRightly(own: Option<Error>, other: Option<Error>, e: Error) {
    (e == ErrClosedPipe && own.Some?) || other == Some(e)
  }

  predicate FailureOk(s: State, c: Call) {
    match c
    case Read(_, pc) =>
      && (pc.ReadLoadW? ==> if pc.rerr.Some? then s.rerr.Some? else s.werr.Some?)
      && (pc.ReadReturn? && pc.err.Some? ==> FailsRightly(s.rerr, s.werr, pc.err.value))
    case Write(_, pc) =>
      && (pc.WriteLoadR? ==> if pc.werr.Some? then s.werr.Some? else s.rerr.Some?)
      && (pc.WriteUnlock? || pc.WriteReturn? ==> pc.err.Some? ==> FailsRightly(s.werr, s.rerr, pc.err.value))
    case Close(_, _, _) => true
  }

  ghost predicate FailuresOk(s: State) { forall id | id in s.calls :: FailureOk(s, s.calls[id]) }

  /** The calls that an action is a step of. */
  function Movers(a: Action): set<Id> {
    match a
    case Start(id, _) => {id}
    case Local(id) => {id}
    case TakeDone(id) => {id}
    case SendSlice(w, r) => {w, r}
    case SendCount(w, r) => {w, r}
  }

  lemma OthersStay(s: State, a: Action, id: Id)
    requires Enabled(s, a) && id !in Movers(a)
    ensures id in Apply(s, a).calls <==> id in s.calls
    ensures id in s.calls ==> Apply(s, a).calls[id] == s.calls[id]
  {
  }

  lemma FailureStays(s: State, s': State, c: Call)
    requires FailureOk(s, c) && Later(s, s')
    ensures FailureOk(s', c)
  {
  }

  lemma FailuresKeep(s: State, a: Action)
    requires Invariant(s) && Enabled(s, a) && FailuresOk(s)
    ensures FailuresOk(Apply(s, a))
  {
    hide MutexOk, FlightsOk, LogOk, BytesOk, ReadersOk, CallOk, FailureOk, Apply;
    var s' := Apply(s, a);
    StepIsLater(s, a);
    forall id | id in s'.calls ensures FailureOk(s', s'.calls[id]) {
      if id in Movers(a) {
        MoverFailure(s, a, id);
      } else {
        OthersStay(s, a, id);
        FailureStays(s, s', s.calls[id]);
      }
    }
  }

  lemma MoverFailure(s: State, a: Action, id: Id)
    requires CallsOk(s) && CloseOk(s) && Enabled(s, a) && id in Movers(a) && (id in s.calls ==> FailureOk(s, s.calls[id]))
    ensures id in Apply(s, a).calls && FailureOk(Apply(s, a), Apply(s, a).calls[id])
  {
    assert id in s.calls ==> CallOk(s, s.calls[id]);
  }

  lemma {:induction false} RunFailures(s: State, actions: seq<Action>)
    requires Invariant(s) && IsRun(s, actions) && ErrorsGiven(s) && FailuresOk(s)
    ensures ErrorsGiven(End(s, actions)) && FailuresOk(End(s, actions))
    decreases actions
  {
    hide Invariant, ErrorsGiven, FailuresOk, Apply, Enabled;
    if actions != [] {
      StepKeeps(s, actions[0]);
      GivenKeeps(s, actions[0]);
      FailuresKeep(s, actions[0]);
      RunFailures(Apply(s, actions[0]), actions[1..]);
    }
  }

  /** In every run: a stored error is what some close of that side was given, EOF or ErrClosedPipe if nothing. */
  lemma StoredErrorsAreGiven(actions: seq<Action>)
    requires IsRun(INITIAL, actions)
    ensures var s := End(INITIAL, actions);
      && (s.rerr.Some? ==> Given(s.calls, ReadSide, s.rerr.value))
      && (s.werr.Some? ==> Given(s.calls, WriteSide, s.werr.value))
  {
    hide End, IsRun, Invariant;
    InitialOk();
    RunFailures(INITIAL, actions);
  }

  /** A returned write counted a prefix of its data; a non-empty one returned no error exactly when it counted
      everything.  A failed one returned ErrClosedPipe with the write side closed, or else what a close of the read
      side was given. */
  lemma WriteResults(actions: seq<Action>, id: Id)
    requires IsRun(INITIAL, actions)
    ensures var s := End(INITIAL, actions);
            id in s.calls && s.calls[id].Write? && s.calls[id].wpc.WriteReturn? ==>
              var c := s.calls[id];
              && c.wpc.n <= |c.data|
              && (c.data != [] ==> (c.wpc.err.None? <==> c.wpc.n == |c.data|))
              && (c.wpc.err.Some? ==>
                   (c.wpc.err == Some(ErrClosedPipe) && s.werr.Some?) || Given(s.calls, ReadSide, c.wpc.err.value))
              && (c.wpc.err.Some? && s.werr.None? ==> s.rerr == c.wpc.err)
  {
    hide End, IsRun, MutexOk, FlightsOk, LogOk, BytesOk, ReadersOk, Given;
    InitialOk();
    RunKeeps(INITIAL, actions);
    RunFailures(INITIAL, actions);
    var s := End(INITIAL, actions);
    if id in s.calls { assert CallOk(s, s.calls[id]) && FailureOk(s, s.calls[id]); }
  }

  /** A read that failed got nothing, and returned ErrClosedPipe with the read side closed, or else what a close of
      the write side was given. */
  lemma ReadResults(actions: seq<Action>, id: Id)
    requires IsRun(INITIAL, actions)
    ensures var s := End(INITIAL, actions);
            id in s.calls && s.calls[id].Read? && s.calls[id].rpc.ReadReturn? && s.calls[id].rpc.err.Some? ==>
              var err := s.calls[id].rpc.err;
              && s.calls[id].rpc.got == [] && s.done
              && ((err == Some(ErrClosedPipe) && s.rerr.Some?) || Given(s.calls, WriteSide, err.value))
              && (s.rerr.None? ==> s.werr == err)
  {
    hide End, IsRun, MutexOk, FlightsOk, LogOk, BytesOk, ReadersOk, Given;
    InitialOk();
    RunKeeps(INITIAL, actions);
    RunFailures(INITIAL, actions);
    var s := End(INITIAL, actions);
    if id in s.calls { assert CallOk(s, s.calls[id]) && FailureOk(s, s.calls[id]); }
  }

  /** A read that has looked at its own side's error, which was r, while the other side's was w. */
  predicate ReadFails(s: State, c: Call, r: Option<Error>, w: Option<Error>) {
    && (r.Some? || w.Some?) && (w.Some? ==> s.werr == w)
    && c.Read? && (c.rpc == ReadLoadW(r) || c.rpc == ReadReturn([], Some(if r.Some? then ErrClosedPipe else w.value)))
  }

  predicate WriteFails(s: State, c: Call, n: nat, w: Option<Error>, r: Option<Error>) {
    && (w.Some? || r.Some?) && (r.Some? ==> s.rerr == r)
    && c.Write?
    && var e := Some(if w.Some? then ErrClosedPipe else r.value);
       match c.wpc
       case WriteLoadR(m, _, err) => m == n && err == w
       case WriteUnlock(m, err) => m == n && err == e
       case WriteReturn(m, err) => m == n && err == e
       case _ => false
  }

  lemma {:induction false} ReadFailsRun(s: State, actions: seq<Action>, id: Id, r: Option<Error>, w: Option<Error>)
    requires IsRun(s, actions) && id in s.calls && ReadFails(s, s.calls[id], r, w)
    ensures id in End(s, actions).calls && ReadFails(End(s, actions), End(s, actions).calls[id], r, w)
    decreases actions
  {
    hide ReadFails;
    if actions != [] {
      ReadFailsStep(s, actions[0], id, r, w);
      hide Apply, Enabled;
      ReadFailsRun(Apply(s, actions[0]), actions[1..], id, r, w);
    }
  }

  lemma ReadFailsStep(s: State, a: Action, id: Id, r: Option<Error>, w: Option<Error>)
    requires Enabled(s, a) && id in s.calls && ReadFails(s, s.calls[id], r, w)
    ensures id in Apply(s, a).calls && ReadFails(Apply(s, a), Apply(s, a).calls[id], r, w)
  {
    StepIsLater(s, a);
    if id !in Movers(a) {
      hide Apply;
      OthersStay(s, a, id);
    } else {
      assert a == Local(id);
    }
  }

  lemma {:induction false} WriteFailsRun(s: State, actions: seq<Action>, id: Id, n: nat, w: Option<Error>, r: Option<Error>)
    requires IsRun(s, actions) && id in s.calls && WriteFails(s, s.calls[id], n, w, r)
    ensures id in End(s, actions).calls && WriteFails(End(s, actions), End(s, actions).calls[id], n, w, r)
    decreases actions
  {
    hide WriteFails;
    if actions != [] {
      WriteFailsStep(s, actions[0], id, n, w, r);
      hide Apply, Enabled;
      WriteFailsRun(Apply(s, actions[0]), actions[1..], id, n, w, r);
    }
  }

  lemma WriteFailsStep(s: State, a: Action, id: Id, n: nat, w: Option<Error>, r: Option<Error>)
    requires Enabled(s, a) && id in s.calls && WriteFails(s, s.calls[id], n, w, r)
    ensures id in Apply(s, a).calls && WriteFails(Apply(s, a), Apply(s, a).calls[id], n, w, r)
  {
    StepIsLater(s, a);
    if id !in Movers(a) {
      hide Apply;
      OthersStay(s, a, id);
    } else {
      assert a == Local(id);
    }
  }

  /** Which error a read fails with is settled when it looks at its own side's error: ErrClosedPipe if there is one,
      and if not the other side's, which is there by then. */
  lemma {:induction false} ReadFailsWith(s: State, id: Id, actions: seq<Action>)
    requires Invariant(s) && id in s.calls && s.calls[id].Read? && s.calls[id].rpc.ReadLoadR?
    requires IsRun(Apply(s, Local(id)), actions)
    ensures s.rerr.None? ==> s.werr.Some?
    ensures var s' := End(Apply(s, Local(id)), actions);
      && id in s'.calls && s'.calls[id].Read?
      && (Finished(s'.calls[id]) ==>
           s'.calls[id].rpc == ReadReturn([], Some(if s.rerr.Some? then ErrClosedPipe else s.werr.value)))
  {
    hide IsRun, End, MutexOk, FlightsOk, LogOk, BytesOk, ReadersOk;
    assert CallOk(s, s.calls[id]);
    ReadFailsRun(Apply(s, Local(id)), actions, id, s.rerr, s.werr);
  }

  lemma {:induction false} WriteFailsWith(s: State, id: Id, actions: seq<Action>)
    requires Invariant(s) && id in s.calls && s.calls[id].Write? && s.calls[id].wpc.WriteLoadW?
    requires IsRun(Apply(s, Local(id)), actions)
    ensures s.werr.None? ==> s.rerr.Some?
    ensures var s' := End(Apply(s, Local(id)), actions);
      && id in s'.calls && s'.calls[id].Write?
      && (Finished(s'.calls[id]) ==>
           s'.calls[id].wpc == WriteReturn(s.calls[id].wpc.n, Some(if s.werr.Some? then ErrClosedPipe else s.rerr.value)))
  {
    hide IsRun, End, MutexOk, FlightsOk, LogOk, BytesOk, ReadersOk;
    assert CallOk(s, s.calls[id]);
    WriteFailsRun(Apply(s, Local(id)), actions, id, s.calls[id].wpc.n, s.werr, s.rerr);
  }

  /** A call that was started after done was closed transfers nothing; r and w tell which sides' errors were there. */
  predicate TooLate(s: State, c: Call, r: bool, w: bool) {
    && s.done && (r ==> s.rerr.Some?) && (w ==> s.werr.Some?)
    && match c
       case Read(_, ReadCheck) => true
       case Read(_, ReadLoadR) => true
       case Read(_, ReadLoadW(err)) => r ==> err.Some?
       case Read(_, ReadReturn(got, err)) => got == [] && err.Some? && (r ==> err == Some(ErrClosedPipe))
       case Write(_, WriteCheck) => true
       case Write(_, WriteLoadW(n, locked)) => n == 0 && !locked
       case Write(_, WriteLoadR(n, locked, err)) => n == 0 && !locked && (w ==> err.Some?)
       case Write(_, WriteReturn(n, err)) => n == 0 && err.Some? && (w ==> err == Some(ErrClosedPipe))
       case Close(_, _, _) => true
       case _ => false
  }

  lemma {:induction false} TooLateRun(s: State, actions: seq<Action>, id: Id, r: bool, w: bool)
    requires IsRun(s, actions) && s.done && (r ==> s.rerr.Some?) && (w ==> s.werr.Some?)
    requires id in s.calls ==> TooLate(s, s.calls[id], r, w)
    ensures id in End(s, actions).calls ==> TooLate(End(s, actions), End(s, actions).calls[id], r, w)
    decreases actions
  {
    hide TooLate;
    if actions != [] {
      TooLateStep(s, actions[0], id, r, w);
      hide Apply, Enabled;
      TooLateRun(Apply(s, actions[0]), actions[1..], id, r, w);
    }
  }

  lemma TooLateStep(s: State, a: Action, id: Id, r: bool, w: bool)
    requires Enabled(s, a) && s.done && (r ==> s.rerr.Some?) && (w ==> s.werr.Some?)
    requires id in s.calls ==> TooLate(s, s.calls[id], r, w)
    ensures var s' := Apply(s, a);
      s'.done && (r ==> s'.rerr.Some?) && (w ==> s'.werr.Some?) && (id in s'.calls ==> TooLate(s', s'.calls[id], r, w))
  {
    StepIsLater(s, a);
    if id !in Movers(a) {
      hide Apply;
      OthersStay(s, a, id);
    } else {
      assert a == Local(id) || a.Start?;
    }
  }

  /** Once done is closed, a new read or write moves no bytes and fails, with ErrClosedPipe if its own side had been
      closed. */
  lemma {:induction false} LateCallsFail(s: State, actions: seq<Action>, id: Id)
    requires IsRun(s, actions) && s.done && id !in s.calls
    ensures var s' := End(s, actions);
      id in s'.calls && Finished(s'.calls[id]) ==>
        var c := s'.calls[id];
        && (c.Read? ==> c.rpc.got == [] && c.rpc.err.Some? && (s.rerr.Some? ==> c.rpc.err == Some(ErrClosedPipe)))
        && (c.Write? ==> c.wpc.n == 0 && c.wpc.err.Some? && (s.werr.Some? ==> c.wpc.err == Some(ErrClosedPipe)))
  {
    hide IsRun, End;
    TooLateRun(s, actions, id, s.rerr.Some?, s.werr.Some?);
  }

  /** A stored error is never overwritten and a closed pipe stays closed. */
  lemma {:induction false} ErrorsNeverChange(s: State, actions: seq<Action>)
    requires IsRun(s, actions)
    ensures Later(s, End(s, actions))
    decreases actions
  {
    if actions != [] {
      assert Later(s, Apply(s, actions[0])) by { StepIsLater(s, actions[0]); }
      ErrorsNeverChange(Apply(s, actions[0]), actions[1..]);
    }
  }

  lemma StepIsLater(s: State, a: Action)
    requires Enabled(s, a)
    ensures Later(s, Apply(s, a))
  {
  }

  /** The step that closes done only ever runs on an open pipe. */
  lemma DoneClosedOnce(s: State, id: Id)
    requires Invariant(s) && Enabled(s, Local(id)) && s.calls[id].Close? && s.calls[id].cpc.CloseOnce?
    ensures !s.once ==> !s.done
    ensures Apply(s, Local(id)).done
  {
  }

  // ----- finishing after a close

  /** The steps a call may still take, counted so that both sides of a handshake
      together make progress. */
  function Rank(c: Call): nat {
    match c
    case Read(_, pc) => (
      match pc
      case ReadCheck => 12
      case ReadSelect => 11
      case ReadCopy(_) => 10
      case ReadAck(_) => 9
      case ReadLoadR => 5
      case ReadLoadW(_) => 4
      case ReadReturn(_, _) => 0)
    case Write(_, pc) => (
      match pc
      case WriteCheck => 20
      case WriteLock => 19
      case WriteLoop(_, _, _) => 10
      case WriteSelect(_, _) => 9
      case WriteAwait(_, _) => 8
      case WriteLoadW(_, _) => 7
      case WriteLoadR(_, _, _) => 6
      case WriteUnlock(_, _) => 5
      case WriteReturn(_, _) => 0)
    case Close(_, _, pc) => if pc.CloseStore? then 2 else if pc.CloseOnce? then 1 else 0
  }

  ghost function Total(calls: map<Id, Call>): nat
    decreases |calls|
  {
    if calls == map[] then 0
    else
      var id :| id in calls;
      Rank(calls[id]) + Total(calls - {id})
  }

  lemma {:induction false} TotalWithout(calls: map<Id, Call>, id: Id)
    requires id in calls
    ensures Total(calls) == Rank(calls[id]) + Total(calls - {id})
    decreases |calls|
  {
    var k :| k in calls && Total(calls) == Rank(calls[k]) + Total(calls - {k});
    if k != id {
      TotalWithout(calls - {k}, id);
      TotalWithout(calls - {id}, k);
      assert calls - {k} - {id} == calls - {id} - {k};
    }
  }

  lemma TotalUpdate(calls: map<Id, Call>, id: Id, c: Call)
    requires id in calls
    ensures Total(calls[id := c]) == Total(calls) - Rank(calls[id]) + Rank(c)
  {
    TotalWithout(calls, id);
    TotalWithout(calls[id := c], id);
    assert calls[id := c] - {id} == calls - {id};
  }

  /** Every step of existing calls, waiting or not, uses up rank. */
  lemma StepProgresses(s: State, a: Action)
    requires Enabled(s, a) && !a.Start?
    ensures Total(Apply(s, a).calls) < Total(s.calls)
  {
    hide Total;
    if a.Local? || a.TakeDone? {
      OneCallProgresses(s, a);
    } else {
      HandshakeProgresses(s, a);
    }
  }

  lemma OneCallProgresses(s: State, a: Action)
    requires Enabled(s, a) && (a.Local? || a.TakeDone?)
    ensures Total(Apply(s, a).calls) < Total(s.calls)
  {
    hide Total, Apply, Rank;
    var s' := Apply(s, a);
    if s.calls[a.id].Read? {
      ReadRankFalls(s, a);
    } else if s.calls[a.id].Write? {
      WriteRankFalls(s, a);
    } else {
      CloseRankFalls(s, a);
    }
    TotalUpdate(s.calls, a.id, s'.calls[a.id]);
  }

  ghost predicate RankFalls(s: State, a: Action)
    requires Enabled(s, a) && (a.Local? || a.TakeDone?)
  {
    var s' := Apply(s, a);
    a.id in s'.calls && s'.calls == s.calls[a.id := s'.calls[a.id]] && Rank(s'.calls[a.id]) < Rank(s.calls[a.id])
  }

  lemma ReadRankFalls(s: State, a: Action)
    requires Enabled(s, a) && (a.Local? || a.TakeDone?) && s.calls[a.id].Read?
    ensures RankFalls(s, a)
  {
  }

  lemma WriteRankFalls(s: State, a: Action)
    requires Enabled(s, a) && (a.Local? || a.TakeDone?) && s.calls[a.id].Write?
    ensures RankFalls(s, a)
  {
  }

  lemma CloseRankFalls(s: State, a: Action)
    requires Enabled(s, a) && (a.Local? || a.TakeDone?) && s.calls[a.id].Close?
    ensures RankFalls(s, a)
  {
  }

  lemma HandshakeProgresses(s: State, a: Action)
    requires Enabled(s, a) && (a.SendSlice? || a.SendCount?)
    ensures Total(Apply(s, a).calls) < Total(s.calls)
  {
    hide Total;
    var s' := Apply(s, a);
    TotalUpdate(s.calls, a.w, s'.calls[a.w]);
    TotalUpdate(s.calls[a.w := s'.calls[a.w]], a.r, s'.calls[a.r]);
    assert s'.calls == s.calls[a.w := s'.calls[a.w]][a.r := s'.calls[a.r]];
  }

  lemma KeysKept(s: State, a: Action)
    requires Enabled(s, a) && !a.Start?
    ensures Apply(s, a).calls.Keys == s.calls.Keys
  {
  }

  /** Once done is closed no set of calls can be stuck. */
  lemma NeverStuck(s: State, id: Id) returns (a: Action)
    requires Invariant(s) && s.done && id in s.calls && !Finished(s.calls[id])
    ensures Enabled(s, a) && !a.Start?
  {
    var c := s.calls[id];
    if LocalEnabled(s, c) {
      a := Local(id);
    } else if (c.Read? && c.rpc.ReadSelect?) || (c.Write? && c.wpc.WriteSelect?) {
      a := TakeDone(id);
    } else if InFlight(c) {
      assert FlightOk(s, c);
      a := SendCount(s.wrMu.value, id);
    } else {
      assert c.Write? && (c.wpc.WriteLock? || c.wpc.WriteAwait?);
      assert c.wpc.WriteAwait? ==> Holds(c);
      a := HolderMoves(s);
    }
  }

  /** The holder of wrMu can always move, or its reader can. */
  lemma HolderMoves(s: State) returns (a: Action)
    requires Invariant(s) && s.done && s.wrMu.Some?
    ensures Enabled(s, a) && !a.Start?
  {
    var h := s.wrMu.value;
    assert Holds(s.calls[h]);
    if s.calls[h].wpc.WriteSelect? {
      a := TakeDone(h);
    } else if Awaiting(s.calls[h]) {
      var r :| r in s.calls && InFlight(s.calls[r]);
      a := if s.calls[r].rpc.ReadCopy? then Local(r) else SendCount(h, r);
    } else {
      a := Local(h);
    }
  }

  ghost predicate AllFinished(s: State) { forall id | id in s.calls :: Finished(s.calls[id]) }

  /** After a close every waiting call finishes: however the existing calls have
      been scheduled so far, some continuation finishes them all, and no run of
      their steps is longer than their total rank. */
  lemma {:induction false} EveryCallFinishes(s: State) returns (actions: seq<Action>)
    requires Invariant(s) && s.done
    ensures IsRun(s, actions) && |actions| <= Total(s.calls)
    ensures AllFinished(End(s, actions)) && End(s, actions).calls.Keys == s.calls.Keys
    decreases Total(s.calls)
  {
    hide Invariant, Apply, Enabled, Total;
    if AllFinished(s) {
      actions := [];
    } else {
      var id :| id in s.calls && !Finished(s.calls[id]);
      var a := NeverStuck(s, id);
      StepKeeps(s, a);
      StepProgresses(s, a);
      StepIsLater(s, a);
      KeysKept(s, a);
      var rest := EveryCallFinishes(Apply(s, a));
      actions := [a] + rest;
      assert actions[1..] == rest;
    }
  }

  lemma {:induction false} RunsAreBounded(s: State, actions: seq<Action>)
    requires IsRun(s, actions) && forall i | 0 <= i < |actions| :: !actions[i].Start?
    ensures |actions| + Total(End(s, actions).calls) <= Total(s.calls)
    decreases actions
  {
    if actions != [] {
      StepProgresses(s, actions[0]);
      RunsAreBounded(Apply(s, actions[0]), actions[1..]);
    }
  }
}
