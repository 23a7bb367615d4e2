/** The port forwarder of internal/network/forwarder.go as a step system: accept loops,
    one worker per connection with two copying goroutines, and Close, under every
    interleaving of their atomic actions. */
module Forwarder {

  /** serve, between its atomic actions. */
  datatype LoopPc =
    | Accepting
    | Holding(c: nat)    // accepted c, about to take the lock
    | Spawning(c: nat)   // registered c and added to the wait group, about to start its worker
    | Refusing(c: nat)   // found closed set, about to close c
    | Exiting            // about to call wg.Done
    | Gone

  /** A listener and the loop that serves it. */
  datatype Loop = Loop(pc: LoopPc, listening: bool)

  /** One direction of copying: io.Copy, in a read or in a write, then client.Close, then
      backend.Close. */
  datatype CopyPc = Reading | Writing | ClosesClient | ClosesBackend | Ended {
    predicate Running() { Reading? || Writing? }
  }

  /** The worker of a connection; Unborn before its goroutine starts. */
  datatype WorkerPc =
    | Unborn
    | Dialing
    | Copying(up: CopyPc, down: CopyPc)
    | ClosingBackend
    | ClosingClient
    | Unregistering
    | Finishing          // about to call wg.Done
    | Done

  datatype Conn = Conn(pc: WorkerPc, client: bool, backend: bool, registered: bool)

  /** The first call of Close; ls and cs are the listeners and clients it has yet to close. */
  datatype CloserPc = NotCalled | Closing(ls: set<nat>, cs: set<nat>) | Waiting | Returned

  datatype State = State(loops: seq<Loop>, conns: seq<Conn>, wg: int,
                         starting: bool, closed: bool, closer: CloserPc)

  const INITIAL := State([], [], 0, true, false, NotCalled)

  datatype Step =
    | OpenListener
    | Publish
    | Accept(l: nat)
    | AcceptFails(l: nat)
    | Lock(l: nat)
    | Spawn(l: nat)
    | Refuse(l: nat)
    | LoopDone(l: nat)
    | DialFails(c: nat)
    | DialWorks(c: nat)
    | CopyTurns(c: nat, up: bool)
    | CopyMoves(c: nat, up: bool)
    | CopiesDone(c: nat)
    | CloseBackend(c: nat)
    | CloseClient(c: nat)
    | Unregister(c: nat)
    | WorkerDone(c: nat)
    | BeginClose
    | CloseListener(l: nat)
    | CloseSnapshot(c: nat)
    | BeginWait
    | EndWait

  function CopyNext(p: CopyPc): CopyPc {
    match p
    case Reading | Writing => ClosesClient
    case ClosesClient => ClosesBackend
    case ClosesBackend => Ended
    case Ended => Ended
  }

  function Current(x: Conn, up: bool): CopyPc
    requires x.pc.Copying?
  {
    if up then x.pc.up else x.pc.down
  }

  /** The socket a running copy reads from or writes to is open; up copies from the client to the
      backend. */
  predicate SocketOpen(x: Conn, up: bool)
    requires x.pc.Copying?
  {
    if up <==> Current(x, up).Reading? then x.client else x.backend
  }

  /** A read gave data to write, or all of it is written. */
  function CopyTurned(x: Conn, up: bool): Conn
    requires x.pc.Copying?
  {
    var p := if Current(x, up).Reading? then Writing else Reading;
    x.(pc := if up then Copying(p, x.pc.down) else Copying(x.pc.up, p))
  }

  function CopyMoved(x: Conn, up: bool): Conn
    requires x.pc.Copying?
  {
    var p := Current(x, up);
    x.(pc := if up then Copying(CopyNext(p), x.pc.down) else Copying(x.pc.up, CopyNext(p)),
       client := x.client && !p.ClosesClient?,
       backend := x.backend && !p.ClosesBackend?)
  }

  predicate LoopAt(s: State, l: nat) { l < |s.loops| }
  predicate ConnAt(s: State, c: nat) { c < |s.conns| }

  predicate Enabled(s: State, step: Step) {
    match step
    case OpenListener => s.starting
    case Publish => s.starting
    case Accept(l) => LoopAt(s, l) && s.loops[l].pc.Accepting? && s.loops[l].listening
    case AcceptFails(l) => LoopAt(s, l) && s.loops[l].pc.Accepting?
    case Lock(l) => LoopAt(s, l) && s.loops[l].pc.Holding? && ConnAt(s, s.loops[l].pc.c)
    case Spawn(l) => LoopAt(s, l) && s.loops[l].pc.Spawning? && ConnAt(s, s.loops[l].pc.c)
    case Refuse(l) => LoopAt(s, l) && s.loops[l].pc.Refusing? && ConnAt(s, s.loops[l].pc.c)
    case LoopDone(l) => LoopAt(s, l) && s.loops[l].pc.Exiting?
    case DialFails(c) => ConnAt(s, c) && s.conns[c].pc.Dialing?
    case DialWorks(c) => ConnAt(s, c) && s.conns[c].pc.Dialing?
    case CopyTurns(c, up) =>
      && ConnAt(s, c) && s.conns[c].pc.Copying?
      && Current(s.conns[c], up).Running() && SocketOpen(s.conns[c], up)
    case CopyMoves(c, up) => ConnAt(s, c) && s.conns[c].pc.Copying? && !Current(s.conns[c], up).Ended?
    case CopiesDone(c) => ConnAt(s, c) && s.conns[c].pc == Copying(Ended, Ended)
    case CloseBackend(c) => ConnAt(s, c) && s.conns[c].pc.ClosingBackend?
    case CloseClient(c) => ConnAt(s, c) && s.conns[c].pc.ClosingClient?
    case Unregister(c) => ConnAt(s, c) && s.conns[c].pc.Unregistering?
    case WorkerDone(c) => ConnAt(s, c) && s.conns[c].pc.Finishing?
    case BeginClose => !s.closed
    case CloseListener(l) => s.closer.Closing? && l in s.closer.ls && LoopAt(s, l)
    case CloseSnapshot(c) => s.closer.Closing? && s.closer.ls == {} && c in s.closer.cs && ConnAt(s, c)
    case BeginWait => s.closer == Closing({}, {})
    case EndWait => s.closer == Waiting && s.wg == 0
  }

  function WithLoop(s: State, l: nat, pc: LoopPc): State
    requires LoopAt(s, l)
  {
    s.(loops := s.loops[l := s.loops[l].(pc := pc)])
  }

  function WithConn(s: State, c: nat, x: Conn): State
    requires ConnAt(s, c)
  {
    s.(conns := s.conns[c := x])
  }

  function Apply(s: State, step: Step): State
    requires Enabled(s, step)
  {
    match step
    case OpenListener => s.(loops := s.loops + [Loop(Accepting, true)], wg := s.wg + 1)
    case Publish => s.(starting := false)
    case Accept(l) =>
      WithLoop(s.(conns := s.conns + [Conn(Unborn, true, false, false)]), l, Holding(|s.conns|))
    case AcceptFails(l) => WithLoop(s, l, Exiting)
    case Lock(l) =>
      var c := s.loops[l].pc.c;
      if s.closed then WithLoop(s, l, Refusing(c))
      else WithConn(WithLoop(s, l, Spawning(c)), c, s.conns[c].(registered := true)).(wg := s.wg + 1)
    case Spawn(l) =>
      var c := s.loops[l].pc.c;
      WithConn(WithLoop(s, l, Accepting), c, s.conns[c].(pc := Dialing))
    case Refuse(l) =>
      var c := s.loops[l].pc.c;
      WithConn(WithLoop(s, l, Exiting), c, s.conns[c].(client := false))
    case LoopDone(l) => WithLoop(s, l, Gone).(wg := s.wg - 1)
    case DialFails(c) => WithConn(s, c, s.conns[c].(pc := ClosingClient))
    case DialWorks(c) => WithConn(s, c, s.conns[c].(pc := Copying(Reading, Reading), backend := true))
    case CopyTurns(c, up) => WithConn(s, c, CopyTurned(s.conns[c], up))
    case CopyMoves(c, up) => WithConn(s, c, CopyMoved(s.conns[c], up))
    case CopiesDone(c) => WithConn(s, c, s.conns[c].(pc := ClosingBackend))
    case CloseBackend(c) => WithConn(s, c, s.conns[c].(pc := ClosingClient, backend := false))
    case CloseClient(c) => WithConn(s, c, s.conns[c].(pc := Unregistering, client := false))
    case Unregister(c) => WithConn(s, c, s.conns[c].(pc := Finishing, registered := false))
    case WorkerDone(c) => WithConn(s, c, s.conns[c].(pc := Done)).(wg := s.wg - 1)
    case BeginClose =>
      s.(closed := true, starting := false,
         closer := Closing(set l: nat | l < |s.loops| && s.loops[l].listening,
                           set c: nat | c < |s.conns| && s.conns[c].registered))
    case CloseListener(l) =>
      s.(closer := Closing(s.closer.ls - {l}, s.closer.cs),
         loops := s.loops[l := s.loops[l].(listening := false)])
    case CloseSnapshot(c) =>
      WithConn(s, c, s.conns[c].(client := false)).(closer := Closing({}, s.closer.cs - {c}))
    case BeginWait => s.(closer := Waiting)
    case EndWait => s.(closer := Returned)
  }

  // ----- Sums over sequences

  function Sum<T>(s: seq<T>, w: T -> nat): nat {
    if s == [] then 0 else w(s[0]) + Sum(s[1..], w)
  }

  lemma {:induction false} SumUpdate<T>(s: seq<T>, w: T -> nat, i: nat, x: T)
    requires i < |s|
    ensures Sum(s[i := x], w) + w(s[i]) == Sum(s, w) + w(x)
  {
    if i == 0 {
      assert s[0 := x][1..] == s[1..];
    } else {
      assert s[i := x][1..] == s[1..][i - 1 := x];
      SumUpdate(s[1..], w, i - 1, x);
    }
  }

  lemma {:induction false} SumAppend<T>(s: seq<T>, w: T -> nat, x: T)
    ensures Sum(s + [x], w) == Sum(s, w) + w(x)
  {
    if s != [] {
      assert (s + [x])[1..] == s[1..] + [x];
      SumAppend(s[1..], w, x);
    } else {
      assert s + [x] == [x];
    }
  }

  lemma {:induction false} SumAtLeast<T>(s: seq<T>, w: T -> nat, i: nat)
    requires i < |s|
    ensures w(s[i]) <= Sum(s, w)
  {
    if i == 0 {
    } else {
      SumAtLeast(s[1..], w, i - 1);
    }
  }

  lemma {:induction false} SumPositive<T>(s: seq<T>, w: T -> nat) returns (i: nat)
    requires Sum(s, w) > 0
    ensures i < |s| && w(s[i]) > 0
  {
    if w(s[0]) > 0 {
      i := 0;
    } else {
      var j := SumPositive(s[1..], w);
      i := j + 1;
    }
  }

  // ----- The invariant

  /** How many wait-group units a loop and a worker stand for. */
  function LoopUnits(x: Loop): nat {
    match x.pc
    case Gone => 0
    case Spawning(_) => 2
    case _ => 1
  }

  function WorkerUnits(x: Conn): nat { if x.pc.Unborn? || x.pc.Done? then 0 else 1 }

  predicate HasConn(x: Loop) { x.pc.Holding? || x.pc.Spawning? || x.pc.Refusing? }

  predicate Holds(x: Loop, c: nat) { HasConn(x) && x.pc.c == c }

  ghost predicate Held(s: State, c: nat) { exists l | 0 <= l < |s.loops| :: Holds(s.loops[l], c) }

  /** Loops hold distinct connections whose workers have not started. */
  ghost predicate LoopsOk(s: State) {
    && (forall l | 0 <= l < |s.loops| && HasConn(s.loops[l]) :: HoldsUnborn(s.loops[l], s.conns))
    && (forall l, m | 0 <= l < m < |s.loops| && HasConn(s.loops[l]) :: !Holds(s.loops[m], s.loops[l].pc.c))
  }

  predicate HoldsUnborn(x: Loop, conns: seq<Conn>)
    requires HasConn(x)
  {
    && x.pc.c < |conns| && conns[x.pc.c].pc.Unborn?
    && (conns[x.pc.c].registered <==> x.pc.Spawning?)
  }

  predicate PastClient(p: CopyPc) { p.ClosesBackend? || p.Ended? }

  /** What a worker's position says of its sockets. */
  predicate ConnOk(x: Conn) {
    && (x.pc.Unregistering? || x.pc.Finishing? || x.pc.Done? ==> !x.client)
    && (x.backend ==> x.pc.Copying? || x.pc.ClosingBackend?)
    && (x.pc.Copying? && (PastClient(x.pc.up) || PastClient(x.pc.down)) ==> !x.client)
    && (x.pc.Copying? && (x.pc.up.Ended? || x.pc.down.Ended?) ==> !x.backend)
    && (!x.pc.Unborn? ==> (x.registered <==> !x.pc.Finishing? && !x.pc.Done?))
  }

  /** An unborn connection that is open or registered is held by some loop. */
  ghost predicate ConnsOk(s: State) {
    forall c: nat | c < |s.conns| ::
      ConnOk(s.conns[c]) && (s.conns[c].pc.Unborn? && (s.conns[c].client || s.conns[c].registered) ==> Held(s, c))
  }

  ghost predicate CloserOk(s: State) {
    && (s.closed <==> !s.closer.NotCalled?) && (s.closed ==> !s.starting)
    && (forall l: nat | l < |s.loops| && s.loops[l].listening ::
          s.closer.NotCalled? || (s.closer.Closing? && l in s.closer.ls))
    && (forall c: nat | c < |s.conns| && s.conns[c].registered && s.conns[c].client ::
          s.closer.NotCalled? || (s.closer.Closing? && c in s.closer.cs))
    && (s.closer.Closing? ==> forall l | l in s.closer.ls :: l < |s.loops|)
    && (s.closer.Closing? ==> forall c | c in s.closer.cs :: c < |s.conns|)
    && (s.closer.Returned? ==> s.wg == 0)
  }

  ghost predicate Counted(s: State) {
    s.wg == Sum(s.loops, LoopUnits) + Sum(s.conns, WorkerUnits)
  }

  ghost predicate Inv(s: State) {
    Counted(s) && LoopsOk(s) && ConnsOk(s) && CloserOk(s)
  }

  /** A live worker moves on. */
  lemma WorkerMoves(s: State, c: nat, y: Conn, wg: int)
    requires Inv(s) && ConnAt(s, c) && WorkerUnits(s.conns[c]) == 1
    requires !y.pc.Unborn? && ConnOk(y)
    requires y.registered && y.client ==> s.conns[c].registered && s.conns[c].client
    requires wg == s.wg - 1 + WorkerUnits(y)
    ensures Inv(WithConn(s, c, y).(wg := wg))
  {
    var t := WithConn(s, c, y).(wg := wg);
    SumUpdate(s.conns, WorkerUnits, c, y);
    SumAtLeast(s.conns, WorkerUnits, c);
    assert LoopsOk(t) by {
      forall l | 0 <= l < |t.loops| && HasConn(t.loops[l]) ensures HoldsUnborn(t.loops[l], t.conns) {
        assert HoldsUnborn(s.loops[l], s.conns);
      }
    }
    assert ConnsOk(t) by {
      forall d: nat | d < |t.conns| && t.conns[d].pc.Unborn? && (t.conns[d].client || t.conns[d].registered)
        ensures Held(t, d)
      {
        assert Held(s, d);
      }
    }
  }

  lemma WorkerStep(s: State, step: Step)
    requires Inv(s) && Enabled(s, step)
    requires step.DialFails? || step.DialWorks? || step.CopyTurns? || step.CopyMoves? || step.CopiesDone?
          || step.CloseBackend? || step.CloseClient? || step.Unregister? || step.WorkerDone?
    ensures Inv(Apply(s, step))
  {
    hide Sum, LoopsOk, CloserOk, Held;
    var t := Apply(s, step);
    assert ConnOk(s.conns[step.c]);
    WorkerMoves(s, step.c, t.conns[step.c], t.wg);
  }

  /** A loop drops whatever it holds and stands at pc, which holds nothing. */
  lemma LoopDrops(s: State, l: nat, pc: LoopPc)
    requires LoopAt(s, l) && !HasConn(Loop(pc, true)) && LoopsOk(s)
    ensures LoopsOk(WithLoop(s, l, pc))
    ensures forall c: nat | Held(s, c) && !Holds(s.loops[l], c) :: Held(WithLoop(s, l, pc), c)
    ensures forall c: nat | Holds(s.loops[l], c) :: !Held(WithLoop(s, l, pc), c)
    ensures Sum(WithLoop(s, l, pc).loops, LoopUnits) + LoopUnits(s.loops[l])
         == Sum(s.loops, LoopUnits) + LoopUnits(Loop(pc, true))
  {
    var x, t := s.loops[l].(pc := pc), WithLoop(s, l, pc);
    SumUpdate(s.loops, LoopUnits, l, x);
    assert forall m | 0 <= m < |s.loops| && m != l :: t.loops[m] == s.loops[m];
    forall c: nat | Held(s, c) && !Holds(s.loops[l], c) ensures Held(t, c) {
      var m :| 0 <= m < |s.loops| && Holds(s.loops[m], c);
      assert Holds(t.loops[m], c);
    }
    forall c: nat | Holds(s.loops[l], c) ensures !Held(t, c) {
      forall m | 0 <= m < |t.loops| ensures !Holds(t.loops[m], c) {
        if m < l { assert HasConn(s.loops[m]) ==> !Holds(s.loops[l], s.loops[m].pc.c); }
      }
    }
  }

  lemma LoopExits(s: State, l: nat)
    requires Inv(s) && LoopAt(s, l)
    ensures s.loops[l].pc.Accepting? ==> Inv(WithLoop(s, l, Exiting))
    ensures s.loops[l].pc.Exiting? ==> Inv(WithLoop(s, l, Gone).(wg := s.wg - 1))
  {
    hide Sum;
    LoopDrops(s, l, Exiting);
    LoopDrops(s, l, Gone);
    SumAtLeast(s.loops, LoopUnits, l);
    hide LoopsOk, Held;
  }

  /** A loop lets go of connection c, which changes to y. */
  lemma LoopHandsOver(s: State, l: nat, pc: LoopPc, y: Conn)
    requires Inv(s) && LoopAt(s, l) && HasConn(s.loops[l]) && !HasConn(Loop(pc, true))
    requires ConnOk(y) && (y.pc.Unborn? ==> !y.client && !y.registered)
    requires LoopUnits(Loop(pc, true)) + WorkerUnits(y) == LoopUnits(s.loops[l])
    requires y.registered && y.client ==> s.conns[s.loops[l].pc.c].registered && s.conns[s.loops[l].pc.c].client
    ensures Inv(WithConn(WithLoop(s, l, pc), s.loops[l].pc.c, y))
  {
    hide Sum, Held;
    var c := s.loops[l].pc.c;
    assert HoldsUnborn(s.loops[l], s.conns) && Holds(s.loops[l], c);
    var m, t := WithLoop(s, l, pc), WithConn(WithLoop(s, l, pc), c, y);
    LoopDrops(s, l, pc);
    SumUpdate(s.conns, WorkerUnits, c, y);
    NotHeldChanges(m, c, y);
    hide LoopsOk;
  }

  /** A connection that no loop holds may change. */
  lemma NotHeldChanges(m: State, c: nat, y: Conn)
    requires LoopsOk(m) && ConnAt(m, c) && !Held(m, c)
    ensures LoopsOk(WithConn(m, c, y)) && forall d: nat | Held(m, d) :: Held(WithConn(m, c, y), d)
  {
    var t := WithConn(m, c, y);
    forall k | 0 <= k < |t.loops| && HasConn(t.loops[k]) ensures HoldsUnborn(t.loops[k], t.conns) {
      assert HoldsUnborn(m.loops[k], m.conns);
      assert !Holds(m.loops[k], c);
    }
  }

  /** A loop moves on with the connection it holds, which may become registered. */
  lemma LoopKeeps(s: State, l: nat, pc: LoopPc, y: Conn)
    requires Inv(s) && LoopAt(s, l) && s.loops[l].pc.Holding? && (pc.Refusing? || pc.Spawning?)
    requires pc.c == s.loops[l].pc.c && ConnAt(s, pc.c) && y == s.conns[pc.c].(registered := pc.Spawning?)
    requires s.closed <==> pc.Refusing?
    ensures Inv(WithConn(WithLoop(s, l, pc), pc.c, y).(wg := s.wg - 1 + LoopUnits(Loop(pc, true))))
  {
    hide Sum, Held;
    var c := pc.c;
    var t := WithConn(WithLoop(s, l, pc), c, y).(wg := s.wg - 1 + LoopUnits(Loop(pc, true)));
    assert HoldsUnborn(s.loops[l], s.conns);
    SumUpdate(s.loops, LoopUnits, l, s.loops[l].(pc := pc));
    SumUpdate(s.conns, WorkerUnits, c, y);
    SumAtLeast(s.loops, LoopUnits, l);
    KeepsLoopsOk(s, l, t);
    HeldStays(s, l, t);
    hide LoopsOk;
  }

  lemma HeldStays(s: State, l: nat, t: State)
    requires l < |s.loops| == |t.loops| && forall k | 0 <= k < |s.loops| && k != l :: t.loops[k] == s.loops[k]
    requires HasConn(s.loops[l]) ==> Holds(t.loops[l], s.loops[l].pc.c)
    ensures forall d: nat | Held(s, d) :: Held(t, d)
    ensures HasConn(t.loops[l]) ==> Held(t, t.loops[l].pc.c)
  {
    assert HasConn(t.loops[l]) ==> Holds(t.loops[l], t.loops[l].pc.c);
    forall d: nat | Held(s, d) ensures Held(t, d) {
      var k :| 0 <= k < |s.loops| && Holds(s.loops[k], d);
      assert Holds(t.loops[k], d);
    }
  }

  lemma KeepsLoopsOk(s: State, l: nat, t: State)
    requires LoopsOk(s) && LoopAt(s, l) && s.loops[l].pc.Holding? && |t.loops| == |s.loops|
    requires forall k | 0 <= k < |s.loops| && k != l :: t.loops[k] == s.loops[k]
    requires Holds(t.loops[l], s.loops[l].pc.c) && HoldsUnborn(t.loops[l], t.conns) && |t.conns| == |s.conns|
    requires forall d | 0 <= d < |s.conns| && d != s.loops[l].pc.c :: t.conns[d] == s.conns[d]
    ensures LoopsOk(t)
  {
    var c := s.loops[l].pc.c;
    forall k | 0 <= k < |t.loops| && HasConn(t.loops[k]) ensures HoldsUnborn(t.loops[k], t.conns) {
      if k != l {
        assert HoldsUnborn(s.loops[k], s.conns);
        assert s.loops[k].pc.c != c by { if k < l {} else {} }
      }
    }
    forall k, m | 0 <= k < m < |t.loops| && HasConn(t.loops[k]) ensures !Holds(t.loops[m], t.loops[k].pc.c) {
      assert HasConn(s.loops[k]) && s.loops[k].pc.c == t.loops[k].pc.c;
      assert !Holds(s.loops[m], s.loops[k].pc.c);
    }
  }

  lemma LoopAccepts(s: State, l: nat)
    requires Inv(s) && Enabled(s, Accept(l))
    ensures Inv(Apply(s, Accept(l)))
  {
    hide Sum, Held;
    var c, x := |s.conns|, Conn(Unborn, true, false, false);
    var t := Apply(s, Accept(l));
    SumUpdate(s.loops, LoopUnits, l, t.loops[l]);
    SumAppend(s.conns, WorkerUnits, x);
    assert forall k | 0 <= k < |s.loops| && k != l :: t.loops[k] == s.loops[k];
    AcceptHolds(s, l);
    HeldStays(s, l, t);
    hide LoopsOk;
  }

  lemma AcceptHolds(s: State, l: nat)
    requires LoopsOk(s) && Enabled(s, Accept(l))
    ensures LoopsOk(Apply(s, Accept(l))) && Held(Apply(s, Accept(l)), |s.conns|)
  {
    var t := Apply(s, Accept(l));
    assert Holds(t.loops[l], |s.conns|);
    forall k | 0 <= k < |t.loops| && HasConn(t.loops[k]) ensures HoldsUnborn(t.loops[k], t.conns) {
      if k != l { assert HoldsUnborn(s.loops[k], s.conns); }
    }
    forall k, m | 0 <= k < m < |t.loops| && HasConn(t.loops[k]) ensures !Holds(t.loops[m], t.loops[k].pc.c) {
      assert HasConn(s.loops[k]) ==> HoldsUnborn(s.loops[k], s.conns);
      assert HasConn(s.loops[m]) ==> HoldsUnborn(s.loops[m], s.conns);
    }
  }

  lemma LoopOpens(s: State)
    requires Inv(s) && s.starting
    ensures Inv(Apply(s, OpenListener))
  {
    var t := Apply(s, OpenListener);
    SumAppend(s.loops, LoopUnits, Loop(Accepting, true));
    assert LoopsOk(t) by {
      forall k | 0 <= k < |t.loops| && HasConn(t.loops[k]) ensures HoldsUnborn(t.loops[k], t.conns) {
        assert t.loops[k] == s.loops[k];
      }
    }
    forall d: nat | Held(s, d) ensures Held(t, d) {
      var k :| 0 <= k < |s.loops| && Holds(s.loops[k], d);
      assert Holds(t.loops[k], d);
    }
    hide LoopsOk;
  }

  lemma CloserStep(s: State, step: Step)
    requires Inv(s) && Enabled(s, step)
    requires step.Publish? || step.BeginClose? || step.BeginWait? || step.EndWait?
    ensures Inv(Apply(s, step))
  {
    var t := Apply(s, step);
    assert t.loops == s.loops && t.conns == s.conns;
    assert forall d: nat | Held(s, d) :: Held(t, d);
    hide LoopsOk;
  }

  lemma CloserClosesListener(s: State, l: nat)
    requires Inv(s) && Enabled(s, CloseListener(l))
    ensures Inv(Apply(s, CloseListener(l)))
  {
    hide Sum;
    var t := Apply(s, CloseListener(l));
    SumUpdate(s.loops, LoopUnits, l, t.loops[l]);
    assert forall k | 0 <= k < |s.loops| :: t.loops[k].pc == s.loops[k].pc;
    assert LoopsOk(t) by {
      forall k | 0 <= k < |t.loops| && HasConn(t.loops[k]) ensures HoldsUnborn(t.loops[k], t.conns) {
        assert HoldsUnborn(s.loops[k], s.conns);
      }
      forall k, m | 0 <= k < m < |t.loops| && HasConn(t.loops[k]) ensures !Holds(t.loops[m], t.loops[k].pc.c) {
        assert !Holds(s.loops[m], s.loops[k].pc.c);
      }
    }
    forall d: nat | Held(s, d) ensures Held(t, d) {
      var k :| 0 <= k < |s.loops| && Holds(s.loops[k], d);
      assert Holds(t.loops[k], d);
    }
    hide LoopsOk;
  }

  lemma CloserClosesClient(s: State, c: nat)
    requires Inv(s) && Enabled(s, CloseSnapshot(c))
    ensures Inv(Apply(s, CloseSnapshot(c)))
  {
    hide Sum;
    var t := Apply(s, CloseSnapshot(c));
    SumUpdate(s.conns, WorkerUnits, c, t.conns[c]);
    assert ConnOk(s.conns[c]);
    assert LoopsOk(t) by {
      forall k | 0 <= k < |t.loops| && HasConn(t.loops[k]) ensures HoldsUnborn(t.loops[k], t.conns) {
        assert HoldsUnborn(s.loops[k], s.conns);
      }
    }
    assert forall d: nat | Held(s, d) :: Held(t, d);
    hide LoopsOk;
  }

  /** Every atomic action of every goroutine keeps the invariant. */
  lemma StepKeepsInv(s: State, step: Step)
    requires Inv(s) && Enabled(s, step)
    ensures Inv(Apply(s, step))
  {
    hide Inv, Holds;
    match step {
      case OpenListener => LoopOpens(s);
      case Accept(l) => LoopAccepts(s, l);
      case AcceptFails(l) => LoopExits(s, l);
      case LoopDone(l) => LoopExits(s, l);
      case Lock(l) => LockStep(s, l);
      case Spawn(l) => HandOverStep(s, step);
      case Refuse(l) => HandOverStep(s, step);
      case CloseListener(l) => CloserClosesListener(s, l);
      case CloseSnapshot(c) => CloserClosesClient(s, c);
      case Publish | BeginClose | BeginWait | EndWait => CloserStep(s, step);
      case _ => WorkerStep(s, step);
    }
  }

  lemma LockStep(s: State, l: nat)
    requires Inv(s) && Enabled(s, Lock(l))
    ensures Inv(Apply(s, Lock(l)))
  {
    var c := s.loops[l].pc.c;
    assert HoldsUnborn(s.loops[l], s.conns);
    if s.closed {
      LoopKeeps(s, l, Refusing(c), s.conns[c]);
      assert WithConn(WithLoop(s, l, Refusing(c)), c, s.conns[c]) == WithLoop(s, l, Refusing(c));
    } else {
      LoopKeeps(s, l, Spawning(c), s.conns[c].(registered := true));
    }
  }

  lemma HandOverStep(s: State, step: Step)
    requires Inv(s) && Enabled(s, step) && (step.Spawn? || step.Refuse?)
    ensures Inv(Apply(s, step))
  {
    var c := s.loops[step.l].pc.c;
    assert HoldsUnborn(s.loops[step.l], s.conns) && ConnOk(s.conns[c]);
    if step.Spawn? {
      LoopHandsOver(s, step.l, Accepting, s.conns[c].(pc := Dialing));
    } else {
      LoopHandsOver(s, step.l, Exiting, s.conns[c].(client := false));
    }
  }

  // ----- Whole runs

  /** The states passed through from s by taking the steps in order. */
  ghost predicate IsRun(s: State, steps: seq<Step>, states: seq<State>) {
    && |states| == |steps| + 1 && states[0] == s
    && forall i | 0 <= i < |steps| :: Enabled(states[i], steps[i]) && states[i + 1] == Apply(states[i], steps[i])
  }

  lemma {:induction false} RunKeepsInv(s: State, steps: seq<Step>, states: seq<State>, k: nat)
    requires Inv(s) && IsRun(s, steps, states) && k <= |steps|
    ensures Inv(states[k])
  {
    if k == 0 {
    } else {
      RunKeepsInv(s, steps, states, k - 1);
      StepKeepsInv(states[k - 1], steps[k - 1]);
    }
  }

  lemma InitialInv()
    ensures Inv(INITIAL)
  {
  }

  /** Nothing is left running and every socket is closed. */
  ghost predicate Quiet(s: State) {
    && (forall l | 0 <= l < |s.loops| :: s.loops[l].pc.Gone?)
    && (forall c | 0 <= c < |s.conns| ::
          && (s.conns[c].pc.Unborn? || s.conns[c].pc.Done?)
          && !s.conns[c].client && !s.conns[c].backend && !s.conns[c].registered)
  }

  /** The wait count is zero exactly when no loop and no worker is left, and then all is quiet. */
  lemma ZeroMeansQuiet(s: State)
    requires Inv(s)
    ensures s.wg == 0 <==> Quiet(s)
    ensures s.wg >= 0
  {
    if s.wg == 0 {
      forall l: nat | l < |s.loops| ensures s.loops[l].pc.Gone? { SumAtLeast(s.loops, LoopUnits, l); }
      forall c: nat | c < |s.conns| ensures WorkerUnits(s.conns[c]) == 0 && ConnOk(s.conns[c]) && !Held(s, c) {
        SumAtLeast(s.conns, WorkerUnits, c);
      }
    } else if Quiet(s) {
      if Sum(s.loops, LoopUnits) > 0 {
        var l := SumPositive(s.loops, LoopUnits);
      } else {
        var c := SumPositive(s.conns, WorkerUnits);
      }
    }
  }

  /** When the first Close has returned, in any run, no loop, worker or copy is left and every
      accepted connection is closed. */
  lemma CloseIsComplete(steps: seq<Step>, states: seq<State>, k: nat)
    requires IsRun(INITIAL, steps, states) && k <= |steps| && states[k].closer.Returned?
    ensures Quiet(states[k])
  {
    InitialInv();
    RunKeepsInv(INITIAL, steps, states, k);
    ZeroMeansQuiet(states[k]);
  }

  /** Once closed is set, no step registers a connection. */
  lemma NoLateRegistration(s: State, step: Step, c: nat)
    requires Inv(s) && Enabled(s, step) && s.closed
    requires c < |Apply(s, step).conns| && Apply(s, step).conns[c].registered
    ensures c < |s.conns| && s.conns[c].registered
  {
  }

  /** So in any run, what is registered at or after the moment closed is set was registered then. */
  lemma {:induction false} NeverRegisteredLate(steps: seq<Step>, states: seq<State>, j: nat, k: nat, c: nat)
    requires IsRun(INITIAL, steps, states) && j <= k <= |steps| && states[j].closed
    requires c < |states[k].conns| && states[k].conns[c].registered
    ensures states[k].closed && c < |states[j].conns| && states[j].conns[c].registered
    decreases k - j
  {
    hide Inv, Apply, Enabled;
    if j == k {
    } else {
      InitialInv();
      RunKeepsInv(INITIAL, steps, states, k - 1);
      ClosedStays(steps, states, j, k - 1);
      NoLateRegistration(states[k - 1], steps[k - 1], c);
      NeverRegisteredLate(steps, states, j, k - 1, c);
      ClosedStays(steps, states, j, k);
    }
  }

  lemma {:induction false} ClosedStays(steps: seq<Step>, states: seq<State>, j: nat, k: nat)
    requires IsRun(INITIAL, steps, states) && j <= k <= |steps| && states[j].closed
    ensures states[k].closed
    decreases k - j
  {
    if j == k {
    } else {
      ClosedStays(steps, states, j, k - 1);
      assert Enabled(states[k - 1], steps[k - 1]) && states[k] == Apply(states[k - 1], steps[k - 1]);
    }
  }

  /** Once the first Close waits, no connection is accepted any more. */
  lemma {:induction false} NeverAcceptsLate(steps: seq<Step>, states: seq<State>, j: nat, k: nat)
    requires IsRun(INITIAL, steps, states) && j <= k <= |steps|
    requires states[j].closer.Waiting? || states[j].closer.Returned?
    ensures |states[k].conns| == |states[j].conns|
    ensures states[k].closer.Waiting? || states[k].closer.Returned?
    decreases k - j
  {
    hide Inv, Apply, Enabled;
    if j == k {
    } else {
      NeverAcceptsLate(steps, states, j, k - 1);
      InitialInv();
      RunKeepsInv(INITIAL, steps, states, k - 1);
      NoneAccepted(states[k - 1], steps[k - 1]);
    }
  }

  lemma NoneAccepted(s: State, step: Step)
    requires Inv(s) && Enabled(s, step) && (s.closer.Waiting? || s.closer.Returned?)
    ensures var t := Apply(s, step); |t.conns| == |s.conns| && (t.closer.Waiting? || t.closer.Returned?)
  {
    hide Counted, LoopsOk, ConnsOk;
  }

  // ----- Close and the guest

  /** Steps that need nothing from the network: a closed socket, a dial timeout or the
      program itself brings them about. */
  predicate Forced(s: State, step: Step)
    requires Enabled(s, step)
  {
    match step
    case OpenListener | Publish | Accept(_) | DialWorks(_) | CopyTurns(_, _) | BeginClose => false
    case AcceptFails(l) => !s.loops[l].listening
    case CopyMoves(c, up) => Current(s.conns[c], up).Running() ==> !SocketOpen(s.conns[c], up)
    case _ => true
  }

  /** Close has begun and not returned. */
  predicate CloseRuns(s: State) { s.closer.Closing? || s.closer.Waiting? }

  /** One copy sits in a write to the guest, the other in a read from it. */
  predicate Blocked(x: Conn) { x.pc == Copying(Writing, Reading) && x.backend }

  /** Close waits, and only for connections whose copies wait for the guest. */
  predicate OnlyBlocked(s: State) {
    && s.closer.Waiting? && s.wg > 0
    && (forall l | 0 <= l < |s.loops| :: s.loops[l].pc.Gone?)
    && (forall c | 0 <= c < |s.conns| && WorkerUnits(s.conns[c]) > 0 :: Blocked(s.conns[c]))
  }

  ghost predicate SomeForced(s: State) { exists step :: Enabled(s, step) && Forced(s, step) }

  /** While Close runs, the program can go on by itself exactly when Close does not wait for
      blocked connections alone. */
  lemma StuckExactly(s: State)
    requires Inv(s) && CloseRuns(s)
    ensures SomeForced(s) <==> !OnlyBlocked(s)
  {
    if OnlyBlocked(s) {
      hide Inv;
      forall step | Enabled(s, step) ensures !Forced(s, step) {
        NothingForced(s, step);
      }
    } else {
      hide Inv, OnlyBlocked;
      var step := NeverStuck(s);
    }
  }

  lemma NothingForced(s: State, step: Step)
    requires OnlyBlocked(s) && Enabled(s, step)
    ensures !Forced(s, step)
  {
  }

  lemma NeverStuck(s: State) returns (step: Step)
    requires Inv(s) && CloseRuns(s) && !OnlyBlocked(s)
    ensures Enabled(s, step) && Forced(s, step)
  {
    if s.closer.Closing? {
      if s.closer.ls != {} {
        var l :| l in s.closer.ls;
        step := CloseListener(l);
      } else if s.closer.cs != {} {
        var c :| c in s.closer.cs;
        step := CloseSnapshot(c);
      } else {
        step := BeginWait;
      }
    } else {
      ZeroMeansQuiet(s);
      if s.wg == 0 {
        step := EndWait;
      } else if l :| 0 <= l < |s.loops| && !s.loops[l].pc.Gone? {
        step := LoopForced(s, l);
      } else {
        var c :| 0 <= c < |s.conns| && WorkerUnits(s.conns[c]) > 0 && !Blocked(s.conns[c]);
        step := WorkerForced(s, c);
      }
    }
  }

  lemma LoopForced(s: State, l: nat) returns (step: Step)
    requires Inv(s) && s.closer.Waiting? && LoopAt(s, l) && !s.loops[l].pc.Gone?
    ensures Enabled(s, step) && Forced(s, step)
  {
    assert HasConn(s.loops[l]) ==> HoldsUnborn(s.loops[l], s.conns);
    step := match s.loops[l].pc
      case Accepting => AcceptFails(l)
      case Holding(_) => Lock(l)
      case Spawning(_) => Spawn(l)
      case Refusing(_) => Refuse(l)
      case _ => LoopDone(l);
  }

  lemma WorkerForced(s: State, c: nat) returns (step: Step)
    requires Inv(s) && s.closer.Waiting? && ConnAt(s, c)
    requires WorkerUnits(s.conns[c]) > 0 && !Blocked(s.conns[c])
    ensures Enabled(s, step) && Forced(s, step)
  {
    assert ConnOk(s.conns[c]);
    step := match s.conns[c].pc
      case Dialing => DialFails(c)
      case Copying(up, down) =>
        if up.Ended? && down.Ended? then CopiesDone(c)
        else CopyMoves(c, !up.Ended? && !(up.Writing? && s.conns[c].backend))
      case ClosingBackend => CloseBackend(c)
      case ClosingClient => CloseClient(c)
      case Unregistering => Unregister(c)
      case _ => WorkerDone(c);
  }

  /** How many steps a loop, a copy, a worker and Close itself can still take once Close has
      begun. */
  function LoopWork(x: Loop): nat {
    match x.pc
    case Gone => 0
    case Exiting => 1
    case Refusing(_) => 2
    case Holding(_) => 3
    case Accepting => 4
    case Spawning(_) => 19
  }

  /** A copy that has come to a closed client can only end. */
  function CopyWork(x: Conn, up: bool): nat
    requires x.pc.Copying?
  {
    match Current(x, up)
    case Ended => 0
    case ClosesBackend => 1
    case ClosesClient => 2
    case Reading => if up && !x.client then 3 else 4
    case Writing => if !up && !x.client then 3 else 4
  }

  function WorkerWork(x: Conn): nat {
    match x.pc
    case Unborn | Done => 0
    case Finishing => 1
    case Unregistering => 2
    case ClosingClient => 3
    case ClosingBackend => 4
    case Copying(_, _) => 5 + CopyWork(x, true) + CopyWork(x, false)
    case Dialing => 14
  }

  function CloserWork(pc: CloserPc): nat {
    match pc
    case NotCalled | Returned => 0
    case Waiting => 1
    case Closing(ls, cs) => 2 + |ls| + |cs|
  }

  function Work(s: State): nat { Sum(s.loops, LoopWork) + Sum(s.conns, WorkerWork) + CloserWork(s.closer) }

  /** Data is passed on while the client is still open. */
  predicate PassesData(s: State, step: Step)
    requires Enabled(s, step)
  {
    step.CopyTurns? && s.conns[step.c].client
  }

  /** From the moment Close begins every step of anyone, in any order, uses some of that work up,
      accepting further connections included; passing on data adds none, and there is none to pass
      on once Close waits. */
  lemma StepUsesWork(s: State, step: Step)
    requires Inv(s) && CloseRuns(s) && Enabled(s, step)
    ensures if PassesData(s, step) then Work(Apply(s, step)) == Work(s) else Work(Apply(s, step)) < Work(s)
    ensures s.closer.Waiting? ==> !PassesData(s, step) && !Apply(s, step).closer.Closing?
    ensures CloseRuns(Apply(s, step)) || Apply(s, step).closer.Returned?
  {
    assert step.CopyTurns? ==> ConnOk(s.conns[step.c]);
    hide LoopsOk, ConnsOk, Counted, Sum;
    match step
    case OpenListener | Publish | BeginClose =>
    case BeginWait | EndWait =>
    case Accept(l) => AcceptUsesWork(s, l);
    case AcceptFails(_) | Lock(_) | LoopDone(_) | Spawn(_) | Refuse(_) => LoopUsesWork(s, step);
    case CloseListener(l) => ListenerUsesWork(s, l);
    case CloseSnapshot(c) => SnapshotUsesWork(s, c);
    case _ => WorkerUsesWork(s, step);
  }

  lemma AcceptUsesWork(s: State, l: nat)
    requires CloseRuns(s) && Enabled(s, Accept(l))
    ensures Work(Apply(s, Accept(l))) < Work(s)
  {
    hide Sum;
    var t := Apply(s, Accept(l));
    SumUpdate(s.loops, LoopWork, l, t.loops[l]);
    SumAppend(s.conns, WorkerWork, Conn(Unborn, true, false, false));
  }

  lemma LoopUsesWork(s: State, step: Step)
    requires Inv(s) && CloseRuns(s) && Enabled(s, step)
    requires step.AcceptFails? || step.Lock? || step.LoopDone? || step.Spawn? || step.Refuse?
    ensures Work(Apply(s, step)) < Work(s) && CloseRuns(Apply(s, step))
  {
    hide Sum;
    var t, l := Apply(s, step), step.l;
    SumUpdate(s.loops, LoopWork, l, t.loops[l]);
    assert HasConn(s.loops[l]) ==> HoldsUnborn(s.loops[l], s.conns);
    if step.Spawn? || step.Refuse? {
      var c := s.loops[l].pc.c;
      SumUpdate(s.conns, WorkerWork, c, t.conns[c]);
    }
    hide LoopsOk, ConnsOk;
  }

  lemma ListenerUsesWork(s: State, l: nat)
    requires Enabled(s, CloseListener(l))
    ensures Work(Apply(s, CloseListener(l))) < Work(s)
  {
    hide Sum;
    SumUpdate(s.loops, LoopWork, l, s.loops[l].(listening := false));
    assert |s.closer.ls - {l}| == |s.closer.ls| - 1;
  }

  lemma SnapshotUsesWork(s: State, c: nat)
    requires Enabled(s, CloseSnapshot(c))
    ensures Work(Apply(s, CloseSnapshot(c))) < Work(s)
  {
    hide Sum;
    SumUpdate(s.conns, WorkerWork, c, s.conns[c].(client := false));
    assert |s.closer.cs - {c}| == |s.closer.cs| - 1;
  }

  lemma WorkerUsesWork(s: State, step: Step)
    requires CloseRuns(s) && Enabled(s, step)
    requires step.DialFails? || step.DialWorks? || step.CopyTurns? || step.CopyMoves? || step.CopiesDone?
          || step.CloseBackend? || step.CloseClient? || step.Unregister? || step.WorkerDone?
    ensures if PassesData(s, step) then Work(Apply(s, step)) == Work(s) else Work(Apply(s, step)) < Work(s)
    ensures CloseRuns(Apply(s, step))
  {
    hide Sum, WorkerWork;
    var t, c := Apply(s, step), step.c;
    ConnUsesWork(s, step);
    SumUpdate(s.conns, WorkerWork, c, t.conns[c]);
  }

  lemma ConnUsesWork(s: State, step: Step)
    requires Enabled(s, step)
    requires step.DialFails? || step.DialWorks? || step.CopyTurns? || step.CopyMoves? || step.CopiesDone?
          || step.CloseBackend? || step.CloseClient? || step.Unregister? || step.WorkerDone?
    ensures var x, y := s.conns[step.c], Apply(s, step).conns[step.c];
      if PassesData(s, step) then WorkerWork(y) == WorkerWork(x) else WorkerWork(y) < WorkerWork(x)
  {
    hide CopyWork;
    var x := s.conns[step.c];
    match step {
      case CopyTurns(c, up) => TurnUsesWork(x, up);
      case CopyMoves(c, up) => MoveUsesWork(x, up);
      case DialWorks(c) => FreshWork(Apply(s, step).conns[c]);
      case _ =>
    }
  }

  lemma FreshWork(y: Conn)
    requires y.pc == Copying(Reading, Reading)
    ensures CopyWork(y, true) <= 4 && CopyWork(y, false) <= 4
  {
  }

  lemma TurnUsesWork(x: Conn, up: bool)
    requires x.pc.Copying? && Current(x, up).Running() && SocketOpen(x, up)
    ensures var y := CopyTurned(x, up);
      && CopyWork(y, !up) == CopyWork(x, !up)
      && if x.client then CopyWork(y, up) == CopyWork(x, up) else CopyWork(y, up) < CopyWork(x, up)
  {
  }

  lemma MoveUsesWork(x: Conn, up: bool)
    requires x.pc.Copying? && !Current(x, up).Ended?
    ensures CopyWork(CopyMoved(x, up), up) < CopyWork(x, up)
    ensures CopyWork(CopyMoved(x, up), !up) <= CopyWork(x, !up)
  {
  }

  /** How many steps of a run do more than pass on data while the client is open. */
  ghost function Effort(steps: seq<Step>, states: seq<State>): nat
    requires |states| == |steps| + 1 && forall i | 0 <= i < |steps| :: Enabled(states[i], steps[i])
  {
    if steps == [] then 0
    else (if PassesData(states[0], steps[0]) then 0 else 1) + Effort(steps[1..], states[1..])
  }

  /** So a run from the moment Close begins has at most Work(s) steps besides passing on data, and
      one from the moment Close waits at most Work(s) in all. It ends with Close returned, with a
      step the program takes by itself, or with blocked connections alone. */
  lemma {:induction false} ShutdownTerminates(s: State, steps: seq<Step>, states: seq<State>)
    requires Inv(s) && CloseRuns(s) && IsRun(s, steps, states)
    ensures Effort(steps, states) <= Work(s)
    ensures s.closer.Waiting? ==> |steps| <= Work(s)
    ensures var last := states[|steps|];
      && (CloseRuns(last) || (last.closer.Returned? && Quiet(last)))
      && (CloseRuns(last) ==> (SomeForced(last) <==> !OnlyBlocked(last)))
    decreases |steps|
  {
    hide Inv, Enabled, Apply, Work, Quiet, SomeForced, OnlyBlocked, PassesData;
    if steps == [] {
      StuckExactly(s);
    } else {
      var t := states[1];
      assert Enabled(states[0], steps[0]) && t == Apply(states[0], steps[0]);
      StepUsesWork(s, steps[0]);
      StepKeepsInv(s, steps[0]);
      assert IsRun(t, steps[1..], states[1..]);
      if CloseRuns(t) {
        ShutdownTerminates(t, steps[1..], states[1..]);
      } else {
        QuietIsFinal(t, steps[1..], states[1..]);
      }
    }
  }

  /** After Close has returned nothing can happen any more. */
  lemma QuietIsFinal(s: State, steps: seq<Step>, states: seq<State>)
    requires Inv(s) && s.closer.Returned? && IsRun(s, steps, states)
    ensures steps == [] && Quiet(s)
  {
    assert steps != [] ==> Enabled(states[0], steps[0]);
    ZeroMeansQuiet(s);
    hide Counted, LoopsOk, ConnsOk;
  }

  // ----- When Close can come to wait for the guest

  /** A connection that could still come to be blocked. */
  predicate MayBlock(x: Conn) {
    match x.pc
    case Unborn => x.registered && x.client
    case Dialing => x.client
    case Copying(up, down) =>
      && x.backend
      && (up.Writing? || (up.Reading? && x.client)) && (down.Reading? || (down.Writing? && x.client))
    case _ => false
  }

  predicate MayBlockAt(s: State, c: nat) { ConnAt(s, c) && MayBlock(s.conns[c]) }

  ghost predicate SomeMayBlock(s: State) { exists c: nat :: MayBlockAt(s, c) }

  ghost predicate CanHang(s: State) {
    exists steps, states :: IsRun(s, steps, states) && OnlyBlocked(states[|steps|])
  }

  /** Once closed is set, no connection becomes one that may block. */
  lemma NoneComes(s: State, step: Step, c: nat)
    requires Inv(s) && s.closed && Enabled(s, step) && MayBlockAt(Apply(s, step), c)
    ensures MayBlockAt(s, c)
  {
    if step.Spawn? || step.Refuse? || step.Lock? { assert HoldsUnborn(s.loops[step.l], s.conns); }
    hide LoopsOk, ConnsOk, Counted;
  }

  lemma {:induction false} NeverHangs(s: State, steps: seq<Step>, states: seq<State>)
    requires Inv(s) && s.closed && IsRun(s, steps, states) && OnlyBlocked(states[|steps|])
    ensures SomeMayBlock(s)
    decreases |steps|
  {
    hide Apply, Enabled, MayBlockAt;
    if steps == [] {
      BlockedMay(s);
    } else {
      var t := states[1];
      assert Enabled(states[0], steps[0]) && t == Apply(states[0], steps[0]);
      StepKeepsInv(s, steps[0]);
      assert IsRun(t, steps[1..], states[1..]);
      StaysClosed(s, steps[0]);
      hide Inv;
      NeverHangs(t, steps[1..], states[1..]);
      var c: nat :| MayBlockAt(t, c);
      NoneComes(s, steps[0], c);
    }
  }

  lemma StaysClosed(s: State, step: Step)
    requires Enabled(s, step) && s.closed
    ensures Apply(s, step).closed
  {
  }

  lemma BlockedMay(s: State)
    requires Inv(s) && OnlyBlocked(s)
    ensures SomeMayBlock(s)
  {
    if Sum(s.loops, LoopUnits) > 0 {
      var l := SumPositive(s.loops, LoopUnits);
    } else {
      var c := SumPositive(s.conns, WorkerUnits);
      assert MayBlockAt(s, c);
    }
  }

  /** How far a connection that may block is from it. */
  function Distance(x: Conn): nat {
    match x.pc
    case Unborn => 4
    case Dialing => 3
    case Copying(up, down) => (if up.Reading? then 1 else 0) + (if down.Writing? then 1 else 0)
    case _ => 0
  }

  lemma Approach(s: State, c: nat) returns (step: Step)
    requires Inv(s) && CloseRuns(s) && MayBlockAt(s, c) && !Blocked(s.conns[c])
    ensures Enabled(s, step) && CloseRuns(Apply(s, step)) && MayBlockAt(Apply(s, step), c)
    ensures Distance(Apply(s, step).conns[c]) < Distance(s.conns[c])
  {
    match s.conns[c].pc
    case Unborn =>
      assert Held(s, c);
      var l :| 0 <= l < |s.loops| && Holds(s.loops[l], c);
      assert HoldsUnborn(s.loops[l], s.conns);
      step := Spawn(l);
    case Dialing => step := DialWorks(c);
    case Copying(up, down) => step := CopyTurns(c, up.Reading?);
  }

  /** What the program does by itself leaves a blocked connection blocked, and Close waiting. */
  lemma StaysBlocked(s: State, step: Step, c: nat)
    requires Inv(s) && CloseRuns(s) && ConnAt(s, c) && Blocked(s.conns[c]) && Enabled(s, step) && Forced(s, step)
    ensures var t := Apply(s, step); CloseRuns(t) && ConnAt(t, c) && Blocked(t.conns[c]) && Work(t) < Work(s)
  {
    hide Inv, Work;
    LiveCounts(s, c);
    StepUsesWork(s, step);
    KeepsBlocked(s, step, c);
  }

  lemma LiveCounts(s: State, c: nat)
    requires Inv(s) && ConnAt(s, c) && WorkerUnits(s.conns[c]) > 0
    ensures s.wg > 0
  {
    SumAtLeast(s.conns, WorkerUnits, c);
  }

  lemma KeepsBlocked(s: State, step: Step, c: nat)
    requires Inv(s) && ConnAt(s, c) && Blocked(s.conns[c]) && Enabled(s, step) && Forced(s, step)
    ensures ConnAt(Apply(s, step), c) && Blocked(Apply(s, step).conns[c])
  {
    if step.Spawn? || step.Refuse? || step.Lock? { assert HoldsUnborn(s.loops[step.l], s.conns); }
    hide Inv;
  }

  /** From a connection that may block, a run to where Close waits for blocked ones alone. */
  lemma {:induction false} GetsStuck(s: State, c: nat) returns (steps: seq<Step>, states: seq<State>)
    requires Inv(s) && CloseRuns(s) && MayBlockAt(s, c)
    ensures IsRun(s, steps, states) && OnlyBlocked(states[|steps|])
    decreases Distance(s.conns[c]), Work(s)
  {
    hide Inv, Apply, Enabled, Forced, OnlyBlocked, Work;
    if OnlyBlocked(s) {
      steps, states := [], [s];
    } else {
      var step;
      if Blocked(s.conns[c]) {
        step := NeverStuck(s);
        StaysBlocked(s, step, c);
      } else {
        step := Approach(s, c);
      }
      StepKeepsInv(s, step);
      var steps', states' := GetsStuck(Apply(s, step), c);
      steps, states := [step] + steps', [s] + states';
    }
  }

  /** Whether Close can come to wait for the guest is settled when it is called: it can exactly
      when some registered connection, with its client open, is yet to be dialled or copied, or
      is caught between a write to the guest and a read from it. */
  lemma CloseHangsExactly(s: State)
    requires Inv(s) && !s.closed
    ensures CanHang(Apply(s, BeginClose)) <==> SomeMayBlock(s)
  {
    var t := Apply(s, BeginClose);
    StepKeepsInv(s, BeginClose);
    hide Inv, OnlyBlocked, MayBlock, IsRun;
    if steps, states :| IsRun(t, steps, states) && OnlyBlocked(states[|steps|]) {
      NeverHangs(t, steps, states);
      var c: nat :| MayBlockAt(t, c);
      assert MayBlockAt(s, c);
    }
    if c: nat :| MayBlockAt(s, c) {
      var steps, states := GetsStuck(t, c);
    }
  }

  /** A run from the start to s goes on to t. */
  lemma Next(steps0: seq<Step>, states0: seq<State>, s: State, step: Step, t: State)
    returns (steps: seq<Step>, states: seq<State>)
    requires RunsTo(steps0, states0, s) && Enabled(s, step) && t == Apply(s, step)
    ensures RunsTo(steps, states, t)
  {
    hide Enabled, Apply;
    steps, states := steps0 + [step], states0 + [t];
  }

  ghost predicate RunsTo(steps: seq<Step>, states: seq<State>, s: State) {
    IsRun(INITIAL, steps, states) && states[|steps|] == s
  }

  /** A client has sent data that the guest has not read. */
  const UNREAD := State([Loop(Accepting, true)], [Conn(Copying(Writing, Reading), true, true, true)],
                        2, false, false, NotCalled)

  /** One connection has been accepted and its worker is about to start. */
  const SPAWNING := UNREAD.(loops := [Loop(Spawning(0), true)], conns := [Conn(Unborn, true, false, true)])

  lemma SpawningRun() returns (steps: seq<Step>, states: seq<State>)
    ensures RunsTo(steps, states, SPAWNING)
  {
    assert RunsTo([], [INITIAL], INITIAL);
    hide RunsTo;
    var open := State([Loop(Accepting, true)], [], 1, true, false, NotCalled);
    steps, states := Next([], [INITIAL], INITIAL, OpenListener, open);
    var serving := open.(starting := false);
    steps, states := Next(steps, states, open, Publish, serving);
    var holding := serving.(loops := [Loop(Holding(0), true)], conns := [Conn(Unborn, true, false, false)]);
    steps, states := Next(steps, states, serving, Accept(0), holding);
    steps, states := Next(steps, states, holding, Lock(0), SPAWNING);
  }

  lemma UnreadRun() returns (steps: seq<Step>, states: seq<State>)
    ensures RunsTo(steps, states, UNREAD)
  {
    hide RunsTo;
    steps, states := SpawningRun();
    var dialing := UNREAD.(conns := [Conn(Dialing, true, false, true)]);
    steps, states := Next(steps, states, SPAWNING, Spawn(0), dialing);
    var copying := UNREAD.(conns := [Conn(Copying(Reading, Reading), true, true, true)]);
    steps, states := Next(steps, states, dialing, DialWorks(0), copying);
    steps, states := Next(steps, states, copying, CopyTurns(0, true), UNREAD);
  }

  /** Close has closed the listener and the client, and the accept loop is gone. */
  const STUCK := UNREAD.(loops := [Loop(Gone, false)], conns := [UNREAD.conns[0].(client := false)], wg := 1,
                         closed := true, closer := Waiting)

  /** Close has been called and has closed the listener. */
  const CALLED := UNREAD.(loops := [Loop(Accepting, false)], closed := true, closer := Closing({}, {0}))

  lemma CallRun() returns (steps: seq<Step>, states: seq<State>)
    ensures RunsTo(steps, states, CALLED)
  {
    hide RunsTo;
    steps, states := UnreadRun();
    var called := UNREAD.(closed := true, closer := Closing({0}, {0}));
    assert Apply(UNREAD, BeginClose).closer.ls == {0} && Apply(UNREAD, BeginClose).closer.cs == {0};
    steps, states := Next(steps, states, UNREAD, BeginClose, called);
    assert called.closer.ls - {0} == {};
    steps, states := Next(steps, states, called, CloseListener(0), CALLED);
  }

  /** So Close comes to wait for a guest that does not read. */
  lemma BlockedRun() returns (steps: seq<Step>, states: seq<State>)
    ensures RunsTo(steps, states, STUCK) && OnlyBlocked(STUCK)
  {
    hide RunsTo;
    steps, states := CallRun();
    var waiting := STUCK.(loops := [Loop(Accepting, false)], wg := 2);
    var closed, exiting := waiting.(closer := Closing({}, {})), waiting.(loops := [Loop(Exiting, false)]);
    assert CALLED.closer.cs - {0} == {};
    steps, states := Next(steps, states, CALLED, CloseSnapshot(0), closed);
    steps, states := Next(steps, states, closed, BeginWait, waiting);
    steps, states := Next(steps, states, waiting, AcceptFails(0), exiting);
    steps, states := Next(steps, states, exiting, LoopDone(0), STUCK);
  }
}
