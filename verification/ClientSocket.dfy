/** The client's socket protocol: nested requests under a recursive mutex, closes in mid-request
    and stop() from any thread, as atomic steps under the socket mutex. */
module ClientSocket {
  import opened Wrappers

  type Tid = nat

  /** Where one activation of send stands: before its first critical section, between the two
      (on connection `conn`), or past the second one and about to release the request mutex. */
  datatype Frame = Entered | Processing(conn: nat) | Leaving

  /** `frames[t]` are the activations of send on thread t, innermost last. Connections are
      numbered in the order they are opened; `shut` are those shutdown_socket was called on. */
  datatype Client = Client(holder: Option<Tid>, depth: int, frames: map<Tid, seq<Frame>>,
                           socket: Option<nat>, conns: nat, shut: set<nat>,
                           inFlight: int, owner: Option<Tid>, shouldClose: bool)

  const IDLE := Client(None, 0, map[], None, 0, {}, 0, None, false)

  datatype Step =
    | Lock(t: Tid)                                // request_mutex_, recursively
    | Begin(t: Tid, alive: bool, connects: bool)  // first critical section of send
    | MidClose(t: Tid)                            // process_request on a closing response
    | End(t: Tid, close: bool)                    // second critical section of send
    | Unlock(t: Tid)                              // send returns
    | Stop(t: Tid)                                // stop()

  function Frames(s: Client, t: Tid): seq<Frame> { if t in s.frames then s.frames[t] else [] }

  function Top(s: Client, t: Tid): Option<Frame> {
    var f := Frames(s, t);
    if f == [] then None else Some(f[|f| - 1])
  }

  function SetTop(s: Client, t: Tid, frame: Frame): Client
    requires Frames(s, t) != []
  {
    s.(frames := s.frames[t := Frames(s, t)[..|Frames(s, t)| - 1] + [frame]])
  }

  predicate Enabled(s: Client, step: Step) {
    match step
    case Lock(t) =>
      || (s.holder == None && Frames(s, t) == [])
      || (s.holder == Some(t) && Top(s, t).Some? && Top(s, t).value.Processing?)
    case Begin(t, alive, _) => Top(s, t) == Some(Entered) && (alive ==> s.socket.Some?)
    case MidClose(t) => Top(s, t).Some? && Top(s, t).value.Processing?
    case End(t, _) => Top(s, t).Some? && Top(s, t).value.Processing?
    case Unlock(t) => Top(s, t) == Some(Leaving)
    case Stop(_) => true
  }

  /** The condition the source asserts in shutdown_ssl and close_socket. */
  predicate MayClose(s: Client, t: Tid) { s.inFlight == 0 || s.owner == Some(t) }

  function ShutDown(s: Client): Client {
    if s.socket.Some? then s.(shut := s.shut + {s.socket.value}) else s
  }

  function CloseSocket(s: Client): Client { s.(socket := None) }

  /** The first critical section up to the marking of the socket as in use. */
  function Prepared(s: Client, alive: bool, connects: bool): Client {
    var cleared := s.(shouldClose := false);
    if alive then cleared
    else
      var closed := CloseSocket(ShutDown(cleared));
      if connects then closed.(socket := Some(s.conns), conns := s.conns + 1) else closed
  }

  function Released(s: Client): Client {
    var fewer := s.(inFlight := s.inFlight - 1);
    if fewer.inFlight <= 0 then fewer.(owner := None) else fewer
  }

  function Apply(s: Client, step: Step): Client
    requires Enabled(s, step)
  {
    match step
    case Lock(t) =>
      s.(holder := Some(t), depth := s.depth + 1, frames := s.frames[t := Frames(s, t) + [Entered]])
    case Begin(t, alive, connects) =>
      var p := Prepared(s, alive, connects);
      if p.socket == None then SetTop(p, t, Leaving)
      else SetTop(p.(inFlight := p.inFlight + 1, owner := Some(t)), t, Processing(p.socket.value))
    case MidClose(t) => CloseSocket(ShutDown(s))
    case End(t, close) =>
      var r := Released(SetTop(s, t, Leaving));
      if r.shouldClose || close then CloseSocket(ShutDown(r)) else r
    case Unlock(t) =>
      s.(frames := s.frames[t := Frames(s, t)[..|Frames(s, t)| - 1]], depth := s.depth - 1,
         holder := if s.depth == 1 then None else s.holder)
    case Stop(t) =>
      if s.inFlight > 0 then ShutDown(s).(shouldClose := true) else CloseSocket(ShutDown(s))
  }

  /** Every assertion the step executes, evaluated where it stands. */
  predicate AssertionsHold(s: Client, step: Step)
    requires Enabled(s, step)
  {
    match step
    case Begin(t, alive, connects) =>
      && (s.socket.Some? && !alive ==> MayClose(s, t))
      && (s.inFlight > 1 ==> s.owner == Some(t))
    case MidClose(t) => MayClose(s, t)
    case End(t, close) =>
      var r := Released(SetTop(s, t, Leaving));
      && (r.inFlight <= 0 ==> r.inFlight == 0)
      && (r.shouldClose || close ==> MayClose(r, t))
    case Stop(t) => s.inFlight <= 0 ==> MayClose(s, t)
    case _ => true
  }

  /** The activations that are between their two critical sections. */
  function InUse(f: seq<Frame>): nat {
    if f == [] then 0
    else InUse(f[..|f| - 1]) + (if f[|f| - 1].Processing? then 1 else 0)
  }

  /** Only the holder of the request mutex is inside send. */
  ghost predicate Exclusive(s: Client) {
    && (s.holder == None <==> s.depth == 0)
    && (forall t | t in s.frames && s.frames[t] != [] :: s.holder == Some(t))
  }

  /** The holder has one activation per level of the mutex, all but the innermost processing; the
      count is that of its processing ones and, when positive, recorded as its own. */
  ghost predicate Counted(s: Client, f: seq<Frame>) {
    && |f| == s.depth
    && (forall i | 0 <= i < |f| - 1 :: f[i].Processing?)
    && s.inFlight == InUse(f)
    && s.owner == if s.inFlight > 0 then s.holder else None
  }

  ghost function HeldFrames(s: Client): seq<Frame> {
    if s.holder.Some? then Frames(s, s.holder.value) else []
  }

  ghost predicate Inv(s: Client) {
    Exclusive(s) && Counted(s, HeldFrames(s))
  }

  lemma InUseTop(f: seq<Frame>, frame: Frame)
    ensures InUse(f + [frame]) == InUse(f) + if frame.Processing? then 1 else 0
  {
    assert (f + [frame])[..|f|] == f;
  }

  lemma Split(f: seq<Frame>)
    requires f != []
    ensures InUse(f) == InUse(f[..|f| - 1]) + if f[|f| - 1].Processing? then 1 else 0
  {
  }

  lemma LockInv(s: Client, t: Tid)
    requires Inv(s) && Enabled(s, Lock(t))
    ensures Inv(Apply(s, Lock(t)))
  {
    InUseTop(Frames(s, t), Entered);
  }

  lemma HolderActs(s: Client, t: Tid)
    requires Inv(s) && Frames(s, t) != []
    ensures s.holder == Some(t) && HeldFrames(s) == Frames(s, t)
  {
  }

  lemma BeginInv(s: Client, t: Tid, alive: bool, connects: bool)
    requires Inv(s) && Enabled(s, Begin(t, alive, connects))
    ensures Inv(Apply(s, Begin(t, alive, connects))) && AssertionsHold(s, Begin(t, alive, connects))
  {
    var p := Prepared(s, alive, connects);
    PreparedKeeps(s, alive, connects);
    HolderActs(s, t);
    if p.socket == None {
      TopReplaced(p, t, Leaving);
    } else {
      TopReplaced(p, t, Processing(p.socket.value));
    }
  }

  lemma PreparedKeeps(s: Client, alive: bool, connects: bool)
    ensures var p := Prepared(s, alive, connects);
            p.holder == s.holder && p.depth == s.depth && p.frames == s.frames
            && p.inFlight == s.inFlight && p.owner == s.owner
  {
  }

  /** The innermost activation, not yet counted, goes on; it is counted if it is to use the socket. */
  lemma TopReplaced(p: Client, t: Tid, frame: Frame)
    requires Inv(p) && Top(p, t) == Some(Entered)
    ensures Inv(if frame.Processing? then SetTop(p.(inFlight := p.inFlight + 1, owner := Some(t)), t, frame)
                else SetTop(p, t, frame))
  {
    var f := Frames(p, t);
    HolderActs(p, t);
    Split(f);
    InUseTop(f[..|f| - 1], frame);
  }

  lemma EndInv(s: Client, t: Tid, close: bool)
    requires Inv(s) && Enabled(s, End(t, close))
    ensures Inv(Apply(s, End(t, close))) && AssertionsHold(s, End(t, close))
  {
    var f := Frames(s, t);
    HolderActs(s, t);
    Split(f);
    InUseTop(f[..|f| - 1], Leaving);
  }

  lemma UnlockInv(s: Client, t: Tid)
    requires Inv(s) && Enabled(s, Unlock(t))
    ensures Inv(Apply(s, Unlock(t)))
  {
    var f := Frames(s, t);
    HolderActs(s, t);
    Split(f);
    if |f| == 1 { assert f[..0] == []; }
  }

  lemma InUsePositive(f: seq<Frame>)
    requires f != [] && f[|f| - 1].Processing?
    ensures InUse(f) > 0
  {
  }

  /** Every step keeps the invariant, and none of the assertions it executes fails. */
  lemma StepInv(s: Client, step: Step)
    requires Inv(s) && Enabled(s, step)
    ensures Inv(Apply(s, step)) && AssertionsHold(s, step)
  {
    match step {
      case Lock(t) => LockInv(s, t);
      case Begin(t, alive, connects) => BeginInv(s, t, alive, connects);
      case End(t, close) => EndInv(s, t, close);
      case Unlock(t) => UnlockInv(s, t);
      case MidClose(t) =>
        HolderActs(s, t);
        InUsePositive(Frames(s, t));
      case Stop(t) =>
    }
  }

  ghost predicate ValidRun(s: Client, steps: seq<Step>)
    decreases |steps|
  {
    steps == [] || (Enabled(s, steps[0]) && ValidRun(Apply(s, steps[0]), steps[1..]))
  }

  function RunOf(s: Client, steps: seq<Step>): Client
    requires ValidRun(s, steps)
    decreases |steps|
  {
    if steps == [] then s else RunOf(Apply(s, steps[0]), steps[1..])
  }

  ghost predicate AllAssertionsHold(s: Client, steps: seq<Step>)
    requires ValidRun(s, steps)
    decreases |steps|
  {
    steps == [] || (AssertionsHold(s, steps[0]) && AllAssertionsHold(Apply(s, steps[0]), steps[1..]))
  }

  /** Sends that have marked the socket as in use, less those that have unmarked it. */
  function NetBegun(s: Client, steps: seq<Step>): int
    requires ValidRun(s, steps)
    decreases |steps|
  {
    if steps == [] then 0
    else
      var t := Apply(s, steps[0]);
      var d := match steps[0]
        case Begin(_, _, _) => if t.socket.Some? then 1 else 0
        case End(_, _) => -1
        case _ => 0;
      d + NetBegun(t, steps[1..])
  }

  /** In every interleaving of nested sends, closes in mid-request and stops no assertion fails,
      the count is that of the sends begun and not ended, and while it is positive the request
      mutex is held by the thread on record. */
  lemma {:induction false} RunSafe(s: Client, steps: seq<Step>)
    requires Inv(s) && ValidRun(s, steps)
    ensures AllAssertionsHold(s, steps) && Inv(RunOf(s, steps))
    ensures RunOf(s, steps).inFlight == s.inFlight + NetBegun(s, steps)
    ensures var t := RunOf(s, steps); t.inFlight > 0 ==> t.owner.Some? && t.owner == t.holder
    decreases |steps|
  {
    if steps != [] {
      StepInv(s, steps[0]);
      RunSafe(Apply(s, steps[0]), steps[1..]);
    }
  }

  lemma FromIdle(steps: seq<Step>)
    requires ValidRun(IDLE, steps)
    ensures AllAssertionsHold(IDLE, steps)
    ensures var t := RunOf(IDLE, steps);
            t.inFlight == NetBegun(IDLE, steps) >= 0 && (t.inFlight > 0 ==> t.holder.Some? && t.owner == t.holder)
  {
    RunSafe(IDLE, steps);
  }

  /** Thread t is between the two critical sections of some send. */
  ghost predicate Using(s: Client, t: Tid) {
    exists i :: 0 <= i < |Frames(s, t)| && Frames(s, t)[i].Processing?
  }

  lemma {:induction false} UsingCounts(f: seq<Frame>, i: nat)
    requires i < |f| && f[i].Processing?
    ensures InUse(f) > 0
  {
    if i < |f| - 1 { UsingCounts(f[..|f| - 1], i); }
  }

  /** The socket is taken away from no one: a step that closes or replaces it is only ever taken by
      the thread that is using it, and stop() leaves it alone while anyone is. */
  lemma ClosedByUserOnly(s: Client, step: Step, t: Tid)
    requires Inv(s) && Enabled(s, step) && Using(s, t)
    ensures Apply(s, step).socket != s.socket ==> step.t == t && !step.Stop?
  {
    var i :| 0 <= i < |Frames(s, t)| && Frames(s, t)[i].Processing?;
    HolderActs(s, t);
    UsingCounts(Frames(s, t), i);
    if Frames(s, step.t) != [] { HolderActs(s, step.t); }
  }

  ghost predicate Begins(steps: seq<Step>) { exists step :: step in steps && step.Begin? }

  ghost predicate Stops(steps: seq<Step>) { exists step :: step in steps && step.Stop? }

  /** From the last stop() on the flag is what it was if and only if no send begins. */
  lemma {:induction false} FlagExact(s: Client, steps: seq<Step>)
    requires ValidRun(s, steps) && !Stops(steps)
    ensures RunOf(s, steps).shouldClose <==> s.shouldClose && !Begins(steps)
    decreases |steps|
  {
    if steps != [] {
      assert steps == [steps[0]] + steps[1..] && steps[0] in steps;
      assert forall step | step in steps[1..] :: step in steps;
      FlagExact(Apply(s, steps[0]), steps[1..]);
    }
  }

  /** Whether stop() during a request is honoured: in every run that follows it, the end of a request
      that would keep its connection closes it if no send has begun since, and otherwise leaves the
      socket as it is. */
  lemma StopExact(s: Client, steps: seq<Step>, t: Tid)
    requires Inv(s) && s.shouldClose && ValidRun(s, steps) && !Stops(steps)
    requires Enabled(RunOf(s, steps), End(t, false))
    ensures Apply(RunOf(s, steps), End(t, false)).socket == if Begins(steps) then RunOf(s, steps).socket else None
  {
    FlagExact(s, steps);
  }

  /** While no further send begins, the first end of a request closes the socket for good. */
  lemma {:induction false} StopHonoured(s: Client, steps: seq<Step>)
    requires Inv(s) && ValidRun(s, steps) && s.shouldClose
    requires forall step | step in steps :: !step.Begin?
    ensures RunOf(s, steps).shouldClose
    ensures RunOf(s, steps).inFlight < s.inFlight || s.socket == None ==> RunOf(s, steps).socket == None
    decreases |steps|
  {
    if steps != [] {
      StepInv(s, steps[0]);
      StopHonoured(Apply(s, steps[0]), steps[1..]);
    }
  }

  /** One step from a state to another. */
  predicate Moves(s: Client, step: Step, t: Client) { Enabled(s, step) && Apply(s, step) == t }

  /** Thread `t` inside send, with connection `c`, the latest, open. */
  function Sending(t: Tid, c: nat, frames: seq<Frame>, shut: set<nat>, inFlight: int, close: bool): Client {
    Client(Some(t), |frames|, map[t := frames], Some(c), c + 1, shut, inFlight, Some(t), close)
  }

  lemma OuterBegins(t: Tid, u: Tid)
    ensures var locked := IDLE.(holder := Some(t), depth := 1, frames := map[t := [Entered]]);
            && Moves(IDLE, Lock(t), locked)
            && Moves(locked, Begin(t, false, true), Sending(t, 0, [Processing(0)], {}, 1, false))
    ensures Moves(Sending(t, 0, [Processing(0)], {}, 1, false), Stop(u), Sending(t, 0, [Processing(0)], {0}, 1, true))
  {
    var f: seq<Frame> := [Entered];
    assert [] + [Entered] == f && f[..0] + [Processing(0)] == [Processing(0)];
  }

  /** A nested request clears the flag and goes on with the socket, or with a new one if the old one
      no longer looks alive. */
  lemma NestedBegins(t: Tid, alive: bool)
    ensures var c, nested := if alive then 0 else 1, Sending(t, 0, [Processing(0), Entered], {0}, 1, true);
            && Moves(Sending(t, 0, [Processing(0)], {0}, 1, true), Lock(t), nested)
            && Moves(nested, Begin(t, alive, true), Sending(t, c, [Processing(0), Processing(c)], {0}, 2, false))
  {
    var f: seq<Frame> := [Processing(0), Entered];
    var c := if alive then 0 else 1;
    assert [Processing(0)] + [Entered] == f && f[..1] + [Processing(c)] == [Processing(0), Processing(c)];
  }

  lemma NestedEnds(t: Tid, c: nat)
    ensures var leaving := Sending(t, c, [Processing(0), Leaving], {0}, 1, false);
            && Moves(Sending(t, c, [Processing(0), Processing(c)], {0}, 2, false), End(t, false), leaving)
            && Moves(leaving, Unlock(t), Sending(t, c, [Processing(0)], {0}, 1, false))
  {
    var f, g: seq<Frame> := [Processing(0), Processing(c)], [Processing(0), Leaving];
    assert f[..1] + [Leaving] == g && g[..1] == [Processing(0)];
  }

  lemma OuterEnds(t: Tid, c: nat)
    ensures var left := Sending(t, c, [Leaving], {0}, 0, false).(owner := None);
            && Moves(Sending(t, c, [Processing(0)], {0}, 1, false), End(t, false), left)
            && Moves(left, Unlock(t), left.(holder := None, depth := 0, frames := map[t := []]))
  {
    var f, g: seq<Frame> := [Processing(0)], [Leaving];
    assert f[..0] + [Leaving] == g && g[..0] == [];
  }

  /** A request, stop() from another thread, and a nested request. */
  function ForgettingRun(t: Tid, u: Tid, alive: bool): seq<Step> {
    [Lock(t)] + ([Begin(t, false, true)] + ([Stop(u)] + NestedRun(t, alive)))
  }

  function NestedRun(t: Tid, alive: bool): seq<Step> {
    [Lock(t)] + ([Begin(t, alive, true)] + ([End(t, false)] + ([Unlock(t)] + LastSteps(t))))
  }

  function LastSteps(t: Tid): seq<Step> { [End(t, false)] + ([Unlock(t)] + []) }

  function Afterwards(t: Tid, c: nat): Client {
    IDLE.(frames := map[t := []], socket := Some(c), conns := c + 1, shut := {0})
  }

  lemma LastRun(t: Tid, c: nat)
    ensures var s := Sending(t, c, [Processing(0)], {0}, 1, false);
            ValidRun(s, LastSteps(t)) && RunOf(s, LastSteps(t)) == Afterwards(t, c)
  {
    OuterEnds(t, c);
    var left := Sending(t, c, [Leaving], {0}, 0, false).(owner := None);
    RunStep(left, Unlock(t), left.(holder := None, depth := 0, frames := map[t := []]), []);
    RunStep(Sending(t, c, [Processing(0)], {0}, 1, false), End(t, false), left, [Unlock(t)] + []);
  }

  lemma NestedRunEnds(t: Tid, alive: bool)
    ensures var s := Sending(t, 0, [Processing(0)], {0}, 1, true);
            && ValidRun(s, NestedRun(t, alive))
            && RunOf(s, NestedRun(t, alive)) == Afterwards(t, if alive then 0 else 1)
  {
    var c := if alive then 0 else 1;
    NestedBegins(t, alive);
    NestedEnds(t, c);
    LastRun(t, c);
    var entered, two := Sending(t, 0, [Processing(0), Entered], {0}, 1, true),
                        Sending(t, c, [Processing(0), Processing(c)], {0}, 2, false);
    var leaving, one := Sending(t, c, [Processing(0), Leaving], {0}, 1, false),
                        Sending(t, c, [Processing(0)], {0}, 1, false);
    RunStep(leaving, Unlock(t), one, LastSteps(t));
    RunStep(two, End(t, false), leaving, [Unlock(t)] + LastSteps(t));
    RunStep(entered, Begin(t, alive, true), two, [End(t, false)] + ([Unlock(t)] + LastSteps(t)));
    RunStep(Sending(t, 0, [Processing(0)], {0}, 1, true), Lock(t), entered,
            [Begin(t, alive, true)] + ([End(t, false)] + ([Unlock(t)] + LastSteps(t))));
  }

  /** A run in which stop() is forgotten: a connection is still open when the outermost request has
      returned. */
  lemma StopForgotten(t: Tid, u: Tid, alive: bool)
    ensures ValidRun(IDLE, ForgettingRun(t, u, alive))
    ensures var s := RunOf(IDLE, ForgettingRun(t, u, alive));
            s.inFlight == 0 && s.holder == None && s.socket.Some?
  {
    OuterBegins(t, u);
    NestedRunEnds(t, alive);
    var locked := IDLE.(holder := Some(t), depth := 1, frames := map[t := [Entered]]);
    var begun := Sending(t, 0, [Processing(0)], {}, 1, false);
    RunStep(begun, Stop(u), Sending(t, 0, [Processing(0)], {0}, 1, true), NestedRun(t, alive));
    RunStep(locked, Begin(t, false, true), begun, [Stop(u)] + NestedRun(t, alive));
    RunStep(IDLE, Lock(t), locked, [Begin(t, false, true)] + ([Stop(u)] + NestedRun(t, alive)));
  }

  lemma RunStep(s: Client, step: Step, t: Client, rest: seq<Step>)
    requires Moves(s, step, t) && ValidRun(t, rest)
    ensures ValidRun(s, [step] + rest) && RunOf(s, [step] + rest) == RunOf(t, rest)
  {
    assert ([step] + rest)[1..] == rest;
  }

  /** The object: the fields guarded by the socket mutex are code, what the threads are doing is
      ghost. The assertions of the source are preconditions here, so that they are proved where
      they stand; every other method is one critical section and equals one step. */
  class ClientImpl {
    var socket: Option<nat>
    var inFlight: int
    var owner: Option<Tid>
    var shouldClose: bool
    var conns: nat
    ghost var rest: Client

    ghost function Abs(): Client
      reads this
    {
      rest.(socket := socket, inFlight := inFlight, owner := owner, shouldClose := shouldClose,
            conns := conns)
    }

    constructor ()
      ensures Abs() == IDLE && Inv(Abs())
    {
      socket, inFlight, owner, shouldClose, conns := None, 0, None, false, 0;
      rest := IDLE;
    }

    method ShutdownSsl(self: Tid)
      requires inFlight == 0 || owner == Some(self)
    {
    }

    method ShutdownSocket()
      modifies this`rest
      ensures Abs() == ShutDown(old(Abs()))
    {
      if socket.Some? { rest := rest.(shut := rest.shut + {socket.value}); }
    }

    method Close(self: Tid)
      requires inFlight == 0 || owner == Some(self)
      modifies this`socket
      ensures Abs() == CloseSocket(old(Abs()))
    {
      socket := None;
    }

    method CreateAndConnect(connects: bool) returns (ok: bool)
      modifies this`socket, this`conns
      ensures ok == connects
      ensures Abs() == if connects then old(Abs()).(socket := Some(old(conns)), conns := old(conns) + 1)
                       else old(Abs())
    {
      ok := connects;
      if connects {
        socket := Some(conns);
        conns := conns + 1;
      }
    }

    /** The first critical section of send. */
    method BeginRequest(self: Tid, alive: bool, connects: bool) returns (ok: bool)
      requires Inv(Abs()) && Enabled(Abs(), Begin(self, alive, connects))
      modifies this
      ensures Abs() == Apply(old(Abs()), Begin(self, alive, connects)) && Inv(Abs())
      ensures ok == (alive || connects)
    {
      ghost var s := Abs();
      StepInv(s, Begin(self, alive, connects));
      shouldClose := false;
      if socket.Some? && !alive {
        ShutdownSsl(self);
        ShutdownSocket();
        Close(self);
      }
      if !alive {
        ok := CreateAndConnect(connects);
        if !ok {
          rest := Apply(s, Begin(self, alive, connects));
          return;
        }
      }
      if inFlight > 1 { assert owner == Some(self); }
      inFlight := inFlight + 1;
      owner := Some(self);
      ok := true;
      rest := Apply(s, Begin(self, alive, connects));
    }

    /** The close in mid-request after a response that ends the connection. */
    method CloseAfterResponse(self: Tid)
      requires Inv(Abs()) && Enabled(Abs(), MidClose(self))
      modifies this
      ensures Abs() == Apply(old(Abs()), MidClose(self)) && Inv(Abs())
    {
      StepInv(Abs(), MidClose(self));
      ShutdownSsl(self);
      ShutdownSocket();
      Close(self);
    }

    /** The second critical section of send; `close` is close_connection or a failed request. */
    method EndRequest(self: Tid, close: bool)
      requires Inv(Abs()) && Enabled(Abs(), End(self, close))
      modifies this
      ensures Abs() == Apply(old(Abs()), End(self, close)) && Inv(Abs())
    {
      ghost var s := Abs();
      StepInv(s, End(self, close));
      rest := SetTop(s, self, Leaving);
      inFlight := inFlight - 1;
      if inFlight <= 0 {
        assert inFlight == 0;
        owner := None;
      }
      if shouldClose || close {
        ShutdownSsl(self);
        ShutdownSocket();
        Close(self);
      }
    }

    method StopClient(self: Tid)
      requires Inv(Abs())
      modifies this
      ensures Abs() == Apply(old(Abs()), Stop(self)) && Inv(Abs())
    {
      StepInv(Abs(), Stop(self));
      if inFlight > 0 {
        ShutdownSocket();
        shouldClose := true;
        return;
      }
      ShutdownSsl(self);
      ShutdownSocket();
      Close(self);
    }
  }
}
