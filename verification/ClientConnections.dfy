/** What the client's steps do to its connections. */
module ClientConnections {
  import opened Wrappers
  import opened ClientSocket

  /** Every connection that was ever opened is the current one or has been shut down; the current one is
      the latest. */
  ghost predicate NoLeak(s: Client) {
    && (forall k: nat | k < s.conns :: s.socket == Some(k) || k in s.shut)
    && (forall k | k in s.shut :: k < s.conns)
    && (s.socket.Some? ==> s.socket.value + 1 == s.conns)
  }

  lemma StepNoLeak(s: Client, step: Step)
    requires NoLeak(s) && Enabled(s, step)
    ensures NoLeak(Apply(s, step)) && s.conns <= Apply(s, step).conns <= s.conns + 1 && s.shut <= Apply(s, step).shut
  {
    var t := Apply(s, step);
    forall k: nat | k < t.conns ensures t.socket == Some(k) || k in t.shut {
      if k < s.conns { assert s.socket == Some(k) || k in s.shut; }
    }
  }

  /** Over every run no connection is dropped without having been shut down, and a connection that has
      been given up is never the current one again. */
  lemma {:induction false} RunNoLeak(s: Client, steps: seq<Step>)
    requires NoLeak(s) && ValidRun(s, steps)
    ensures var t := RunOf(s, steps);
            && NoLeak(t) && s.conns <= t.conns && s.shut <= t.shut
            && forall k: nat | k < s.conns && s.socket != Some(k) :: t.socket != Some(k)
    decreases |steps|
  {
    if steps != [] {
      StepNoLeak(s, steps[0]);
      GivenUpOnce(s, steps[0]);
      RunNoLeak(Apply(s, steps[0]), steps[1..]);
    }
  }

  lemma GivenUpOnce(s: Client, step: Step)
    requires NoLeak(s) && Enabled(s, step)
    ensures forall k: nat | k < s.conns && s.socket != Some(k) :: Apply(s, step).socket != Some(k)
  {
  }

  lemma FreshNoLeak(steps: seq<Step>)
    requires ValidRun(IDLE, steps)
    ensures NoLeak(RunOf(IDLE, steps))
  {
    RunNoLeak(IDLE, steps);
  }

  /** The connection of `s` is closed in `t`, after it has been shut down. */
  predicate Closed(s: Client, t: Client) {
    t.socket == None && t.conns == s.conns && (s.socket.Some? ==> s.socket.value in t.shut)
  }

  predicate Untouched(s: Client, t: Client) { t.socket == s.socket && t.conns == s.conns && t.shut == s.shut }

  /** The end of a request leaves an open connection open if and only if neither its response nor
      stop() asks for it to be closed. */
  lemma EndExact(s: Client, t: Tid, close: bool)
    requires Enabled(s, End(t, close))
    ensures var e := Apply(s, End(t, close));
            && (if close || s.shouldClose then Closed(s, e) else Untouched(s, e))
            && (s.socket.Some? ==> (e.socket == s.socket <==> !close && !s.shouldClose))
            && e.inFlight == s.inFlight - 1 && e.shouldClose == s.shouldClose
  {
  }

  /** A response that ends the connection closes it at once, and the request stays in flight. */
  lemma MidCloseCloses(s: Client, t: Tid)
    requires Enabled(s, MidClose(t))
    ensures Closed(s, Apply(s, MidClose(t))) && Apply(s, MidClose(t)).inFlight == s.inFlight
  {
  }

  /** stop() closes the connection of an idle client at once. During a request it shuts the connection
      down, leaves it to its user, and leaves word that it is to be closed. */
  lemma StopExactly(s: Client, t: Tid)
    ensures var e := Apply(s, Stop(t));
            if s.inFlight <= 0 then Closed(s, e)
            else e.socket == s.socket && e.conns == s.conns && e.shouldClose
                 && (s.socket.Some? ==> s.socket.value in e.shut)
  {
  }

  /** A request takes the connection over if it looks alive; otherwise that one is given up, and the
      request goes on with a new one or not at all. */
  lemma BeginExactly(s: Client, t: Tid, alive: bool, connects: bool)
    requires NoLeak(s) && Enabled(s, Begin(t, alive, connects))
    ensures var e := Apply(s, Begin(t, alive, connects));
            && e.inFlight == s.inFlight + (if alive || connects then 1 else 0)
            && (if alive then Untouched(s, e) && e.socket.Some?
                else if connects then e.socket == Some(s.conns) && s.conns !in e.shut
                else Closed(s, e))
            && forall k: nat | k < e.conns && e.socket != Some(k) :: k in e.shut
  {
    StepNoLeak(s, Begin(t, alive, connects));
  }

  /** A stopped idle client has no connection until the next request begins. */
  lemma {:induction false} StoppedStaysClosed(s: Client, steps: seq<Step>)
    requires ValidRun(s, steps) && s.socket == None && (forall step | step in steps :: !step.Begin?)
    ensures RunOf(s, steps).socket == None && RunOf(s, steps).conns == s.conns
    decreases |steps|
  {
    if steps != [] {
      assert steps[0] in steps;
      StoppedStaysClosed(Apply(s, steps[0]), steps[1..]);
    }
  }
}
