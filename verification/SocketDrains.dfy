/** A call of `close` never waits for a task that cannot end
    (ori/operator_socket.py:882-898, 1009-1048). */
module SocketDrains {
  import opened Options
  import opened SocketProtocol

  /** The moves of the loop, the store and the closers: no new connection and none dropped. */
  predicate Own(step: Step) {
    || step.Resume? || step.Reply? || step.FinishAppend? || step.FinishServed? || step.FinishHolder?
    || step.CloseLooks? || step.CloseWaited? || step.CloseReturns?
  }

  predicate AllOwn(steps: seq<Step>) {
    forall i :: 0 <= i < |steps| ==> Own(steps[i])
  }

  /** The connections with a task still running. */
  function Busy(s: State): set<ConnId> {
    set c | c in s.conns && s.conns[c].work in {Appending, Serving, ServedHeld}
  }

  lemma NoneRunning(s: State)
    requires Busy(s) == {}
    ensures forall t :: !IsRunning(s, t)
  {
    forall t ensures IsRunning(s, t) ==> t.conn in Busy(s) {
    }
  }

  lemma Extend(steps: seq<Step>, step: Step)
    requires Run(steps).Some?
    ensures Run(steps + [step]) == Next(Run(steps).value, step)
  {
    var all := steps + [step];
    assert all[..|all| - 1] == steps;
  }

  // ----- One connection -----

  /** How many moves a connection is from having nothing running. */
  function Rank(conn: Conn): nat {
    match conn.work
    case Appending => 1
    case Serving => 4
    case ServedHeld =>
      if conn.direct || conn.progress == Ended then 1 else if conn.progress == AwaitServed then 3 else 2
    case _ => 0
  }

  /** The move that brings it nearer. */
  function Nearer(conn: Conn, c: ConnId): Step {
    match conn.work
    case Appending => FinishAppend(c)
    case Serving => FinishServed(c)
    case _ =>
      if conn.direct || conn.progress == Ended then FinishHolder(c)
      else if conn.progress == AwaitServed then Resume(c)
      else Reply(c)
  }

  lemma NearerMoves(f: Fields, conn: Conn, c: ConnId)
    requires ConnInv(conn) && Rank(conn) > 0
    ensures var next := ConnNext(f, conn, Nearer(conn, c)); next.Some? && Rank(next.value) < Rank(conn)
  {
  }

  lemma {:induction false} FinishConn(steps: seq<Step>, c: ConnId) returns (more: seq<Step>)
    requires Run(steps).Some? && c in Run(steps).value.conns
    ensures AllOwn(more) && Run(steps + more).Some?
    ensures var s, s' := Run(steps).value, Run(steps + more).value;
            s'.closers == s.closers && Busy(s') == Busy(s) - {c}
    decreases Rank(Run(steps).value.conns[c])
  {
    var s := Run(steps).value;
    var conn := s.conns[c];
    if Rank(conn) == 0 {
      more := [];
      assert steps + more == steps;
    } else {
      var step := Nearer(conn, c);
      RunInv(steps);
      NearerMoves(s.fields, conn, c);
      Extend(steps, step);
      OnlyThis(s, step);
      var rest := FinishConn(steps + [step], c);
      more := [step] + rest;
      assert steps + more == steps + [step] + rest;
    }
  }

  lemma OnlyThis(s: State, step: Step)
    requires OfConn(step) && Next(s, step).Some?
    ensures var s' := Next(s, step).value;
            && s'.closers == s.closers && step.c in s'.conns
            && s'.conns[step.c] == ConnNext(s.fields, s.conns[step.c], step).value
            && Busy(s') - {step.c} == Busy(s) - {step.c}
  {
  }

  lemma {:induction false} FinishAll(steps: seq<Step>) returns (more: seq<Step>)
    requires Run(steps).Some?
    ensures AllOwn(more) && Run(steps + more).Some?
    ensures Run(steps + more).value.closers == Run(steps).value.closers && Busy(Run(steps + more).value) == {}
    decreases Busy(Run(steps).value)
  {
    var busy := Busy(Run(steps).value);
    if busy == {} {
      more := [];
      assert steps + more == steps;
    } else {
      var c :| c in busy;
      var first := FinishConn(steps, c);
      var rest := FinishAll(steps + first);
      more := first + rest;
      assert steps + more == steps + first + rest;
    }
  }

  // ----- One closer -----

  function Stage(closer: Closer): nat {
    match closer
    case Stopping => 3
    case Waiting(_) => 2
    case Removing => 1
    case Returned => 0
  }

  lemma {:induction false} WalkOut(steps: seq<Step>, k: CloserId) returns (more: seq<Step>)
    requires Run(steps).Some? && k in Run(steps).value.closers && Busy(Run(steps).value) == {}
    ensures AllOwn(more) && Run(steps + more).Some?
    ensures var s' := Run(steps + more).value; k in s'.closers && s'.closers[k] == Returned
    decreases Stage(Run(steps).value.closers[k])
  {
    var s := Run(steps).value;
    if s.closers[k] == Returned {
      more := [];
      assert steps + more == steps;
    } else {
      var step := match s.closers[k]
        case Stopping => CloseLooks(k)
        case Waiting(_) => CloseWaited(k)
        case _ => CloseReturns(k);
      NoneRunning(s);
      Extend(steps, step);
      assert Next(s, step).Some? && Next(s, step).value.conns == s.conns;
      var rest := WalkOut(steps + [step], k);
      more := [step] + rest;
      assert steps + more == steps + [step] + rest;
    }
  }

  /** From every state a run can reach, every call of `close` that has begun can return by
      the server's own moves, with no connection dropped and none accepted for it. */
  lemma CloseCanReturn(steps: seq<Step>, k: CloserId) returns (more: seq<Step>)
    requires Run(steps).Some? && k in Run(steps).value.closers
    ensures AllOwn(more) && Run(steps + more).Some?
    ensures var s := Run(steps + more).value; k in s.closers && s.closers[k] == Returned
  {
    var drain := FinishAll(steps);
    var leave := WalkOut(steps + drain, k);
    more := drain + leave;
    assert steps + more == steps + drain + leave;
  }
}
