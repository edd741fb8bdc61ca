/** The operator socket's in-flight and shutdown protocol
    (ori/operator_socket.py:882-1048, with the registry's one slot,
    ori/security/approvers/service.py:116-124).

    Everything runs on one event loop, so what lies between two awaits is one
    step, and steps can interleave in any order.  A connection may be dropped or
    cancelled at any of its awaits.  The server's own fields are kept apart, as
    `Fields`, from what the loop knows.
  */
module SocketProtocol {
  import opened Options

  type ConnId = nat
  type CloserId = nat

  /** The tasks the server creates for a connection's one request: an append; or
      a registry operation and the task that holds its slot. */
  datatype Task = Append(conn: ConnId) | Served(conn: ConnId) | Holder(conn: ConnId)

  /** `_closing`, `_appends` and the registry's `_in_flight`. */
  datatype Fields = Fields(closing: bool, appends: set<Task>, inFlight: bool)

  /** Where a handler is.  Handling is everything before the closing check; once
      Ended, its `answered` event is set. */
  datatype Progress = Handling | AwaitAppend | AwaitServed | Replying | Ended

  /** What a connection's request began.  The holder outlives the operation:
      it waits for it, then for `answered`, then releases the slot. */
  datatype Work = Nothing | Appending | Appended | Serving | ServedHeld | Released

  /** A direct caller of `answer` has no socket and passes no `answered` event. */
  datatype Conn = Conn(direct: bool, progress: Progress, work: Work, admits: nat, releases: nat)

  /** A call of `close`: waiting for the listener, for the tasks it saw, for the
      socket file's removal, returned. */
  datatype Closer = Stopping | Waiting(tasks: set<Task>) | Removing | Returned

  datatype State = State(fields: Fields, conns: map<ConnId, Conn>, closers: map<CloserId, Closer>)

  datatype Step =
    | Accept(c: ConnId, direct: bool)
    | Refuse(c: ConnId)
    | CheckAndAppend(c: ConnId)
    | CheckAndServe(c: ConnId)
    | Resume(c: ConnId)
    | Reply(c: ConnId)
    | Drop(c: ConnId)
    | FinishAppend(c: ConnId)
    | FinishServed(c: ConnId)
    | FinishHolder(c: ConnId)
    | Discard(t: Task)
    | CloseBegins(k: CloserId)
    | CloseLooks(k: CloserId)
    | CloseWaited(k: CloserId)
    | CloseReturns(k: CloserId)

  // ----- The server's atomic stretches -----

  /** From the closing check to the append being added: no await between. */
  function AfterAppendCheck(f: Fields, c: ConnId): Fields {
    if f.closing then f else f.(appends := f.appends + {Append(c)})
  }

  /** From try_admit to the two tasks being added: no await between. */
  function AfterServeCheck(f: Fields, c: ConnId): Fields {
    if f.inFlight || f.closing then f
    else f.(inFlight := true, appends := f.appends + {Served(c), Holder(c)})
  }

  // ----- One step -----

  predicate IsRunning(s: State, t: Task) {
    t.conn in s.conns &&
    match t
    case Append(c) => s.conns[c].work == Appending
    case Served(c) => s.conns[c].work == Serving
    case Holder(c) => Holds(s.conns[c])
  }

  predicate Holds(conn: Conn) {
    conn.work == Serving || conn.work == ServedHeld
  }

  /** The handler's next move, or None where it has none of that kind. */
  function ConnNext(f: Fields, conn: Conn, step: Step): Option<Conn> {
    match step
    case Refuse(_) =>
      // Malformed, unauthenticated, or a registry operation with no registry.
      if conn.progress == Handling then Some(conn.(progress := Replying)) else None
    case CheckAndAppend(_) =>
      if conn.progress != Handling then None
      else if f.closing then Some(conn.(progress := Replying))
      else Some(conn.(progress := AwaitAppend, work := Appending))
    case CheckAndServe(_) =>
      if conn.progress != Handling then None
      else if f.inFlight then Some(conn.(progress := Replying))
      else if f.closing then Some(conn.(progress := Replying, admits := conn.admits + 1, releases := conn.releases + 1))
      else Some(conn.(progress := AwaitServed, work := Serving, admits := conn.admits + 1))
    case Resume(_) =>
      if (conn.progress == AwaitAppend && conn.work != Appending)
         || (conn.progress == AwaitServed && conn.work != Serving)
      then Some(conn.(progress := Replying)) else None
    case Reply(_) =>
      // The answer is written, or could not be; the handler's `finally` runs.
      if conn.progress == Replying then Some(conn.(progress := Ended)) else None
    case Drop(_) =>
      // Cancelled, or its write raised, at any await.
      if conn.progress != Ended then Some(conn.(progress := Ended)) else None
    case FinishAppend(_) =>
      if conn.work == Appending then Some(conn.(work := Appended)) else None
    case FinishServed(_) =>
      // With an answer or an exception: the holder suppresses either.
      if conn.work == Serving then Some(conn.(work := ServedHeld)) else None
    case FinishHolder(_) =>
      if conn.work == ServedHeld && (conn.direct || conn.progress == Ended)
      then Some(conn.(work := Released, releases := conn.releases + 1)) else None
    case _ => None
  }

  /** What the same move does to the server's fields. */
  function FieldsNext(f: Fields, step: Step): Fields {
    match step
    case CheckAndAppend(c) => AfterAppendCheck(f, c)
    case CheckAndServe(c) => AfterServeCheck(f, c)
    case FinishHolder(_) => f.(inFlight := false)
    case _ => f
  }

  predicate OfConn(step: Step) {
    !(step.Accept? || step.Discard? || OfCloser(step))
  }

  predicate OfCloser(step: Step) {
    step.CloseBegins? || step.CloseLooks? || step.CloseWaited? || step.CloseReturns?
  }

  function CloserNext(s: State, step: Step): Option<Closer>
    requires OfCloser(step)
  {
    if step.k !in s.closers then if step.CloseBegins? then Some(Stopping) else None
    else
      match (step, s.closers[step.k])
      case (CloseLooks(_), Stopping) =>
        Some(if s.fields.appends == {} then Removing else Waiting(s.fields.appends))
      case (CloseWaited(_), Waiting(tasks)) =>
        if forall t :: t in tasks ==> !IsRunning(s, t) then Some(Removing) else None
      case (CloseReturns(_), Removing) => Some(Returned)
      case _ => None
  }

  /** The state after `step`, or None where it cannot happen. */
  function Next(s: State, step: Step): Option<State> {
    if step.Accept? then
      if step.c in s.conns then None
      else Some(s.(conns := s.conns[step.c := Conn(step.direct, Handling, Nothing, 0, 0)]))
    else if step.Discard? then
      if step.t in s.fields.appends && !IsRunning(s, step.t)
      then Some(s.(fields := s.fields.(appends := s.fields.appends - {step.t}))) else None
    else if OfCloser(step) then
      var closer := CloserNext(s, step);
      if closer.None? then None
      else Some(s.(closers := s.closers[step.k := closer.value],
                   fields := if step.CloseBegins? then s.fields.(closing := true) else s.fields))
    else if step.c !in s.conns then None
    else
      var conn := ConnNext(s.fields, s.conns[step.c], step);
      if conn.None? then None
      else Some(s.(conns := s.conns[step.c := conn.value], fields := FieldsNext(s.fields, step)))
  }

  const INITIAL: State := State(Fields(false, {}, false), map[], map[])

  /** The state a run of steps leads to, if each could happen in turn. */
  function Run(steps: seq<Step>): Option<State> {
    if steps == [] then Some(INITIAL)
    else
      var before := Run(steps[..|steps| - 1]);
      if before.None? then None else Next(before.value, steps[|steps| - 1])
  }

  // ----- What holds in every state of every run -----

  /** A connection's work and its account of the slot agree. */
  predicate ConnInv(conn: Conn) {
    && (conn.progress == Handling ==> conn.work == Nothing && conn.admits == 0)
    && conn.admits <= 1
    && conn.admits == conn.releases + (if Holds(conn) then 1 else 0)
    && (conn.work == Released ==> conn.direct || conn.progress == Ended)
    && (conn.progress == AwaitAppend ==> conn.work == Appending || conn.work == Appended)
    && (conn.progress == AwaitServed ==> conn.work == Serving || conn.work == ServedHeld || conn.work == Released)
  }

  ghost predicate ConnsInv(s: State) {
    forall c :: c in s.conns ==> ConnInv(s.conns[c])
  }

  /** Every task still running is in `_appends`, where `close` will find it. */
  ghost predicate Tracked(s: State) {
    forall t :: IsRunning(s, t) ==> t in s.fields.appends
  }

  /** The slot is taken exactly while one connection holds it. */
  ghost predicate SlotHeld(s: State) {
    && (forall c :: c in s.conns && Holds(s.conns[c]) ==> s.fields.inFlight)
    && (s.fields.inFlight ==> exists c :: c in s.conns && Holds(s.conns[c]))
    && (forall c, d :: c in s.conns && d in s.conns && Holds(s.conns[c]) && Holds(s.conns[d]) ==> c == d)
  }

  /** A closer waits for everything running; past the wait nothing runs. */
  ghost predicate Draining(s: State) {
    forall k :: k in s.closers ==>
      && s.fields.closing
      && (s.closers[k].Waiting? ==> forall t :: IsRunning(s, t) ==> t in s.closers[k].tasks)
      && (s.closers[k].Removing? || s.closers[k].Returned? ==> forall t :: !IsRunning(s, t))
  }

  ghost predicate Inv(s: State) {
    ConnsInv(s) && Tracked(s) && SlotHeld(s) && Draining(s)
  }

  lemma ConnStepInv(f: Fields, conn: Conn, step: Step)
    requires ConnInv(conn) && ConnNext(f, conn, step).Some?
    ensures ConnInv(ConnNext(f, conn, step).value)
  {
  }

  /** What a connection's step can do to its own tasks and to the fields. */
  lemma ConnStepTasks(s: State, step: Step, t: Task)
    requires OfConn(step) && Next(s, step).Some?
    ensures var s' := Next(s, step).value;
            && s'.closers == s.closers && s'.fields.closing == s.fields.closing
            && s.fields.appends <= s'.fields.appends
            && (IsRunning(s', t) && !IsRunning(s, t) ==> !s.fields.closing && t in s'.fields.appends)
  {
  }

  /** A handler's step takes the slot when it was free, gives it back, or leaves it. */
  lemma ConnStepHolds(f: Fields, conn: Conn, step: Step)
    requires ConnInv(conn) && OfConn(step) && ConnNext(f, conn, step).Some?
    ensures var held, holds, f' := Holds(conn), Holds(ConnNext(f, conn, step).value), FieldsNext(f, step);
            && (!held && holds ==> !f.inFlight && f'.inFlight)
            && (held && !holds ==> !f'.inFlight)
            && (held == holds ==> f'.inFlight == f.inFlight)
  {
  }

  lemma ConnStepSlot(s: State, step: Step)
    requires OfConn(step) && Next(s, step).Some? && ConnsInv(s) && SlotHeld(s)
    ensures SlotHeld(Next(s, step).value)
  {
    var s' := Next(s, step).value;
    ConnStepHolds(s.fields, s.conns[step.c], step);
    OneConnSlot(s, s', step.c);
  }

  lemma OneConnSlot(s: State, s': State, c: ConnId)
    requires SlotHeld(s) && c in s.conns && c in s'.conns && s'.conns == s.conns[c := s'.conns[c]]
    requires !Holds(s.conns[c]) && Holds(s'.conns[c]) ==> !s.fields.inFlight && s'.fields.inFlight
    requires Holds(s.conns[c]) && !Holds(s'.conns[c]) ==> !s'.fields.inFlight
    requires Holds(s.conns[c]) == Holds(s'.conns[c]) ==> s'.fields.inFlight == s.fields.inFlight
    ensures SlotHeld(s')
  {
    hide Holds;
    assert forall d :: d != c && d in s'.conns ==> d in s.conns && s'.conns[d] == s.conns[d];
    if s'.fields.inFlight {
      if Holds(s'.conns[c]) {
      } else {
        var d :| d in s.conns && Holds(s.conns[d]);
        assert d in s'.conns && Holds(s'.conns[d]);
      }
    }
  }

  lemma ConnStepKeeps(s: State, step: Step)
    requires Inv(s) && OfConn(step) && Next(s, step).Some?
    ensures Inv(Next(s, step).value)
  {
    var s' := Next(s, step).value;
    ConnStepInv(s.fields, s.conns[step.c], step);
    ConnStepSlot(s, step);
    assert s'.conns == s.conns[step.c := s'.conns[step.c]];
    hide Next, ConnNext, IsRunning, SlotHeld, ConnInv;
    forall t ensures IsRunning(s', t) && !IsRunning(s, t) ==> !s.fields.closing && t in s'.fields.appends {
      ConnStepTasks(s, step, t);
    }
    ConnStepTasks(s, step, Append(0));
  }

  lemma CloserStepKeeps(s: State, step: Step)
    requires Inv(s) && OfCloser(step) && Next(s, step).Some?
    ensures Inv(Next(s, step).value)
  {
    var s' := Next(s, step).value;
    assert s'.conns == s.conns && s'.fields.appends == s.fields.appends && s'.fields.inFlight == s.fields.inFlight;
    assert forall t :: IsRunning(s', t) <==> IsRunning(s, t);
  }

  lemma OtherStepKeeps(s: State, step: Step)
    requires Inv(s) && (step.Accept? || step.Discard?) && Next(s, step).Some?
    ensures Inv(Next(s, step).value)
  {
    var s' := Next(s, step).value;
    hide Holds;
    assert forall t :: IsRunning(s', t) <==> IsRunning(s, t);
    assert forall c :: c in s.conns ==> c in s'.conns && s'.conns[c] == s.conns[c];
  }

  lemma StepKeeps(s: State, step: Step)
    requires Inv(s) && Next(s, step).Some?
    ensures Inv(Next(s, step).value)
  {
    hide Inv, Next;
    if OfConn(step) {
      ConnStepKeeps(s, step);
    } else if OfCloser(step) {
      CloserStepKeeps(s, step);
    } else {
      OtherStepKeeps(s, step);
    }
  }

  lemma {:induction false} RunInv(steps: seq<Step>)
    requires Run(steps).Some?
    ensures Inv(Run(steps).value)
  {
    hide Inv, Next;
    if steps == [] {
      InitialInv();
    } else {
      RunInv(steps[..|steps| - 1]);
      StepKeeps(Run(steps[..|steps| - 1]).value, steps[|steps| - 1]);
    }
  }

  lemma InitialInv()
    ensures Inv(INITIAL)
  {
  }

  // ----- The theorems -----

  /** Once a call of `close` has returned, no append, registry operation or slot
      holder is running, the slot is free, and whatever happens next none begins. */
  lemma NothingAfterClose(steps: seq<Step>, k: CloserId, later: seq<Step>)
    requires Run(steps).Some? && k in Run(steps).value.closers && Run(steps).value.closers[k] == Returned
    requires Run(steps + later).Some?
    ensures !Run(steps + later).value.fields.inFlight
    ensures forall t :: !IsRunning(Run(steps + later).value, t)
    decreases |later|
  {
    RunInv(steps + later);
    StaysReturned(steps, k, later);
    var s := Run(steps + later).value;
    assert forall t :: !IsRunning(s, t);
    if s.fields.inFlight {
      var c :| c in s.conns && Holds(s.conns[c]);
      assert IsRunning(s, Holder(c));
    }
  }

  lemma {:induction false} StaysReturned(steps: seq<Step>, k: CloserId, later: seq<Step>)
    requires Run(steps).Some? && k in Run(steps).value.closers && Run(steps).value.closers[k] == Returned
    requires Run(steps + later).Some?
    ensures k in Run(steps + later).value.closers && Run(steps + later).value.closers[k] == Returned
    decreases |later|
  {
    var all := steps + later;
    if later == [] {
      assert all == steps;
    } else {
      var before := later[..|later| - 1];
      assert all[..|all| - 1] == steps + before;
      StaysReturned(steps, k, before);
      ReturnedIsFinal(Run(steps + before).value, all[|all| - 1], k);
    }
  }

  lemma ReturnedIsFinal(s: State, step: Step, k: CloserId)
    requires Next(s, step).Some? && k in s.closers && s.closers[k] == Returned
    ensures k in Next(s, step).value.closers && Next(s, step).value.closers[k] == Returned
  {
  }

  /** After the closing flag is set no task begins, in any state. */
  lemma NoneBeginsWhileClosing(s: State, step: Step, t: Task)
    requires Next(s, step).Some? && s.fields.closing
    ensures IsRunning(Next(s, step).value, t) ==> IsRunning(s, t)
    ensures Next(s, step).value.fields.closing
  {
    if OfConn(step) {
      ConnStepTasks(s, step, t);
    }
  }

  /** What a request begins, exactly: an append unless the server is closing; a registry
      operation and its holder unless the server is closing or the slot is taken.  A slot
      admitted while closing is released in the same stretch. */
  lemma BegunExactly(s: State, c: ConnId)
    requires c in s.conns && s.conns[c].progress == Handling && s.conns[c].work == Nothing
    ensures var append := Next(s, CheckAndAppend(c));
            append.Some? && (IsRunning(append.value, Append(c)) <==> !s.fields.closing)
    ensures var serve := Next(s, CheckAndServe(c));
            && serve.Some?
            && (IsRunning(serve.value, Served(c)) <==> !s.fields.closing && !s.fields.inFlight)
            && (IsRunning(serve.value, Holder(c)) <==> !s.fields.closing && !s.fields.inFlight)
            && serve.value.conns[c].admits == s.conns[c].admits + (if s.fields.inFlight then 0 else 1)
            && serve.value.conns[c].releases
               == s.conns[c].releases + (if !s.fields.inFlight && s.fields.closing then 1 else 0)
  {
  }

  /** A connection can be dropped at any of its awaits, and what it began goes on. */
  lemma DroppedAnywhere(s: State, c: ConnId)
    ensures Next(s, Drop(c)).Some? <==> c in s.conns && s.conns[c].progress != Ended
    ensures Next(s, Drop(c)).Some? ==>
              Next(s, Drop(c)).value == s.(conns := s.conns[c := s.conns[c].(progress := Ended)])
  {
  }

  /** A begun task ends by its own completion alone: no step of a connection,
      its being dropped included, and no step of a closer ends one. */
  lemma OnlyItsOwnEnd(steps: seq<Step>, step: Step, t: Task)
    requires Run(steps).Some? && Next(Run(steps).value, step).Some?
    requires IsRunning(Run(steps).value, t) && !IsRunning(Next(Run(steps).value, step).value, t)
    ensures step == match t
                    case Append(c) => FinishAppend(c)
                    case Served(c) => FinishServed(c)
                    case Holder(c) => FinishHolder(c)
  {
    RunInv(steps);
    assert ConnInv(Run(steps).value.conns[t.conn]);
  }

  /** At most one registry operation is in flight, in every state of every run. */
  lemma OneInFlight(steps: seq<Step>, c: ConnId, d: ConnId)
    requires Run(steps).Some?
    requires IsRunning(Run(steps).value, Holder(c)) || IsRunning(Run(steps).value, Served(c))
    requires IsRunning(Run(steps).value, Holder(d)) || IsRunning(Run(steps).value, Served(d))
    ensures c == d && Run(steps).value.fields.inFlight
  {
    RunInv(steps);
  }

  /** The slot's account: an admission is released exactly once, or is the one
      still held; a begun operation's slot is released only once the operation
      has ended and its connection has been answered or has gone. */
  lemma EveryAdmissionReleasedOnce(steps: seq<Step>, c: ConnId)
    requires Run(steps).Some? && c in Run(steps).value.conns
    ensures var s := Run(steps).value; var conn := s.conns[c];
            && conn.admits <= 1
            && conn.admits == conn.releases + (if IsRunning(s, Holder(c)) then 1 else 0)
            && (conn.work == Released ==> conn.releases == 1 && (conn.direct || conn.progress == Ended))
            && (!s.fields.inFlight ==> conn.admits == conn.releases)
  {
    RunInv(steps);
    ReleasedCounts(steps, c);
  }

  lemma {:induction false} ReleasedCounts(steps: seq<Step>, c: ConnId)
    requires Run(steps).Some? && c in Run(steps).value.conns
    ensures Counted(Run(steps).value.conns[c])
  {
    hide Counted;
    if steps != [] {
      var before, last := steps[..|steps| - 1], steps[|steps| - 1];
      var s := Run(before).value;
      RunInv(before);
      if c in s.conns {
        ReleasedCounts(before, c);
        CountedKept(s, last, c);
      } else {
        NewlyCounted(s, last, c);
      }
    }
  }

  predicate Counted(conn: Conn) {
    conn.work in {Serving, ServedHeld, Released} ==> conn.admits == 1
  }

  lemma CountedKept(s: State, step: Step, c: ConnId)
    requires Inv(s) && Next(s, step).Some? && c in s.conns && Counted(s.conns[c])
    ensures c in Next(s, step).value.conns && Counted(Next(s, step).value.conns[c])
  {
    assert ConnInv(s.conns[c]);
  }

  lemma NewlyCounted(s: State, step: Step, c: ConnId)
    requires Next(s, step).Some? && c !in s.conns && c in Next(s, step).value.conns
    ensures Counted(Next(s, step).value.conns[c])
  {
  }

  // ----- Why no await may come between -----

  /** The append begun without looking at the flag again. */
  function BegunUnchecked(s: State, c: ConnId): State
    requires c in s.conns
  {
    s.(conns := s.conns[c := s.conns[c].(progress := AwaitAppend, work := Appending)],
       fields := s.fields.(appends := s.fields.appends + {Append(c)}))
  }

  /** Were there an await between the check and the append, a connection could
      pass the check, wait out a whole `close`, and then begin. */
  lemma AwaitBetweenWouldBreak()
    ensures Run([Accept(0, false)]).Some? && !Run([Accept(0, false)]).value.fields.closing
    ensures var late := Run([Accept(0, false), CloseBegins(0), CloseLooks(0), CloseReturns(0)]);
            && late.Some? && 0 in late.value.conns && late.value.conns[0].progress == Handling
            && late.value.closers == map[0 := Returned]
            && IsRunning(BegunUnchecked(late.value, 0), Append(0))
  {
    var s0 := [Accept(0, false)];
    var s1 := s0 + [CloseBegins(0)];
    var s2 := s1 + [CloseLooks(0)];
    var s3 := s2 + [CloseReturns(0)];
    assert s0[..0] == [] && s1[..1] == s0 && s2[..2] == s1 && s3[..3] == s2;
    assert s3 == [Accept(0, false), CloseBegins(0), CloseLooks(0), CloseReturns(0)];
    assert Run(s0) == Some(State(Fields(false, {}, false), map[0 := Conn(false, Handling, Nothing, 0, 0)], map[]));
    assert Run(s1).value.closers == map[0 := Stopping];
    assert Run(s2).value.closers == map[0 := Removing];
  }
}
