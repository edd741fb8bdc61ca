/** Concurrent firmware requests as steps between awaits
    (ori/firmware_mqtt_operator.py:109-114, 134-247). */
module FirmwareRequests {
  import opened Options
  import opened FirmwareCorrelations

  /** What a request asks for: a row of its own, an install from a create_csr, or the
      verification of a response. */
  datatype Job = Create(kind: Kind) | PrepareInstall(parent: string) | VerifyResponse(id: string, kind: Kind)

  /** Where a handler is: waiting for the lock, past it, holding a row it loaded, with a
      write at the store, or on its way out of the lock. */
  datatype Stage = Queued | Entered | Loaded | Writing(write: Write) | Leaving | Gone

  datatype Task = Task(job: Job, stage: Stage)

  datatype State = State(tasks: map<nat, Task>, lock: Option<nat>, log: Log)

  datatype Step =
    | Arrive(task: nat, job: Job)
    | Enter(task: nat)
    | Load(task: nat)
    | Issue(task: nat, id: string)
    | Enroll(task: nat, id: string)
    | Settle(task: nat)
    | Commit(task: nat)
    | Fail(task: nat)
    | Leave(task: nat)

  predicate Served(job: Job) {
    (job.Create? || job.VerifyResponse?) ==> job.kind != (if job.Create? then Install else CreateCsr)
  }

  function Correlation(job: Job): string
    requires !job.Create?
  {
    if job.PrepareInstall? then job.parent else job.id
  }

  function ExpectedKind(job: Job): Kind
    requires !job.Create?
  {
    if job.PrepareInstall? then CreateCsr else job.kind
  }

  predicate At(s: State, t: nat, stage: Stage) {
    t in s.tasks && s.tasks[t].stage == stage
  }

  function Move(s: State, t: nat, stage: Stage): State
    requires t in s.tasks
  {
    s.(tasks := s.tasks[t := s.tasks[t].(stage := stage)])
  }

  /** One step of one request; `locked` says whether handlers run under the lock. */
  function Next(locked: bool, s: State, step: Step): Option<State> {
    var t := step.task;
    match step
    case Arrive(_, job) =>
      if t !in s.tasks && Served(job) then Some(s.(tasks := s.tasks[t := Task(job, Queued)])) else None
    case Enter(_) =>
      if At(s, t, Queued) && (locked ==> s.lock == None) then Some(Move(s.(lock := Some(t)), t, Entered)) else None
    case Load(_) =>
      if At(s, t, Entered) && !s.tasks[t].job.Create? then
        var id := Correlation(s.tasks[t].job);
        if Loadable(s.log, id, ExpectedKind(s.tasks[t].job))
        then Some(Move(s.(log := s.log + [Used(id)]), t, Loaded))
        else Some(Move(s, t, Leaving))
      else None
    case Issue(_, id) =>
      if At(s, t, Entered) && s.tasks[t].job.Create?
      then Some(Move(s, t, Writing(SaveRow(id, s.tasks[t].job.kind)))) else None
    case Enroll(_, id) =>
      if At(s, t, Loaded) && s.tasks[t].job.PrepareInstall?
      then Some(Move(s, t, Writing(SaveChild(id, s.tasks[t].job.parent)))) else None
    case Settle(_) =>
      if At(s, t, Loaded) && !s.tasks[t].job.Create?
      then Some(Move(s, t, Writing(Complete(Correlation(s.tasks[t].job))))) else None
    case Commit(_) =>
      if t in s.tasks && s.tasks[t].stage.Writing? && Accepted(s.log, s.tasks[t].stage.write)
      then Some(Move(s.(log := s.log + Acts(s.tasks[t].stage.write)), t, Leaving)) else None
    case Fail(_) =>
      if At(s, t, Queued) then Some(Move(s, t, Gone))
      else if t in s.tasks && Inside(s.tasks[t].stage) then Some(Move(s, t, Leaving))
      else None
    case Leave(_) =>
      if At(s, t, Leaving) then Some(Move(s.(lock := None), t, Gone)) else None
  }

  predicate Inside(stage: Stage) {
    stage.Entered? || stage.Loaded? || stage.Writing? || stage.Leaving?
  }

  const START := State(map[], None, [])

  function Run(locked: bool, s: State, steps: seq<Step>): Option<State>
    decreases |steps|
  {
    if steps == [] then Some(s)
    else
      match Next(locked, s, steps[0])
      case None => None
      case Some(next) => Run(locked, next, steps[1..])
  }

  // ----- Under the lock -----

  /** What holds for a task: only the lock's holder is past it, and what it loaded or is
      about to write is still due. */
  ghost predicate TaskInv(s: State, t: nat)
    requires t in s.tasks
  {
    var task := s.tasks[t];
    && Served(task.job)
    && (Inside(task.stage) ==> s.lock == Some(t))
    && (task.stage.Loaded? ==>
          !task.job.Create? && Loadable(s.log, Correlation(task.job), ExpectedKind(task.job)))
    && (task.stage.Writing? ==> Due(s.log, task.stage.write))
  }

  ghost predicate Inv(s: State) {
    Sound(s.log) && forall t :: t in s.tasks ==> TaskInv(s, t)
  }

  lemma NextKeeps(s: State, step: Step)
    requires Inv(s) && Next(true, s, step).Some?
    ensures Inv(Next(true, s, step).value)
  {
    var s' := Next(true, s, step).value;
    NextSound(s, step);
    assert step.task in s.tasks ==> TaskInv(s, step.task);
    forall t | t in s'.tasks ensures TaskInv(s', t) {
      if t == step.task {
        StepperInv(s, step);
      } else {
        assert TaskInv(s, t);
        BystanderInv(s, step, t);
      }
    }
  }

  lemma NextSound(s: State, step: Step)
    requires Inv(s) && Next(true, s, step).Some?
    ensures Sound(Next(true, s, step).value.log)
  {
    var t := step.task;
    assert t in s.tasks ==> TaskInv(s, t);
    hide Sound, Due, Exists, Known;
    if step.Load? && Loadable(s.log, Correlation(s.tasks[t].job), ExpectedKind(s.tasks[t].job)) {
      UseKeeps(s.log, Correlation(s.tasks[t].job));
    } else if step.Commit? {
      WriteKeeps(s.log, s.tasks[t].stage.write);
    }
  }

  lemma StepperInv(s: State, step: Step)
    requires Inv(s) && Next(true, s, step).Some?
    ensures TaskInv(Next(true, s, step).value, step.task)
  {
    var t := step.task;
    assert t in s.tasks ==> TaskInv(s, t);
    hide Sound, Exists, Known;
    if step.Load? {
      var id, kind := Correlation(s.tasks[t].job), ExpectedKind(s.tasks[t].job);
      if Loadable(s.log, id, kind) {
        ExistsMore(s.log, [Used(id)], id, kind);
      }
    }
  }

  /** Only the holder is past the lock, so a step of another task finds it outside. */
  lemma BystanderInv(s: State, step: Step, t: nat)
    requires Inv(s) && Next(true, s, step).Some? && t in s.tasks && t != step.task
    ensures var s' := Next(true, s, step).value; t in s'.tasks && TaskInv(s', t)
  {
    assert TaskInv(s, t);
    assert step.task in s.tasks ==> TaskInv(s, step.task);
    hide Sound, Due, Loadable, Accepted;
  }

  lemma {:induction false} RunKeeps(s: State, steps: seq<Step>)
    requires Inv(s) && Run(true, s, steps).Some?
    ensures Inv(Run(true, s, steps).value)
    decreases |steps|
  {
    if steps != [] {
      hide Inv, Next;
      NextKeeps(s, steps[0]);
      RunKeeps(Next(true, s, steps[0]).value, steps[1..]);
    }
  }

  /** In every run of concurrent requests a create_csr has at most one install, which is
      saved with its completion; nothing is completed twice or used once completed; and
      every install's parent is a completed create_csr. */
  lemma CorrelationsAreSingleUse(steps: seq<Step>)
    requires Run(true, START, steps).Some?
    ensures Sound(Run(true, START, steps).value.log)
  {
    RunKeeps(START, steps);
  }

  /** And no two requests are ever past the lock together. */
  lemma OneAtATime(steps: seq<Step>, a: nat, b: nat)
    requires Run(true, START, steps).Some?
    requires var s := Run(true, START, steps).value;
             a in s.tasks && b in s.tasks && Inside(s.tasks[a].stage) && Inside(s.tasks[b].stage)
    ensures a == b
  {
    RunKeeps(START, steps);
    var s := Run(true, START, steps).value;
    assert TaskInv(s, a) && TaskInv(s, b);
  }

  // ----- What a request leaves behind -----

  lemma RunFirst(locked: bool, s: State, step: Step, rest: seq<Step>)
    requires Next(locked, s, step).Some?
    ensures Run(locked, s, [step] + rest) == Run(locked, Next(locked, s, step).value, rest)
  {
    hide Next;
    assert ([step] + rest)[1..] == rest;
  }

  /** The state with task `t` at a stage, and the lock and log given. */
  function Put(s: State, t: nat, job: Job, stage: Stage, lock: Option<nat>, log: Log): State {
    State(s.tasks[t := Task(job, stage)], lock, log)
  }

  lemma PutMove(s: State, t: nat, job: Job, stage: Stage, lock: Option<nat>, log: Log, to: Stage)
    ensures var at := Put(s, t, job, stage, lock, log);
            At(at, t, stage) && Move(at, t, to) == Put(s, t, job, to, lock, log)
  {
    assert s.tasks[t := Task(job, stage)][t := Task(job, to)] == s.tasks[t := Task(job, to)];
  }

  /** A request comes to a free lock and enters. */
  lemma Begins(s: State, t: nat, job: Job, rest: seq<Step>)
    requires t !in s.tasks && s.lock == None && Served(job)
    ensures Run(true, s, [Arrive(t, job)] + ([Enter(t)] + rest))
            == Run(true, Put(s, t, job, Entered, Some(t), s.log), rest)
  {
    var s1 := Put(s, t, job, Queued, None, s.log);
    assert Next(true, s, Arrive(t, job)) == Some(s1);
    PutMove(s, t, job, Queued, Some(t), s.log, Entered);
    assert Next(true, s1, Enter(t)) == Some(Put(s, t, job, Entered, Some(t), s.log));
    hide Next, Run;
    RunFirst(true, s1, Enter(t), rest);
    RunFirst(true, s, Arrive(t, job), [Enter(t)] + rest);
  }

  /** A write the store accepts is committed, and the lock given back. */
  lemma Ends(s: State, t: nat, job: Job, write: Write, log: Log)
    requires Accepted(log, write)
    ensures Run(true, Put(s, t, job, Writing(write), Some(t), log), [Commit(t)] + ([Leave(t)] + []))
            == Some(Put(s, t, job, Gone, None, log + Acts(write)))
  {
    var s1, s2 := Put(s, t, job, Writing(write), Some(t), log), Put(s, t, job, Leaving, Some(t), log + Acts(write));
    var s3 := Put(s, t, job, Gone, None, log + Acts(write));
    PutMove(s, t, job, Writing(write), Some(t), log + Acts(write), Leaving);
    PutMove(s, t, job, Leaving, None, log + Acts(write), Gone);
    hide Accepted, Acts;
    assert Next(true, s1, Commit(t)) == Some(s2);
    assert Next(true, s2, Leave(t)) == Some(s3);
    assert Run(true, s3, []) == Some(s3);
    hide Next, Run;
    RunFirst(true, s2, Leave(t), []);
    RunFirst(true, s1, Commit(t), [Leave(t)] + []);
  }

  /** Loading goes ahead exactly when the correlation may be used. */
  lemma Loads(s: State, t: nat, job: Job, rest: seq<Step>)
    requires !job.Create?
    ensures var id := Correlation(job);
            Run(true, Put(s, t, job, Entered, Some(t), s.log), [Load(t)] + rest)
            == Run(true, if Loadable(s.log, id, ExpectedKind(job))
                         then Put(s, t, job, Loaded, Some(t), s.log + [Used(id)])
                         else Put(s, t, job, Leaving, Some(t), s.log), rest)
  {
    var s1 := Put(s, t, job, Entered, Some(t), s.log);
    PutMove(s, t, job, Entered, Some(t), s.log + [Used(Correlation(job))], Loaded);
    PutMove(s, t, job, Entered, Some(t), s.log, Leaving);
    hide Loadable, Run;
    RunFirst(true, s1, Load(t), rest);
  }

  /** A request of its own under a new correlation can go through whenever the lock is free,
      from any state: it leaves its row in the log. */
  lemma CreateServed(s: State, t: nat, kind: Kind, id: string)
    requires t !in s.tasks && s.lock == None && kind != Install && !Known(s.log, id)
    ensures var job := Create(kind);
            Run(true, s, [Arrive(t, job)] + ([Enter(t)] + ([Issue(t, id)] + ([Commit(t)] + ([Leave(t)] + [])))))
            == Some(Put(s, t, job, Gone, None, s.log + [Saved(Row(id, None, kind))]))
  {
    var job, write := Create(kind), SaveRow(id, kind);
    Begins(s, t, job, [Issue(t, id)] + ([Commit(t)] + ([Leave(t)] + [])));
    PutMove(s, t, job, Entered, Some(t), s.log, Writing(write));
    hide Known;
    assert Next(true, Put(s, t, job, Entered, Some(t), s.log), Issue(t, id))
           == Some(Put(s, t, job, Writing(write), Some(t), s.log));
    hide Next, Run;
    RunFirst(true, Put(s, t, job, Entered, Some(t), s.log), Issue(t, id), [Commit(t)] + ([Leave(t)] + []));
    Ends(s, t, job, write, s.log);
  }

  /** So can an install from an open create_csr: it leaves its use, its row and its parent's
      completion. */
  lemma InstallServed(s: State, t: nat, parent: string, id: string)
    requires t !in s.tasks && s.lock == None && Loadable(s.log, parent, CreateCsr) && !Known(s.log, id)
    ensures var job := PrepareInstall(parent);
            Run(true, s, [Arrive(t, job)]
                         + ([Enter(t)] + ([Load(t)] + ([Enroll(t, id)] + ([Commit(t)] + ([Leave(t)] + []))))))
            == Some(Put(s, t, job, Gone, None,
                        s.log + [Used(parent)] + [Saved(Row(id, Some(parent), Install)), Completed(parent)]))
  {
    var job, log, write := PrepareInstall(parent), s.log + [Used(parent)], SaveChild(id, parent);
    Begins(s, t, job, [Load(t)] + ([Enroll(t, id)] + ([Commit(t)] + ([Leave(t)] + []))));
    Loads(s, t, job, [Enroll(t, id)] + ([Commit(t)] + ([Leave(t)] + [])));
    PutMove(s, t, job, Loaded, Some(t), log, Writing(write));
    UsedKnows(s.log, parent, id, CreateCsr);
    hide Known, Loadable;
    assert Next(true, Put(s, t, job, Loaded, Some(t), log), Enroll(t, id))
           == Some(Put(s, t, job, Writing(write), Some(t), log));
    hide Next, Run;
    RunFirst(true, Put(s, t, job, Loaded, Some(t), log), Enroll(t, id), [Commit(t)] + ([Leave(t)] + []));
    Ends(s, t, job, write, log);
  }

  /** And the settling of a request by a response, checked, or refused in answer to a
      create_csr: it leaves its use and its completion. */
  lemma ResponseServed(s: State, t: nat, job: Job)
    requires t !in s.tasks && s.lock == None && Served(job) && !job.Create?
    requires Loadable(s.log, Correlation(job), ExpectedKind(job))
    ensures var id := Correlation(job);
            Run(true, s, [Arrive(t, job)]
                         + ([Enter(t)] + ([Load(t)] + ([Settle(t)] + ([Commit(t)] + ([Leave(t)] + []))))))
            == Some(Put(s, t, job, Gone, None, s.log + [Used(id)] + [Completed(id)]))
  {
    var id := Correlation(job);
    var log, write := s.log + [Used(id)], Complete(id);
    Begins(s, t, job, [Load(t)] + ([Settle(t)] + ([Commit(t)] + ([Leave(t)] + []))));
    Loads(s, t, job, [Settle(t)] + ([Commit(t)] + ([Leave(t)] + [])));
    PutMove(s, t, job, Loaded, Some(t), log, Writing(write));
    hide Loadable;
    assert Next(true, Put(s, t, job, Loaded, Some(t), log), Settle(t))
           == Some(Put(s, t, job, Writing(write), Some(t), log));
    hide Next, Run;
    RunFirst(true, Put(s, t, job, Loaded, Some(t), log), Settle(t), [Commit(t)] + ([Leave(t)] + []));
    Ends(s, t, job, write, log);
  }

  /** Whoever holds the lock can fail where it stands and give it back, recording nothing. */
  lemma LockComesBack(s: State, t: nat)
    requires t in s.tasks && Inside(s.tasks[t].stage)
    ensures Run(true, s, [Fail(t)] + ([Leave(t)] + [])) == Some(Put(s, t, s.tasks[t].job, Gone, None, s.log))
  {
    var job := s.tasks[t].job;
    var s1, s2 := Put(s, t, job, Leaving, s.lock, s.log), Put(s, t, job, Gone, None, s.log);
    assert Next(true, s, Fail(t)) == Some(s1);
    PutMove(s, t, job, Leaving, None, s.log, Gone);
    assert Next(true, s1, Leave(t)) == Some(s2);
    assert Run(true, s2, []) == Some(s2);
    hide Next, Run;
    RunFirst(true, s1, Leave(t), []);
    RunFirst(true, s, Fail(t), [Leave(t)] + []);
  }

  // ----- Without it -----

  /** Two requests to install from one create_csr that has been made, at stages `a` and `b`. */
  function Two(parent: string, a: Stage, b: Stage, lock: Option<nat>, log: Log): State {
    var job := PrepareInstall(parent);
    State(map[0 := Task(Create(CreateCsr), Gone), 1 := Task(job, a), 2 := Task(job, b)], lock, log)
  }

  function Made(parent: string): Log {
    [Saved(Row(parent, None, CreateCsr))]
  }

  lemma TwoMove(parent: string, a: Stage, b: Stage, lock: Option<nat>, log: Log, to: Stage)
    ensures var s := Two(parent, a, b, lock, log);
            && At(s, 1, a) && At(s, 2, b)
            && Move(s, 1, to) == Two(parent, to, b, lock, log) && Move(s, 2, to) == Two(parent, a, to, lock, log)
  {
  }

  /** The request that made it, at stage `a` and alone. */
  function One(a: Stage, lock: Option<nat>, log: Log): State {
    State(map[0 := Task(Create(CreateCsr), a)], lock, log)
  }

  lemma OneMove(a: Stage, lock: Option<nat>, log: Log, to: Stage)
    ensures At(One(a, lock, log), 0, a) && Move(One(a, lock, log), 0, to) == One(to, lock, log)
  {
  }

  lemma CsrBegins(parent: string)
    ensures Next(false, START, Arrive(0, Create(CreateCsr))) == Some(One(Queued, None, []))
    ensures Next(false, One(Queued, None, []), Enter(0)) == Some(One(Entered, Some(0), []))
    ensures Next(false, One(Entered, Some(0), []), Issue(0, parent))
            == Some(One(Writing(SaveRow(parent, CreateCsr)), Some(0), []))
  {
    OneMove(Queued, Some(0), [], Entered);
    OneMove(Entered, Some(0), [], Writing(SaveRow(parent, CreateCsr)));
  }

  lemma CsrEnds(parent: string)
    ensures Next(false, One(Writing(SaveRow(parent, CreateCsr)), Some(0), []), Commit(0))
            == Some(One(Leaving, Some(0), Made(parent)))
    ensures Next(false, One(Leaving, Some(0), Made(parent)), Leave(0)) == Some(One(Gone, None, Made(parent)))
  {
    OneMove(Writing(SaveRow(parent, CreateCsr)), Some(0), Made(parent), Leaving);
    OneMove(Leaving, None, Made(parent), Gone);
    assert [] + Acts(SaveRow(parent, CreateCsr)) == Made(parent);
  }

  /** A create_csr from the start: one request, alone. */
  lemma CsrMade(parent: string, rest: seq<Step>)
    ensures Run(false, START, [Arrive(0, Create(CreateCsr))]
                              + ([Enter(0)] + ([Issue(0, parent)] + ([Commit(0)] + ([Leave(0)] + rest)))))
            == Run(false, One(Gone, None, Made(parent)), rest)
  {
    var job, write := Create(CreateCsr), SaveRow(parent, CreateCsr);
    var s1, s2, s3 := One(Queued, None, []), One(Entered, Some(0), []), One(Writing(write), Some(0), []);
    var s4 := One(Leaving, Some(0), Made(parent));
    CsrBegins(parent);
    CsrEnds(parent);
    hide Next, Run;
    RunFirst(false, s4, Leave(0), rest);
    RunFirst(false, s3, Commit(0), [Leave(0)] + rest);
    RunFirst(false, s2, Issue(0, parent), [Commit(0)] + ([Leave(0)] + rest));
    RunFirst(false, s1, Enter(0), [Issue(0, parent)] + ([Commit(0)] + ([Leave(0)] + rest)));
    RunFirst(false, START, Arrive(0, job), [Enter(0)] + ([Issue(0, parent)] + ([Commit(0)] + ([Leave(0)] + rest))));
  }

  lemma BothEnter(parent: string, rest: seq<Step>)
    ensures var job := PrepareInstall(parent);
            Run(false, One(Gone, None, Made(parent)),
                [Arrive(1, job)] + ([Arrive(2, job)] + ([Enter(1)] + ([Enter(2)] + rest))))
            == Run(false, Two(parent, Entered, Entered, Some(2), Made(parent)), rest)
  {
    var done, job, log := Task(Create(CreateCsr), Gone), PrepareInstall(parent), Made(parent);
    var s0 := One(Gone, None, log);
    var s1 := State(map[0 := done, 1 := Task(job, Queued)], None, log);
    var s2 := Two(parent, Queued, Queued, None, log);
    var s3 := Two(parent, Entered, Queued, Some(1), log);
    var s4 := Two(parent, Entered, Entered, Some(2), log);
    assert Next(false, s0, Arrive(1, job)) == Some(s1);
    assert Next(false, s1, Arrive(2, job)) == Some(s2);
    TwoMove(parent, Queued, Queued, Some(1), log, Entered);
    assert Next(false, s2, Enter(1)) == Some(s3);
    TwoMove(parent, Entered, Queued, Some(2), log, Entered);
    assert Next(false, s3, Enter(2)) == Some(s4);
    hide Next, Run;
    RunFirst(false, s3, Enter(2), rest);
    RunFirst(false, s2, Enter(1), [Enter(2)] + rest);
    RunFirst(false, s1, Arrive(2, job), [Enter(1)] + ([Enter(2)] + rest));
    RunFirst(false, s0, Arrive(1, job), [Arrive(2, job)] + ([Enter(1)] + ([Enter(2)] + rest)));
  }

  lemma BothLoad(parent: string, log: Log, rest: seq<Step>)
    requires Loadable(log, parent, CreateCsr)
    ensures Run(false, Two(parent, Entered, Entered, Some(2), log), [Load(1)] + ([Load(2)] + rest))
            == Run(false, Two(parent, Loaded, Loaded, Some(2), log + [Used(parent)] + [Used(parent)]), rest)
  {
    var log1 := log + [Used(parent)];
    ExistsMore(log, [Used(parent)], parent, CreateCsr);
    TwoMove(parent, Entered, Entered, Some(2), log1, Loaded);
    TwoMove(parent, Loaded, Entered, Some(2), log1 + [Used(parent)], Loaded);
    hide Exists;
    var s := Two(parent, Entered, Entered, Some(2), log);
    var s1 := Two(parent, Loaded, Entered, Some(2), log1);
    assert Next(false, s, Load(1)) == Some(s1);
    assert Next(false, s1, Load(2)) == Some(Two(parent, Loaded, Loaded, Some(2), log1 + [Used(parent)]));
    RunFirst(false, s1, Load(2), rest);
    RunFirst(false, s, Load(1), [Load(2)] + rest);
  }

  lemma BothEnroll(parent: string, log: Log, one: string, two: string)
    ensures Run(false, Two(parent, Loaded, Loaded, Some(2), log), [Enroll(1, one)] + ([Enroll(2, two)] + []))
            == Some(Two(parent, Writing(SaveChild(one, parent)), Writing(SaveChild(two, parent)), Some(2), log))
  {
    var w1, w2 := Writing(SaveChild(one, parent)), Writing(SaveChild(two, parent));
    TwoMove(parent, Loaded, Loaded, Some(2), log, w1);
    TwoMove(parent, w1, Loaded, Some(2), log, w2);
    var s := Two(parent, Loaded, Loaded, Some(2), log);
    var s1 := Two(parent, w1, Loaded, Some(2), log);
    assert Next(false, s, Enroll(1, one)) == Some(s1);
    assert Next(false, s1, Enroll(2, two)) == Some(Two(parent, w1, w2, Some(2), log));
    RunFirst(false, s1, Enroll(2, two), []);
    RunFirst(false, s, Enroll(1, one), [Enroll(2, two)] + []);
  }

  /** Handlers that do not take the lock can sign two installs for one create_csr: in a run
      from the start, both load it before either completes it, and both come to hold a
      signed install to write.  Under the lock no two requests hold anything at once
      (`OneAtATime`). */
  lemma WithoutTheLock(parent: string, one: string, two: string) returns (steps: seq<Step>)
    ensures Run(false, START, steps).Some?
    ensures var s := Run(false, START, steps).value;
            && 1 in s.tasks && s.tasks[1] == Task(PrepareInstall(parent), Writing(SaveChild(one, parent)))
            && 2 in s.tasks && s.tasks[2] == Task(PrepareInstall(parent), Writing(SaveChild(two, parent)))
  {
    var job, log := PrepareInstall(parent), Made(parent);
    var enrolls := [Enroll(1, one)] + ([Enroll(2, two)] + []);
    var loads := [Load(1)] + ([Load(2)] + enrolls);
    var enters := [Arrive(1, job)] + ([Arrive(2, job)] + ([Enter(1)] + ([Enter(2)] + loads)));
    steps := [Arrive(0, Create(CreateCsr))]
      + ([Enter(0)] + ([Issue(0, parent)] + ([Commit(0)] + ([Leave(0)] + enters))));
    assert log[0].Saved? && Exists(log, parent, CreateCsr) && Loadable(log, parent, CreateCsr);
    hide Next, Run, Loadable;
    CsrMade(parent, enters);
    BothEnter(parent, loads);
    BothLoad(parent, log, enrolls);
    BothEnroll(parent, log + [Used(parent)] + [Used(parent)], one, two);
  }
}
