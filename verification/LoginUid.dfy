/** Reading the audit login user ID of a socket peer (ori/operator_socket.py:469-507).

    The value is read by number, from /proc/<pid>/loginuid, and the number can
    come to mean another process between any two lines.  The model interleaves
    the reader's lines with processes starting, being reaped and having their
    numbers reused, in every order.
  */
module LoginUid {
  import opened Options
  import opened Text

  const UNSET_LOGIN_UID: nat := 4294967295

  // ----- Processes -----

  type ProcessId = nat

  /** A process keeps its number until it is reaped, and is never un-reaped. */
  datatype Process = Process(pid: int, login: string, reaped: bool)

  type Processes = map<ProcessId, Process>

  predicate Names(ps: Processes, pid: int, id: ProcessId) {
    id in ps && !ps[id].reaped && ps[id].pid == pid
  }

  datatype OsStep =
    | Start(id: ProcessId, pid: int, login: string)
    | Reap(id: ProcessId)
    | SetLogin(id: ProcessId, login: string)

  ghost predicate OsNext(ps: Processes, ps': Processes, step: OsStep) {
    match step
    case Start(id, pid, login) =>
      && id !in ps && (forall other :: !Names(ps, pid, other))
      && ps' == ps[id := Process(pid, login, false)]
    case Reap(id) =>
      && id in ps && !ps[id].reaped
      && ps' == ps[id := ps[id].(reaped := true)]
    case SetLogin(id, login) =>
      && id in ps && !ps[id].reaped
      && ps' == ps[id := ps[id].(login := login)]
  }

  // ----- The reader -----

  /** What the text says: a decimal user ID, unless it is the kernel's "unset". */
  function ParseLoginUid(text: string): Option<nat> {
    var value := Strip(text);
    if !IsDecimal(value) then None
    else if Decimal(value) == UNSET_LOGIN_UID then None
    else Some(Decimal(value))
  }

  /** The decimal text of a user ID, white space around it or not, reads as that user ID,
      and the kernel's "unset" reads as none. */
  lemma ParseReads(left: string, n: nat, right: string)
    requires forall k :: 0 <= k < |left| ==> IsSpace(left[k])
    requires forall k :: 0 <= k < |right| ==> IsSpace(right[k])
    ensures ParseLoginUid(left + DecimalText(n) + right) == if n == 4294967295 then None else Some(n)
  {
    var s := DecimalText(n);
    DigitsAreInk(s);
    hide IsSpace, Strip, DecimalText, Decimal;
    StripAround(left, s, right);
    DecimalReads(n);
  }

  lemma DigitsAreInk(s: string)
    requires IsDecimal(s)
    ensures !IsSpace(s[0]) && !IsSpace(s[|s| - 1])
  {
  }

  /** Where the reader is: the pidfd opened, the first check passed, the text
      read, or returned. */
  datatype Progress = Opened | Checked | HasText(text: string) | Returned(login: Option<nat>)

  datatype State = State(ps: Processes, progress: Progress)

  /** The reader of one connection: the number SO_PEERCRED gave and the process
      its pidfd pins.  `recheck` is whether the second comparison is made. */
  datatype Reader = Reader(pid: int, pinned: ProcessId, recheck: bool)

  datatype Step = Os(step: OsStep) | Read | Fail

  /** The number in the pidfd's fdinfo: the pinned process's while it is not reaped. */
  predicate FdinfoSays(ps: Processes, r: Reader) {
    Names(ps, r.pid, r.pinned)
  }

  ghost predicate Next(r: Reader, s: State, s': State, step: Step) {
    match step
    case Os(os) => s'.progress == s.progress && OsNext(s.ps, s'.ps, os)
    case Fail => s'.ps == s.ps && !s.progress.Returned? && s'.progress == Returned(None)
    case Read =>
      && s'.ps == s.ps
      && match s.progress
         case Opened => s'.progress == if FdinfoSays(s.ps, r) then Checked else Returned(None)
         case Checked =>
           if forall id :: !Names(s.ps, r.pid, id) then s'.progress == Returned(None)
           else exists id :: Names(s.ps, r.pid, id) && s'.progress == HasText(s.ps[id].login)
         case HasText(text) =>
           s'.progress == Returned(if r.recheck && !FdinfoSays(s.ps, r) then None else ParseLoginUid(text))
         case Returned(_) => false
  }

  ghost predicate CanStep(r: Reader, s: State, s': State) {
    exists step :: Next(r, s, s', step)
  }

  /** A number names one process at a time. */
  ghost predicate OneNameEach(ps: Processes) {
    forall pid, a, b :: Names(ps, pid, a) && Names(ps, pid, b) ==> a == b
  }

  ghost predicate Initial(r: Reader, s: State) {
    && s.progress == (if r.pid <= 0 then Returned(None) else Opened)
    && OneNameEach(s.ps)
  }

  /** A run: some states, each following from the one before by some step. */
  ghost predicate IsRun(r: Reader, run: seq<State>) {
    && run != [] && Initial(r, run[0])
    && forall i, j :: 0 <= i && j == i + 1 < |run| ==> CanStep(r, run[i], run[j])
  }

  /** While the pinned process keeps its number, each of the reader's lines has one outcome,
      and what it returns is that process's login user ID. */
  lemma UndisturbedReads(r: Reader, ps: Processes, s': State)
    requires OneNameEach(ps) && Names(ps, r.pid, r.pinned)
    ensures var login := ps[r.pinned].login;
            && (Next(r, State(ps, Opened), s', Read) <==> s' == State(ps, Checked))
            && (Next(r, State(ps, Checked), s', Read) <==> s' == State(ps, HasText(login)))
            && (Next(r, State(ps, HasText(login)), s', Read) <==> s' == State(ps, Returned(ParseLoginUid(login))))
  {
    hide ParseLoginUid;
    assert forall id :: Names(ps, r.pid, id) ==> id == r.pinned;
  }

  // ----- Numbers -----

  lemma OsStepKeepsNames(ps: Processes, ps': Processes, step: OsStep)
    requires OneNameEach(ps) && OsNext(ps, ps', step)
    ensures OneNameEach(ps')
  {
    forall pid, a, b | Names(ps', pid, a) && Names(ps', pid, b)
      ensures a == b
    {
      assert !step.Start? || (a != step.id && b != step.id) ==> Names(ps, pid, a) && Names(ps, pid, b);
      if step.Start? && a == step.id && b != a {
        assert Names(ps, pid, b);
      } else if step.Start? && b == step.id && b != a {
        assert Names(ps, pid, a);
      }
    }
  }

  lemma {:induction false} AlwaysOneNameEach(r: Reader, run: seq<State>, i: nat)
    requires IsRun(r, run) && i < |run|
    ensures OneNameEach(run[i].ps)
  {
    if i > 0 {
      AlwaysOneNameEach(r, run, i - 1);
      assert CanStep(r, run[i - 1], run[i]);
      var step :| Next(r, run[i - 1], run[i], step);
      if step.Os? {
        OsStepKeepsNames(run[i - 1].ps, run[i].ps, step.step);
      }
    }
  }

  /** A process named by its number at one moment was named by it at every
      earlier moment it existed. */
  lemma {:induction false} NamedBefore(r: Reader, run: seq<State>, i: nat, j: nat, pid: int, id: ProcessId)
    requires IsRun(r, run) && i <= j < |run|
    requires id in run[i].ps && Names(run[j].ps, pid, id)
    ensures Names(run[i].ps, pid, id)
    decreases j - i
  {
    if i < j {
      assert CanStep(r, run[i], run[i + 1]);
      var step :| Next(r, run[i], run[i + 1], step);
      NamedBefore(r, run, i + 1, j, pid, id);
    }
  }

  // ----- The theorem -----

  /** At `i` the number still named the pinned process, whose text was `text`. */
  ghost predicate ReadFromPinned(r: Reader, s: State, text: string) {
    Names(s.ps, r.pid, r.pinned) && s.ps[r.pinned].login == text
  }

  /** What is known once the text is held: where it was read from. */
  lemma {:induction false} TextWasRead(r: Reader, run: seq<State>, n: nat) returns (i: nat)
    requires IsRun(r, run) && n < |run| && run[n].progress.HasText?
    ensures i < n && r.pinned in run[i].ps
    ensures Names(run[i].ps, r.pid, r.pinned) ==> ReadFromPinned(r, run[i], run[n].progress.text)
  {
    assert n > 0;
    assert CanStep(r, run[n - 1], run[n]);
    var step :| Next(r, run[n - 1], run[n], step);
    if run[n - 1].progress.HasText? {
      i := TextWasRead(r, run, n - 1);
    } else {
      i := n - 1;
      assert run[n - 1].progress == Checked;
      PinnedExists(r, run, n - 1);
      AlwaysOneNameEach(r, run, n - 1);
    }
  }

  lemma {:induction false} PinnedExists(r: Reader, run: seq<State>, n: nat)
    requires IsRun(r, run) && n < |run| && run[n].progress == Checked
    ensures r.pinned in run[n].ps
  {
    assert n > 0;
    assert CanStep(r, run[n - 1], run[n]);
    var step :| Next(r, run[n - 1], run[n], step);
    if run[n - 1].progress == Checked {
      PinnedExists(r, run, n - 1);
    }
  }

  /** However the reader's lines interleave with processes ending and their
      numbers being reused, a recorded login user ID was read while the number
      named the pinned process, and is that process's. */
  lemma {:induction false} RecordedUidIsThePinned(r: Reader, run: seq<State>, n: nat)
    requires IsRun(r, run) && n < |run| && r.recheck
    requires run[n].progress.Returned? && run[n].progress.login.Some?
    ensures exists i :: && 0 <= i < n
                        && Names(run[i].ps, r.pid, r.pinned)
                        && ParseLoginUid(run[i].ps[r.pinned].login) == run[n].progress.login
  {
    hide ParseLoginUid;
    assert n > 0;
    assert CanStep(r, run[n - 1], run[n]);
    var step :| Next(r, run[n - 1], run[n], step);
    if run[n - 1].progress.Returned? {
      RecordedUidIsThePinned(r, run, n - 1);
    } else {
      var text := run[n - 1].progress.text;
      var i := TextWasRead(r, run, n - 1);
      NamedBefore(r, run, i, n - 1, r.pid, r.pinned);
    }
  }

  // ----- Why the second check -----

  lemma OneDigit(c: char)
    requires '0' <= c <= '9'
    ensures ParseLoginUid([c]) == Some(c as int - '0' as int)
  {
    var s := [c];
    assert s[..0] == [] && s[1..] == [];
    assert StripLeft(s) == s && StripRight(s) == s;
    assert Decimal(s) == 10 * Decimal(s[..0]) + (c as int - '0' as int);
  }

  /** Without the second comparison a reused number is recorded: one run in which
      the pinned process never had the login user ID returned. */
  lemma ReuseWithoutRecheck() returns (r: Reader, run: seq<State>)
    ensures !r.recheck && IsRun(r, run)
    ensures run[|run| - 1].progress == Returned(Some(0))
    ensures forall i :: 0 <= i < |run| ==>
              r.pinned in run[i].ps && ParseLoginUid(run[i].ps[r.pinned].login) == Some(5)
  {
    r := Reader(7, 1, false);
    run := ReuseRun(r, ['5'], ['0']);
    OneDigit('5');
    OneDigit('0');
  }

  /** The pinned process ends between the check and the read, and another takes its number. */
  lemma ReuseRun(r: Reader, mine: string, other: string) returns (run: seq<State>)
    requires r == Reader(7, 1, false)
    ensures IsRun(r, run) && run[|run| - 1].progress == Returned(ParseLoginUid(other))
    ensures forall i :: 0 <= i < |run| ==> r.pinned in run[i].ps && run[i].ps[r.pinned].login == mine
  {
    hide ParseLoginUid;
    var live, gone := map[1 := Process(7, mine, false)], map[1 := Process(7, mine, true)];
    var reused := gone[2 := Process(7, other, false)];
    var s0, s1, s2 := State(live, Opened), State(live, Checked), State(gone, Checked);
    var s3, s4 := State(reused, Checked), State(reused, HasText(other));
    var s5 := State(reused, Returned(ParseLoginUid(other)));
    run := [s0, s1, s2, s3, s4, s5];
    assert Next(r, s0, s1, Read);
    assert gone == live[1 := live[1].(reaped := true)];
    assert Next(r, s1, s2, Os(Reap(1)));
    assert Next(r, s2, s3, Os(Start(2, 7, other)));
    assert Names(reused, 7, 2) && reused[2].login == other;
    assert Next(r, s3, s4, Read);
    assert Next(r, s4, s5, Read);
  }
}
