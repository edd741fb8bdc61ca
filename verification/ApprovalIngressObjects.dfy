/** The approval ingress as objects updated in place (ori/actions/sms.py:84-174). */
module ApprovalIngressObjects {
  import opened Options
  import opened TokenBuckets

  class BucketCell {
    const perSecond: real
    const burst: real
    var tokens: real
    var last: real

    function Value(): Bucket
      reads this
    {
      Bucket(perSecond, burst, tokens, last)
    }

    constructor (perMinute: real, burst: nat, now: real)
      ensures Value() == FullBucket(perMinute, burst, now)
    {
      perSecond := perMinute / 60.0;
      this.burst := burst as real;
      tokens := burst as real;
      last := now;
    }

    /** Bring the bucket up to `now` and answer from what it then holds. */
    method HasToken(now: real) returns (has: bool)
      modifies this
      ensures Value() == Refilled(old(Value()), now)
      ensures has == (Value().tokens >= 1.0)
    {
      var elapsed := if now - last > 0.0 then now - last else 0.0;
      tokens := Min(burst, tokens + elapsed * perSecond);
      last := now;
      has := tokens >= 1.0;
    }

    method Spend()
      modifies this
      ensures Value() == Spent(old(Value()))
    {
      tokens := tokens - 1.0;
    }
  }

  class ApprovalIngress {
    const senders: map<string, BucketCell>
    const all: BucketCell
    var refusals: map<Reason, nat>
    var unlogged: map<Reason, nat>
    var loggedAt: map<Reason, real>

    /** No two names share a bucket, and none shares the common one. */
    ghost predicate Valid()
      reads this
    {
      && (forall s, t :: s in senders && t in senders && s != t ==> senders[s] != senders[t])
      && (forall s :: s in senders ==> senders[s] != all)
      && (forall why: Reason :: why in refusals && why in unlogged)
    }

    function Value(): Ingress
      reads this, senders.Values, all
    {
      Ingress(map s | s in senders :: senders[s].Value(), all.Value(), refusals)
    }

    constructor (allowed: set<string>, now: real)
      ensures Valid() && fresh(senders.Values) && fresh(all)
      ensures Value() == Opened(allowed, now)
      ensures LogValue() == LogOpened()
    {
      var cells: map<string, BucketCell> := map[];
      var rest := allowed;
      while rest != {}
        invariant rest <= allowed && cells.Keys == allowed - rest
        invariant forall s :: s in cells ==> fresh(cells[s])
        invariant forall s :: s in cells ==> cells[s].Value() == FullBucket(SENDER_PER_MINUTE, SENDER_BURST, now)
        invariant forall s, t :: s in cells && t in cells && s != t ==> cells[s] != cells[t]
        decreases rest
      {
        var s :| s in rest;
        var cell := new BucketCell(SENDER_PER_MINUTE, SENDER_BURST, now);
        cells := cells[s := cell];
        rest := rest - {s};
      }
      senders := cells;
      all := new BucketCell(ALL_PER_MINUTE, ALL_BURST, now);
      refusals := NoneYet();
      unlogged := NoneYet();
      loggedAt := map[];
      new;
      forall why: Reason ensures why in refusals && why in unlogged {
        EveryReason(why);
      }
      assert Value().senders == Opened(allowed, now).senders;
    }

    /** Decide one reply; a refusal is also counted. */
    method Refusal(sender: string, message: string, now: real) returns (refusal: Option<Reason>)
      requires Valid()
      modifies this`refusals, senders.Values, all
      ensures Valid()
      ensures var o := Decide(old(Value()), Reply(sender, message, now));
              Value() == o.ingress && refusal == o.refusal
    {
      hide Ask, NoneYet;
      refusal := Some(UnlistedSender);
      if sender in senders {
        refusal := Some(MessageTooLong);
        if |message| <= MAX_MESSAGE_CHARS {
          refusal := AskBoth(sender, now);
        }
      }
      if refusal != None {
        refusals := refusals[refusal.value := refusals[refusal.value] + 1];
      }
    }

    /** Ask the sender's bucket, then the common one, and spend from both or neither. */
    method AskBoth(sender: string, now: real) returns (refusal: Option<Reason>)
      requires Valid() && sender in senders
      modifies senders.Values, all
      ensures var o := Ask(old(Value()), sender, now); Value() == o.ingress && refusal == o.refusal
    {
      hide Level, Spent, NoneYet;
      var own := senders[sender];
      var mine := own.HasToken(now);
      if !mine {
        return Some(SenderRateExceeded);
      }
      var shared := all.HasToken(now);
      if !shared {
        return Some(AllowlistedRateExceeded);
      }
      own.Spend();
      all.Spend();
      return None;
    }

    function LogValue(): Log
      reads this
    {
      Log(unlogged, loggedAt)
    }

    /** Note one refusal for the log, and empty the reason's backlog into a line when a
        line is due. */
    method TakeLogLine(reason: Reason, now: real) returns (count: nat)
      requires Valid()
      modifies this`unlogged, this`loggedAt
      ensures Valid()
      ensures var o := TakeLine(old(LogValue()), reason, now);
              LogValue() == o.log && count == o.count
    {
      unlogged := unlogged[reason := unlogged[reason] + 1];
      if reason in loggedAt && now - loggedAt[reason] < 60.0 {
        return 0;
      }
      loggedAt := loggedAt[reason := now];
      count := unlogged[reason];
      unlogged := unlogged[reason := 0];
    }
  }

  // ----- The log, as a value -----

  datatype Log = Log(unlogged: map<Reason, nat>, loggedAt: map<Reason, real>)
  datatype Line = Line(log: Log, count: nat)
  datatype Call = Call(reason: Reason, at: real)

  function LogOpened(): Log {
    Log(NoneYet(), map[])
  }

  function Unlogged(log: Log, why: Reason): nat {
    if why in log.unlogged then log.unlogged[why] else 0
  }

  function TakeLine(log: Log, reason: Reason, now: real): Line {
    var waiting := Unlogged(log, reason) + 1;
    if reason in log.loggedAt && now - log.loggedAt[reason] < 60.0
    then Line(log.(unlogged := log.unlogged[reason := waiting]), 0)
    else Line(Log(log.unlogged[reason := 0], log.loggedAt[reason := now]), waiting)
  }

  function LogAfter(calls: seq<Call>): Log {
    if calls == [] then LogOpened()
    else TakeLine(LogAfter(calls[..|calls| - 1]), calls[|calls| - 1].reason, calls[|calls| - 1].at).log
  }

  function CountAt(calls: seq<Call>, k: nat): nat
    requires k < |calls|
  {
    TakeLine(LogAfter(calls[..k]), calls[k].reason, calls[k].at).count
  }

  /** The total reported for `why`, and how often it was called. */
  function Reported(calls: seq<Call>, why: Reason): nat {
    if calls == [] then 0
    else
      var n := |calls| - 1;
      Reported(calls[..n], why) + (if calls[n].reason == why then CountAt(calls, n) else 0)
  }

  function Called(calls: seq<Call>, why: Reason): nat {
    if calls == [] then 0
    else Called(calls[..|calls| - 1], why) + (if calls[|calls| - 1].reason == why then 1 else 0)
  }

  /** Nothing is lost or counted twice: what was reported and what waits to be
      reported are the calls made. */
  lemma {:induction false} ReportsAddUp(calls: seq<Call>, why: Reason)
    ensures Reported(calls, why) + Unlogged(LogAfter(calls), why) == Called(calls, why)
  {
    if calls == [] {
      EveryReason(why);
    } else {
      ReportsAddUp(calls[..|calls| - 1], why);
    }
  }

  /** The latest call for `why` that was given a line. */
  function LatestLine(calls: seq<Call>, why: Reason): Option<nat> {
    if calls == [] then None
    else
      var n := |calls| - 1;
      if calls[n].reason == why && CountAt(calls, n) > 0 then Some(n) else LatestLine(calls[..n], why)
  }

  lemma {:induction false} LatestLineMeans(calls: seq<Call>, why: Reason)
    ensures var i := LatestLine(calls, why);
            && (i.Some? ==> i.value < |calls| && calls[i.value].reason == why && CountAt(calls, i.value) > 0)
            && forall j :: (if i.Some? then i.value else -1) < j < |calls| && calls[j].reason == why ==>
                 CountAt(calls, j) == 0
  {
    if calls != [] {
      hide CountAt;
      var n := |calls| - 1;
      LatestLineMeans(calls[..n], why);
      forall j | 0 <= j < n ensures CountAt(calls, j) == CountAt(calls[..n], j) {
        SameCount(calls, n, j);
      }
    }
  }

  lemma SameCount(calls: seq<Call>, n: nat, j: nat)
    requires j < n <= |calls|
    ensures CountAt(calls, j) == CountAt(calls[..n], j)
  {
    assert calls[..n][..j] == calls[..j];
  }

  lemma {:induction false} LoggedAtLatest(calls: seq<Call>, why: Reason)
    ensures var log, i := LogAfter(calls), LatestLine(calls, why);
            && (i.Some? ==> i.value < |calls|)
            && (why in log.loggedAt <==> i.Some?)
            && (i.Some? ==> log.loggedAt[why] == calls[i.value].at)
  {
    if calls != [] {
      var n := |calls| - 1;
      LoggedAtLatest(calls[..n], why);
      LineMoves(LogAfter(calls[..n]), calls[n].reason, calls[n].at);
      hide TakeLine;
    }
  }

  /** A line, and only a line, moves the time recorded for its reason. */
  lemma LineMoves(log: Log, reason: Reason, now: real)
    ensures var line := TakeLine(log, reason, now);
            line.log.loggedAt == if line.count > 0 then log.loggedAt[reason := now] else log.loggedAt
  {
  }

  /** A line is due exactly when the reason has had none, or its latest is a minute old; and
      then it leaves nothing waiting. */
  lemma LineDue(calls: seq<Call>, j: nat)
    requires j < |calls|
    ensures var latest, why := LatestLine(calls[..j], calls[j].reason), calls[j].reason;
            && (latest.Some? ==> latest.value < j)
            && (CountAt(calls, j) > 0 <==> latest.None? || calls[j].at - calls[latest.value].at >= 60.0)
            && (CountAt(calls, j) > 0 ==> Reported(calls[..j + 1], why) == Called(calls[..j + 1], why))
  {
    LoggedAtLatest(calls[..j], calls[j].reason);
    LatestLineMeans(calls[..j], calls[j].reason);
    var upTo := calls[..j + 1];
    assert upTo[..j] == calls[..j] && upTo[j] == calls[j];
    ReportsAddUp(upTo, calls[j].reason);
  }

  /** The last line for a reason is the time recorded for it. */
  lemma {:induction false} LastLine(calls: seq<Call>, i: nat)
    requires i < |calls| && CountAt(calls, i) > 0
    ensures var log := LogAfter(calls);
            calls[i].reason in log.loggedAt && log.loggedAt[calls[i].reason] >= calls[i].at
  {
    var n := |calls| - 1;
    if i < n {
      assert calls[..n][..i] == calls[..i];
      LastLine(calls[..n], i);
    }
  }

  /** Two lines for one reason are a minute apart or more, whatever the clock does. */
  lemma LinesAMinuteApart(calls: seq<Call>, i: nat, j: nat)
    requires i < j < |calls| && calls[i].reason == calls[j].reason
    requires CountAt(calls, i) > 0 && CountAt(calls, j) > 0
    ensures calls[j].at - calls[i].at >= 60.0
  {
    assert calls[..j][..i] == calls[..i];
    LastLine(calls[..j], i);
  }
}
