/** Which replies the approval ingress refuses, in counts of replies admitted and nothing
    of the buckets (ori/actions/sms.py:66-70, 84-104, 153-174). */
module AdmissionExact {
  import opened Options
  import opened TokenBuckets

  /** Admitting one more at `now` would make too many for some window that ends there. */
  ghost predicate Over(
    g: Ingress, before: seq<Reply>, who: Option<string>, start: real, now: real, burst: real, rate: real) {
    exists a :: start <= a <= now && Admitted(g, before, who, a, now) as real + 1.0 > burst + (now - a) * rate
  }

  // ----- One bucket through a trace -----

  /** The sender's bucket, or the one over all. */
  function BucketOf(g: Ingress, who: Option<string>): Bucket
    requires who.Some? ==> who.value in g.senders
  {
    if who.None? then g.all else g.senders[who.value]
  }

  predicate Spends(o: Outcome, r: Reply, who: Option<string>) {
    o.refusal == None && (who == None || who == Some(r.sender))
  }

  lemma BucketSteps(allowed: set<string>, start: real, trace: seq<Reply>, who: Option<string>)
    requires Timely(start, trace) && trace != [] && (who.Some? ==> who.value in allowed)
    ensures var g, n := Opened(allowed, start), |trace| - 1;
            var h, h' := After(g, trace[..n]), After(g, trace);
            && h.senders.Keys == h'.senders.Keys == allowed
            && BucketStep(BucketOf(h, who), BucketOf(h', who), trace[n].at, Spends(Decide(h, trace[n]), trace[n], who))
            && BucketOf(h, who).last <= trace[n].at
  {
    hide Decide, Level;
    var g, n := Opened(allowed, start), |trace| - 1;
    TimelyPrefix(start, trace);
    AskedAfter(allowed, start, trace[..n]);
    AskedAfter(allowed, start, trace);
    DecideSteps(After(g, trace[..n]), trace[n]);
  }

  lemma AdmittedStep(g: Ingress, trace: seq<Reply>, who: Option<string>, a: real, b: real)
    requires trace != [] && trace[|trace| - 1].at <= b
    ensures var n := |trace| - 1;
            Admitted(g, trace, who, a, b)
            == Admitted(g, trace[..n], who, a, b)
               + (if Spends(Decide(After(g, trace[..n]), trace[n]), trace[n], who) && a <= trace[n].at then 1 else 0)
  {
    hide Decide, After;
  }

  /** Nothing is admitted from a bucket after it was last asked. */
  lemma {:induction false} NoneSinceAsked(
    allowed: set<string>, start: real, trace: seq<Reply>, who: Option<string>, a: real, b: real)
    requires Timely(start, trace) && Clock(start, trace) <= b && (who.Some? ==> who.value in allowed)
    ensures var h := After(Opened(allowed, start), trace);
            && h.senders.Keys == allowed
            && (a > BucketOf(h, who).last ==> Admitted(Opened(allowed, start), trace, who, a, b) == 0)
  {
    AskedAfter(allowed, start, trace);
    if trace != [] {
      hide Decide, Level, After, Opened, Admitted;
      TimelyPrefix(start, trace);
      NoneSinceAsked(allowed, start, trace[..|trace| - 1], who, a, b);
      BucketSteps(allowed, start, trace, who);
      AdmittedStep(Opened(allowed, start), trace, who, a, b);
    }
  }

  /** What a bucket holds is its burst and a refill since `a`, less what was admitted since. */
  predicate Holds(bk: Bucket, start: real, a: real, admitted: nat) {
    start <= a <= bk.last && bk.tokens == bk.burst + (bk.last - a) * bk.perSecond - admitted as real
  }

  /** When it was last full. */
  lemma {:induction false} LastFull(
    allowed: set<string>, start: real, trace: seq<Reply>, who: Option<string>, b: real) returns (a: real)
    requires Timely(start, trace) && Clock(start, trace) <= b && (who.Some? ==> who.value in allowed)
    ensures var h := After(Opened(allowed, start), trace);
            && h.senders.Keys == allowed
            && Holds(BucketOf(h, who), start, a, Admitted(Opened(allowed, start), trace, who, a, b))
  {
    hide *;
    if trace == [] {
      a := start;
      FullAtFirst(allowed, start, trace, who, b);
    } else {
      TimelyStep(start, trace);
      var before := LastFull(allowed, start, trace[..|trace| - 1], who, b);
      a := FullThrough(allowed, start, trace, who, b, before);
    }
  }

  lemma TimelyStep(start: real, trace: seq<Reply>)
    requires trace != [] && Timely(start, trace)
    ensures Timely(start, trace[..|trace| - 1])
    ensures Clock(start, trace[..|trace| - 1]) <= trace[|trace| - 1].at == Clock(start, trace)
  {
    TimelyPrefix(start, trace);
  }

  lemma FullAtFirst(allowed: set<string>, start: real, trace: seq<Reply>, who: Option<string>, b: real)
    requires trace == [] && (who.Some? ==> who.value in allowed)
    ensures var g := Opened(allowed, start);
            && After(g, trace).senders.Keys == allowed
            && Holds(BucketOf(After(g, trace), who), start, start, Admitted(g, trace, who, start, b))
  {
  }

  lemma FullThrough(
    allowed: set<string>, start: real, trace: seq<Reply>, who: Option<string>, b: real, before: real)
    returns (a: real)
    requires Timely(start, trace) && trace != [] && Clock(start, trace) <= b && (who.Some? ==> who.value in allowed)
    requires var g, n := Opened(allowed, start), |trace| - 1;
             && After(g, trace[..n]).senders.Keys == allowed
             && Holds(BucketOf(After(g, trace[..n]), who), start, before, Admitted(g, trace[..n], who, before, b))
    ensures var h := After(Opened(allowed, start), trace);
            && h.senders.Keys == allowed
            && Holds(BucketOf(h, who), start, a, Admitted(Opened(allowed, start), trace, who, a, b))
  {
    var g, n := Opened(allowed, start), |trace| - 1;
    hide *;
    TimelyStep(start, trace);
    BucketSteps(allowed, start, trace, who);
    BoundedOf(allowed, start, trace[..n], who, b, b);
    NeverOverfull(BucketOf(After(g, trace[..n]), who), Admitted(g, trace[..n], who, b, b), b);
    var h, h' := After(g, trace[..n]), After(g, trace);
    var bk, bk', spent := BucketOf(h, who), BucketOf(h', who), Spends(Decide(h, trace[n]), trace[n], who);
    a := if bk' != bk && Overflows(bk, trace[n].at) then trace[n].at else before;
    AdmittedStep(g, trace, who, a, b);
    if bk' != bk && Overflows(bk, trace[n].at) {
      NoneSinceAsked(allowed, start, trace[..n], who, a, b);
      FullAgain(bk, bk', trace[n].at, spent, start, before, Admitted(g, trace[..n], who, before, b));
    } else {
      HoldsOn(bk, bk', trace[n].at, spent, start, a, Admitted(g, trace[..n], who, a, b));
    }
  }

  predicate Overflows(bk: Bucket, now: real) {
    bk.tokens + (now - bk.last) * bk.perSecond > bk.burst
  }

  lemma FullAgain(
    bk: Bucket, bk': Bucket, now: real, spent: bool, start: real, before: real, admitted: nat)
    requires Holds(bk, start, before, admitted) && bk.tokens <= bk.burst
    requires Overflows(bk, now) && bk.last <= now && bk' != bk && BucketStep(bk, bk', now, spent)
    ensures bk.last < now && Holds(bk', start, now, if spent then 1 else 0)
  {
  }

  lemma HoldsOn(bk: Bucket, bk': Bucket, now: real, spent: bool, start: real, a: real, admitted: nat)
    requires Holds(bk, start, a, admitted) && bk.last <= now && BucketStep(bk, bk', now, spent)
    requires bk' != bk ==> !Overflows(bk, now)
    ensures Holds(bk', start, a, admitted + (if spent then 1 else 0)) && (spent ==> a <= now)
  {
    assert (now - bk.last) * bk.perSecond + (bk.last - a) * bk.perSecond == (now - a) * bk.perSecond;
  }

  // ----- Which replies are refused -----

  lemma LevelExact(allowed: set<string>, start: real, before: seq<Reply>, who: Option<string>, now: real)
    requires Timely(start, before) && Clock(start, before) <= now && (who.Some? ==> who.value in allowed)
    ensures var h := After(Opened(allowed, start), before);
            && h.senders.Keys == allowed
            && var bk := BucketOf(h, who);
            && bk.last <= now && bk.burst >= 1.0
            && (Level(bk, now) < 1.0
                <==> Over(Opened(allowed, start), before, who, start, now, bk.burst, bk.perSecond))
  {
    var g := Opened(allowed, start);
    RatesKept(allowed, start, before);
    AskedAfter(allowed, start, before);
    var bk := BucketOf(After(g, before), who);
    hide *;
    if Level(bk, now) < 1.0 {
      OverWhenShort(allowed, start, before, who, now);
    }
    if Over(g, before, who, start, now, bk.burst, bk.perSecond) {
      forall a | a <= now ensures Bounded(bk, Admitted(g, before, who, a, now), a, now) {
        BoundedOf(allowed, start, before, who, a, now);
      }
      ShortWhenOver(g, before, who, start, now, bk);
    }
  }

  lemma OverWhenShort(allowed: set<string>, start: real, before: seq<Reply>, who: Option<string>, now: real)
    requires Timely(start, before) && Clock(start, before) <= now && (who.Some? ==> who.value in allowed)
    requires var h := After(Opened(allowed, start), before);
             && h.senders.Keys == allowed && BucketOf(h, who).last <= now && BucketOf(h, who).burst >= 1.0
             && Level(BucketOf(h, who), now) < 1.0
    ensures var bk := BucketOf(After(Opened(allowed, start), before), who);
            Over(Opened(allowed, start), before, who, start, now, bk.burst, bk.perSecond)
  {
    var g := Opened(allowed, start);
    hide After, Opened, Admitted, Level, Holds;
    var a := LastFull(allowed, start, before, who, now);
    ShortSince(BucketOf(After(g, before), who), now, start, a, Admitted(g, before, who, a, now));
  }

  lemma ShortWhenOver(
    g: Ingress, before: seq<Reply>, who: Option<string>, start: real, now: real, bk: Bucket)
    requires Over(g, before, who, start, now, bk.burst, bk.perSecond) && bk.last <= now
    requires forall a :: a <= now ==> Bounded(bk, Admitted(g, before, who, a, now), a, now)
    ensures Level(bk, now) < 1.0
  {
    hide Admitted, Bounded, Level;
    var a := Window(g, before, who, start, now, bk.burst, bk.perSecond);
    ShortInWindow(bk, now, a, Admitted(g, before, who, a, now));
  }

  lemma NeverOverfull(bk: Bucket, admitted: nat, b: real)
    requires Bounded(bk, admitted, b, b)
    ensures bk.tokens <= bk.burst
  {
  }

  lemma Window(
    g: Ingress, before: seq<Reply>, who: Option<string>, start: real, now: real, burst: real, rate: real)
    returns (a: real)
    requires Over(g, before, who, start, now, burst, rate)
    ensures start <= a <= now && Admitted(g, before, who, a, now) as real + 1.0 > burst + (now - a) * rate
  {
    hide Admitted;
    a :| start <= a <= now && Admitted(g, before, who, a, now) as real + 1.0 > burst + (now - a) * rate;
  }

  lemma BoundedOf(allowed: set<string>, start: real, trace: seq<Reply>, who: Option<string>, a: real, b: real)
    requires Timely(start, trace) && a <= b && (who.Some? ==> who.value in allowed)
    ensures var h := After(Opened(allowed, start), trace);
            && h.senders.Keys == allowed
            && Bounded(BucketOf(h, who), Admitted(Opened(allowed, start), trace, who, a, b), a, b)
  {
    AskedAfter(allowed, start, trace);
    hide After, Opened, Admitted, Bounded;
    if who.None? {
      AllBounded(allowed, start, trace, a, b);
    } else {
      SenderBounded(allowed, start, trace, who.value, a, b);
    }
  }

  lemma ShortSince(bk: Bucket, now: real, start: real, a: real, admitted: nat)
    requires Holds(bk, start, a, admitted) && bk.last <= now && bk.burst >= 1.0 && Level(bk, now) < 1.0
    ensures start <= a <= now && admitted as real + 1.0 > bk.burst + (now - a) * bk.perSecond
  {
    assert (now - bk.last) * bk.perSecond + (bk.last - a) * bk.perSecond == (now - a) * bk.perSecond;
  }

  lemma ShortInWindow(bk: Bucket, now: real, a: real, admitted: nat)
    requires Bounded(bk, admitted, a, now) && bk.last <= now && a <= now
    requires admitted as real + 1.0 > bk.burst + (now - a) * bk.perSecond
    ensures Level(bk, now) < 1.0
  {
    RefillBounded(bk, admitted, a, now, now);
  }

  /** Every decision of every timely trace, exactly.  A listed sender's reply of at most 480
      characters is refused for its sender's rate when admitting it would give that sender
      more than 5 + T/6 in some window of T seconds ending there; failing that, for the
      common rate when it would give all senders more than 10 + T/2; and is admitted
      otherwise. */
  lemma AdmissionIsExact(allowed: set<string>, start: real, trace: seq<Reply>, k: nat)
    requires Timely(start, trace) && k < |trace|
    ensures var g, r := Opened(allowed, start), trace[k];
            var fit := r.sender in allowed && |r.message| <= 480;
            var own := Over(g, trace[..k], Some(r.sender), start, r.at, 5.0, 1.0 / 6.0);
            var shared := Over(g, trace[..k], None, start, r.at, 10.0, 1.0 / 2.0);
            var why := RefusalAt(g, trace, k);
            && (why == Some(UnlistedSender) <==> r.sender !in allowed)
            && (why == Some(MessageTooLong) <==> r.sender in allowed && |r.message| > 480)
            && (why == Some(SenderRateExceeded) <==> fit && own)
            && (why == Some(AllowlistedRateExceeded) <==> fit && !own && shared)
            && (why == None <==> fit && !own && !shared)
  {
    var g, r, before := Opened(allowed, start), trace[k], trace[..k];
    TimelyUpTo(start, trace, k);
    RatesKept(allowed, start, before);
    LevelExact(allowed, start, before, None, r.at);
    if r.sender in allowed {
      LevelExact(allowed, start, before, Some(r.sender), r.at);
    }
    hide After, Opened, Level, Over;
  }

  lemma TimelyUpTo(start: real, trace: seq<Reply>, k: nat)
    requires Timely(start, trace) && k < |trace|
    ensures Timely(start, trace[..k]) && Clock(start, trace[..k]) <= trace[k].at
  {
    if k > 0 {
      assert trace[k - 1].at <= trace[k].at;
    }
  }
}
