/** Token buckets and the approval ingress over them, as values
    (ori/actions/sms.py:66-174).  Times are readings of the monotonic clock. */
module TokenBuckets {
  import opened Options

  // ----- One bucket -----

  datatype Bucket = Bucket(perSecond: real, burst: real, tokens: real, last: real)

  function Min(a: real, b: real): real {
    if a <= b then a else b
  }

  /** Tokens at `now`, the refill the next question would make. */
  function Level(b: Bucket, now: real): real {
    Min(b.burst, b.tokens + (if now > b.last then now - b.last else 0.0) * b.perSecond)
  }

  function Refilled(b: Bucket, now: real): Bucket {
    b.(tokens := Level(b, now), last := now)
  }

  function Spent(b: Bucket): Bucket {
    b.(tokens := b.tokens - 1.0)
  }

  function FullBucket(perMinute: real, burst: nat, now: real): Bucket {
    Bucket(perMinute / 60.0, burst as real, burst as real, now)
  }

  // ----- The ingress -----

  const MAX_MESSAGE_CHARS: nat := 480
  const SENDER_PER_MINUTE: real := 10.0
  const SENDER_BURST: nat := 5
  const ALL_PER_MINUTE: real := 30.0
  const ALL_BURST: nat := 10

  datatype Reason = UnlistedSender | MessageTooLong | SenderRateExceeded | AllowlistedRateExceeded

  datatype Reply = Reply(sender: string, message: string, at: real)

  datatype Ingress = Ingress(senders: map<string, Bucket>, all: Bucket, refusals: map<Reason, nat>)

  datatype Outcome = Outcome(ingress: Ingress, refusal: Option<Reason>)

  function Opened(allowed: set<string>, now: real): Ingress {
    Ingress(map s | s in allowed :: FullBucket(SENDER_PER_MINUTE, SENDER_BURST, now),
            FullBucket(ALL_PER_MINUTE, ALL_BURST, now),
            NoneYet())
  }

  function NoneYet(): map<Reason, nat> {
    map[UnlistedSender := 0, MessageTooLong := 0, SenderRateExceeded := 0, AllowlistedRateExceeded := 0]
  }

  lemma EveryReason(why: Reason)
    ensures why in NoneYet() && NoneYet()[why] == 0
  {
    match why
    case UnlistedSender =>
    case MessageTooLong =>
    case SenderRateExceeded =>
    case AllowlistedRateExceeded =>
  }

  /** Both buckets are asked before either is spent. */
  function Ask(g: Ingress, sender: string, now: real): Outcome
    requires sender in g.senders
  {
    var own := Refilled(g.senders[sender], now);
    var asked := g.(senders := g.senders[sender := own]);
    if own.tokens < 1.0 then Outcome(asked, Some(SenderRateExceeded))
    else
      var shared := Refilled(g.all, now);
      if shared.tokens < 1.0 then Outcome(asked.(all := shared), Some(AllowlistedRateExceeded))
      else Outcome(g.(senders := g.senders[sender := Spent(own)], all := Spent(shared)), None)
  }

  function Decide(g: Ingress, r: Reply): Outcome {
    if r.sender !in g.senders then Refuse(g, UnlistedSender)
    else if |r.message| > MAX_MESSAGE_CHARS then Refuse(g, MessageTooLong)
    else
      var asked := Ask(g, r.sender, r.at);
      if asked.refusal == None then asked else Refuse(asked.ingress, asked.refusal.value)
  }

  function Refuse(g: Ingress, why: Reason): Outcome {
    Outcome(g.(refusals := g.refusals[why := (if why in g.refusals then g.refusals[why] else 0) + 1]), Some(why))
  }

  /** The ingress after a trace of replies. */
  function After(g: Ingress, trace: seq<Reply>): Ingress {
    if trace == [] then g
    else Decide(After(g, trace[..|trace| - 1]), trace[|trace| - 1]).ingress
  }

  /** What the reply at `k` of a trace is told. */
  function RefusalAt(g: Ingress, trace: seq<Reply>, k: nat): Option<Reason>
    requires k < |trace|
  {
    Decide(After(g, trace[..k]), trace[k]).refusal
  }

  /** The clock does not run backwards, from the opening on. */
  ghost predicate Timely(start: real, trace: seq<Reply>) {
    && (trace != [] ==> start <= trace[0].at)
    && forall i, j :: 0 <= i <= j < |trace| ==> trace[i].at <= trace[j].at
  }

  function Clock(start: real, trace: seq<Reply>): real {
    if trace == [] then start else trace[|trace| - 1].at
  }

  // ----- The rate over every window -----

  /** Replies of a trace admitted between `a` and `b`: from `sender`, or from anyone. */
  function Admitted(g: Ingress, trace: seq<Reply>, sender: Option<string>, a: real, b: real): nat {
    if trace == [] then 0
    else
      var n := |trace| - 1;
      Admitted(g, trace[..n], sender, a, b)
      + (if RefusalAt(g, trace, n) == None && Counts(trace[n], sender, a, b) then 1 else 0)
  }

  predicate Counts(r: Reply, sender: Option<string>, a: real, b: real) {
    (sender == None || sender == Some(r.sender)) && a <= r.at <= b
  }

  /** What bounds the admissions of a window: those so far, and the tokens left to
      admit more, never exceed the burst and what the window has refilled. */
  predicate Bounded(bk: Bucket, admitted: nat, a: real, b: real) {
    && bk.perSecond >= 0.0
    && 0.0 <= bk.tokens <= bk.burst
    && (bk.last < a ==> admitted == 0)
    && (a <= bk.last <= b ==> admitted as real + bk.tokens <= bk.burst + (bk.last - a) * bk.perSecond)
    && admitted as real <= bk.burst + (b - a) * bk.perSecond
  }

  lemma RefillBounded(bk: Bucket, admitted: nat, a: real, b: real, now: real)
    requires a <= b && Bounded(bk, admitted, a, b) && bk.last <= now
    ensures Bounded(Refilled(bk, now), admitted, a, b)
  {
    Monotone(now - bk.last, bk.perSecond);
    if a <= now {
      Monotone(now - a, bk.perSecond);
    }
    assert (now - bk.last) * bk.perSecond + (bk.last - a) * bk.perSecond == (now - a) * bk.perSecond;
  }

  lemma Monotone(d: real, rate: real)
    requires d >= 0.0 && rate >= 0.0
    ensures d * rate >= 0.0
  {
  }

  lemma SpendBounded(bk: Bucket, admitted: nat, a: real, b: real)
    requires a <= b && Bounded(bk, admitted, a, b) && bk.tokens >= 1.0
    ensures Bounded(Spent(bk), if a <= bk.last <= b then admitted + 1 else admitted, a, b)
  {
    if a <= bk.last <= b {
      Monotone(b - bk.last, bk.perSecond);
      assert (b - bk.last) * bk.perSecond + (bk.last - a) * bk.perSecond == (b - a) * bk.perSecond;
    }
  }

  /** Every bucket was last asked no later than `now`. */
  ghost predicate Asked(g: Ingress, now: real) {
    g.all.last <= now && forall s :: s in g.senders ==> g.senders[s].last <= now
  }

  /** What one decision does to a bucket: leaves it, asks it, or spends from it. */
  predicate BucketStep(bk: Bucket, bk': Bucket, now: real, spent: bool) {
    if spent then Refilled(bk, now).tokens >= 1.0 && bk' == Spent(Refilled(bk, now))
    else bk' == bk || bk' == Refilled(bk, now)
  }

  lemma DecideSteps(g: Ingress, r: Reply)
    ensures var o := Decide(g, r);
            && o.ingress.senders.Keys == g.senders.Keys
            && BucketStep(g.all, o.ingress.all, r.at, o.refusal == None)
            && (forall s :: s in g.senders ==>
                  BucketStep(g.senders[s], o.ingress.senders[s], r.at, o.refusal == None && s == r.sender))
  {
  }

  lemma StepBounded(bk: Bucket, bk': Bucket, now: real, spent: bool, admitted: nat, a: real, b: real)
    requires a <= b && Bounded(bk, admitted, a, b) && bk.last <= now && BucketStep(bk, bk', now, spent)
    ensures Bounded(bk', admitted + (if spent && a <= now <= b then 1 else 0), a, b) && bk'.last <= now
  {
    RefillBounded(bk, admitted, a, b, now);
    if spent {
      SpendBounded(Refilled(bk, now), admitted, a, b);
    }
  }

  lemma TimelyPrefix(start: real, trace: seq<Reply>)
    requires trace != [] && Timely(start, trace)
    ensures Timely(start, trace[..|trace| - 1]) && Clock(start, trace[..|trace| - 1]) <= trace[|trace| - 1].at
  {
    var n := |trace| - 1;
    assert n > 0 ==> trace[n - 1].at <= trace[n].at;
  }

  lemma {:induction false} AskedAfter(allowed: set<string>, start: real, trace: seq<Reply>)
    requires Timely(start, trace)
    ensures After(Opened(allowed, start), trace).senders.Keys == allowed
    ensures Asked(After(Opened(allowed, start), trace), Clock(start, trace))
  {
    if trace != [] {
      hide Level;
      var n := |trace| - 1;
      TimelyPrefix(start, trace);
      AskedAfter(allowed, start, trace[..n]);
      DecideSteps(After(Opened(allowed, start), trace[..n]), trace[n]);
    }
  }

  lemma {:induction false} AllBounded(allowed: set<string>, start: real, trace: seq<Reply>, a: real, b: real)
    requires Timely(start, trace) && a <= b
    ensures var g := Opened(allowed, start); Bounded(After(g, trace).all, Admitted(g, trace, None, a, b), a, b)
  {
    var g := Opened(allowed, start);
    if trace == [] {
      FullBounded(ALL_PER_MINUTE, ALL_BURST, start, a, b);
    } else {
      hide Decide, Bounded, BucketStep, Opened;
      var n := |trace| - 1;
      var h := After(g, trace[..n]);
      TimelyPrefix(start, trace);
      AllBounded(allowed, start, trace[..n], a, b);
      AskedAfter(allowed, start, trace[..n]);
      DecideSteps(h, trace[n]);
      StepBounded(h.all, After(g, trace).all, trace[n].at, RefusalAt(g, trace, n) == None,
                  Admitted(g, trace[..n], None, a, b), a, b);
    }
  }

  lemma {:induction false} SenderBounded(
    allowed: set<string>, start: real, trace: seq<Reply>, s: string, a: real, b: real)
    requires Timely(start, trace) && a <= b && s in allowed
    ensures var g := Opened(allowed, start);
            && s in After(g, trace).senders
            && Bounded(After(g, trace).senders[s], Admitted(g, trace, Some(s), a, b), a, b)
  {
    var g := Opened(allowed, start);
    if trace == [] {
      FullBounded(SENDER_PER_MINUTE, SENDER_BURST, start, a, b);
    } else {
      hide Decide, Bounded, BucketStep, Opened;
      var n := |trace| - 1;
      var h := After(g, trace[..n]);
      TimelyPrefix(start, trace);
      SenderBounded(allowed, start, trace[..n], s, a, b);
      AskedAfter(allowed, start, trace[..n]);
      DecideSteps(h, trace[n]);
      StepBounded(h.senders[s], After(g, trace).senders[s], trace[n].at,
                  RefusalAt(g, trace, n) == None && s == trace[n].sender,
                  Admitted(g, trace[..n], Some(s), a, b), a, b);
    }
  }

  lemma FullBounded(perMinute: real, burst: nat, start: real, a: real, b: real)
    requires perMinute > 0.0 && a <= b
    ensures Bounded(FullBucket(perMinute, burst, start), 0, a, b)
  {
    var rate := perMinute / 60.0;
    Monotone(b - a, rate);
    if a <= start {
      Monotone(start - a, rate);
    }
  }

  /** In any window of T seconds one sender has at most 5 + T/6 replies admitted,
      and all senders together at most 10 + T/2. */
  lemma RateBound(allowed: set<string>, start: real, trace: seq<Reply>, sender: string, a: real, b: real)
    requires Timely(start, trace) && a <= b
    ensures Admitted(Opened(allowed, start), trace, Some(sender), a, b) as real <= 5.0 + (b - a) / 6.0
    ensures Admitted(Opened(allowed, start), trace, None, a, b) as real <= 10.0 + (b - a) / 2.0
  {
    AllBounded(allowed, start, trace, a, b);
    RatesKept(allowed, start, trace);
    if sender in allowed {
      SenderBounded(allowed, start, trace, sender, a, b);
    } else {
      StrangersNever(allowed, start, trace, sender, a, b);
    }
  }

  /** Neither a bucket's rate nor its burst ever changes. */
  lemma {:induction false} RatesKept(allowed: set<string>, start: real, trace: seq<Reply>)
    ensures var h := After(Opened(allowed, start), trace);
            && h.senders.Keys == allowed
            && h.all.perSecond == 30.0 / 60.0 && h.all.burst == 10.0
            && (forall s :: s in allowed ==> h.senders[s].perSecond == 10.0 / 60.0 && h.senders[s].burst == 5.0)
  {
    if trace != [] {
      RatesKept(allowed, start, trace[..|trace| - 1]);
      DecideSteps(After(Opened(allowed, start), trace[..|trace| - 1]), trace[|trace| - 1]);
    }
  }

  lemma {:induction false} StrangersNever(
    allowed: set<string>, start: real, trace: seq<Reply>, sender: string, a: real, b: real)
    requires sender !in allowed
    ensures Admitted(Opened(allowed, start), trace, Some(sender), a, b) == 0
  {
    if trace != [] {
      StrangersNever(allowed, start, trace[..|trace| - 1], sender, a, b);
      RatesKept(allowed, start, trace[..|trace| - 1]);
    }
  }

  // ----- Refused replies are inert -----

  /** From `now` on the two buckets answer alike. */
  predicate Alike(b: Bucket, c: Bucket, now: real) {
    && b.burst == c.burst && b.perSecond == c.perSecond && b.perSecond >= 0.0
    && b.last <= now && c.last <= now
    && Level(b, now) == Level(c, now)
  }

  /** Refilling twice is refilling once. */
  lemma SplitRefill(b: Bucket, now: real, later: real)
    requires b.perSecond >= 0.0 && b.last <= now <= later
    ensures Level(Refilled(b, now), later) == Level(b, later)
  {
    Monotone(later - now, b.perSecond);
    assert (later - now) * b.perSecond + (now - b.last) * b.perSecond == (later - b.last) * b.perSecond;
  }

  lemma AlikeLater(b: Bucket, c: Bucket, now: real, later: real)
    requires Alike(b, c, now) && now <= later
    ensures Alike(b, c, later) && Refilled(b, later) == Refilled(c, later)
  {
    SplitRefill(b, now, later);
    SplitRefill(c, now, later);
    assert Refilled(b, now) == Refilled(c, now);
  }

  ghost predicate AlikeIngress(g: Ingress, h: Ingress, now: real) {
    && g.senders.Keys == h.senders.Keys
    && Alike(g.all, h.all, now)
    && forall s :: s in g.senders ==> Alike(g.senders[s], h.senders[s], now)
  }

  lemma AlikeDecides(g: Ingress, h: Ingress, r: Reply, now: real)
    requires AlikeIngress(g, h, now) && now <= r.at
    ensures Decide(g, r).refusal == Decide(h, r).refusal
    ensures AlikeIngress(Decide(g, r).ingress, Decide(h, r).ingress, r.at)
  {
    AlikeLater(g.all, h.all, now, r.at);
    forall s | s in g.senders
      ensures Alike(g.senders[s], h.senders[s], r.at) && Refilled(g.senders[s], r.at) == Refilled(h.senders[s], r.at)
    {
      AlikeLater(g.senders[s], h.senders[s], now, r.at);
    }
    hide Level;
    assert Decide(g, r).ingress.senders.Keys == g.senders.Keys;
    assert Decide(h, r).ingress.senders.Keys == h.senders.Keys;
  }

  /** A refused reply leaves every bucket answering as it would have. */
  lemma RefusalAlike(g: Ingress, r: Reply)
    requires Asked(g, r.at) && g.all.perSecond >= 0.0
    requires forall s :: s in g.senders ==> g.senders[s].perSecond >= 0.0
    requires Decide(g, r).refusal != None
    ensures AlikeIngress(g, Decide(g, r).ingress, r.at)
  {
    var h := Decide(g, r).ingress;
    DecideSteps(g, r);
    hide Decide;
    forall s | s in g.senders ensures Alike(g.senders[s], h.senders[s], r.at) {
      SplitRefill(g.senders[s], r.at, r.at);
    }
    SplitRefill(g.all, r.at, r.at);
  }

  lemma {:induction false} AlikeThroughout(g: Ingress, h: Ingress, later: seq<Reply>, now: real)
    requires AlikeIngress(g, h, now) && Timely(now, later)
    ensures AlikeIngress(After(g, later), After(h, later), Clock(now, later))
    ensures forall k :: 0 <= k < |later| ==> RefusalAt(g, later, k) == RefusalAt(h, later, k)
  {
    if later != [] {
      hide Decide, AlikeIngress;
      var n := |later| - 1;
      AlikeThroughout(g, h, later[..n], now);
      assert n > 0 ==> later[n - 1].at <= later[n].at;
      AlikeDecides(After(g, later[..n]), After(h, later[..n]), later[n], Clock(now, later[..n]));
      forall k | 0 <= k < |later| ensures RefusalAt(g, later, k) == RefusalAt(h, later, k) {
        if k < n {
          assert later[..n][..k] == later[..k];
          assert RefusalAt(g, later[..n], k) == RefusalAt(h, later[..n], k);
        }
      }
    }
  }

  lemma {:induction false} AfterAppend(g: Ingress, before: seq<Reply>, later: seq<Reply>)
    ensures After(g, before + later) == After(After(g, before), later)
    decreases |later|
  {
    if later == [] {
      assert before + later == before;
    } else {
      var all := before + later;
      assert all[..|all| - 1] == before + later[..|later| - 1];
      AfterAppend(g, before, later[..|later| - 1]);
    }
  }

  /** Deleting a refused reply from a trace leaves every later decision as it was. */
  lemma RefusedRepliesAreInert(
    allowed: set<string>, start: real, before: seq<Reply>, refused: Reply, later: seq<Reply>, k: nat)
    requires Timely(start, before + [refused] + later) && k < |later|
    requires RefusalAt(Opened(allowed, start), before + [refused] + later, |before|) != None
    ensures RefusalAt(Opened(allowed, start), before + [refused] + later, |before| + 1 + k)
            == RefusalAt(Opened(allowed, start), before + later, |before| + k)
  {
    var g := Opened(allowed, start);
    var whole := before + [refused] + later;
    assert whole[..|before|] == before && whole[|before|] == refused;
    assert whole[..|before| + 1 + k] == (before + [refused]) + later[..k] && whole[|before| + 1 + k] == later[k];
    assert (before + later)[..|before| + k] == before + later[..k] && (before + later)[|before| + k] == later[k];
    var at := After(g, before);
    assert (before + [refused])[..|before|] == before;
    assert After(g, before + [refused]) == Decide(at, refused).ingress;
    AfterAppend(g, before + [refused], later[..k]);
    AfterAppend(g, before, later[..k]);
    TimelyParts(start, before, refused, later);
    AskedAfter(allowed, start, before);
    RatesKept(allowed, start, before);
    AskedLater(at, Clock(start, before), refused.at);
    RefusalAlike(at, refused);
    AlikeThroughout(at, Decide(at, refused).ingress, later, refused.at);
    assert RefusalAt(at, later, k) == RefusalAt(Decide(at, refused).ingress, later, k);
  }

  lemma TimelyParts(start: real, before: seq<Reply>, r: Reply, later: seq<Reply>)
    requires Timely(start, before + [r] + later)
    ensures Timely(start, before) && Clock(start, before) <= r.at && Timely(r.at, later)
  {
    var whole := before + [r] + later;
    assert forall i :: 0 <= i < |before| ==> whole[i] == before[i];
    assert whole[|before|] == r;
    assert forall i :: 0 <= i < |later| ==> whole[|before| + 1 + i] == later[i];
    forall i, j | 0 <= i <= j < |later| ensures later[i].at <= later[j].at {
      assert whole[|before| + 1 + i].at <= whole[|before| + 1 + j].at;
    }
  }

  lemma AskedLater(g: Ingress, now: real, later: real)
    requires Asked(g, now) && now <= later
    ensures Asked(g, later)
  {
  }

  // ----- Every refusal is counted -----

  function Refusals(g: Ingress, trace: seq<Reply>, why: Reason): nat {
    if trace == [] then 0
    else
      var n := |trace| - 1;
      Refusals(g, trace[..n], why) + (if RefusalAt(g, trace, n) == Some(why) then 1 else 0)
  }

  lemma DecideCounts(g: Ingress, r: Reply, why: Reason)
    requires why in g.refusals
    ensures var o := Decide(g, r);
            && why in o.ingress.refusals
            && o.ingress.refusals[why] == g.refusals[why] + (if o.refusal == Some(why) then 1 else 0)
  {
    hide Refilled, Spent;
  }

  lemma {:induction false} RefusalsCounted(allowed: set<string>, start: real, trace: seq<Reply>, why: Reason)
    ensures var g := Opened(allowed, start);
            && why in After(g, trace).refusals
            && After(g, trace).refusals[why] == Refusals(g, trace, why)
  {
    if trace == [] {
      EveryReason(why);
    } else {
      hide Decide, Opened;
      var n := |trace| - 1;
      RefusalsCounted(allowed, start, trace[..n], why);
      DecideCounts(After(Opened(allowed, start), trace[..n]), trace[n], why);
    }
  }
}
