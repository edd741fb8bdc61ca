/** Commissioned coil commands and the levels they drive, as values
    (ori/actions/commissioned_actuator.py:73-220, ori/actions/relay.py:226-439). */
module CoilSeam {
  import opened Options

  datatype Level = High | Low

  const ENERGISED := "energised"
  const DE_ENERGISED := "de_energised"
  const OPEN_CIRCUIT := "open_protected_circuit"
  const CLOSE_CIRCUIT := "close_protected_circuit"

  datatype Zone = Zone(activeHigh: bool, mapping: map<string, string>, bindingSeq: nat)

  datatype Actuation = Actuation(outcome: string, coilState: string, level: Level, bindingSeq: nat, executed: bool)

  /** The relay driver; `polarity` is that of the output device it holds, if any. */
  datatype Driver = Driver(connected: bool, simulated: bool, simState: bool, polarity: Option<bool>)

  /** The driver, every level driven on the pin, and every actuation recorded. */
  datatype World = World(driver: Driver, driven: seq<Level>, records: seq<Actuation>)

  /** How taking the line goes: it is taken, the backend is missing, or the device refuses. */
  datatype Taking = Took | BackendMissing | DeviceRefused

  /** `fault` says whether the output device raises when it is driven. */
  datatype Call =
    | CommandCoil(coilState: string, reason: string, fault: bool)
    | Command(outcome: string, fault: bool)
    | AcquireCoil(coilState: string, reason: string, taking: Taking)
    | AcquireCommanding(outcome: string, taking: Taking)
    | Disconnect

  datatype Answer = Returned(executed: bool) | Raised

  datatype Done = Done(world: World, answer: Answer)

  predicate IsCoilState(s: string) {
    s == ENERGISED || s == DE_ENERGISED
  }

  /** Where the zone's mapping sends an outcome; None for what is no outcome, or is sent
      nowhere a coil can be. */
  function CoilStateFor(zone: Zone, outcome: string): (state: Option<string>)
    ensures state.Some? <==> && outcome in {"open_protected_circuit", "close_protected_circuit"}
                             && outcome in zone.mapping && zone.mapping[outcome] in {"energised", "de_energised"}
    ensures state.Some? ==> IsCoilState(state.value) && outcome in zone.mapping && zone.mapping[outcome] == state.value
  {
    if outcome != OPEN_CIRCUIT && outcome != CLOSE_CIRCUIT then None
    else if outcome in zone.mapping && IsCoilState(zone.mapping[outcome]) then Some(zone.mapping[outcome])
    else None
  }

  /** High energises an active-high stage and low an active-low one. */
  function LevelOf(energised: bool, activeHigh: bool): (level: Level)
    ensures activeHigh ==> (level == High <==> energised)
    ensures !activeHigh ==> (level == High <==> !energised)
  {
    if energised == activeHigh then High else Low
  }

  function LevelFor(zone: Zone, coilState: string): Level {
    LevelOf(coilState == ENERGISED, zone.activeHigh)
  }

  // ----- The driver -----

  datatype Driven = Driven(driver: Driver, levels: seq<Level>, ok: bool)

  /** Trigger or release the relay: `ok` is what the driver reports. */
  function Switch(d: Driver, on: bool, fault: bool): Driven {
    if !d.connected then Driven(d, [], false)
    else if d.simulated then Driven(d.(simState := on), [], true)
    else if d.polarity == None || fault then Driven(d, [], false)
    else Driven(d, [LevelOf(on, d.polarity.value)], true)
  }

  /** Take the line at a coil state; not `ok` when it raises. */
  function Take(d: Driver, activeHigh: bool, coilState: string, tolerate: bool, taking: Taking): Driven {
    if !IsCoilState(coilState) then Driven(d, [], false)
    else
      match taking
      case DeviceRefused => Driven(d, [], false)
      case Took =>
        Driven(Driver(true, false, d.simState, Some(activeHigh)), [LevelOf(coilState == ENERGISED, activeHigh)], true)
      case BackendMissing =>
        if tolerate then Driven(Driver(true, true, d.simState, None), [], true)
        else Driven(Driver(false, false, d.simState, None), [], false)
  }

  function Surrendered(d: Driver): Driver {
    Driver(false, false, d.simState, None)
  }

  // ----- The seam -----

  function Commanded(zone: Zone, w: World, coilState: string, reason: string, fault: bool): Done {
    if !IsCoilState(coilState) then Done(w, Raised)
    else
      var r := Switch(w.driver, coilState == ENERGISED, fault);
      var record := Actuation(reason, coilState, LevelFor(zone, coilState), zone.bindingSeq, r.ok);
      Done(World(r.driver, w.driven + r.levels, w.records + [record]), Returned(r.ok))
  }

  function Acquired(zone: Zone, w: World, coilState: string, reason: string, taking: Taking): Done {
    var r := Take(w.driver, zone.activeHigh, coilState, false, taking);
    if !r.ok then Done(World(r.driver, w.driven + r.levels, w.records), Raised)
    else
      var executed := !r.driver.simulated;
      var record := Actuation(reason, coilState, LevelFor(zone, coilState), zone.bindingSeq, executed);
      Done(World(r.driver, w.driven + r.levels, w.records + [record]), Returned(executed))
  }

  function Act(zone: Zone, w: World, c: Call): Done {
    match c
    case CommandCoil(coilState, reason, fault) => Commanded(zone, w, coilState, reason, fault)
    case Command(outcome, fault) =>
      var state := CoilStateFor(zone, outcome);
      if state == None then Done(w, Raised) else Commanded(zone, w, state.value, outcome, fault)
    case AcquireCoil(coilState, reason, taking) => Acquired(zone, w, coilState, reason, taking)
    case AcquireCommanding(outcome, taking) =>
      var state := CoilStateFor(zone, outcome);
      if state == None then Done(w, Raised) else Acquired(zone, w, state.value, outcome, taking)
    case Disconnect => Done(w.(driver := Surrendered(w.driver)), Returned(true))
  }

  function ActAll(zone: Zone, w: World, calls: seq<Call>): World {
    if calls == [] then w
    else Act(zone, ActAll(zone, w, calls[..|calls| - 1]), calls[|calls| - 1]).world
  }

  // ----- What was driven is what was recorded -----

  /** The levels of the actuations recorded as executed. */
  function ExecutedLevels(records: seq<Actuation>): seq<Level> {
    if records == [] then []
    else
      var n := |records| - 1;
      ExecutedLevels(records[..n]) + (if records[n].executed then [records[n].level] else [])
  }

  lemma {:induction false} ExecutedLevelsAppend(a: seq<Actuation>, b: seq<Actuation>)
    ensures ExecutedLevels(a + b) == ExecutedLevels(a) + ExecutedLevels(b)
    decreases |b|
  {
    if b == [] {
      assert a + b == a;
    } else {
      var n := |b| - 1;
      assert (a + b)[..|a + b| - 1] == a + b[..n];
      ExecutedLevelsAppend(a, b[..n]);
    }
  }

  /** The driver holds no simulated line, and what it holds has the zone's polarity. */
  predicate Ready(zone: Zone, d: Driver) {
    !d.simulated && (d.polarity.Some? ==> d.polarity.value == zone.activeHigh)
  }

  /** The coil state a call would put the coil in. */
  function Target(zone: Zone, c: Call): Option<string> {
    match c
    case CommandCoil(coilState, _, _) => if IsCoilState(coilState) then Some(coilState) else None
    case AcquireCoil(coilState, _, _) => if IsCoilState(coilState) then Some(coilState) else None
    case Command(outcome, _) => CoilStateFor(zone, outcome)
    case AcquireCommanding(outcome, _) => CoilStateFor(zone, outcome)
    case Disconnect => None
  }

  /** The levels driven and the records left, from one world to another, come to the same. */
  predicate Matches(before: World, after: World) {
    && before.driven <= after.driven && before.records <= after.records
    && after.driven[|before.driven|..] == ExecutedLevels(after.records[|before.records|..])
  }

  predicate Faithful(zone: Zone, w: World, c: Call) {
    Matches(w, Act(zone, w, c).world)
  }

  lemma CommandedExactly(zone: Zone, w: World, coilState: string, reason: string, fault: bool)
    ensures Matches(w, Commanded(zone, w, coilState, reason, fault).world)
            <==> !(IsCoilState(coilState) && w.driver.connected
                   && (w.driver.simulated || (w.driver.polarity == Some(!zone.activeHigh) && !fault)))
  {
    var after := Commanded(zone, w, coilState, reason, fault).world;
    NewRecords(w.records, after.records);
    assert w.driven <= after.driven;
    hide IsCoilState;
  }

  lemma AcquiredMatches(zone: Zone, w: World, coilState: string, reason: string, taking: Taking)
    ensures Matches(w, Acquired(zone, w, coilState, reason, taking).world)
  {
    var after := Acquired(zone, w, coilState, reason, taking).world;
    NewRecords(w.records, after.records);
    assert w.driven <= after.driven;
    hide IsCoilState;
  }

  predicate IsCommand(c: Call) {
    c.CommandCoil? || c.Command?
  }

  /** Exactly when a call is recorded as it was driven, whatever the driver's state: always,
      but for a command that reaches a simulated line, or a line of the other polarity that
      takes it. */
  lemma FaithfulExactly(zone: Zone, w: World, c: Call)
    ensures Faithful(zone, w, c)
            <==> !(IsCommand(c) && Target(zone, c).Some? && w.driver.connected
                   && (w.driver.simulated || (w.driver.polarity == Some(!zone.activeHigh) && !c.fault)))
  {
    hide Commanded, Acquired, Matches;
    match c
    case CommandCoil(coilState, reason, fault) =>
      CommandedExactly(zone, w, coilState, reason, fault);
    case Command(outcome, fault) =>
      if CoilStateFor(zone, outcome).Some? {
        CommandedExactly(zone, w, CoilStateFor(zone, outcome).value, outcome, fault);
      } else {
        NothingMatches(w);
      }
    case AcquireCoil(coilState, reason, taking) =>
      AcquiredMatches(zone, w, coilState, reason, taking);
    case AcquireCommanding(outcome, taking) =>
      if CoilStateFor(zone, outcome).Some? {
        AcquiredMatches(zone, w, CoilStateFor(zone, outcome).value, outcome, taking);
      } else {
        NothingMatches(w);
      }
    case Disconnect =>
      NothingMatches(w);
  }

  /** A line simulated for want of a backend, commanded: nothing is driven, and the command
      is recorded as executed. */
  lemma SimulatedIsRecorded(zone: Zone, reason: string, fault: bool)
    ensures var taken := Take(Driver(false, false, false, None), zone.activeHigh, DE_ENERGISED, true, BackendMissing);
            var w := World(taken.driver, [], []);
            var after := Act(zone, w, CommandCoil(ENERGISED, reason, fault)).world;
            && taken.ok && after.driven == [] && ExecutedLevels(after.records) == [LevelFor(zone, ENERGISED)]
            && !Faithful(zone, w, CommandCoil(ENERGISED, reason, fault))
  {
    var taken := Take(Driver(false, false, false, None), zone.activeHigh, DE_ENERGISED, true, BackendMissing);
    var w := World(taken.driver, [], []);
    var after := Act(zone, w, CommandCoil(ENERGISED, reason, fault)).world;
    NewRecords(w.records, after.records);
    assert after.records[0..] == after.records;
    FaithfulExactly(zone, w, CommandCoil(ENERGISED, reason, fault));
  }

  lemma NothingMatches(w: World)
    ensures Matches(w, w) && Matches(w, w.(driver := Surrendered(w.driver)))
  {
  }

  lemma NewRecords(before: seq<Actuation>, after: seq<Actuation>)
    requires before <= after && |after| <= |before| + 1
    ensures |after| == |before| ==> ExecutedLevels(after[|before|..]) == []
    ensures |after| > |before| ==>
              ExecutedLevels(after[|before|..]) == if after[|before|].executed then [after[|before|].level] else []
  {
    var more := after[|before|..];
    if more != [] {
      assert more[..0] == [];
    }
  }

  /** One call on a line that is ready: at most one level is driven, it is the level of the
      coil state asked for, never the opposite first, and the line stays ready. */
  lemma OneLevelEach(zone: Zone, w: World, c: Call)
    requires Ready(zone, w.driver)
    ensures var r := Act(zone, w, c);
            && Ready(zone, r.world.driver) && Faithful(zone, w, c)
            && (r.world.driven == w.driven
                || (Target(zone, c).Some? && r.world.driven == w.driven + [LevelFor(zone, Target(zone, c).value)]))
            && (c != Disconnect && r.answer == Returned(true) ==> r.world.driven != w.driven)
  {
    FaithfulExactly(zone, w, c);
    hide CoilStateFor, IsCoilState, Matches;
  }

  /** What a call leaves, from any state of the driver.  Asked for no coil state, it raises and
      leaves everything.  A command drives the line exactly when the driver holds one and it
      does not fault, and is recorded however it went; an acquisition drives the line exactly
      when it takes it, and is recorded only then.  The record names what was asked for. */
  lemma CallExactly(zone: Zone, w: World, c: Call)
    requires c != Disconnect
    ensures var r, d := Act(zone, w, c), w.driver;
            match Target(zone, c)
            case None => r.answer == Raised && r.world == w
            case Some(state) =>
              var record := Actuation(Asked(c), state, LevelOf(state == "energised", zone.activeHigh), zone.bindingSeq,
                                      r.answer == Returned(true));
              if IsCommand(c) then
                && r.world.records == w.records + [record]
                && r.answer == Returned(d.connected && (d.simulated || (d.polarity.Some? && !c.fault)))
                && r.world.driven
                   == (if d.connected && !d.simulated && d.polarity.Some? && !c.fault
                       then w.driven + [LevelOf(state == "energised", d.polarity.value)] else w.driven)
              else
                && r.answer == (if c.taking == Took then Returned(true) else Raised)
                && r.world.driven == (if c.taking == Took then w.driven + [record.level] else w.driven)
                && r.world.records == (if c.taking == Took then w.records + [record] else w.records)
                && (c.taking == DeviceRefused ==> r.world.driver == d)
                && (c.taking == BackendMissing ==> r.world.driver == Surrendered(d))
  {
    assert CoilStateFor(zone, Asked(c)).Some? ==> IsCoilState(CoilStateFor(zone, Asked(c)).value);
    hide CoilStateFor, IsCoilState;
  }

  /** The outcome, or the reason given for a coil state. */
  function Asked(c: Call): string
    requires c != Disconnect
  {
    if c.Command? || c.AcquireCommanding? then c.outcome else c.reason
  }

  lemma MatchesJoin(w: World, mid: World, after: World)
    requires Matches(w, mid) && Matches(mid, after)
    ensures Matches(w, after)
  {
    hide ExecutedLevels;
    var r1, r2 := mid.records[|w.records|..], after.records[|mid.records|..];
    assert after.records[|w.records|..] == r1 + r2;
    assert after.driven[|w.driven|..] == mid.driven[|w.driven|..] + after.driven[|mid.driven|..];
    ExecutedLevelsAppend(r1, r2);
  }

  /** Over every sequence of commissioned calls on a line that is ready, the levels driven
      are the levels of the actuations recorded as executed, in order. */
  lemma {:induction false} DrivenIsRecorded(zone: Zone, w: World, calls: seq<Call>)
    requires Ready(zone, w.driver)
    ensures var after := ActAll(zone, w, calls);
            && Ready(zone, after.driver)
            && w.driven <= after.driven && w.records <= after.records
            && after.driven[|w.driven|..] == ExecutedLevels(after.records[|w.records|..])
            && |after.driven| <= |w.driven| + |calls|
    decreases |calls|
  {
    hide Act, Ready, ExecutedLevels;
    if calls == [] {
      NothingMatches(w);
    } else {
      var n := |calls| - 1;
      DrivenIsRecorded(zone, w, calls[..n]);
      var mid := ActAll(zone, w, calls[..n]);
      OneLevelEach(zone, mid, calls[n]);
      MatchesJoin(w, mid, ActAll(zone, w, calls));
    }
  }
}
