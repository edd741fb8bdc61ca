/** The relay driver and the commissioned actuator over it, as objects updated in place
    (ori/actions/relay.py:159-439, ori/actions/commissioned_actuator.py:73-220). */
module RelayObjects {
  import opened Options
  import opened CoilSeam

  /** A GPIO pin, with every level driven on it. */
  class Pin {
    var levels: seq<Level>

    constructor ()
      ensures levels == []
    {
      levels := [];
    }

    method Drive(level: Level)
      modifies this
      ensures levels == old(levels) + [level]
    {
      levels := levels + [level];
    }
  }

  /** An output device on a pin; making one drives the pin at its initial value. */
  class OutputDevice {
    const pin: Pin
    const activeHigh: bool

    constructor (pin: Pin, activeHigh: bool, initialValue: bool)
      modifies pin
      ensures this.pin == pin && this.activeHigh == activeHigh
      ensures pin.levels == old(pin.levels) + [LevelOf(initialValue, activeHigh)]
    {
      this.pin := pin;
      this.activeHigh := activeHigh;
      new;
      pin.Drive(LevelOf(initialValue, activeHigh));
    }

    method On()
      modifies pin
      ensures pin.levels == old(pin.levels) + [LevelOf(true, activeHigh)]
    {
      pin.Drive(if activeHigh then High else Low);
    }

    method Off()
      modifies pin
      ensures pin.levels == old(pin.levels) + [LevelOf(false, activeHigh)]
    {
      pin.Drive(if activeHigh then Low else High);
    }
  }

  class RelayAction {
    const pin: Pin
    var device: OutputDevice?
    var connected: bool
    var simulated: bool
    var simState: bool

    ghost predicate Valid()
      reads this
    {
      device != null ==> device.pin == pin
    }

    function Value(): Driver
      reads this
    {
      Driver(connected, simulated, simState, if device == null then None else Some(device.activeHigh))
    }

    constructor (pin: Pin)
      ensures Valid() && this.pin == pin && Value() == Driver(false, false, false, None)
    {
      this.pin := pin;
      device, connected, simulated, simState := null, false, false, false;
    }

    /** Take the line at a coil state, which drives it. */
    method TakeLine(activeHigh: bool, tolerateMissingBackend: bool, initialCoilState: string, taking: Taking)
      returns (ok: bool)
      requires Valid()
      modifies this, pin
      ensures Valid()
      ensures var r := Take(old(Value()), activeHigh, initialCoilState, tolerateMissingBackend, taking);
              Value() == r.driver && pin.levels == old(pin.levels) + r.levels && ok == r.ok
    {
      if initialCoilState != ENERGISED && initialCoilState != DE_ENERGISED {
        return false;
      }
      match taking {
        case DeviceRefused =>
          return false;
        case Took =>
          device := new OutputDevice(pin, activeHigh, initialCoilState == ENERGISED);
          simulated := false;
        case BackendMissing =>
          if !tolerateMissingBackend {
            device := null;
            simulated := false;
            connected := false;
            return false;
          }
          device := null;
          simulated := true;
      }
      connected := true;
      return true;
    }

    /** Switch the coil on, until told otherwise. */
    method Trigger(fault: bool) returns (ok: bool)
      requires Valid()
      modifies this, pin
      ensures Valid()
      ensures var r := Switch(old(Value()), true, fault);
              Value() == r.driver && pin.levels == old(pin.levels) + r.levels && ok == r.ok
    {
      if !connected {
        return false;
      }
      if simulated {
        simState := true;
        return true;
      }
      if device == null || fault {
        return false;
      }
      device.On();
      return true;
    }

    /** Switch the coil off. */
    method Release(fault: bool) returns (ok: bool)
      requires Valid()
      modifies this, pin
      ensures Valid()
      ensures var r := Switch(old(Value()), false, fault);
              Value() == r.driver && pin.levels == old(pin.levels) + r.levels && ok == r.ok
    {
      if !connected {
        return false;
      }
      if simulated {
        simState := false;
        return true;
      }
      if device == null || fault {
        return false;
      }
      device.Off();
      return true;
    }

    /** Surrender the line; nothing is driven. */
    method Disconnect()
      requires Valid()
      modifies this
      ensures Valid() && Value() == Surrendered(old(Value()))
    {
      device, connected, simulated := null, false, false;
    }
  }

  class CommissionedActuator {
    const driver: RelayAction
    const zone: Zone
    var last: Option<Actuation>
    /** One log line for each actuation. */
    var records: seq<Actuation>

    ghost predicate Valid()
      reads this, driver
    {
      driver.Valid() && last == (if records == [] then None else Some(records[|records| - 1]))
    }

    function Value(): World
      reads this, driver, driver.pin
    {
      World(driver.Value(), driver.pin.levels, records)
    }

    constructor (driver: RelayAction, zone: Zone)
      requires driver.Valid()
      ensures Valid() && this.driver == driver && this.zone == zone && last == None
      ensures Value() == World(driver.Value(), driver.pin.levels, [])
    {
      this.driver := driver;
      this.zone := zone;
      last := None;
      records := [];
    }

    method Record(outcome: string, coilState: string, executed: bool)
      requires Valid()
      modifies this
      ensures Valid()
      ensures var record := Actuation(outcome, coilState, LevelFor(zone, coilState), zone.bindingSeq, executed);
              last == Some(record) && records == old(records) + [record]
    {
      var record := Actuation(outcome, coilState, LevelFor(zone, coilState), zone.bindingSeq, executed);
      last := Some(record);
      records := records + [record];
    }

    /** Switch the line that is held, and record the attempt whether or not it succeeded. */
    method CommandCoil(coilState: string, reason: string, fault: bool) returns (answer: Answer)
      requires Valid()
      modifies this, driver, driver.pin
      ensures Valid()
      ensures Done(Value(), answer) == Act(zone, old(Value()), CoilSeam.CommandCoil(coilState, reason, fault))
    {
      var executed: bool;
      if coilState == ENERGISED {
        executed := driver.Trigger(fault);
      } else if coilState == DE_ENERGISED {
        executed := driver.Release(fault);
      } else {
        return Raised;
      }
      Record(reason, coilState, executed);
      return Returned(executed);
    }

    /** Switch to the coil state the zone maps the outcome to; an unmapped one does nothing. */
    method Command(outcome: string, fault: bool) returns (answer: Answer)
      requires Valid()
      modifies this, driver, driver.pin
      ensures Valid()
      ensures Done(Value(), answer) == Act(zone, old(Value()), CoilSeam.Command(outcome, fault))
    {
      var state := CoilStateFor(zone, outcome);
      if state == None {
        return Raised;
      }
      answer := CommandCoil(state.value, outcome, fault);
    }

    /** Take the line with its first level already the one asked for; only success is recorded. */
    method AcquireCoil(coilState: string, reason: string, taking: Taking) returns (answer: Answer)
      requires Valid()
      modifies this, driver, driver.pin
      ensures Valid()
      ensures Done(Value(), answer) == Act(zone, old(Value()), CoilSeam.AcquireCoil(coilState, reason, taking))
    {
      var ok := driver.TakeLine(zone.activeHigh, false, coilState, taking);
      if !ok {
        return Raised;
      }
      var executed := !driver.simulated;
      Record(reason, coilState, executed);
      return Returned(executed);
    }

    /** The same, at the coil state the zone maps the outcome to. */
    method AcquireCommanding(outcome: string, taking: Taking) returns (answer: Answer)
      requires Valid()
      modifies this, driver, driver.pin
      ensures Valid()
      ensures Done(Value(), answer) == Act(zone, old(Value()), CoilSeam.AcquireCommanding(outcome, taking))
    {
      var state := CoilStateFor(zone, outcome);
      if state == None {
        return Raised;
      }
      answer := AcquireCoil(state.value, outcome, taking);
    }
  }
}
