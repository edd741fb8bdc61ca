/** The server's fields, updated in place by the stretches of code between awaits
    (ori/operator_socket.py:882-1048, ori/security/approvers/service.py:110-124). */
module SocketServer {
  import opened SocketProtocol

  class RegistryService {
    var inFlight: bool

    constructor ()
      ensures !inFlight
    {
      inFlight := false;
    }

    method TryAdmit() returns (admitted: bool)
      modifies this
      ensures admitted == !old(inFlight) && inFlight
    {
      if inFlight {
        return false;
      }
      inFlight := true;
      return true;
    }

    method Release()
      modifies this
      ensures !inFlight
    {
      inFlight := false;
    }
  }

  datatype Admission = Busy | Cancelled | Begun

  class OperatorSocketServer {
    var closing: bool
    var appends: set<Task>
    const registry: RegistryService

    function Value(): Fields
      reads this, registry
    {
      Fields(closing, appends, registry.inFlight)
    }

    constructor (registry: RegistryService)
      ensures this.registry == registry && Value() == INITIAL.fields.(inFlight := registry.inFlight)
    {
      closing, appends := false, {};
      this.registry := registry;
    }

    method BeginAppend(c: ConnId) returns (admission: Admission)
      modifies this
      ensures Value() == AfterAppendCheck(old(Value()), c)
      ensures admission == (if old(closing) then Cancelled else Begun)
    {
      if closing {
        return Cancelled;
      }
      appends := appends + {Append(c)};
      return Begun;
    }

    method BeginRegistryOperation(c: ConnId) returns (admission: Admission)
      modifies this, registry
      ensures Value() == AfterServeCheck(old(Value()), c)
      ensures admission == (if old(registry.inFlight) then Busy else if old(closing) then Cancelled else Begun)
    {
      var admitted := registry.TryAdmit();
      if !admitted {
        return Busy;
      }
      if closing {
        registry.Release();
        return Cancelled;
      }
      appends := appends + {Served(c), Holder(c)};
      return Begun;
    }

    /** The end of the holder of connection `conn`, once its two waits are over. */
    method ReleaseSlot(ghost conn: Conn)
      requires registry.inFlight
      requires ConnNext(Value(), conn, FinishHolder(0)).Some?
      modifies registry
      ensures Value() == old(Value()).(inFlight := false)
      ensures forall c :: Value() == FieldsNext(old(Value()), FinishHolder(c))
    {
      registry.Release();
    }

    method Discard(t: Task)
      modifies this
      ensures Value() == old(Value()).(appends := old(appends) - {t})
    {
      appends := appends - {t};
    }

    method BeginClose()
      modifies this
      ensures Value() == old(Value()).(closing := true)
    {
      closing := true;
    }
  }
}
