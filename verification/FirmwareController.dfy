/** The firmware operator's handlers, each run while it holds the operation lock
    (ori/firmware_mqtt_operator.py:134-347). */
module FirmwareController {
  import opened Options
  import opened FirmwareCorrelations

  datatype Refusal = StaleCorrelation | CorrelationMismatch | DeviceResponseRefused | WorkflowFailed | StoreFailed

  datatype Answer = Issued(id: string) | Verified(id: string) | Refused(why: Refusal)

  /** What the workflow says of a device's response to a create_csr. */
  datatype Enrollment = Enrolled | ResponseInvalid | Failed

  /** What it says of a device's answer to any other request: a verdict, good or bad, that
      the answer itself carries; that the answer does not validate; or nothing. */
  datatype Verification = Checked | AnswerInvalid | NotChecked

  /** Why a correlation may not be used; None when it may. */
  function LoadRefusal(log: Log, id: string, kind: Kind): Option<Refusal> {
    if !Known(log, id) || Completed(id) in log then Some(StaleCorrelation)
    else if !Exists(log, id, kind) then Some(CorrelationMismatch)
    else None
  }

  class Controller {
    /** The store: rows, completions and uses in the order they happened. */
    var log: Log

    constructor ()
      ensures log == [] && Sound(log)
    {
      log := [];
      new;
    }

    /** The row with this correlation. */
    method GetRow(id: string) returns (row: Option<Row>)
      requires UniqueIds(log)
      ensures row.Some? <==> Known(log, id)
      ensures row.Some? ==> row.value.id == id && forall kind :: Exists(log, id, kind) <==> row.value.kind == kind
    {
      var k := 0;
      while k < |log|
        invariant 0 <= k <= |log|
        invariant forall i :: 0 <= i < k && log[i].Saved? ==> log[i].row.id != id
      {
        if log[k].Saved? && log[k].row.id == id {
          return Some(log[k].row);
        }
        k := k + 1;
      }
      return None;
    }

    method LoadIssued(id: string, expected: Kind) returns (refusal: Option<Refusal>)
      requires Sound(log)
      modifies this
      ensures refusal == LoadRefusal(old(log), id, expected)
      ensures refusal == Some(StaleCorrelation) <==> !Known(old(log), id) || Completed(id) in old(log)
      ensures refusal == Some(CorrelationMismatch)
              <==> Known(old(log), id) && Completed(id) !in old(log) && !Exists(old(log), id, expected)
      ensures refusal.None? <==> Loadable(old(log), id, expected)
      ensures log == (if refusal.None? then old(log) + [Used(id)] else old(log)) && Sound(log)
    {
      var row := GetRow(id);
      if row.None? {
        return Some(StaleCorrelation);
      }
      if Completed(id) in log {
        return Some(StaleCorrelation);
      }
      if row.value.kind != expected {
        return Some(CorrelationMismatch);
      }
      UseKeeps(log, id);
      log := log + [Used(id)];
      return None;
    }

    /** Create a request of its own: a certificate request, a revocation or a status query. */
    method Create(kind: Kind, signed: bool, id: string) returns (answer: Answer)
      requires Sound(log) && kind != Install
      modifies this
      ensures Sound(log)
      ensures answer == if !signed then Refused(WorkflowFailed)
                        else if Known(old(log), id) then Refused(StoreFailed) else Issued(id)
      ensures log == if answer.Issued? then old(log) + [Saved(Row(id, None, kind))] else old(log)
    {
      if !signed {
        return Refused(WorkflowFailed);
      }
      var taken := GetRow(id);
      if taken.Some? {
        return Refused(StoreFailed);
      }
      WriteKeeps(log, SaveRow(id, kind));
      log := log + [Saved(Row(id, None, kind))];
      return Issued(id);
    }

    /** Answer a create_csr with an install: saved with the completion of its parent, or
        only the completion when the device's response is refused. */
    method PrepareInstall(parent: string, enrollment: Enrollment, id: string) returns (answer: Answer)
      requires Sound(log)
      modifies this
      ensures Sound(log)
      ensures var refusal := LoadRefusal(old(log), parent, CreateCsr);
              var used := old(log) + [Used(parent)];
              if refusal.Some? then log == old(log) && answer == Refused(refusal.value)
              else match enrollment
                   case Failed => log == used && answer == Refused(WorkflowFailed)
                   case ResponseInvalid =>
                     log == used + [Completed(parent)] && answer == Refused(DeviceResponseRefused)
                   case Enrolled =>
                     if Known(old(log), id) then log == used && answer == Refused(StoreFailed)
                     else
                       && log == used + [Saved(Row(id, Some(parent), Install)), Completed(parent)]
                       && answer == Issued(id)
    {
      var refusal := LoadIssued(parent, CreateCsr);
      if refusal.Some? {
        return Refused(refusal.value);
      }
      ghost var used := log;
      UsedKnows(old(log), parent, parent, CreateCsr);
      UsedKnows(old(log), parent, id, CreateCsr);
      match enrollment {
        case Failed =>
          return Refused(WorkflowFailed);
        case ResponseInvalid =>
          WriteKeeps(log, Complete(parent));
          log := log + [Completed(parent)];
          return Refused(DeviceResponseRefused);
        case Enrolled =>
          var taken := GetRow(id);
          if taken.Some? {
            return Refused(StoreFailed);
          }
          WriteKeeps(log, SaveChild(id, parent));
          log := log + [Saved(Row(id, Some(parent), Install)), Completed(parent)];
          return Issued(id);
      }
    }

    /** Complete a request with the device's answer, once that is checked; an answer that
        does not validate leaves the request open. */
    method VerifyResponse(id: string, expected: Kind, verification: Verification) returns (answer: Answer)
      requires Sound(log)
      modifies this
      ensures Sound(log)
      ensures var refusal := LoadRefusal(old(log), id, expected);
              var used := old(log) + [Used(id)];
              if refusal.Some? then log == old(log) && answer == Refused(refusal.value)
              else match verification
                   case Checked => log == used + [Completed(id)] && answer == Verified(id)
                   case AnswerInvalid => log == used && answer == Refused(DeviceResponseRefused)
                   case NotChecked => log == used && answer == Refused(WorkflowFailed)
    {
      var refusal := LoadIssued(id, expected);
      if refusal.Some? {
        return Refused(refusal.value);
      }
      match verification {
        case AnswerInvalid =>
          return Refused(DeviceResponseRefused);
        case NotChecked =>
          return Refused(WorkflowFailed);
        case Checked =>
          WriteKeeps(log, Complete(id));
          log := log + [Completed(id)];
          return Verified(id);
      }
    }
  }
}
