/** Single-use correlations of the firmware operator, for every interleaving of concurrent
    requests (ori/firmware_mqtt_operator.py:109-114, 134-313). */
module FirmwareCorrelations {
  import opened Options

  datatype Kind = CreateCsr | Install | Revoke | Status

  datatype Row = Row(id: string, parent: Option<string>, kind: Kind)

  /** What the store has recorded, and the correlations handlers went on to use, in the
      order they happened. */
  datatype Act = Saved(row: Row) | Completed(id: string) | Used(id: string)

  type Log = seq<Act>

  predicate Exists(log: Log, id: string, kind: Kind) {
    exists k :: 0 <= k < |log| && log[k].Saved? && log[k].row.id == id && log[k].row.kind == kind
  }

  predicate Known(log: Log, id: string) {
    exists k :: 0 <= k < |log| && log[k].Saved? && log[k].row.id == id
  }

  /** `_load_issued`: the row is there, is not completed and is of the expected kind. */
  predicate Loadable(log: Log, id: string, kind: Kind) {
    Exists(log, id, kind) && Completed(id) !in log
  }

  // ----- The property of the log -----

  /** Nothing is completed twice, nor used after it is completed. */
  ghost predicate SingleUse(log: Log) {
    forall i, j :: 0 <= i < j < |log| && log[i].Completed? ==>
      log[j] != Completed(log[i].id) && log[j] != Used(log[i].id)
  }

  /** No two children share a parent. */
  ghost predicate OneChild(log: Log) {
    forall i, j :: 0 <= i < j < |log| && IsChild(log, i) && IsChild(log, j) ==>
      log[i].row.parent != log[j].row.parent
  }

  predicate IsChild(log: Log, k: nat) {
    k < |log| && log[k].Saved? && log[k].row.parent.Some?
  }

  /** Every child is an install whose parent is a create_csr, completed in the same write. */
  ghost predicate ChildrenOfCompleted(log: Log) {
    forall i :: 0 <= i < |log| && IsChild(log, i) ==>
      && log[i].row.kind == Install
      && Exists(log, log[i].row.parent.value, CreateCsr)
      && Completed(log[i].row.parent.value) in log
  }

  ghost predicate InstallsHaveParents(log: Log) {
    forall i :: 0 <= i < |log| && log[i].Saved? && log[i].row.kind == Install ==> log[i].row.parent.Some?
  }

  /** A correlation names one row. */
  ghost predicate UniqueIds(log: Log) {
    forall i, j :: 0 <= i < j < |log| && log[i].Saved? && log[j].Saved? ==> log[i].row.id != log[j].row.id
  }

  ghost predicate Sound(log: Log) {
    && SingleUse(log) && OneChild(log) && ChildrenOfCompleted(log) && InstallsHaveParents(log) && UniqueIds(log)
  }

  // ----- What one atomic call adds -----

  /** The store's writes: a row of its own, a child that completes its parent, a completion. */
  datatype Write = SaveRow(id: string, kind: Kind) | SaveChild(id: string, parent: string) | Complete(id: string)

  function Acts(w: Write): seq<Act> {
    match w
    case SaveRow(id, kind) => [Saved(Row(id, None, kind))]
    case SaveChild(id, parent) => [Saved(Row(id, Some(parent), Install)), Completed(parent)]
    case Complete(id) => [Completed(id)]
  }

  /** A correlation already taken is refused by the table's key. */
  predicate Accepted(log: Log, w: Write) {
    !w.Complete? ==> !Known(log, w.id)
  }

  /** A write that ends a correlation still open, or opens one. */
  predicate Due(log: Log, w: Write) {
    match w
    case SaveRow(_, kind) => kind != Install
    case SaveChild(_, parent) => Loadable(log, parent, CreateCsr)
    case Complete(id) => Completed(id) !in log
  }

  lemma ExistsMore(log: Log, more: Log, id: string, kind: Kind)
    requires Exists(log, id, kind)
    ensures Exists(log + more, id, kind)
  {
    var k :| 0 <= k < |log| && log[k].Saved? && log[k].row.id == id && log[k].row.kind == kind;
    assert (log + more)[k] == log[k];
  }

  lemma UsedKnows(log: Log, used: string, id: string, kind: Kind)
    ensures Known(log + [Used(used)], id) == Known(log, id)
    ensures Exists(log + [Used(used)], id, kind) == Exists(log, id, kind)
    ensures Completed(id) in log + [Used(used)] <==> Completed(id) in log
  {
    var all := log + [Used(used)];
    assert forall k :: 0 <= k < |log| ==> all[k] == log[k];
  }

  lemma SingleUseMore(log: Log, act: Act)
    requires SingleUse(log) && !act.Saved? && Completed(act.id) !in log
    ensures SingleUse(log + [act])
  {
    var all := log + [act];
    forall i, j | 0 <= i < j < |all| && all[i].Completed?
      ensures all[j] != Completed(all[i].id) && all[j] != Used(all[i].id)
    {
      assert all[i] == log[i];
      if j == |log| {
        assert log[i] in log;
      }
    }
  }

  lemma NewRow(log: Log, row: Row)
    requires Sound(log) && !Known(log, row.id) && (row.kind == Install ==> row.parent.Some?)
    requires row.parent.Some? ==> row.kind == Install && Loadable(log, row.parent.value, CreateCsr)
    ensures var all := log + [Saved(row)];
            && SingleUse(all) && OneChild(all) && InstallsHaveParents(all) && UniqueIds(all)
    ensures var all := log + [Saved(row)];
            forall i :: 0 <= i < |all| && IsChild(all, i) ==>
              && all[i].row.kind == Install && Exists(all, all[i].row.parent.value, CreateCsr)
              && (Completed(all[i].row.parent.value) in all || all[i].row.parent == row.parent)
  {
    var all := log + [Saved(row)];
    assert forall i :: 0 <= i < |log| ==> all[i] == log[i];
    forall i | 0 <= i < |all| && IsChild(all, i)
      ensures all[i].row.kind == Install && Exists(all, all[i].row.parent.value, CreateCsr)
      ensures Completed(all[i].row.parent.value) in all || all[i].row.parent == row.parent
      ensures i < |log| ==> all[i].row.parent != row.parent
    {
      if i < |log| {
        assert IsChild(log, i);
        assert Completed(log[i].row.parent.value) in log;
      }
      ExistsMore(log, [Saved(row)], all[i].row.parent.value, CreateCsr);
    }
  }

  /** A write keeps the log sound when it is due. */
  lemma WriteKeeps(log: Log, w: Write)
    requires Sound(log) && Due(log, w) && Accepted(log, w)
    ensures Sound(log + Acts(w))
  {
    match w
    case SaveRow(id, kind) =>
      NewRow(log, Row(id, None, kind));
    case SaveChild(id, parent) =>
      var row := Row(id, Some(parent), Install);
      NewRow(log, row);
      CompletionKeeps(log + [Saved(row)], parent);
      assert log + Acts(w) == (log + [Saved(row)]) + [Completed(parent)];
    case Complete(id) =>
      CompletionKeeps(log, id);
  }

  lemma CompletionKeeps(log: Log, id: string)
    requires SingleUse(log) && OneChild(log) && InstallsHaveParents(log) && UniqueIds(log)
    requires Completed(id) !in log
    requires forall i :: 0 <= i < |log| && IsChild(log, i) ==>
      && log[i].row.kind == Install && Exists(log, log[i].row.parent.value, CreateCsr)
      && (Completed(log[i].row.parent.value) in log || log[i].row.parent.value == id)
    ensures Sound(log + [Completed(id)])
  {
    var all := log + [Completed(id)];
    SingleUseMore(log, Completed(id));
    assert all[|log|] == Completed(id);
    assert forall i :: 0 <= i < |log| ==> all[i] == log[i];
    forall i | 0 <= i < |all| && IsChild(all, i)
      ensures all[i].row.kind == Install && Exists(all, all[i].row.parent.value, CreateCsr)
      ensures Completed(all[i].row.parent.value) in all
    {
      assert IsChild(log, i);
      ExistsMore(log, [Completed(id)], log[i].row.parent.value, CreateCsr);
    }
  }

  /** So does going on to use a row just loaded. */
  lemma UseKeeps(log: Log, id: string)
    requires Sound(log) && Completed(id) !in log
    ensures Sound(log + [Used(id)])
  {
    var all := log + [Used(id)];
    SingleUseMore(log, Used(id));
    assert forall i :: 0 <= i < |log| ==> all[i] == log[i];
    forall i | 0 <= i < |all| && IsChild(all, i)
      ensures all[i].row.kind == Install && Exists(all, all[i].row.parent.value, CreateCsr)
      ensures Completed(all[i].row.parent.value) in all
    {
      assert IsChild(log, i);
      ExistsMore(log, [Used(id)], log[i].row.parent.value, CreateCsr);
    }
  }
}
