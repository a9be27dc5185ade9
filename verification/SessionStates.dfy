/** Which steps change the recorded state of a session or of a temporary id (dsm/src/communication/manager.rs). */
module SessionStates {
  import opened Common
  import opened SessionTables
  import opened SessionProtocol
  import opened SessionListing

  /** The entry that a step writes to the table of states. */
  function StateWrite(s: System, a: Action): Option<(Id, SessionState)> {
    match a
    case Accept(_, id) => Some((id, Active))
    case BeginAttempt(_, temp) => Some((temp, Establishing))
    case AddNew(_, id) => Some((id, Active))
    case AttemptFails(k) => if k in s.tasks && s.tasks[k].Trying? then Some((s.tasks[k].temp, Closed)) else None
    case Finish(k) => if k in s.tasks && s.tasks[k].Added? then Some((s.tasks[k].id, Active)) else None
    case MarkClosing(k) =>
      if k in s.tasks && s.tasks[k].Dropping? && s.tasks[k].ids != [] then Some((s.tasks[k].ids[0], Closing)) else None
    case RemoveOne(k) =>
      if k in s.tasks && s.tasks[k].Removing? && s.tasks[k].ids != [] then Some((s.tasks[k].ids[0], Closed)) else None
    case _ => None
  }

  lemma {:induction false} StepWrites(s: System, a: Action)
    requires Step(s, a).Some?
    ensures Step(s, a).value.tables.states ==
            match StateWrite(s, a)
            case None => s.tables.states
            case Some((id, st)) => s.tables.states[id := st]
  {
    hide FindByPeer, Without, SessionsOf;
  }

  lemma {:induction false} FreshIsWritten(s: System, a: Action)
    requires Step(s, a).Some? && (a.Accept? || a.AddNew? || a.BeginAttempt?)
    ensures Fresh(s, if a.BeginAttempt? then a.temp else a.id)
  {
    hide FindByPeer, Without, SessionsOf;
  }

  /** The step is a `disconnect` recording `x` as closing. */
  predicate Closes(s: System, a: Action, x: Id) {
    && a.MarkClosing? && a.task in s.tasks && s.tasks[a.task].Dropping?
    && s.tasks[a.task].ids != [] && s.tasks[a.task].ids[0] == x
  }

  /** The step is the last one of the `connect` that added `x`. */
  predicate Activates(s: System, a: Action, x: Id) {
    a.Finish? && a.task in s.tasks && s.tasks[a.task].Added? && s.tasks[a.task].id == x
  }

  /** The step is a failing connection attempt under this temporary id. */
  predicate Abandons(s: System, a: Action, temp: Id) {
    a.AttemptFails? && a.task in s.tasks && s.tasks[a.task].Trying? && s.tasks[a.task].temp == temp
  }

  lemma {:induction false} InvBorn(s: System, x: Id)
    requires Inv(s) && x in s.born
    ensures x in s.tables.states && x !in s.temps
  {
    hide TaskOk, LocksOk, Consistent;
  }

  lemma {:induction false} InvTrying(s: System, k: TaskId)
    requires Inv(s) && k in s.tasks && s.tasks[k].Trying?
    ensures s.tasks[k].temp in s.temps
  {
    hide LocksOk, Bookkeeping;
    assert TaskOk(s, k, s.tasks[k]);
  }

  lemma {:induction false} InvOwnsNoTemporary(s: System, k: TaskId, temp: Id)
    requires Inv(s) && k in s.tasks && temp in s.temps
    ensures temp !in Pending(s.tasks[k])
    ensures s.tasks[k].Added? ==> s.tasks[k].id != temp
  {
    hide LocksOk, Consistent;
    assert TaskOk(s, k, s.tasks[k]);
  }

  /**
   The recorded state of a session changes only at three steps: closing when a `disconnect` marks it,
   closed when one removes it, active when its own `connect` finishes.
   */
  lemma {:induction false} StateChangesExactlyWhen(s: System, a: Action, x: Id)
    requires Inv(s) && Step(s, a).Some? && x in s.born
    ensures x in s.tables.states && x in Step(s, a).value.tables.states
    ensures Step(s, a).value.tables.states[x] ==
            if Closes(s, a, x) then Closing
            else if Removes(s, a, x) then Closed
            else if Activates(s, a, x) then Active
            else s.tables.states[x]
  {
    hide Inv, Step;
    InvBorn(s, x);
    StepWrites(s, a);
    if a.Accept? || a.AddNew? || a.BeginAttempt? {
      FreshIsWritten(s, a);
    }
    if a.AttemptFails? && a.task in s.tasks && s.tasks[a.task].Trying? {
      InvTrying(s, a.task);
    }
  }

  /** A temporary id is closed exactly by its failing attempt: after a success it stays establishing for good. */
  lemma {:induction false} TemporaryClosesExactlyWhen(s: System, a: Action, temp: Id)
    requires Inv(s) && Step(s, a).Some? && temp in s.temps && temp in s.tables.states
    ensures temp in Step(s, a).value.tables.states
    ensures Step(s, a).value.tables.states[temp] == if Abandons(s, a, temp) then Closed else s.tables.states[temp]
  {
    hide Inv, Step;
    StepWrites(s, a);
    if a.Accept? || a.AddNew? || a.BeginAttempt? {
      FreshIsWritten(s, a);
    } else if (a.Finish? || a.MarkClosing? || a.RemoveOne?) && a.task in s.tasks {
      InvOwnsNoTemporary(s, a.task, temp);
    }
  }

  lemma {:induction false} AttemptStartsEstablishing(s: System, k: TaskId, temp: Id)
    requires Step(s, BeginAttempt(k, temp)).Some?
    ensures var next := Step(s, BeginAttempt(k, temp)).value;
            temp in next.temps && temp in next.tables.states && next.tables.states[temp] == Establishing
  {
  }

  // ---------------------------------------------------------------- what a finished disconnect has done

  predicate Disconnecting(task: Task) {
    task.Dropping? || task.Marked? || task.Removing? || task.Done?
  }

  /** Every listed session that the task no longer has to close is gone from the tables. */
  ghost predicate Handled(s: System, k: TaskId, ids: seq<Id>) {
    && k in s.tasks && Disconnecting(s.tasks[k])
    && forall x :: x in ids ==> x in s.born && (x in Pending(s.tasks[k]) || x !in s.tables.sessionPeers)
  }

  /** A task stops holding a session only when that session has no owner any more. */
  lemma {:induction false} PendingLeavesWhenGone(s: System, a: Action, k: TaskId, x: Id)
    requires Step(s, a).Some? && k in s.tasks && Disconnecting(s.tasks[k]) && x in Pending(s.tasks[k])
    ensures k in Step(s, a).value.tasks && Disconnecting(Step(s, a).value.tasks[k])
    ensures x in Pending(Step(s, a).value.tasks[k]) || x !in Step(s, a).value.tables.sessionPeers
  {
    hide FindByPeer, Without, SessionsOf;
    var ids := s.tasks[k].ids;
    assert x == ids[0] || x in ids[1..];
  }

  lemma {:induction false} StaysDisconnecting(s: System, a: Action, k: TaskId)
    requires Step(s, a).Some? && k in s.tasks && Disconnecting(s.tasks[k])
    ensures k in Step(s, a).value.tasks && Disconnecting(Step(s, a).value.tasks[k])
  {
    hide FindByPeer, Add, Remove, SetState;
  }

  lemma {:induction false} GoneStaysGone(s: System, a: Action, x: Id)
    requires Step(s, a).Some? && x in s.born && x !in s.tables.sessionPeers
    ensures x in Step(s, a).value.born && x !in Step(s, a).value.tables.sessionPeers
  {
    hide Step;
    var next := Step(s, a).value;
    var p := if x in next.tables.sessionPeers then next.tables.sessionPeers[x] else "";
    StepOwners(s, a, p, x);
  }

  lemma {:induction false} StepKeepsHandled(s: System, a: Action, k: TaskId, ids: seq<Id>)
    requires Step(s, a).Some? && Handled(s, k, ids)
    ensures Handled(Step(s, a).value, k, ids)
  {
    hide Step, Pending, Disconnecting;
    StaysDisconnecting(s, a, k);
    var next := Step(s, a).value;
    forall x | x in ids ensures x in next.born && (x in Pending(next.tasks[k]) || x !in next.tables.sessionPeers) {
      StepOwners(s, a, "", x);
      if x in Pending(s.tasks[k]) {
        PendingLeavesWhenGone(s, a, k, x);
      } else {
        GoneStaysGone(s, a, x);
      }
    }
  }

  lemma {:induction false} RunKeepsHandled(s: System, actions: seq<Action>, k: TaskId, ids: seq<Id>)
    requires Run(s, actions).Some? && Handled(s, k, ids)
    ensures Handled(Run(s, actions).value, k, ids)
    decreases |actions|
  {
    hide Step, Handled;
    if actions != [] {
      StepKeepsHandled(s, actions[0], k, ids);
      RunKeepsHandled(Step(s, actions[0]).value, actions[1..], k, ids);
    }
  }

  /**
   In every interleaving: once a `disconnect` that read the list `ids` has finished, none of these
   sessions is listed any more, for anyone.
   */
  lemma {:induction false} DisconnectClearsItsList(s: System, k: TaskId, p: Peer, actions: seq<Action>, x: Id, q: Peer)
    requires Reachable(s) && k in s.tasks && s.tasks[k] == Asked(p) && Listed(s.tables, p, x)
    requires Step(s, ListSessions(k)).Some? && Run(Step(s, ListSessions(k)).value, actions).Some?
    requires var end := Run(Step(s, ListSessions(k)).value, actions).value;
             k in end.tasks && end.tasks[k].Done?
    ensures !Listed(Run(Step(s, ListSessions(k)).value, actions).value.tables, q, x)
  {
    var listed := Step(s, ListSessions(k)).value;
    ReachableIsInv(s);
    InvListing(s, p, x);
    StepKeepsInv(s, ListSessions(k));
    hide Inv;
    assert Handled(listed, k, [x]);
    hide Step;
    RunKeepsHandled(listed, actions, k, [x]);
    RunKeepsInv(listed, actions);
    InvListing(Run(listed, actions).value, q, x);
  }
}
