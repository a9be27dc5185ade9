/**
 Concurrent connect, disconnect and accept tasks over the session tables, one step per lock region
 (dsm/src/communication/manager.rs).
 */
module SessionProtocol {
  import opened Common
  import opened SessionTables

  type TaskId = nat

  datatype Task =
    // connect
    | Waiting(peer: Peer)                         // wants the peer lock
    | Holding(peer: Peer)                         // has it, has not looked for a session
    | Found(peer: Peer, id: Id)                   // get_session_by_peer returned a session
    | Backoff(peer: Peer, id: Id)                 // waits for an establishing session
    | Connecting(peer: Peer)                      // will open a new connection
    | Trying(peer: Peer, temp: Id)                // temporary id recorded as establishing
    | Added(peer: Peer, id: Id)                   // add_session done, final state update pending
    // disconnect
    | Asked(peer: Peer)
    | Dropping(peer: Peer, ids: seq<Id>)          // ids still to be closed
    | Marked(peer: Peer, ids: seq<Id>)            // ids[0] recorded as closing
    | Removing(peer: Peer, ids: seq<Id>, owner: Peer)  // owner of ids[0] read
    // either
    | Done(session: Option<Id>)

  datatype Action =
    | StartConnect(task: TaskId, peer: Peer)
    | TakeLock(task: TaskId)
    | LookUp(task: TaskId)
    | ReadState(task: TaskId)
    | EndBackoff(task: TaskId)
    | GiveUp(task: TaskId)
    | BeginAttempt(task: TaskId, temp: Id)
    | AttemptFails(task: TaskId)
    | CreateFails(task: TaskId)
    | AddNew(task: TaskId, id: Id)
    | Finish(task: TaskId)
    | StartDisconnect(task: TaskId, peer: Peer)
    | ListSessions(task: TaskId)
    | MarkClosing(task: TaskId)
    | ReadOwner(task: TaskId)
    | RemoveOne(task: TaskId)
    | Accept(peer: Peer, id: Id)

  /** `born`, `temps` and `accepted` are history: ids ever added and for whom, temporary ids, accepted peers. */
  datatype System = System(
    tables: Tables,
    holder: map<Peer, TaskId>,
    tasks: map<TaskId, Task>,
    born: map<Id, Peer>,
    temps: set<Id>,
    accepted: set<Peer>)

  const INIT := System(EMPTY, map[], map[], map[], {}, {})

  predicate Fresh(s: System, id: Id) {
    id !in s.born && id !in s.temps
  }

  function Goto(s: System, k: TaskId, task: Task): System {
    s.(tasks := s.tasks[k := task])
  }

  /** Leave `connect`, dropping the guard of the peer lock. */
  function Release(s: System, k: TaskId, p: Peer, result: Option<Id>): System {
    s.(holder := s.holder - {p}, tasks := s.tasks[k := Done(result)])
  }

  function TaskStep(s: System, k: TaskId, a: Action): Option<System>
    requires k in s.tasks
  {
    match (a, s.tasks[k])
    case (TakeLock(_), Waiting(p)) =>
      if p in s.holder then None else Some(Goto(s, k, Holding(p)).(holder := s.holder[p := k]))
    case (LookUp(_), Holding(p)) =>
      (match FindByPeer(s.tables, p)
       case None => Some(Goto(s, k, Connecting(p)))
       case Some(id) => Some(Goto(s, k, Found(p, id))))
    case (ReadState(_), Found(p, id)) =>
      if id !in s.tables.states then Some(Goto(s, k, Connecting(p)))
      else
        (match s.tables.states[id]
         case Active => Some(Release(s, k, p, Some(id)))
         case Establishing => Some(Goto(s, k, Backoff(p, id)))
         case _ => Some(Goto(s, k, Connecting(p))))
    case (EndBackoff(_), Backoff(p, id)) => Some(Release(s, k, p, Some(id)))
    case (GiveUp(_), Connecting(p)) => Some(Release(s, k, p, None))
    case (BeginAttempt(_, temp), Connecting(p)) =>
      if !Fresh(s, temp) then None
      else
        var trying := Goto(s, k, Trying(p, temp));
        Some(trying.(tables := SetState(s.tables, temp, Establishing), temps := s.temps + {temp}))
    case (AttemptFails(_), Trying(p, temp)) =>
      Some(Release(s, k, p, None).(tables := SetState(s.tables, temp, Closed)))
    case (CreateFails(_), Trying(p, temp)) => Some(Release(s, k, p, None))
    case (AddNew(_, id), Trying(p, temp)) =>
      if !Fresh(s, id) then None
      else Some(Goto(s, k, Added(p, id)).(tables := Add(s.tables, p, id), born := s.born[id := p]))
    case (Finish(_), Added(p, id)) =>
      Some(Release(s, k, p, Some(id)).(tables := SetState(s.tables, id, Active)))
    case (ListSessions(_), Asked(p)) =>
      if p !in s.tables.peerSessions then Some(Goto(s, k, Done(None)))
      else Some(Goto(s, k, Dropping(p, s.tables.peerSessions[p])))
    case (MarkClosing(_), Dropping(p, ids)) =>
      if ids == [] then Some(Goto(s, k, Done(None)))
      else Some(Goto(s, k, Marked(p, ids)).(tables := SetState(s.tables, ids[0], Closing)))
    case (ReadOwner(_), Marked(p, ids)) =>
      if ids == [] then None
      else if ids[0] in s.tables.sessionPeers then Some(Goto(s, k, Removing(p, ids, s.tables.sessionPeers[ids[0]])))
      else Some(Goto(s, k, Dropping(p, ids[1..])))
    case (RemoveOne(_), Removing(p, ids, owner)) =>
      if ids == [] then None
      else Some(Goto(s, k, Dropping(p, ids[1..])).(tables := Remove(s.tables, ids[0], owner)))
    case _ => None
  }

  /** `None` when the action is not enabled. */
  function Step(s: System, a: Action): Option<System> {
    match a
    case StartConnect(k, p) => if k in s.tasks then None else Some(Goto(s, k, Waiting(p)))
    case StartDisconnect(k, p) => if k in s.tasks then None else Some(Goto(s, k, Asked(p)))
    case Accept(p, id) =>
      if !Fresh(s, id) then None
      else Some(s.(tables := Add(s.tables, p, id), born := s.born[id := p], accepted := s.accepted + {p}))
    case _ => if a.task in s.tasks then TaskStep(s, a.task, a) else None
  }

  function Run(s: System, actions: seq<Action>): Option<System>
    decreases |actions|
  {
    if actions == [] then Some(s)
    else
      match Step(s, actions[0])
      case None => None
      case Some(next) => Run(next, actions[1..])
  }

  ghost predicate Reachable(s: System) {
    exists actions :: Run(INIT, actions) == Some(s)
  }

  // ---------------------------------------------------------------- the invariant

  ghost predicate LiveFor(t: Tables, p: Peer, id: Id) {
    OwnedBy(t, p, id) && IsActive(t, id)
  }

  ghost predicate NoneLive(t: Tables, p: Peer) {
    forall x :: !LiveFor(t, p, x)
  }

  ghost predicate OnlyLive(t: Tables, p: Peer, id: Id) {
    forall x :: LiveFor(t, p, x) ==> x == id
  }

  ghost predicate AtMostOneLive(t: Tables, p: Peer) {
    forall x, y :: LiveFor(t, p, x) && LiveFor(t, p, y) ==> x == y
  }

  predicate Holds(s: System, k: TaskId, p: Peer) {
    p in s.holder && s.holder[p] == k
  }

  predicate BornFor(s: System, p: Peer, id: Id) {
    id in s.born && s.born[id] == p
  }

  predicate UsesLock(task: Task) {
    task.Holding? || task.Found? || task.Backoff? || task.Connecting? || task.Trying? || task.Added?
  }

  /** What a task may rely on while others run. */
  ghost predicate TaskOk(s: System, k: TaskId, task: Task) {
    match task
    case Waiting(p) => true
    case Holding(p) => Holds(s, k, p)
    case Found(p, id) =>
      && Holds(s, k, p) && BornFor(s, p, id)
      && (IsActive(s.tables, id) ==> id in s.tables.active)
      && (p !in s.accepted ==> OnlyLive(s.tables, p, id))
    case Backoff(p, id) => false
    case Connecting(p) => Holds(s, k, p) && (p !in s.accepted ==> NoneLive(s.tables, p))
    case Trying(p, temp) => Holds(s, k, p) && temp in s.temps && (p !in s.accepted ==> NoneLive(s.tables, p))
    case Added(p, id) => Holds(s, k, p) && BornFor(s, p, id) && (p !in s.accepted ==> OnlyLive(s.tables, p, id))
    case Asked(p) => true
    case Dropping(p, ids) => forall id :: id in ids ==> BornFor(s, p, id)
    case Marked(p, ids) => forall id :: id in ids ==> BornFor(s, p, id)
    case Removing(p, ids, owner) => owner == p && forall id :: id in ids ==> BornFor(s, p, id)
    case Done(session) => session.Some? ==> session.value in s.born
  }

  ghost predicate Bookkeeping(s: System) {
    && Consistent(s.tables)
    && (forall id :: id in s.tables.active ==> BornFor(s, s.tables.sessionPeers[id], id))
    && (forall id :: id in s.born ==> id in s.tables.states && s.tables.states[id] != Establishing && id !in s.temps)
  }

  ghost predicate LocksOk(s: System) {
    forall p :: p in s.holder ==>
      s.holder[p] in s.tasks && UsesLock(s.tasks[s.holder[p]]) && s.tasks[s.holder[p]].peer == p
  }

  ghost predicate Inv(s: System) {
    && Bookkeeping(s)
    && LocksOk(s)
    && (forall k :: k in s.tasks ==> TaskOk(s, k, s.tasks[k]))
    && (forall p :: p !in s.accepted ==> AtMostOneLive(s.tables, p))
  }

  // ---------------------------------------------------------------- steps do not disturb other tasks

  /**
   A step of task `k` on peer `p`: it takes no lock from another task, forgets no history, revives
   or lists sessions only for `p`, and that only with the lock of `p` or for an accepted peer.
   */
  ghost predicate Frame(s: System, s': System, k: TaskId, p: Peer) {
    && (forall q :: q in s.holder && s.holder[q] != k ==> Holds(s', s.holder[q], q))
    && (forall x :: x in s.born ==> BornFor(s', s.born[x], x))
    && s.temps <= s'.temps && s.accepted <= s'.accepted
    && (forall x :: x in s.born && IsActive(s'.tables, x) && !IsActive(s.tables, x) ==>
      BornFor(s, p, x) && Holds(s, k, p))
    && (forall q, x :: OwnedBy(s'.tables, q, x) && !OwnedBy(s.tables, q, x) ==>
      q == p && (Holds(s, k, p) || p in s'.accepted))
    && (forall x :: x in s.born && x in s.tables.active && IsActive(s'.tables, x) ==> x in s'.tables.active)
  }

  lemma {:induction false} LiveWasLive(s: System, s': System, k: TaskId, p: Peer, q: Peer, x: Id)
    requires Bookkeeping(s) && Frame(s, s', k, p)
    requires q !in s'.accepted && !(q == p && Holds(s, k, p))
    requires LiveFor(s'.tables, q, x)
    ensures LiveFor(s.tables, q, x)
  {
    assert OwnedBy(s.tables, q, x);
    assert BornFor(s, q, x);
  }

  lemma {:induction false} OthersKeepTaskOk(s: System, s': System, k: TaskId, p: Peer, other: TaskId)
    requires Inv(s) && Frame(s, s', k, p)
    requires other in s.tasks && other != k
    ensures TaskOk(s', other, s.tasks[other])
  {
    var task := s.tasks[other];
    assert TaskOk(s, other, task);
    if UsesLock(task) && task.peer !in s'.accepted {
      forall x | LiveFor(s'.tables, task.peer, x) ensures LiveFor(s.tables, task.peer, x) {
        LiveWasLive(s, s', k, p, task.peer, x);
      }
    }
  }

  /** The shape of every step of a task: the frame for the others, and the task's own obligations. */
  lemma {:induction false} TaskStepKeepsInv(s: System, s': System, k: TaskId, p: Peer, task: Task)
    requires Inv(s) && Frame(s, s', k, p)
    requires s'.tasks == s.tasks[k := task]
    requires Bookkeeping(s') && LocksOk(s') && TaskOk(s', k, task)
    requires p !in s'.accepted && Holds(s, k, p) ==> AtMostOneLive(s'.tables, p)
    ensures Inv(s')
  {
    hide Bookkeeping, LocksOk;
    forall other | other in s'.tasks ensures TaskOk(s', other, s'.tasks[other]) {
      if other != k {
        OthersKeepTaskOk(s, s', k, p, other);
      }
    }
    forall q | q !in s'.accepted ensures AtMostOneLive(s'.tables, q) {
      if !(q == p && Holds(s, k, p)) {
        forall x | LiveFor(s'.tables, q, x) ensures LiveFor(s.tables, q, x) {
          LiveWasLive(s, s', k, p, q, x);
        }
        assert AtMostOneLive(s.tables, q);
      }
    }
  }

  // ---------------------------------------------------------------- every action keeps the invariant

  lemma {:induction false} LocksAfterGoto(s: System, s': System, k: TaskId, task: Task)
    requires LocksOk(s) && k in s.tasks && s'.holder == s.holder && s'.tasks == s.tasks[k := task]
    requires UsesLock(s.tasks[k]) ==> UsesLock(task) && task.peer == s.tasks[k].peer
    ensures LocksOk(s')
  {
  }

  lemma {:induction false} LocksAfterRelease(s: System, s': System, k: TaskId, task: Task)
    requires LocksOk(s) && k in s.tasks && UsesLock(s.tasks[k])
    requires s'.holder == s.holder - {s.tasks[k].peer} && s'.tasks == s.tasks[k := task]
    ensures LocksOk(s')
  {
  }

  /** A step that leaves the tables and the history alone. */
  lemma {:induction false} QuietStepKeepsInv(s: System, s': System, k: TaskId, task: Task)
    requires Inv(s) && s' == s.(holder := s'.holder, tasks := s.tasks[k := task])
    requires forall q :: q in s.holder && s.holder[q] != k ==> Holds(s', s.holder[q], q)
    requires LocksOk(s') && TaskOk(s', k, task)
    ensures Inv(s')
  {
    assert AtMostOneLive(s.tables, "") || "" in s.accepted;
    hide TaskOk, LocksOk, Consistent, IsActive, OwnedBy;
    TaskStepKeepsInv(s, s', k, "", task);
  }

  lemma {:induction false} TakeLockKeepsInv(s: System, k: TaskId, a: Action)
    requires Inv(s) && k in s.tasks && a.TakeLock? && TaskStep(s, k, a).Some?
    ensures Inv(TaskStep(s, k, a).value)
  {
    hide Bookkeeping;
    var s' := TaskStep(s, k, a).value;
    QuietStepKeepsInv(s, s', k, s'.tasks[k]);
  }

  lemma {:induction false} LookUpKeepsInv(s: System, k: TaskId, a: Action)
    requires Inv(s) && k in s.tasks && a.LookUp? && TaskStep(s, k, a).Some?
    ensures Inv(TaskStep(s, k, a).value)
  {
    var s' := TaskStep(s, k, a).value;
    assert TaskOk(s, k, s.tasks[k]);
    LookUpIsOk(s, k);
    hide Bookkeeping, FindByPeer;
    LocksAfterGoto(s, s', k, s'.tasks[k]);
    QuietStepKeepsInv(s, s', k, s'.tasks[k]);
  }

  lemma {:induction false} ReadStateKeepsInv(s: System, k: TaskId, a: Action)
    requires Inv(s) && k in s.tasks && a.ReadState? && TaskStep(s, k, a).Some?
    ensures Inv(TaskStep(s, k, a).value)
  {
    var s' := TaskStep(s, k, a).value;
    var task := s.tasks[k];
    assert TaskOk(s, k, task);
    assert task.id in s.tables.states && s.tables.states[task.id] != Establishing;
    hide Bookkeeping;
    if IsActive(s.tables, task.id) {
      LocksAfterRelease(s, s', k, s'.tasks[k]);
    } else {
      LocksAfterGoto(s, s', k, s'.tasks[k]);
    }
    QuietStepKeepsInv(s, s', k, s'.tasks[k]);
  }

  /** Leaving `connect` without touching the tables. */
  lemma {:induction false} QuitKeepsInv(s: System, k: TaskId, a: Action)
    requires Inv(s) && k in s.tasks && TaskStep(s, k, a).Some?
    requires a.EndBackoff? || a.GiveUp? || a.CreateFails?
    ensures Inv(TaskStep(s, k, a).value)
  {
    hide Bookkeeping;
    var s' := TaskStep(s, k, a).value;
    assert TaskOk(s, k, s.tasks[k]);
    LocksAfterRelease(s, s', k, s'.tasks[k]);
    QuietStepKeepsInv(s, s', k, s'.tasks[k]);
  }

  /** `disconnect` reading the tables. */
  lemma {:induction false} DisconnectReadsKeepInv(s: System, k: TaskId, a: Action)
    requires Inv(s) && k in s.tasks && TaskStep(s, k, a).Some?
    requires a.ListSessions? || a.ReadOwner?
    ensures Inv(TaskStep(s, k, a).value)
  {
    var s' := TaskStep(s, k, a).value;
    var task := s.tasks[k];
    assert TaskOk(s, k, task);
    if a.ListSessions? && task.peer in s.tables.peerSessions {
      forall id | id in s.tables.peerSessions[task.peer] ensures BornFor(s, task.peer, id) {
        assert Listed(s.tables, task.peer, id);
        assert OwnedBy(s.tables, task.peer, id);
      }
    }
    if a.ReadOwner? {
      assert task.ids[0] in task.ids;
      assert task.ids[0] in s.tables.sessionPeers ==> BornFor(s, s.tables.sessionPeers[task.ids[0]], task.ids[0]);
      assert forall id :: id in task.ids[1..] ==> id in task.ids;
    }
    hide Bookkeeping;
    LocksAfterGoto(s, s', k, s'.tasks[k]);
    QuietStepKeepsInv(s, s', k, s'.tasks[k]);
  }

  /** After looking up a peer, the session found is the only one that can be active. */
  lemma {:induction false} LookUpIsOk(s: System, k: TaskId)
    requires Inv(s) && k in s.tasks && s.tasks[k].Holding?
    ensures var p := s.tasks[k].peer;
            match FindByPeer(s.tables, p)
            case None => NoneLive(s.tables, p)
            case Some(id) => BornFor(s, p, id) && id in s.tables.active && (p !in s.accepted ==>
              OnlyLive(s.tables, p, id))
  {
    hide FindByPeer, TaskOk;
    var p := s.tasks[k].peer;
    FindByPeerFinds(s.tables, p);
    assert forall x :: OwnedBy(s.tables, p, x) ==> Listed(s.tables, p, x);
    match FindByPeer(s.tables, p)
    case None =>
    case Some(id) =>
      assert OwnedBy(s.tables, p, id);
      if p !in s.accepted {
        assert AtMostOneLive(s.tables, p);
        forall x | LiveFor(s.tables, p, x) ensures x == id {
          assert Listed(s.tables, p, x) && IsActive(s.tables, x);
          assert LiveFor(s.tables, p, id);
        }
      }
  }

  /** A step that sets the state of one session, with the consequences every task needs. */
  lemma {:induction false} SetStateStep(s: System, s': System, k: TaskId, p: Peer, id: Id, st: SessionState)
    requires Bookkeeping(s) && s'.tables == SetState(s.tables, id, st)
    requires s'.born == s.born && s.temps <= s'.temps && s'.accepted == s.accepted
    requires forall x :: x in s.born ==> x !in s'.temps
    requires id in s.born ==> st != Establishing && (id in s.tables.active ==> st in {Active, Closing})
    requires id in s.born && st == Active ==> BornFor(s, p, id) && Holds(s, k, p)
    requires forall q :: q in s.holder && s.holder[q] != k ==> Holds(s', s.holder[q], q)
    ensures Bookkeeping(s') && Frame(s, s', k, p)
    ensures forall q, x :: LiveFor(s'.tables, q, x) ==> LiveFor(s.tables, q, x) || (x == id && st == Active)
  {
    SetStateKeepsConsistent(s.tables, id, st);
    assert forall q, x :: OwnedBy(s'.tables, q, x) <==> OwnedBy(s.tables, q, x);
    assert forall x :: IsActive(s'.tables, x) <==> if x == id then st == Active else IsActive(s.tables, x);
    hide Consistent;
  }

  lemma {:induction false} BeginAttemptKeepsInv(s: System, k: TaskId, a: Action)
    requires Inv(s) && k in s.tasks && a.BeginAttempt? && TaskStep(s, k, a).Some?
    ensures Inv(TaskStep(s, k, a).value)
  {
    var s' := TaskStep(s, k, a).value;
    var task := s.tasks[k];
    assert TaskOk(s, k, task);
    assert forall x :: x in s.born ==> x !in s'.temps;
    hide Bookkeeping, Frame;
    SetStateStep(s, s', k, task.peer, a.temp, Establishing);
    LocksAfterGoto(s, s', k, s'.tasks[k]);
    TaskStepKeepsInv(s, s', k, task.peer, s'.tasks[k]);
  }

  lemma {:induction false} AttemptFailsKeepsInv(s: System, k: TaskId, a: Action)
    requires Inv(s) && k in s.tasks && a.AttemptFails? && TaskStep(s, k, a).Some?
    ensures Inv(TaskStep(s, k, a).value)
  {
    var s' := TaskStep(s, k, a).value;
    var task := s.tasks[k];
    assert TaskOk(s, k, task);
    assert task.temp !in s.born && forall x :: x in s.born ==> x !in s'.temps;
    hide Bookkeeping, Frame;
    SetStateStep(s, s', k, task.peer, task.temp, Closed);
    LocksAfterRelease(s, s', k, s'.tasks[k]);
    TaskStepKeepsInv(s, s', k, task.peer, s'.tasks[k]);
  }

  lemma {:induction false} FinishKeepsInv(s: System, k: TaskId, a: Action)
    requires Inv(s) && k in s.tasks && a.Finish? && TaskStep(s, k, a).Some?
    ensures Inv(TaskStep(s, k, a).value)
  {
    var s' := TaskStep(s, k, a).value;
    var task := s.tasks[k];
    assert TaskOk(s, k, task);
    assert forall x :: x in s.born ==> x !in s'.temps;
    hide Bookkeeping, Frame;
    SetStateStep(s, s', k, task.peer, task.id, Active);
    LocksAfterRelease(s, s', k, s'.tasks[k]);
    assert task.peer !in s.accepted ==> OnlyLive(s'.tables, task.peer, task.id);
    TaskStepKeepsInv(s, s', k, task.peer, s'.tasks[k]);
  }

  lemma {:induction false} MarkClosingKeepsInv(s: System, k: TaskId, a: Action)
    requires Inv(s) && k in s.tasks && a.MarkClosing? && TaskStep(s, k, a).Some?
    ensures Inv(TaskStep(s, k, a).value)
  {
    var s' := TaskStep(s, k, a).value;
    var task := s.tasks[k];
    assert TaskOk(s, k, task);
    assert forall x :: x in s.born ==> x !in s'.temps;
    hide Bookkeeping, Frame;
    LocksAfterGoto(s, s', k, s'.tasks[k]);
    if task.ids == [] {
      QuietStepKeepsInv(s, s', k, s'.tasks[k]);
    } else {
      SetStateStep(s, s', k, task.peer, task.ids[0], Closing);
      assert !Holds(s, k, task.peer);
      TaskStepKeepsInv(s, s', k, task.peer, s'.tasks[k]);
    }
  }

  lemma {:induction false} RemoveStep(s: System, s': System, k: TaskId, id: Id, owner: Peer)
    requires Bookkeeping(s) && BornFor(s, owner, id) && s'.tables == Remove(s.tables, id, owner)
    requires s'.born == s.born && s'.temps == s.temps && s'.accepted == s.accepted && s'.holder == s.holder
    ensures Bookkeeping(s') && Frame(s, s', k, owner)
  {
    RemoveKeepsConsistent(s.tables, id, owner);
    assert forall q, x :: OwnedBy(s'.tables, q, x) <==> OwnedBy(s.tables, q, x) && x != id;
    assert forall x :: IsActive(s'.tables, x) <==> IsActive(s.tables, x) && x != id;
    hide Consistent;
  }

  lemma {:induction false} RemoveOneKeepsInv(s: System, k: TaskId, a: Action)
    requires Inv(s) && k in s.tasks && a.RemoveOne? && TaskStep(s, k, a).Some?
    ensures Inv(TaskStep(s, k, a).value)
  {
    hide Bookkeeping, Frame;
    var s' := TaskStep(s, k, a).value;
    var task := s.tasks[k];
    assert TaskOk(s, k, task);
    assert task.ids[0] in task.ids;
    assert forall id :: id in task.ids[1..] ==> id in task.ids;
    RemoveStep(s, s', k, task.ids[0], task.owner);
    LocksAfterGoto(s, s', k, s'.tasks[k]);
    assert !Holds(s, k, task.peer);
    TaskStepKeepsInv(s, s', k, task.peer, s'.tasks[k]);
  }

  lemma {:induction false} AddKeepsBookkeeping(s: System, s': System, p: Peer, id: Id)
    requires Bookkeeping(s) && Fresh(s, id) && s'.tables == Add(s.tables, p, id)
    requires s'.born == s.born[id := p] && s'.temps == s.temps
    ensures Bookkeeping(s')
  {
    assert id !in s.tables.active;
    AddKeepsConsistent(s.tables, p, id);
    hide Consistent;
  }

  /** Adding a fresh session for `p`, by the lock holder or by an accepted connection. */
  lemma {:induction false} AddStep(s: System, s': System, k: TaskId, p: Peer, id: Id)
    requires Bookkeeping(s) && Fresh(s, id) && s'.tables == Add(s.tables, p, id)
    requires s'.born == s.born[id := p] && s'.temps == s.temps && s.accepted <= s'.accepted && s'.holder == s.holder
    requires Holds(s, k, p) || p in s'.accepted
    ensures Bookkeeping(s') && Frame(s, s', k, p)
    ensures forall q, x :: LiveFor(s'.tables, q, x) ==> (q == p && x == id) || LiveFor(s.tables, q, x)
  {
    assert id !in s.tables.active;
    hide Bookkeeping, Consistent;
    AddKeepsBookkeeping(s, s', p, id);
    assert forall q, x :: OwnedBy(s'.tables, q, x) <==> if x == id then q == p else OwnedBy(s.tables, q, x);
    assert forall x :: IsActive(s'.tables, x) <==> x == id || IsActive(s.tables, x);
  }

  lemma {:induction false} AddNewKeepsInv(s: System, k: TaskId, a: Action)
    requires Inv(s) && k in s.tasks && a.AddNew? && TaskStep(s, k, a).Some?
    ensures Inv(TaskStep(s, k, a).value)
  {
    hide Bookkeeping, Frame;
    var s' := TaskStep(s, k, a).value;
    var task := s.tasks[k];
    assert TaskOk(s, k, task);
    AddStep(s, s', k, task.peer, a.id);
    LocksAfterGoto(s, s', k, s'.tasks[k]);
    TaskStepKeepsInv(s, s', k, task.peer, s'.tasks[k]);
  }

  lemma {:induction false} AcceptKeepsInv(s: System, a: Action, k: TaskId)
    requires Inv(s) && a.Accept? && Step(s, a).Some? && k !in s.tasks
    ensures Inv(Step(s, a).value)
  {
    hide Bookkeeping, Frame;
    var s' := Step(s, a).value;
    AddStep(s, s', k, a.peer, a.id);
    assert forall p :: p in s.holder ==> s.holder[p] != k;
    forall other | other in s'.tasks ensures TaskOk(s', other, s'.tasks[other]) {
      OthersKeepTaskOk(s, s', k, a.peer, other);
    }
    forall q | q !in s'.accepted ensures AtMostOneLive(s'.tables, q) {
      assert AtMostOneLive(s.tables, q);
    }
  }

  lemma {:induction false} StartKeepsInv(s: System, k: TaskId, task: Task)
    requires Inv(s) && k !in s.tasks && (task.Waiting? || task.Asked?)
    ensures Inv(Goto(s, k, task))
  {
    var s' := Goto(s, k, task);
    forall other | other in s'.tasks ensures TaskOk(s', other, s'.tasks[other]) {
      if other != k {
        assert TaskOk(s, other, s.tasks[other]);
      }
    }
  }

  lemma {:induction false} StepKeepsInv(s: System, a: Action)
    requires Inv(s) && Step(s, a).Some?
    ensures Inv(Step(s, a).value)
  {
    hide Inv, TaskOk;
    match a
    case StartConnect(k, p) => StartKeepsInv(s, k, Waiting(p));
    case StartDisconnect(k, p) => StartKeepsInv(s, k, Asked(p));
    case Accept(p, id) =>
      var k := UnusedTask(s.tasks.Keys);
      AcceptKeepsInv(s, a, k);
    case BeginAttempt(k, temp) => BeginAttemptKeepsInv(s, k, a);
    case AttemptFails(k) => AttemptFailsKeepsInv(s, k, a);
    case AddNew(k, id) => AddNewKeepsInv(s, k, a);
    case Finish(k) => FinishKeepsInv(s, k, a);
    case MarkClosing(k) => MarkClosingKeepsInv(s, k, a);
    case RemoveOne(k) => RemoveOneKeepsInv(s, k, a);
    case TakeLock(k) => TakeLockKeepsInv(s, k, a);
    case LookUp(k) => LookUpKeepsInv(s, k, a);
    case ReadState(k) => ReadStateKeepsInv(s, k, a);
    case EndBackoff(k) => QuitKeepsInv(s, k, a);
    case GiveUp(k) => QuitKeepsInv(s, k, a);
    case CreateFails(k) => QuitKeepsInv(s, k, a);
    case ListSessions(k) => DisconnectReadsKeepInv(s, k, a);
    case ReadOwner(k) => DisconnectReadsKeepInv(s, k, a);
  }

  lemma {:induction false} UnusedTask(used: set<TaskId>) returns (k: TaskId)
    ensures k !in used
  {
    k := 0;
    var seen: set<TaskId> := {};
    while k in used
      invariant seen <= used && forall x: nat :: x in seen <==> x < k
      decreases |used - seen|
    {
      assert used - (seen + {k}) < used - seen;
      SubsetIsSmaller(used - (seen + {k}), used - seen);
      seen, k := seen + {k}, k + 1;
    }
  }

  lemma {:induction false} RunKeepsInv(s: System, actions: seq<Action>)
    requires Inv(s) && Run(s, actions).Some?
    ensures Inv(Run(s, actions).value)
    decreases |actions|
  {
    hide Inv, Step;
    if actions != [] {
      StepKeepsInv(s, actions[0]);
      RunKeepsInv(Step(s, actions[0]).value, actions[1..]);
    }
  }

  lemma {:induction false} ReachableIsInv(s: System)
    requires Reachable(s)
    ensures Inv(s)
  {
    var actions :| Run(INIT, actions) == Some(s);
    assert Inv(INIT) by {
      assert forall p, id :: !Listed(EMPTY, p, id) && !OwnedBy(EMPTY, p, id);
    }
    RunKeepsInv(INIT, actions);
  }

  // ---------------------------------------------------------------- what holds in every run

  /**
   In every interleaving, a peer that no accepted connection ever used has at most one listed
   session in state active.
   */
  lemma {:induction false} OneActiveSessionPerPeer(s: System, p: Peer, x: Id, y: Id)
    requires Reachable(s) && p !in s.accepted
    requires Listed(s.tables, p, x) && IsActive(s.tables, x)
    requires Listed(s.tables, p, y) && IsActive(s.tables, y)
    ensures x == y
  {
    ReachableIsInv(s);
    assert LiveFor(s.tables, p, x) && LiveFor(s.tables, p, y);
    assert AtMostOneLive(s.tables, p);
  }

  /** In every interleaving the four tables fit together and no task waits for an establishing session. */
  lemma {:induction false} TablesAlwaysFit(s: System)
    requires Reachable(s)
    ensures Inverse(s.tables)
    ensures s.tables.active == s.tables.sessionPeers.Keys
    ensures forall p, id :: Listed(s.tables, p, id) ==>
              id in s.tables.states && s.tables.states[id] in {Active, Closing}
    ensures forall k :: k in s.tasks ==> !s.tasks[k].Backoff?
  {
    ReachableIsInv(s);
    forall k | k in s.tasks ensures !s.tasks[k].Backoff? {
      assert TaskOk(s, k, s.tasks[k]);
    }
    forall p, id | Listed(s.tables, p, id)
      ensures id in s.tables.states && s.tables.states[id] in {Active, Closing}
    {
      assert OwnedBy(s.tables, p, id);
    }
  }

  /** Whenever `connect` reuses a session, that session is listed for the peer and active. */
  lemma {:induction false} ReuseIsListedAndActive(s: System, k: TaskId)
    requires Reachable(s) && k in s.tasks && s.tasks[k].Found?
    requires Step(s, ReadState(k)).Some? && Step(s, ReadState(k)).value.tasks[k].Done?
    ensures Listed(s.tables, s.tasks[k].peer, s.tasks[k].id) && IsActive(s.tables, s.tasks[k].id)
    ensures Step(s, ReadState(k)).value.tasks[k] == Done(Some(s.tasks[k].id))
  {
    ReachableIsInv(s);
    assert TaskOk(s, k, s.tasks[k]);
    assert OwnedBy(s.tables, s.tasks[k].peer, s.tasks[k].id);
  }

  /** In every interleaving, whatever `connect` returned is a session that was added under its own id. */
  lemma {:induction false} ResultIsASession(s: System, k: TaskId)
    requires Reachable(s) && k in s.tasks && s.tasks[k].Done? && s.tasks[k].session.Some?
    ensures s.tasks[k].session.value in s.born && s.tasks[k].session.value !in s.temps
  {
    ReachableIsInv(s);
    assert TaskOk(s, k, s.tasks[k]);
  }

  /** Two tasks never hold the lock of one peer at once. */
  lemma {:induction false} PeerLockIsExclusive(s: System, j: TaskId, k: TaskId)
    requires Reachable(s) && j in s.tasks && k in s.tasks
    requires UsesLock(s.tasks[j]) && UsesLock(s.tasks[k]) && s.tasks[j].peer == s.tasks[k].peer
    ensures j == k
  {
    ReachableIsInv(s);
    assert TaskOk(s, j, s.tasks[j]) && TaskOk(s, k, s.tasks[k]);
  }

  // ---------------------------------------------------------------- the hypotheses are needed

  lemma {:induction false} ReachableStep(s: System, a: Action)
    requires Reachable(s) && Step(s, a).Some?
    ensures Reachable(Step(s, a).value)
  {
    hide Step;
    var actions :| Run(INIT, actions) == Some(s);
    RunAppend(INIT, actions, a);
  }

  lemma {:induction false} RunAppend(s: System, actions: seq<Action>, a: Action)
    requires Run(s, actions).Some?
    ensures Run(s, actions + [a]) == Step(Run(s, actions).value, a)
    decreases |actions|
  {
    hide Step;
    var all := actions + [a];
    if actions == [] {
      assert all[1..] == [];
    } else {
      assert all[1..] == actions[1..] + [a];
      RunAppend(Step(s, actions[0]).value, actions[1..], a);
    }
  }

  /** An accepted connection for a peer that already has an active session always makes a second one. */
  lemma {:induction false} AcceptMakesASecondActiveSession(s: System, p: Peer, x: Id, y: Id)
    requires Reachable(s) && Listed(s.tables, p, x) && IsActive(s.tables, x) && Fresh(s, y)
    ensures Step(s, Accept(p, y)).Some? && Reachable(Step(s, Accept(p, y)).value)
    ensures var t := Step(s, Accept(p, y)).value.tables;
            x != y && Listed(t, p, x) && IsActive(t, x) && Listed(t, p, y) && IsActive(t, y)
  {
    ReachableStep(s, Accept(p, y));
    ReachableIsInv(s);
    assert OwnedBy(s.tables, p, x);
    AddKeepsConsistent(s.tables, p, y);
  }

  /**
   A run in which `disconnect` removes a session between the two last regions of the `connect` that
   added it: the session is no longer listed, yet recorded as active and returned to the caller.
   */
  lemma {:induction false} ConnectCanReturnARemovedSession(p: Peer, temp: Id, x: Id)
    requires temp != x
    ensures exists s, k ::
              && Reachable(s) && k in s.tasks && s.tasks[k] == Done(Some(x))
              && IsActive(s.tables, x) && x !in s.tables.active && !Listed(s.tables, p, x)
  {
    hide Reachable, Consistent;
    var added := ConnectRunsToAdded(p, temp, x);
    var closing := DisconnectRunsToRemoving(added, p, x);
    Advance(closing, RemoveOne(1), 1);
    var removed := Step(closing, RemoveOne(1)).value;
    RemovedIsUnlisted(closing, p, x);
    assert removed.tasks[0] == Added(p, x);
    Advance(removed, Finish(0), 0);
    var s := Step(removed, Finish(0)).value;
    assert s.tasks[0] == Done(Some(x)) && s.tables == SetState(removed.tables, x, Active);
  }

  lemma {:induction false} RemovedIsUnlisted(s: System, p: Peer, x: Id)
    requires Reachable(s) && x in s.tables.sessionPeers && s.tables.sessionPeers[x] == p
    ensures var t := Remove(s.tables, x, p); x !in t.active && !Listed(t, p, x)
  {
    ReachableIsInv(s);
    RemoveKeepsConsistent(s.tables, x, p);
  }

  /** One step of task `k`, keeping reachability folded. */
  lemma {:induction false} Advance(s: System, a: Action, k: TaskId)
    requires Reachable(s) && k in s.tasks && !a.Accept? && a.task == k && !a.StartConnect? && !a.StartDisconnect?
    requires TaskStep(s, k, a).Some?
    ensures Step(s, a) == TaskStep(s, k, a) && Reachable(TaskStep(s, k, a).value)
  {
    hide TaskStep;
    ReachableStep(s, a);
  }

  lemma {:induction false} ConnectRunsToAdded(p: Peer, temp: Id, x: Id) returns (s: System)
    requires temp != x
    ensures Reachable(s) && 0 in s.tasks && s.tasks[0] == Added(p, x) && 1 !in s.tasks
    ensures SessionsOf(s.tables, p) == [x] && x in s.tables.sessionPeers && s.tables.sessionPeers[x] == p
  {
    s := ConnectRunsToConnecting(p);
    hide Reachable;
    Advance(s, BeginAttempt(0, temp), 0);
    s := TaskStep(s, 0, BeginAttempt(0, temp)).value;
    Advance(s, AddNew(0, x), 0);
    s := TaskStep(s, 0, AddNew(0, x)).value;
  }

  lemma {:induction false} ConnectRunsToConnecting(p: Peer) returns (s: System)
    ensures Reachable(s) && 0 in s.tasks && s.tasks[0] == Connecting(p) && 1 !in s.tasks
    ensures s.tables == EMPTY && s.born == map[] && s.temps == {}
  {
    assert Run(INIT, []) == Some(INIT);
    ReachableStep(INIT, StartConnect(0, p));
    hide Reachable;
    s := Goto(INIT, 0, Waiting(p));
    Advance(s, TakeLock(0), 0);
    s := TaskStep(s, 0, TakeLock(0)).value;
    Advance(s, LookUp(0), 0);
    s := TaskStep(s, 0, LookUp(0)).value;
  }

  lemma {:induction false} DisconnectRunsToRemoving(s0: System, p: Peer, x: Id) returns (s: System)
    requires Reachable(s0) && 0 in s0.tasks && 1 !in s0.tasks
    requires SessionsOf(s0.tables, p) == [x] && x in s0.tables.sessionPeers && s0.tables.sessionPeers[x] == p
    ensures Reachable(s) && 1 in s.tasks && s.tasks[1] == Removing(p, [x], p)
    ensures 0 in s.tasks && s.tasks[0] == s0.tasks[0]
    ensures x in s.tables.sessionPeers && s.tables.sessionPeers[x] == p
  {
    s := DisconnectRunsToDropping(s0, p);
    hide Reachable;
    Advance(s, MarkClosing(1), 1);
    s := TaskStep(s, 1, MarkClosing(1)).value;
    Advance(s, ReadOwner(1), 1);
    s := TaskStep(s, 1, ReadOwner(1)).value;
  }

  lemma {:induction false} DisconnectRunsToDropping(s0: System, p: Peer) returns (s: System)
    requires Reachable(s0) && 0 in s0.tasks && 1 !in s0.tasks && SessionsOf(s0.tables, p) != []
    ensures Reachable(s) && 1 in s.tasks && s.tasks[1] == Dropping(p, SessionsOf(s0.tables, p))
    ensures 0 in s.tasks && s.tasks[0] == s0.tasks[0] && s.tables == s0.tables
  {
    ReachableStep(s0, StartDisconnect(1, p));
    hide Reachable;
    s := Goto(s0, 1, Asked(p));
    Advance(s, ListSessions(1), 1);
    s := TaskStep(s, 1, ListSessions(1)).value;
  }
}
