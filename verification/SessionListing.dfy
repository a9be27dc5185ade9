/**
 When a session returned by `connect` is still listed (dsm/src/communication/manager.rs): over every
 run, exactly when no concurrent `disconnect` removed it in between.
 */
module SessionListing {
  import opened Common
  import opened SessionTables
  import opened SessionProtocol

  /** The step is a `disconnect` task removing `x` from the tables. */
  predicate Removes(s: System, a: Action, x: Id) {
    && a.RemoveOne? && a.task in s.tasks && s.tasks[a.task].Removing?
    && s.tasks[a.task].ids != [] && s.tasks[a.task].ids[0] == x
  }

  predicate RemovedDuring(s: System, actions: seq<Action>, x: Id)
    decreases |actions|
  {
    actions != [] &&
    (|| Removes(s, actions[0], x)
     || (Step(s, actions[0]).Some? && RemovedDuring(Step(s, actions[0]).value, actions[1..], x)))
  }

  // ---------------------------------------------------------------- one step

  /** What a step does to the owner of a session that already exists. */
  lemma {:induction false} StepOwners(s: System, a: Action, p: Peer, x: Id)
    requires Step(s, a).Some? && x in s.born
    ensures x in Step(s, a).value.born && Step(s, a).value.born[x] == s.born[x]
    ensures OwnedBy(Step(s, a).value.tables, p, x) <==> OwnedBy(s.tables, p, x) && !Removes(s, a, x)
  {
    hide FindByPeer;
  }

  lemma {:induction false} InvListing(s: System, p: Peer, x: Id)
    requires Inv(s)
    ensures Listed(s.tables, p, x) <==> OwnedBy(s.tables, p, x)
    ensures Listed(s.tables, p, x) ==> BornFor(s, p, x)
  {
    hide TaskOk, LocksOk;
  }

  /** A session once added stays listed through exactly the steps that do not remove it, and never comes back. */
  lemma {:induction false} StepListing(s: System, a: Action, p: Peer, x: Id)
    requires Inv(s) && Step(s, a).Some? && x in s.born
    ensures Listed(Step(s, a).value.tables, p, x) <==> Listed(s.tables, p, x) && !Removes(s, a, x)
  {
    StepKeepsInv(s, a);
    hide Inv, Step, Removes;
    StepOwners(s, a, p, x);
    InvListing(s, p, x);
    InvListing(Step(s, a).value, p, x);
  }

  // ---------------------------------------------------------------- whole runs

  lemma {:induction false} RunListing(s: System, actions: seq<Action>, p: Peer, x: Id)
    requires Inv(s) && Run(s, actions).Some? && x in s.born
    ensures Listed(Run(s, actions).value.tables, p, x) <==> Listed(s.tables, p, x) && !RemovedDuring(s, actions, x)
    decreases |actions|
  {
    hide Inv, Step, Removes, Listed;
    if actions != [] {
      StepKeepsInv(s, actions[0]);
      StepOwners(s, actions[0], p, x);
      StepListing(s, actions[0], p, x);
      RunListing(Step(s, actions[0]).value, actions[1..], p, x);
    }
  }

  /** In every run from a reachable state, a listed session stays listed exactly if no step removes it. */
  lemma {:induction false} ListedUntilRemoved(s: System, actions: seq<Action>, p: Peer, x: Id)
    requires Reachable(s) && Listed(s.tables, p, x) && Run(s, actions).Some?
    ensures Listed(Run(s, actions).value.tables, p, x) <==> !RemovedDuring(s, actions, x)
  {
    ReachableIsInv(s);
    hide Inv, RemovedDuring, Run;
    InvListing(s, p, x);
    RunListing(s, actions, p, x);
  }

  predicate AddedOrDone(s: System, k: TaskId, p: Peer, x: Id) {
    k in s.tasks && (s.tasks[k] == Added(p, x) || s.tasks[k].Done?)
  }

  lemma {:induction false} StepKeepsAdded(s: System, a: Action, k: TaskId, p: Peer, x: Id)
    requires AddedOrDone(s, k, p, x) && Step(s, a).Some?
    ensures AddedOrDone(Step(s, a).value, k, p, x)
  {
    hide FindByPeer, Add, Remove, SetState;
  }

  lemma {:induction false} RunKeepsAdded(s: System, actions: seq<Action>, k: TaskId, p: Peer, x: Id)
    requires AddedOrDone(s, k, p, x) && Run(s, actions).Some?
    ensures AddedOrDone(Run(s, actions).value, k, p, x)
    decreases |actions|
  {
    hide Step, AddedOrDone;
    if actions != [] {
      StepKeepsAdded(s, actions[0], k, p, x);
      RunKeepsAdded(Step(s, actions[0]).value, actions[1..], k, p, x);
    }
  }

  /** `connect` adds `x` in one step from `s`, others take `actions`, and `connect` finishes. */
  ghost predicate Connects(s: System, k: TaskId, x: Id, actions: seq<Action>) {
    && k in s.tasks && s.tasks[k].Trying?
    && Step(s, AddNew(k, x)).Some?
    && Run(Step(s, AddNew(k, x)).value, actions).Some?
    && Step(Run(Step(s, AddNew(k, x)).value, actions).value, Finish(k)).Some?
  }

  ghost function AfterAdding(s: System, k: TaskId, x: Id): System
    requires Step(s, AddNew(k, x)).Some?
  {
    Step(s, AddNew(k, x)).value
  }

  ghost function AfterConnect(s: System, k: TaskId, x: Id, actions: seq<Action>): System
    requires Connects(s, k, x, actions)
  {
    Step(Run(AfterAdding(s, k, x), actions).value, Finish(k)).value
  }

  lemma {:induction false} AddingLists(s: System, k: TaskId, x: Id)
    requires Inv(s) && k in s.tasks && s.tasks[k].Trying? && Step(s, AddNew(k, x)).Some?
    ensures var next := AfterAdding(s, k, x);
            var p := s.tasks[k].peer;
            Inv(next) && BornFor(next, p, x) && Listed(next.tables, p, x) && AddedOrDone(next, k, p, x)
  {
    StepKeepsInv(s, AddNew(k, x));
    hide Inv;
    InvListing(AfterAdding(s, k, x), s.tasks[k].peer, x);
  }

  lemma {:induction false} FinishReturns(s: System, k: TaskId, p: Peer, x: Id)
    requires AddedOrDone(s, k, p, x) && Step(s, Finish(k)).Some?
    ensures var next := Step(s, Finish(k)).value;
            && next.tasks[k] == Done(Some(x)) && IsActive(next.tables, x)
            && (Listed(next.tables, p, x) <==> Listed(s.tables, p, x))
  {
  }

  /**
   In every interleaving: the session that `connect` adds and returns is recorded as active, and is
   still listed for the peer exactly when no `disconnect` removed it before `connect` finished.
   */
  lemma {:induction false} ReturnedSessionIsListedExactlyWhen(s: System, k: TaskId, x: Id, actions: seq<Action>)
    requires Reachable(s) && Connects(s, k, x, actions)
    ensures var end := AfterConnect(s, k, x, actions);
            && end.tasks[k] == Done(Some(x)) && IsActive(end.tables, x)
            && (Listed(end.tables, s.tasks[k].peer, x) <==> !RemovedDuring(AfterAdding(s, k, x), actions, x))
  {
    ReachableIsInv(s);
    AddingLists(s, k, x);
    hide Inv, Step, RemovedDuring, Listed, AddedOrDone, IsActive;
    var p := s.tasks[k].peer;
    RunKeepsAdded(AfterAdding(s, k, x), actions, k, p, x);
    RunListing(AfterAdding(s, k, x), actions, p, x);
    FinishReturns(Run(AfterAdding(s, k, x), actions).value, k, p, x);
  }

  // ---------------------------------------------------------------- what a caller can rely on

  /** The step is a `disconnect` of `p` reading which sessions to close. */
  predicate Lists(s: System, a: Action, p: Peer) {
    a.ListSessions? && a.task in s.tasks && s.tasks[a.task] == Asked(p)
  }

  predicate ListsDuring(s: System, actions: seq<Action>, p: Peer)
    decreases |actions|
  {
    actions != [] &&
    (|| Lists(s, actions[0], p)
     || (Step(s, actions[0]).Some? && ListsDuring(Step(s, actions[0]).value, actions[1..], p)))
  }

  function Pending(task: Task): seq<Id> {
    if task.Dropping? || task.Marked? || task.Removing? then task.ids else []
  }

  /** No `disconnect` has `x` among the sessions it is about to close. */
  ghost predicate NotPending(s: System, x: Id) {
    forall k :: k in s.tasks ==> x !in Pending(s.tasks[k])
  }

  lemma {:induction false} FreshIsNotPending(s: System, k: TaskId, x: Id)
    requires Inv(s) && k in s.tasks && s.tasks[k].Trying? && Step(s, AddNew(k, x)).Some?
    ensures NotPending(AfterAdding(s, k, x), x)
  {
    hide Bookkeeping, LocksOk;
    forall j | j in s.tasks ensures x !in Pending(s.tasks[j]) {
      assert TaskOk(s, j, s.tasks[j]);
    }
  }

  /** What a step can make a task of `disconnect` hold: part of what it held, or the listing of its peer. */
  lemma {:induction false} StepPending(s: System, a: Action, k: TaskId, x: Id)
    requires Step(s, a).Some? && k in Step(s, a).value.tasks && x in Pending(Step(s, a).value.tasks[k])
    ensures k in s.tasks
    ensures x in Pending(s.tasks[k]) ||
            (a == ListSessions(k) && s.tasks[k].Asked? && Listed(s.tables, s.tasks[k].peer, x))
  {
    hide FindByPeer, Add, Remove, SetState;
    if a.MarkClosing? || a.ReadOwner? || a.RemoveOne? {
      assert k == a.task ==> forall id :: id in s.tasks[k].ids[1..] ==> id in s.tasks[k].ids;
    }
  }

  lemma {:induction false} StepKeepsNotPending(s: System, a: Action, p: Peer, x: Id)
    requires Inv(s) && Step(s, a).Some? && BornFor(s, p, x) && NotPending(s, x) && !Lists(s, a, p)
    ensures NotPending(Step(s, a).value, x) && !Removes(s, a, x)
  {
    hide Inv, Step;
    forall k | k in Step(s, a).value.tasks ensures x !in Pending(Step(s, a).value.tasks[k]) {
      if x in Pending(Step(s, a).value.tasks[k]) {
        StepPending(s, a, k, x);
        InvListing(s, s.tasks[k].peer, x);
      }
    }
    if a.RemoveOne? && a.task in s.tasks {
      assert x !in Pending(s.tasks[a.task]);
    }
  }

  lemma {:induction false} RunKeepsNotPending(s: System, actions: seq<Action>, p: Peer, x: Id)
    requires Inv(s) && Run(s, actions).Some? && BornFor(s, p, x) && NotPending(s, x) && !ListsDuring(s, actions, p)
    ensures !RemovedDuring(s, actions, x)
    decreases |actions|
  {
    hide Inv, Step, NotPending, Removes, Lists;
    if actions != [] {
      StepKeepsInv(s, actions[0]);
      StepOwners(s, actions[0], p, x);
      StepKeepsNotPending(s, actions[0], p, x);
      RunKeepsNotPending(Step(s, actions[0]).value, actions[1..], p, x);
    }
  }

  /** A `disconnect` that read its list before the session was added cannot remove it; only a later reading can. */
  lemma {:induction false} OnlyALaterDisconnectRemoves(s: System, k: TaskId, x: Id, actions: seq<Action>)
    requires Reachable(s) && Connects(s, k, x, actions)
    requires !ListsDuring(AfterAdding(s, k, x), actions, s.tasks[k].peer)
    ensures Listed(AfterConnect(s, k, x, actions).tables, s.tasks[k].peer, x)
  {
    ReturnedSessionIsListedExactlyWhen(s, k, x, actions);
    ReachableIsInv(s);
    AddingLists(s, k, x);
    FreshIsNotPending(s, k, x);
    hide Inv, Step, RemovedDuring, ListsDuring, NotPending, Listed;
    RunKeepsNotPending(AfterAdding(s, k, x), actions, s.tasks[k].peer, x);
  }

  /** No `disconnect` of `p` has been called and not yet read its list. */
  ghost predicate NoneAsked(s: System, p: Peer) {
    forall k :: k in s.tasks ==> s.tasks[k] != Asked(p)
  }

  ghost predicate StartsNoDisconnect(actions: seq<Action>, p: Peer) {
    forall i :: 0 <= i < |actions| ==> !(actions[i].StartDisconnect? && actions[i].peer == p)
  }

  lemma {:induction false} StepKeepsNoneAsked(s: System, a: Action, p: Peer)
    requires Step(s, a).Some? && NoneAsked(s, p) && !(a.StartDisconnect? && a.peer == p)
    ensures NoneAsked(Step(s, a).value, p)
  {
    hide FindByPeer, Add, Remove, SetState;
  }

  lemma {:induction false} NobodyLists(s: System, actions: seq<Action>, p: Peer)
    requires Run(s, actions).Some? && NoneAsked(s, p) && StartsNoDisconnect(actions, p)
    ensures !ListsDuring(s, actions, p)
    decreases |actions|
  {
    hide Step;
    if actions != [] {
      StepKeepsNoneAsked(s, actions[0], p);
      NobodyLists(Step(s, actions[0]).value, actions[1..], p);
    }
  }

  /** For the caller: with no `disconnect` of the peer called meanwhile, the returned session is listed and active. */
  lemma {:induction false} ConnectReturnsAListedSession(s: System, k: TaskId, x: Id, actions: seq<Action>)
    requires Reachable(s) && Connects(s, k, x, actions)
    requires NoneAsked(s, s.tasks[k].peer) && StartsNoDisconnect(actions, s.tasks[k].peer)
    ensures var end := AfterConnect(s, k, x, actions);
            end.tasks[k] == Done(Some(x)) && IsActive(end.tables, x) && Listed(end.tables, s.tasks[k].peer, x)
  {
    ReturnedSessionIsListedExactlyWhen(s, k, x, actions);
    StepKeepsNoneAsked(s, AddNew(k, x), s.tasks[k].peer);
    hide Step, NoneAsked, RemovedDuring, Listed, IsActive, StartsNoDisconnect;
    NobodyLists(AfterAdding(s, k, x), actions, s.tasks[k].peer);
    OnlyALaterDisconnectRemoves(s, k, x, actions);
  }
}
