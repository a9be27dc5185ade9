/** The four session tables of the network manager (dsm/src/communication/manager.rs). */
module SessionTables {
  import opened Common

  type Peer = string
  type Id = string

  datatype SessionState = Establishing | Active | Closing | Closed

  /** A session handle is identified with its id, so `active_sessions` is a set of ids. */
  datatype Tables = Tables(
    active: set<Id>,
    peerSessions: map<Peer, seq<Id>>,
    sessionPeers: map<Id, Peer>,
    states: map<Id, SessionState>)

  const EMPTY := Tables({}, map[], map[], map[])

  // ---------------------------------------------------------------- one lock region each

  function SessionsOf(t: Tables, p: Peer): seq<Id> {
    if p in t.peerSessions then t.peerSessions[p] else []
  }

  /** `add_session`: four inserts under four held locks. */
  function Add(t: Tables, p: Peer, id: Id): Tables {
    Tables(
      t.active + {id},
      t.peerSessions[p := SessionsOf(t, p) + [id]],
      t.sessionPeers[id := p],
      t.states[id := Active])
  }

  function Without(ids: seq<Id>, id: Id): (r: seq<Id>)
    ensures forall x :: x in r <==> x in ids && x != id
  {
    if ids == [] then []
    else if ids[0] == id then Without(ids[1..], id)
    else [ids[0]] + Without(ids[1..], id)
  }

  /** The second region of `remove_session`, for an id whose owner was read before. */
  function Remove(t: Tables, id: Id, owner: Peer): Tables {
    var left := Without(SessionsOf(t, owner), id);
    Tables(
      t.active - {id},
      if owner !in t.peerSessions then t.peerSessions
      else if left == [] then t.peerSessions - {owner}
      else t.peerSessions[owner := left],
      t.sessionPeers - {id},
      t.states[id := Closed])
  }

  function SetState(t: Tables, id: Id, st: SessionState): Tables {
    t.(states := t.states[id := st])
  }

  predicate IsActive(t: Tables, id: Id) {
    id in t.states && t.states[id] == Active
  }

  function FirstActive(t: Tables, ids: seq<Id>): (r: Option<Id>)
    ensures r.Some? ==> r.value in ids && IsActive(t, r.value)
    ensures r.Some? ==>
              exists i :: 0 <= i < |ids| && ids[i] == r.value && forall j :: 0 <= j < i ==> !IsActive(t, ids[j])
    ensures r.None? ==> forall id :: id in ids ==> !IsActive(t, id)
  {
    if ids == [] then None
    else if IsActive(t, ids[0]) then Some(ids[0])
    else FirstActive(t, ids[1..])
  }

  /** The position of the first active session, or 0 when none is active. */
  function Preferred(t: Tables, ids: seq<Id>): (i: nat)
    requires ids != []
    ensures i < |ids|
    ensures IsActive(t, ids[i]) ==> forall j :: 0 <= j < i ==> !IsActive(t, ids[j])
    ensures !IsActive(t, ids[i]) ==> i == 0 && forall j :: 0 <= j < |ids| ==> !IsActive(t, ids[j])
  {
    if IsActive(t, ids[0]) || |ids| == 1 then 0
    else
      var k := Preferred(t, ids[1..]);
      assert forall j :: 1 <= j < |ids| ==> ids[j] == ids[1..][j - 1];
      if IsActive(t, ids[1..][k]) then k + 1 else 0
  }

  /** `get_session_by_peer`: the first active session, or else the first one. */
  function FindByPeer(t: Tables, p: Peer): Option<Id> {
    var ids := SessionsOf(t, p);
    if ids == [] then None
    else
      var id := if FirstActive(t, ids).Some? then FirstActive(t, ids).value else ids[0];
      if id in t.active then Some(id) else None
  }

  // ---------------------------------------------------------------- the tables fit together

  lemma {:induction false} WithoutKeepsNoRepeats(ids: seq<Id>, id: Id)
    requires NoRepeats(ids)
    ensures NoRepeats(Without(ids, id))
  {
    if ids != [] {
      WithoutKeepsNoRepeats(ids[1..], id);
      var rest := Without(ids[1..], id);
      forall i | 0 <= i < |rest| ensures rest[i] != ids[0] {
        assert rest[i] in ids[1..];
      }
    }
  }

  ghost predicate Listed(t: Tables, p: Peer, id: Id) {
    p in t.peerSessions && id in t.peerSessions[p]
  }

  ghost predicate OwnedBy(t: Tables, p: Peer, id: Id) {
    id in t.sessionPeers && t.sessionPeers[id] == p
  }

  /** `peer_sessions` is the duplicate-free inverse of `session_peers`, without empty lists. */
  ghost predicate Inverse(t: Tables) {
    && (forall p, id :: Listed(t, p, id) <==> OwnedBy(t, p, id))
    && (forall p :: p in t.peerSessions ==> t.peerSessions[p] != [] && NoRepeats(t.peerSessions[p]))
  }

  ghost predicate Consistent(t: Tables) {
    && Inverse(t)
    && t.active == t.sessionPeers.Keys
    && (forall id :: id in t.active ==> id in t.states && t.states[id] in {Active, Closing})
  }

  lemma {:induction false} AddKeepsConsistent(t: Tables, p: Peer, id: Id)
    requires Consistent(t) && id !in t.active
    ensures Consistent(Add(t, p, id))
    ensures forall q, x :: Listed(Add(t, p, id), q, x) <==> Listed(t, q, x) || (q == p && x == id)
  {
    var u := Add(t, p, id);
    assert !Listed(t, p, id);
    forall q, x ensures Listed(u, q, x) <==> Listed(t, q, x) || (q == p && x == id) {
      if q == p {
        assert x in u.peerSessions[p] <==> x in SessionsOf(t, p) || x == id;
      }
    }
    assert forall q, x :: OwnedBy(u, q, x) <==> OwnedBy(t, q, x) || (q == p && x == id);
    assert NoRepeats(SessionsOf(t, p) + [id]);
  }

  lemma {:induction false} RemoveKeepsConsistent(t: Tables, id: Id, owner: Peer)
    requires Consistent(t) && (id in t.active ==> t.sessionPeers[id] == owner)
    ensures Consistent(Remove(t, id, owner))
    ensures forall q, x :: Listed(Remove(t, id, owner), q, x) <==> Listed(t, q, x) && x != id
  {
    var u := Remove(t, id, owner);
    var left := Without(SessionsOf(t, owner), id);
    WithoutKeepsNoRepeats(SessionsOf(t, owner), id);
    forall q, x ensures Listed(u, q, x) <==> Listed(t, q, x) && x != id {
      assert Listed(t, q, id) ==> OwnedBy(t, q, id);
      if q == owner && owner in t.peerSessions {
        assert x in left <==> Listed(t, q, x) && x != id;
      }
    }
    assert forall q, x :: OwnedBy(u, q, x) <==> OwnedBy(t, q, x) && x != id;
  }

  lemma {:induction false} SetStateKeepsConsistent(t: Tables, id: Id, st: SessionState)
    requires Consistent(t) && (id in t.active ==> st in {Active, Closing})
    ensures Consistent(SetState(t, id, st))
  {
    var u := SetState(t, id, st);
    assert forall q, x :: Listed(u, q, x) <==> Listed(t, q, x);
    assert forall q, x :: OwnedBy(u, q, x) <==> OwnedBy(t, q, x);
  }

  /** A listed peer is always found, and an active session is preferred. */
  lemma {:induction false} FindByPeerFinds(t: Tables, p: Peer)
    requires Consistent(t)
    ensures FindByPeer(t, p).None? <==> p !in t.peerSessions
    ensures FindByPeer(t, p).Some? ==> Listed(t, p, FindByPeer(t, p).value)
    ensures (exists id :: Listed(t, p, id) && IsActive(t, id)) ==>
              FindByPeer(t, p).Some? && IsActive(t, FindByPeer(t, p).value)
    ensures p in t.peerSessions ==> FindByPeer(t, p) == Some(t.peerSessions[p][Preferred(t, t.peerSessions[p])])
  {
    if p in t.peerSessions {
      var ids := t.peerSessions[p];
      assert ids[0] in ids;
      forall id | id in ids ensures id in t.active {
        assert Listed(t, p, id);
        assert OwnedBy(t, p, id);
      }
    }
  }

  // ---------------------------------------------------------------- the manager object

  datatype SessionInfo = SessionInfo(id: Id, peer: Peer, state: SessionState)

  const UNKNOWN: Peer := "unknown"

  class NetworkManager {
    var activeSessions: set<Id>
    var peerSessions: map<Peer, seq<Id>>
    var sessionPeers: map<Id, Peer>
    var sessionStates: map<Id, SessionState>

    function Abs(): Tables
      reads this
    {
      Tables(activeSessions, peerSessions, sessionPeers, sessionStates)
    }

    constructor ()
      ensures Abs() == EMPTY && Consistent(Abs())
    {
      activeSessions, peerSessions, sessionPeers, sessionStates := {}, map[], map[], map[];
    }

    method AddSession(p: Peer, id: Id)
      modifies this
      ensures Abs() == Add(old(Abs()), p, id)
      ensures old(Consistent(Abs())) && id !in old(activeSessions) ==> Consistent(Abs())
    {
      if Consistent(Abs()) && id !in activeSessions {
        AddKeepsConsistent(Abs(), p, id);
      }
      activeSessions := activeSessions + {id};
      if p !in peerSessions {
        peerSessions := peerSessions[p := []];
      }
      peerSessions := peerSessions[p := peerSessions[p] + [id]];
      sessionPeers := sessionPeers[id := p];
      sessionStates := sessionStates[id := Active];
      assert peerSessions == Add(old(Abs()), p, id).peerSessions;
    }

    method UpdateSessionState(id: Id, st: SessionState)
      modifies this`sessionStates
      ensures Abs() == SetState(old(Abs()), id, st)
    {
      sessionStates := sessionStates[id := st];
    }

    /** Returns false when the id has no owner. */
    method RemoveSession(id: Id) returns (ok: bool)
      modifies this
      ensures ok <==> id in old(sessionPeers)
      ensures Abs() == if ok then Remove(old(Abs()), id, old(sessionPeers)[id]) else old(Abs())
      ensures old(Consistent(Abs())) ==> Consistent(Abs()) && id !in activeSessions
    {
      if id !in sessionPeers {
        return false;
      }
      var owner := sessionPeers[id];
      if Consistent(Abs()) {
        RemoveKeepsConsistent(Abs(), id, owner);
      }
      activeSessions := activeSessions - {id};
      if owner in peerSessions {
        var left := Without(peerSessions[owner], id);
        if left == [] {
          peerSessions := peerSessions - {owner};
        } else {
          peerSessions := peerSessions[owner := left];
        }
      }
      sessionPeers := sessionPeers - {id};
      sessionStates := sessionStates[id := Closed];
      ok := true;
    }

    method GetSessionByPeer(p: Peer) returns (r: Option<Id>)
      ensures r == FindByPeer(Abs(), p)
    {
      if p !in peerSessions || peerSessions[p] == [] {
        return None;
      }
      var ids := peerSessions[p];
      for i := 0 to |ids|
        invariant FirstActive(Abs(), ids) == FirstActive(Abs(), ids[i..])
      {
        assert ids[i..][1..] == ids[i + 1..];
        if ids[i] in sessionStates && sessionStates[ids[i]] == Active {
          return if ids[i] in activeSessions then Some(ids[i]) else None;
        }
      }
      r := if ids[0] in activeSessions then Some(ids[0]) else None;
    }

    /**
     `disconnect`, run without interruption: afterwards the peer has no session, everyone else is
     untouched, and an unknown peer is an error.
     */
    method Disconnect(p: Peer) returns (ok: bool)
      requires Consistent(Abs())
      modifies this
      ensures Consistent(Abs())
      ensures ok <==> p in old(peerSessions)
      ensures p !in peerSessions
      ensures forall q, x :: q != p ==> (Listed(Abs(), q, x) <==> Listed(old(Abs()), q, x))
    {
      if p !in peerSessions {
        return false;
      }
      var ids := peerSessions[p];
      forall k | 0 <= k < |ids| ensures OwnedBy(Abs(), p, ids[k]) {
        assert Listed(Abs(), p, ids[k]);
      }
      for i := 0 to |ids|
        invariant Consistent(Abs())
        invariant forall x :: Listed(Abs(), p, x) ==> x in ids[i..]
        invariant forall q, x :: q != p ==> (Listed(Abs(), q, x) <==> Listed(old(Abs()), q, x))
        invariant forall k :: 0 <= k < |ids| && ids[k] in activeSessions ==> sessionPeers[ids[k]] == p
      {
        var id := ids[i];
        ghost var before := Abs();
        SetStateKeepsConsistent(Abs(), id, Closing);
        UpdateSessionState(id, Closing);
        ghost var marked := Abs();
        assert forall q, x :: Listed(marked, q, x) <==> Listed(before, q, x);
        if id in sessionPeers {
          RemoveKeepsConsistent(marked, id, p);
        }
        var removed := RemoveSession(id);
        assert forall q, x :: Listed(Abs(), q, x) <==> Listed(before, q, x) && x != id by {
          if !removed {
            assert !OwnedBy(marked, p, id);
            forall q ensures !Listed(marked, q, id) {
              assert !OwnedBy(marked, q, id);
            }
          }
        }
        assert forall x :: x in ids[i..] && x != id ==> x in ids[i + 1..];
      }
      if p in peerSessions {
        assert Listed(Abs(), p, peerSessions[p][0]);
      }
      ok := true;
    }

    /** `get_active_sessions`: the listed sessions that are active, each with its true peer. */
    method GetActiveSessions() returns (r: seq<SessionInfo>)
      requires Consistent(Abs())
      ensures forall info :: info in r <==>
                OwnedBy(Abs(), info.peer, info.id) && IsActive(Abs(), info.id) && info.state == Active
      ensures |r| == |set id | id in activeSessions && IsActive(Abs(), id)|
    {
      r := [];
      var todo := activeSessions;
      ghost var done: set<Id> := {};
      while todo != {}
        invariant todo <= activeSessions && done == set id | id in activeSessions - todo && IsActive(Abs(), id)
        invariant |r| == |done|
        invariant forall info :: info in r <==>
            info.id in done && OwnedBy(Abs(), info.peer, info.id) && info.state == Active
        decreases todo
      {
        var id :| id in todo;
        todo := todo - {id};
        if id in sessionStates && sessionStates[id] in {Active, Establishing} {
          var peer := if id in sessionPeers then sessionPeers[id] else UNKNOWN;
          r := r + [SessionInfo(id, peer, sessionStates[id])];
          done := done + {id};
        }
      }
      assert done == set id | id in activeSessions && IsActive(Abs(), id);
    }
  }
}
