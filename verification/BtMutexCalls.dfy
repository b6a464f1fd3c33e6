/** What EnterAll and LeaveAll have done when they return, whatever the other connections did in the meantime. */
module BtMutexCalls {
  import opened BtMutex
  import opened BtMutexProof

  // ---- How often a list of calls enters and leaves ----

  lemma {:induction false} NetConcat(a: seq<Call>, b: seq<Call>, j: nat)
    ensures Net(a + b, j) == Net(a, j) + Net(b, j)
  {
    if b == [] {
      assert a + b == a;
    } else {
      var n := |b| - 1;
      NetConcat(a, b[..n], j);
      NetAppend(a + b[..n], b[n], j);
      assert a + b == (a + b[..n]) + [b[n]];
    }
  }

  lemma NetOne(call: Call, j: nat)
    ensures Net([call], j) == if call.b != Shared(j) then 0 else if call.Enter? then 1 else -1
  {
    NetAppend([], call, j);
    assert [] + [call] == [call];
  }

  /** The calls of EnterAll enter every sharable b-tree of the array once, and nothing else. */
  lemma {:induction false} NetEnter(db: seq<Btree>, n: nat, j: nat)
    requires IsDbs(db, n)
    ensures Net(EnterCalls(db), j) == if Shared(j) in db then 1 else 0
  {
    if db != [] {
      DbsTail(db, n);
      NetEnter(db[1..], n, j);
      NetConcat(if db[0].Shared? then [Enter(db[0])] else [], EnterCalls(db[1..]), j);
      NetOne(Enter(db[0]), j);
    }
  }

  /** Those of LeaveAll leave them once. */
  lemma {:induction false} NetLeave(db: seq<Btree>, n: nat, j: nat)
    requires IsDbs(db, n)
    ensures Net(LeaveCalls(db), j) == if Shared(j) in db then -1 else 0
  {
    if db != [] {
      DbsTail(db, n);
      NetLeave(db[1..], n, j);
      NetConcat(if db[0].Null? then [] else [Leave(db[0])], LeaveCalls(db[1..]), j);
      NetOne(Leave(db[0]), j);
    }
  }

  // ---- From a request to its end ----

  /** The connection is between requests. */
  predicate AtRest(s: State, c: nat)
    requires c < |s.conns|
  {
    s.conns[c].pc.Idle? && s.conns[c].todo == []
  }

  /** The calls begun and those still to be made. */
  function Planned(s: State, c: nat): seq<Call>
    requires c < |s.conns|
  {
    s.conns[c].log + s.conns[c].todo
  }

  /** A step inside a call changes neither what is planned nor noSharedCache, of any connection. */
  lemma MovePlanned(g: Config, s: State, d: nat, c: nat)
    requires Shape(g, s) && CanMove(g, s, d) && c < |s.conns|
    ensures var t := Move(g, s, d);
            && |t.conns| == |s.conns| && t.conns[c].log == s.conns[c].log && t.conns[c].todo == s.conns[c].todo
            && t.conns[c].noSharedCache == s.conns[c].noSharedCache
  {
    if c == d { OwnMove(g, s, c); } else { OtherMove(g, s, d, c); }
  }

  lemma OwnMove(g: Config, s: State, c: nat)
    requires Shape(g, s) && CanMove(g, s, c)
    ensures |Move(g, s, c).conns| == |s.conns|
    ensures var y, x := Move(g, s, c).conns[c], s.conns[c];
            y.log == x.log && y.todo == x.todo && y.noSharedCache == x.noSharedCache
  {
    var x := s.conns[c];
    if x.pc.Releasing? || x.pc.Released? || x.pc.Relocking? {
      assert x.pc.k <= |x.locked|;
    }
  }

  lemma OtherMove(g: Config, s: State, d: nat, c: nat)
    requires Shape(g, s) && CanMove(g, s, d) && c < |s.conns| && c != d
    ensures var t := Move(g, s, d); |t.conns| == |s.conns| && t.conns[c] == s.conns[c]
  {
  }

  lemma BeginPlanned(x: Conn)
    requires x.todo != [] && MayCall(x, x.todo[0]) && |x.locked| == |x.wantToLock|
    ensures Begin(x).log + Begin(x).todo == x.log + x.todo && Begin(x).noSharedCache == x.noSharedCache
  {
    assert x.log + x.todo == (x.log + [x.todo[0]]) + x.todo[1..];
  }

  /** Steps of any connection leave what is planned as it is, but for a new request. */
  lemma StepPlanned(g: Config, s: State, a: Action, c: nat)
    requires Shape(g, s) && Enabled(g, s, a) && c < |s.conns| && (a.Run? || a.c != c)
    ensures var t := Apply(g, s, a);
            && |t.conns| == |s.conns| && Planned(t, c) == Planned(s, c)
            && t.conns[c].noSharedCache == s.conns[c].noSharedCache
  {
    if a.Run? && !s.conns[a.c].pc.Idle? {
      MovePlanned(g, s, a.c, c);
    } else if a.Run? && a.c == c {
      BeginPlanned(s.conns[c]);
    }
  }

  /** Between states k and l the connection is not at rest. */
  ghost predicate IsBusy(n: nat, ss: seq<State>, k: nat, l: nat, c: nat) {
    && k < l < |ss| && c < n
    && (forall m {:trigger ss[m]} :: k <= m <= l ==> |ss[m].conns| == n)
    && (forall m {:trigger AtRest(ss[m], c)} :: k < m < l ==> !AtRest(ss[m], c))
  }

  /** From the request at step k to state l, in which the connection is at rest for the first time again. */
  ghost predicate IsRequest(g: Config, ss: seq<State>, actions: seq<Action>, k: nat, l: nat, c: nat, r: Request) {
    && IsRun(g, ss, actions) && IsBusy(|g.lists|, ss, k, l, c) && actions[k] == Ask(c, r) && AtRest(ss[l], c)
  }

  lemma BusyStep(n: nat, ss: seq<State>, k: nat, l: nat, c: nat)
    requires IsBusy(n, ss, k, l, c) && k < l - 1
    ensures IsBusy(n, ss, k, l - 1, c) && |ss[l - 1].conns| == n && !AtRest(ss[l - 1], c)
  {
  }

  lemma {:induction false} RequestPlanned(g: Config, ss: seq<State>, actions: seq<Action>, k: nat, l: nat, c: nat,
                                          r: Request)
    requires IsRun(g, ss, actions) && IsBusy(|g.lists|, ss, k, l, c) && actions[k] == Ask(c, r)
    ensures Planned(ss[l], c) == ss[k].conns[c].log + Calls(r, g.dbs[c], ss[k].conns[c].noSharedCache)
    decreases l
  {
    StepOfRun(g, ss, actions, l - 1);
    if k < l - 1 {
      BusyStep(|g.lists|, ss, k, l, c);
      RequestPlanned(g, ss, actions, k, l - 1, c, r);
      BusyPlanned(g, ss[l - 1], actions[l - 1], c);
    } else {
      AskPlanned(g, ss[k], c, r);
    }
  }

  /** A connection that is not at rest makes no new request. */
  lemma BusyPlanned(g: Config, s: State, a: Action, c: nat)
    requires Shape(g, s) && Enabled(g, s, a) && c < |s.conns| && !AtRest(s, c)
    ensures var t := Apply(g, s, a); |t.conns| == |s.conns| && Planned(t, c) == Planned(s, c)
  {
    StepPlanned(g, s, a, c);
  }

  lemma StepOfRun(g: Config, ss: seq<State>, actions: seq<Action>, k: nat)
    requires IsRun(g, ss, actions) && k < |actions|
    ensures Shape(g, ss[k]) && Enabled(g, ss[k], actions[k]) && ss[k + 1] == Apply(g, ss[k], actions[k])
  {
  }

  lemma AskPlanned(g: Config, s: State, c: nat, r: Request)
    requires Shape(g, s) && Enabled(g, s, Ask(c, r))
    ensures var t := Apply(g, s, Ask(c, r));
            |t.conns| == |s.conns|
            && Planned(t, c) == s.conns[c].log + Calls(r, g.dbs[c], s.conns[c].noSharedCache)
  {
  }

  /** noSharedCache changes only with a request for EnterAll. */
  lemma StepSkips(g: Config, s: State, a: Action, c: nat)
    requires Shape(g, s) && Enabled(g, s, a) && c < |s.conns|
    ensures var t := Apply(g, s, a);
            && |t.conns| == |s.conns|
            && t.conns[c].noSharedCache == (s.conns[c].noSharedCache || (a == Ask(c, EnterAll) && !HasShared(g.dbs[c])))
  {
    if a.Run? || a.c != c { StepPlanned(g, s, a, c); }
  }

  /** The connection has asked for EnterAll in one of the first k steps. */
  predicate HasAsked(actions: seq<Action>, k: nat, c: nat)
    requires k <= |actions|
  {
    exists m :: 0 <= m < k && actions[m] == Ask(c, EnterAll)
  }

  /** When the request is over, exactly its calls have been made. */
  lemma RequestDone(g: Config, ss: seq<State>, actions: seq<Action>, k: nat, l: nat, c: nat, r: Request, j: nat)
    requires IsRequest(g, ss, actions, k, l, c, r)
    ensures Net(ss[l].conns[c].log, j)
         == Net(ss[k].conns[c].log, j) + Net(Calls(r, g.dbs[c], ss[k].conns[c].noSharedCache), j)
  {
    RequestPlanned(g, ss, actions, k, l, c, r);
    assert Planned(ss[l], c) == ss[l].conns[c].log;
    NetConcat(ss[k].conns[c].log, Calls(r, g.dbs[c], ss[k].conns[c].noSharedCache), j);
  }

  /** noSharedCache is set exactly when EnterAll has been asked for and there is nothing to enter. */
  lemma {:induction false} NothingSkipped(g: Config, ss: seq<State>, actions: seq<Action>, k: nat, c: nat)
    requires IsRun(g, ss, actions) && k < |ss| && c < |g.lists|
    ensures Shape(g, ss[k])
    ensures ss[k].conns[c].noSharedCache <==> HasAsked(actions, k, c) && !HasShared(g.dbs[c])
  {
    RunInv(g, ss, actions, k);
    if k > 0 {
      NothingSkipped(g, ss, actions, k - 1, c);
      StepOfRun(g, ss, actions, k - 1);
      StepSkips(g, ss[k - 1], actions[k - 1], c);
      assert HasAsked(actions, k, c) <==> HasAsked(actions, k - 1, c) || actions[k - 1] == Ask(c, EnterAll);
    }
  }

  lemma NoneShared(db: seq<Btree>, j: nat)
    requires !HasShared(db)
    ensures Shared(j) !in db
  {
  }

  /** A b-tree of a connection at rest is locked, held and recorded exactly if it was entered more often than left. */
  lemma AtRestLocked(g: Config, ss: seq<State>, actions: seq<Action>, l: nat, c: nat, j: nat)
    requires IsRun(g, ss, actions) && l < |ss| && c < |g.lists| && j < |g.lists[c]|
    ensures Shape(g, ss[l]) && Net(ss[l].conns[c].log, j) >= 0
    ensures var x := ss[l].conns[c];
            x.pc.Idle? ==>
              && x.locked[j] == (Net(x.log, j) > 0) == Holds(g, ss[l], c, j)
              && (x.locked[j] ==> Recorded(g, ss[l], c, j))
  {
    LockedWhenEntered(g, ss, actions, l, c, j);
    RunInv(g, ss, actions, l);
    assert ConnOk(g, ss[l], c);
    assert ss[l].conns[c].wantToLock[j] == Net(ss[l].conns[c].log, j);
  }

  /**
   When EnterAll has returned, every sharable b-tree of the connection's databases has been entered once more, is
   locked, its mutex held and recorded; every other b-tree has been entered as often as before.
   */
  lemma EnterAllEnters(g: Config, ss: seq<State>, actions: seq<Action>, k: nat, l: nat, c: nat, j: nat)
    requires IsRequest(g, ss, actions, k, l, c, EnterAll) && j < |g.lists[c]|
    ensures Net(ss[l].conns[c].log, j) == Net(ss[k].conns[c].log, j) + if Shared(j) in g.dbs[c] then 1 else 0
    ensures Shape(g, ss[l])
    ensures Shared(j) in g.dbs[c] ==> ss[l].conns[c].locked[j] && Holds(g, ss[l], c, j) && Recorded(g, ss[l], c, j)
  {
    RequestDone(g, ss, actions, k, l, c, EnterAll, j);
    NothingSkipped(g, ss, actions, k, c);
    if ss[k].conns[c].noSharedCache { NoneShared(g.dbs[c], j); } else { NetEnter(g.dbs[c], |g.lists[c]|, j); }
    AtRestLocked(g, ss, actions, k, c, j);
    AtRestLocked(g, ss, actions, l, c, j);
  }

  /**
   When LeaveAll has returned, every sharable b-tree of the connection's databases has been left once, every other not;
   those that were entered once are unlocked and their mutexes are not held by the connection.
   */
  lemma LeaveAllLeaves(g: Config, ss: seq<State>, actions: seq<Action>, k: nat, l: nat, c: nat, j: nat)
    requires IsRequest(g, ss, actions, k, l, c, LeaveAll) && j < |g.lists[c]|
    ensures Net(ss[l].conns[c].log, j) == Net(ss[k].conns[c].log, j) - if Shared(j) in g.dbs[c] then 1 else 0
    ensures Shape(g, ss[l])
    ensures ss[l].conns[c].locked[j] == (Net(ss[l].conns[c].log, j) > 0) == Holds(g, ss[l], c, j)
  {
    RequestDone(g, ss, actions, k, l, c, LeaveAll, j);
    NothingSkipped(g, ss, actions, k, c);
    if ss[k].conns[c].noSharedCache { NoneShared(g.dbs[c], j); } else { NetLeave(g.dbs[c], |g.lists[c]|, j); }
    AtRestLocked(g, ss, actions, l, c, j);
  }

  /** A single Enter or Leave changes how often its own b-tree has been entered, and no other. */
  lemma OneCallDone(g: Config, ss: seq<State>, actions: seq<Action>, k: nat, l: nat, c: nat, call: Call, j: nat)
    requires IsRequest(g, ss, actions, k, l, c, One(call)) && j < |g.lists[c]|
    ensures Net(ss[l].conns[c].log, j)
         == Net(ss[k].conns[c].log, j) + if call.b != Shared(j) then 0 else if call.Enter? then 1 else -1
    ensures Shape(g, ss[l])
    ensures ss[l].conns[c].locked[j] == (Net(ss[l].conns[c].log, j) > 0) == Holds(g, ss[l], c, j)
  {
    RequestDone(g, ss, actions, k, l, c, One(call), j);
    NetOne(call, j);
    AtRestLocked(g, ss, actions, l, c, j);
  }
}
