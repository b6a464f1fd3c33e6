/** The invariant of the b-tree mutexes holds in every run, the source's assertions with it, and no run deadlocks. */
module BtMutexProof {
  import opened BtMutex

  // ---- Calls that a request expands to ----

  lemma DbsTail(db: seq<Btree>, n: nat)
    requires IsDbs(db, n) && db != []
    ensures IsDbs(db[1..], n)
    ensures forall b :: b in db <==> b == db[0] || b in db[1..]
    ensures db[0].Shared? ==> db[0] !in db[1..]
  {
    assert db == [db[0]] + db[1..];
  }

  predicate Distinct(cs: seq<Call>) {
    forall k, l :: 0 <= k < l < |cs| && cs[k].b.Shared? ==> cs[k].b != cs[l].b
  }

  lemma DistinctCons(call: Call, cs: seq<Call>)
    requires Distinct(cs) && (call.b.Shared? ==> forall other <- cs :: other.b != call.b)
    ensures Distinct([call] + cs)
  {
  }

  lemma {:induction false} EnterCallsOk(db: seq<Btree>, n: nat)
    requires IsDbs(db, n)
    ensures Distinct(EnterCalls(db))
    ensures forall call <- EnterCalls(db) :: call.Enter? && call.b.Shared? && call.b in db
  {
    if db != [] {
      DbsTail(db, n);
      EnterCallsOk(db[1..], n);
      DistinctCons(Enter(db[0]), EnterCalls(db[1..]));
    }
  }

  lemma {:induction false} LeaveCallsOk(db: seq<Btree>, n: nat)
    requires IsDbs(db, n)
    ensures Distinct(LeaveCalls(db))
    ensures forall call <- LeaveCalls(db) :: call.Leave? && call.b in db
  {
    if db != [] {
      DbsTail(db, n);
      LeaveCallsOk(db[1..], n);
      DistinctCons(Leave(db[0]), LeaveCalls(db[1..]));
    }
  }

  /** EnterAll makes only allowed calls; LeaveAll does so exactly if every sharable b-tree has been entered. */
  lemma {:induction false} CallsAllowed(db: seq<Btree>, n: nat, x: Conn)
    requires IsDbs(db, n) && Fits(x, n)
    ensures forall call <- EnterCalls(db) :: MayCall(x, call)
    ensures (forall call <- LeaveCalls(db) :: MayCall(x, call))
       <==> forall b <- db :: b.Shared? ==> b.i < n && x.wantToLock[b.i] > 0
  {
    if db != [] {
      DbsTail(db, n);
      CallsAllowed(db[1..], n, x);
      assert db[0].Shared? ==> (MayCall(x, Leave(db[0])) <==> x.wantToLock[db[0].i] > 0);
      assert LeaveCalls(db) == (if db[0].Null? then [] else [Leave(db[0])]) + LeaveCalls(db[1..]);
    }
  }

  lemma CallsOk(r: Request, db: seq<Btree>, n: nat, x: Conn)
    requires IsDbs(db, n) && Fits(x, n)
    requires forall call <- Calls(r, db, x.noSharedCache) :: MayCall(x, call)
    ensures var y := x.(todo := Calls(r, db, x.noSharedCache)); TodoFits(y) && Fits(y, n)
  {
    EnterCallsOk(db, n);
    LeaveCallsOk(db, n);
    var cs := Calls(r, db, x.noSharedCache);
    assert Distinct(cs);
    forall k | 0 <= k < |cs| ensures MayCall(x, cs[k]) && (cs[k].b.Shared? ==> cs[k].b.i < n) {
      assert cs[k] in cs;
    }
  }

  // ---- Other connections are not affected ----

  /** s' differs from s, for connection d, at most in the ownership and record of mutexes d does not hold. */
  ghost predicate Unaffected(g: Config, s: State, s': State, d: nat)
    requires Shape(g, s) && Shape(g, s') && d < |s.conns|
  {
    && s'.conns[d] == s.conns[d]
    && (forall j :: 0 <= j < |g.lists[d]| ==> Holds(g, s', d, j) == Holds(g, s, d, j))
    && (forall j :: 0 <= j < |g.lists[d]| && Holds(g, s, d, j) && Recorded(g, s, d, j) ==> Recorded(g, s', d, j))
  }

  lemma OtherOk(g: Config, s: State, s': State, d: nat)
    requires Shape(g, s) && Shape(g, s') && d < |s.conns| && ConnOk(g, s, d) && Unaffected(g, s, s', d)
    ensures ConnOk(g, s', d)
  {
  }

  // ---- The moving connection ----

  lemma {:induction false} NetAppend(log: seq<Call>, call: Call, i: nat)
    ensures Net(log + [call], i) == Net(log, i) +
      (if call.b != Shared(i) then 0 else if call.Enter? then 1 else -1)
  {
    assert (log + [call])[..|log|] == log;
  }

  lemma BeginTodo(x: Conn, n: nat)
    requires Fits(x, n) && x.pc.Idle? && TodoFits(x) && x.todo != []
    ensures var y := Begin(x); Fits(y, n) && CountsFit(y, n) && TodoFits(y)
  {
    var y := Begin(x);
    forall k | 0 <= k < |y.todo| ensures y.todo[k] == x.todo[k + 1] && MayCall(y, y.todo[k]) {
      assert MayCall(x, x.todo[k + 1]);
    }
  }

  lemma BeginCounts(x: Conn, n: nat)
    requires Fits(x, n) && x.pc.Idle? && TodoFits(x) && x.todo != []
    requires forall j :: 0 <= j < n ==> x.wantToLock[j] == Net(x.log, j)
    requires forall j :: 0 <= j < n ==> x.locked[j] == (x.wantToLock[j] > 0)
    ensures var y := Begin(x);
            && |y.wantToLock| == |y.locked| == n
            && (forall j :: 0 <= j < n ==> y.wantToLock[j] == Net(y.log, j))
            && (forall j :: 0 <= j < n ==> y.locked[j] == ExpectLocked(y.pc, j, y.wantToLock[j]))
            && (forall j :: 0 <= j < n ==> ExpectHeld(y.pc, j, y.wantToLock[j]) == x.locked[j])
  {
    forall j | 0 <= j < n ensures Begin(x).wantToLock[j] == Net(Begin(x).log, j) {
      NetAppend(x.log, x.todo[0], j);
    }
  }

  lemma BeginOk(g: Config, s: State, c: nat)
    requires Shape(g, s) && c < |s.conns| && ConnOk(g, s, c) && s.conns[c].pc.Idle? && s.conns[c].todo != []
    ensures var s' := Put(s, c, Begin(s.conns[c])); Shape(g, s') && ConnOk(g, s', c)
  {
    BeginTodo(s.conns[c], |g.lists[c]|);
    BeginCounts(s.conns[c], |g.lists[c]|);
    PutHolds(g, s, c, Begin(s.conns[c]));
  }

  /** After connection c takes mutex k of its list, its other mutexes are as before. */
  lemma TakeHolds(g: Config, s: State, c: nat, k: nat, x: Conn)
    requires Shape(g, s) && c < |s.conns| && k < |g.lists[c]| && Fits(x, |g.lists[c]|)
    ensures var s' := Put(Take(s, g.lists[c][k], c), c, x);
            && Shape(g, s')
            && (forall j :: 0 <= j < |g.lists[c]| ==> Holds(g, s', c, j) == (j == k || Holds(g, s, c, j)))
            && (forall j :: 0 <= j < |g.lists[c]| ==> Recorded(g, s', c, j) == Recorded(g, s, c, j))
  {
  }

  lemma DropHolds(g: Config, s: State, c: nat, k: nat, x: Conn)
    requires Shape(g, s) && c < |s.conns| && k < |g.lists[c]| && Fits(x, |g.lists[c]|)
    ensures var s' := Put(Drop(s, g.lists[c][k]), c, x);
            && Shape(g, s')
            && (forall j :: 0 <= j < |g.lists[c]| ==> Holds(g, s', c, j) == (j != k && Holds(g, s, c, j)))
            && (forall j :: 0 <= j < |g.lists[c]| ==> Recorded(g, s', c, j) == Recorded(g, s, c, j))
  {
    assert Ascending(g.lists[c]);
    assert forall j :: 0 <= j < |g.lists[c]| && j != k ==> g.lists[c][j] != g.lists[c][k];
  }

  lemma StampRecords(g: Config, s: State, c: nat, k: nat, x: Conn)
    requires Shape(g, s) && c < |s.conns| && k < |g.lists[c]| && Fits(x, |g.lists[c]|)
    ensures var s' := Put(s.(db := s.db[g.lists[c][k] := c]), c, x);
            && Shape(g, s')
            && (forall j :: 0 <= j < |g.lists[c]| ==> Holds(g, s', c, j) == Holds(g, s, c, j))
            && (forall j :: 0 <= j < |g.lists[c]| ==> Recorded(g, s', c, j) == (j == k || Recorded(g, s, c, j)))
  {
  }

  lemma PutHolds(g: Config, s: State, c: nat, x: Conn)
    requires Shape(g, s) && c < |s.conns| && Fits(x, |g.lists[c]|)
    ensures var s' := Put(s, c, x);
            && Shape(g, s')
            && (forall j :: 0 <= j < |g.lists[c]| ==> Holds(g, s', c, j) == Holds(g, s, c, j))
            && (forall j :: 0 <= j < |g.lists[c]| ==> Recorded(g, s', c, j) == Recorded(g, s, c, j))
  {
  }

  predicate CanMove(g: Config, s: State, c: nat)
    requires Shape(g, s)
  {
    c < |s.conns| && !s.conns[c].pc.Idle? && !Blocked(g, s, c)
  }

  lemma TryFailsOk(g: Config, s: State, c: nat)
    requires Shape(g, s) && CanMove(g, s, c) && ConnOk(g, s, c) && s.conns[c].pc.Trying?
    requires g.lists[c][s.conns[c].pc.i] in s.owner
    ensures var s' := Move(g, s, c); Shape(g, s') && ConnOk(g, s', c)
  {
    var x := s.conns[c];
    PutHolds(g, s, c, x.(pc := Releasing(x.pc.i, x.pc.i + 1)));
  }

  lemma TakeMoveOk(g: Config, s: State, c: nat)
    requires Shape(g, s) && CanMove(g, s, c) && ConnOk(g, s, c)
    requires Asks(s.conns[c]) || (s.conns[c].pc.Trying? && g.lists[c][s.conns[c].pc.i] !in s.owner)
    ensures var s' := Move(g, s, c); Shape(g, s') && ConnOk(g, s', c)
  {
    var x := s.conns[c];
    var i := x.pc.i;
    var k := if x.pc.BlockingLater? then x.pc.k else i;
    TakeHolds(g, s, c, k, x.(pc := Got(i, k, !x.pc.Trying?)));
  }

  lemma StampMoveOk(g: Config, s: State, c: nat)
    requires Shape(g, s) && CanMove(g, s, c) && ConnOk(g, s, c) && s.conns[c].pc.Got?
    ensures var s' := Move(g, s, c); Shape(g, s') && ConnOk(g, s', c)
  {
    var x := s.conns[c];
    StampRecords(g, s, c, x.pc.k, x.(pc := Stamped(x.pc.i, x.pc.k, x.pc.careful)));
  }

  lemma StampedMoveOk(g: Config, s: State, c: nat)
    requires Shape(g, s) && CanMove(g, s, c) && ConnOk(g, s, c) && s.conns[c].pc.Stamped?
    ensures var s' := Move(g, s, c); Shape(g, s') && ConnOk(g, s', c)
  {
    var x := s.conns[c];
    var i, k := x.pc.i, x.pc.k;
    PutHolds(g, s, c, x.(locked := x.locked[k := true], pc := if x.pc.careful then Relocking(i, k + 1) else Idle));
  }

  lemma ReleasedMoveOk(g: Config, s: State, c: nat)
    requires Shape(g, s) && CanMove(g, s, c) && ConnOk(g, s, c) && s.conns[c].pc.Released?
    ensures var s' := Move(g, s, c); Shape(g, s') && ConnOk(g, s', c)
  {
    var x := s.conns[c];
    var i, k := x.pc.i, x.pc.k;
    PutHolds(g, s, c, x.(locked := x.locked[k := false], pc := Releasing(i, k + 1)));
  }

  predicate GivesUp(x: Conn) {
    x.pc.Releasing? && x.pc.k < |x.locked| && x.locked[x.pc.k]
  }

  lemma GiveUpOk(g: Config, s: State, c: nat)
    requires Shape(g, s) && CanMove(g, s, c) && ConnOk(g, s, c) && GivesUp(s.conns[c])
    ensures var s' := Move(g, s, c); Shape(g, s') && ConnOk(g, s', c)
  {
    var x := s.conns[c];
    DropHolds(g, s, c, x.pc.k, x.(pc := Released(x.pc.i, x.pc.k)));
  }

  lemma PassOverOk(g: Config, s: State, c: nat)
    requires Shape(g, s) && CanMove(g, s, c) && ConnOk(g, s, c) && s.conns[c].pc.Releasing? && !GivesUp(s.conns[c])
    ensures var s' := Move(g, s, c); Shape(g, s') && ConnOk(g, s', c)
  {
    var x := s.conns[c];
    var i, k := x.pc.i, x.pc.k;
    PcOk(g, s, c, if k == |g.lists[c]| then Blocking(i) else Releasing(i, k + 1));
  }

  /** A step that changes only the program point, to one that expects the same of the locks. */
  lemma PcOk(g: Config, s: State, c: nat, pc: Pc)
    requires Shape(g, s) && c < |s.conns| && ConnOk(g, s, c) && !s.conns[c].pc.Got?
    requires var x, n := s.conns[c], |g.lists[c]|;
             && Fits(x.(pc := pc), n) && CountsFit(x.(pc := pc), n)
             && (forall j :: 0 <= j < n ==> x.locked[j] == ExpectLocked(pc, j, x.wantToLock[j]))
             && (forall j :: 0 <= j < n ==> ExpectHeld(pc, j, x.wantToLock[j]) == ExpectHeld(x.pc, j, x.wantToLock[j]))
    ensures var s' := Put(s, c, s.conns[c].(pc := pc)); Shape(g, s') && ConnOk(g, s', c)
  {
    PutHolds(g, s, c, s.conns[c].(pc := pc));
  }

  lemma RelockingMoveOk(g: Config, s: State, c: nat)
    requires Shape(g, s) && CanMove(g, s, c) && ConnOk(g, s, c) && s.conns[c].pc.Relocking?
    ensures var s' := Move(g, s, c); Shape(g, s') && ConnOk(g, s', c)
  {
    var x := s.conns[c];
    var i, k := x.pc.i, x.pc.k;
    PcOk(g, s, c, if k == |g.lists[c]| then Idle
                  else if x.wantToLock[k] > 0 then BlockingLater(i, k)
                  else Relocking(i, k + 1));
  }

  lemma LeaveMoveOk(g: Config, s: State, c: nat)
    requires Shape(g, s) && CanMove(g, s, c) && ConnOk(g, s, c)
    requires s.conns[c].pc.Unlocking? || s.conns[c].pc.Left?
    ensures var s' := Move(g, s, c); Shape(g, s') && ConnOk(g, s', c)
  {
    var x := s.conns[c];
    var i := x.pc.i;
    if x.pc.Unlocking? {
      DropHolds(g, s, c, i, x.(pc := Left(i)));
    } else {
      PutHolds(g, s, c, x.(locked := x.locked[i := false], pc := Idle));
    }
  }

  lemma MoveOk(g: Config, s: State, c: nat)
    requires Inv(g, s) && CanMove(g, s, c)
    ensures var s' := Move(g, s, c); Shape(g, s') && ConnOk(g, s', c)
  {
    assert ConnOk(g, s, c);
    var pc := s.conns[c].pc;
    if pc.Trying? && g.lists[c][pc.i] in s.owner { TryFailsOk(g, s, c); }
    else if pc.Trying? || Asks(s.conns[c]) { TakeMoveOk(g, s, c); }
    else if pc.Got? { StampMoveOk(g, s, c); }
    else if pc.Stamped? { StampedMoveOk(g, s, c); }
    else if GivesUp(s.conns[c]) { GiveUpOk(g, s, c); }
    else if pc.Releasing? { PassOverOk(g, s, c); }
    else if pc.Released? { ReleasedMoveOk(g, s, c); }
    else if pc.Relocking? { RelockingMoveOk(g, s, c); }
    else { LeaveMoveOk(g, s, c); }
  }

  /** A step touches only mutexes that the moving connection holds or that are free. */
  lemma MoveTouches(g: Config, s: State, c: nat, m: nat)
    requires Inv(g, s) && CanMove(g, s, c)
    requires m in s.owner && s.owner[m] != c
    ensures var s' := Move(g, s, c);
            && m in s'.owner && s'.owner[m] == s.owner[m]
            && (m in s.db <==> m in s'.db) && (m in s.db ==> s'.db[m] == s.db[m])
  {
    assert ConnOk(g, s, c);
    var x := s.conns[c];
    if x.pc.Got? || x.pc.Released? || x.pc.Releasing? {
      var k := x.pc.k;
      if k < |g.lists[c]| { assert Holds(g, s, c, k) == ExpectHeld(x.pc, k, x.wantToLock[k]); }
    } else if x.pc.Unlocking? {
      assert Holds(g, s, c, x.pc.i);
    }
  }

  /** A step gives a mutex to the moving connection or to nobody. */
  lemma MoveGives(g: Config, s: State, c: nat, m: nat)
    requires Shape(g, s) && CanMove(g, s, c)
    requires m in Move(g, s, c).owner
    ensures (m in s.owner && Move(g, s, c).owner[m] == s.owner[m]) || (Move(g, s, c).owner[m] == c && m in g.lists[c])
  {
  }

  lemma OthersUnaffected(g: Config, s: State, c: nat, d: nat)
    requires Inv(g, s) && CanMove(g, s, c) && d < |s.conns| && d != c
    requires Shape(g, Move(g, s, c))
    ensures Unaffected(g, s, Move(g, s, c), d)
  {
    var s' := Move(g, s, c);
    forall j | 0 <= j < |g.lists[d]|
      ensures Holds(g, s', d, j) == Holds(g, s, d, j)
      ensures Holds(g, s, d, j) && Recorded(g, s, d, j) ==> Recorded(g, s', d, j)
    {
      var m := g.lists[d][j];
      if Holds(g, s, d, j) { MoveTouches(g, s, c, m); }
      if m in s'.owner { MoveGives(g, s, c, m); }
    }
  }

  lemma MoveInv(g: Config, s: State, c: nat)
    requires Inv(g, s) && CanMove(g, s, c)
    ensures Inv(g, Move(g, s, c))
  {
    var s' := Move(g, s, c);
    MoveOk(g, s, c);
    forall d | 0 <= d < |s'.conns| ensures ConnOk(g, s', d) {
      if d != c {
        assert ConnOk(g, s, d);
        OthersUnaffected(g, s, c, d);
        OtherOk(g, s, s', d);
      }
    }
    forall m | m in s'.owner ensures s'.owner[m] < |g.lists| && m in g.lists[s'.owner[m]] {
      MoveGives(g, s, c, m);
    }
  }

  /** A change of connection c alone, mutexes and records staying as they are. */
  lemma LocalInv(g: Config, s: State, c: nat, x: Conn)
    requires Inv(g, s) && c < |s.conns|
    requires var s' := Put(s, c, x); Shape(g, s') && ConnOk(g, s', c)
    ensures Inv(g, Put(s, c, x))
  {
    var s' := Put(s, c, x);
    forall d | 0 <= d < |s'.conns| ensures ConnOk(g, s', d) {
      if d != c {
        assert ConnOk(g, s, d);
        assert Unaffected(g, s, s', d);
        OtherOk(g, s, s', d);
      }
    }
  }

  lemma AskOk(g: Config, s: State, c: nat, r: Request)
    requires Inv(g, s) && Enabled(g, s, Ask(c, r))
    ensures var s' := Apply(g, s, Ask(c, r)); Shape(g, s') && ConnOk(g, s', c)
  {
    var x := s.conns[c];
    assert ConnOk(g, s, c);
    CallsOk(r, g.dbs[c], |g.lists[c]|, x);
    PutHolds(g, s, c, Apply(g, s, Ask(c, r)).conns[c]);
  }

  /** Every step of every connection keeps the invariant. */
  lemma StepInv(g: Config, s: State, a: Action)
    requires Inv(g, s) && Enabled(g, s, a)
    ensures Inv(g, Apply(g, s, a))
  {
    match a
    case Ask(c, r) =>
      AskOk(g, s, c, r);
      LocalInv(g, s, c, Apply(g, s, a).conns[c]);
    case Run(c) =>
      if s.conns[c].pc.Idle? {
        assert ConnOk(g, s, c);
        BeginOk(g, s, c);
        LocalInv(g, s, c, Begin(s.conns[c]));
      } else {
        MoveInv(g, s, c);
      }
  }

  lemma InitInv(g: Config)
    requires IsConfig(g)
    ensures Inv(g, Init(g))
  {
    var s := Init(g);
    forall c | 0 <= c < |s.conns| ensures ConnOk(g, s, c) {}
  }

  /** The invariant holds in every state of every run. */
  lemma RunInv(g: Config, ss: seq<State>, actions: seq<Action>, k: nat)
    requires IsRun(g, ss, actions) && k < |ss|
    ensures Inv(g, ss[k])
  {
    if k == 0 {
      InitInv(g);
    } else {
      RunInv(g, ss, actions, k - 1);
      assert Enabled(g, ss[k - 1], actions[k - 1]) && ss[k - 1 + 1] == Apply(g, ss[k - 1], actions[k - 1]);
      StepInv(g, ss[k - 1], actions[k - 1]);
    }
  }

  // ---- What the invariant gives ----

  /** The source's assertions at the points where mutexes are taken and left. */
  lemma AssertionsHold(g: Config, s: State, c: nat)
    requires Inv(g, s) && c < |s.conns|
    ensures var x := s.conns[c];
            && (x.pc.Blocking? ==> !x.locked[x.pc.i] && !Holds(g, s, c, x.pc.i))
            && (x.pc.BlockingLater? ==> !x.locked[x.pc.k] && !Holds(g, s, c, x.pc.k))
            && (x.pc.Releasing? && x.pc.k < |x.locked| && x.locked[x.pc.k] ==>
                  x.wantToLock[x.pc.k] > 0 && Holds(g, s, c, x.pc.k) && Recorded(g, s, c, x.pc.k))
            && (x.pc.Unlocking? ==> x.locked[x.pc.i] && Holds(g, s, c, x.pc.i) && Recorded(g, s, c, x.pc.i))
            && (x.pc.Idle? ==> forall j :: 0 <= j < |x.locked| && x.locked[j] ==>
                  x.wantToLock[j] > 0 && Recorded(g, s, c, j))
  {
    assert ConnOk(g, s, c);
    var x := s.conns[c];
    if x.pc.Blocking? || x.pc.Unlocking? {
      assert Holds(g, s, c, x.pc.i) == ExpectHeld(x.pc, x.pc.i, x.wantToLock[x.pc.i]);
    } else if (x.pc.Releasing? || x.pc.BlockingLater?) && x.pc.k < |x.locked| {
      assert Holds(g, s, c, x.pc.k) == ExpectHeld(x.pc, x.pc.k, x.wantToLock[x.pc.k]);
    } else if x.pc.Idle? {
      forall j | 0 <= j < |x.locked| && x.locked[j] ensures Recorded(g, s, c, j) {
        assert Holds(g, s, c, j) == ExpectHeld(x.pc, j, x.wantToLock[j]);
      }
    }
  }

  /**
   Between calls a sharable b-tree is locked, its mutex held, exactly when it has been entered
   more often than left, and then it is recorded as in use by this connection.
   */
  lemma LockedWhenEntered(g: Config, ss: seq<State>, actions: seq<Action>, k: nat, c: nat, j: nat)
    requires IsRun(g, ss, actions) && k < |ss| && c < |g.lists| && j < |g.lists[c]|
    ensures Shape(g, ss[k])
    ensures var x := ss[k].conns[c];
            x.pc.Idle? ==>
              && x.locked[j] == (Net(x.log, j) > 0) == Holds(g, ss[k], c, j)
              && Net(x.log, j) == x.wantToLock[j]
              && (x.locked[j] ==> Recorded(g, ss[k], c, j))
  {
    RunInv(g, ss, actions, k);
    assert ConnOk(g, ss[k], c);
  }

  /** Between leaving the mutex of b-tree j and clearing its locked flag. */
  predicate InWindow(pc: Pc, j: nat) {
    (pc.Released? && pc.k == j) || (pc.Left? && pc.i == j)
  }

  /**
   At every point of every run, a b-tree whose locked flag is set has its mutex held and is recorded as in use by this
   connection, unless the connection has just left the mutex; then it is not held.
   */
  lemma LockedIsRecorded(g: Config, ss: seq<State>, actions: seq<Action>, k: nat, c: nat, j: nat)
    requires IsRun(g, ss, actions) && k < |ss| && c < |g.lists| && j < |g.lists[c]|
    ensures Shape(g, ss[k])
    ensures var x := ss[k].conns[c];
            x.locked[j] ==>
              if InWindow(x.pc, j) then !Holds(g, ss[k], c, j) else Holds(g, ss[k], c, j) && Recorded(g, ss[k], c, j)
  {
    RunInv(g, ss, actions, k);
    assert ConnOk(g, ss[k], c);
  }

  lemma Extend(g: Config, ss: seq<State>, actions: seq<Action>, a: Action)
    returns (tt: seq<State>, more: seq<Action>)
    requires IsRun(g, ss, actions) && Shape(g, ss[|ss| - 1]) && Enabled(g, ss[|ss| - 1], a)
    ensures IsRun(g, tt, more) && |tt| > 1 && tt[|tt| - 1] == Apply(g, ss[|ss| - 1], a)
    ensures Shape(g, tt[|tt| - 1])
  {
    RunInv(g, ss, actions, |ss| - 1);
    StepInv(g, ss[|ss| - 1], a);
    tt, more := ss + [Apply(g, ss[|ss| - 1], a)], actions + [a];
    LongerRun(g, ss, actions, a, Apply(g, ss[|ss| - 1], a));
  }

  lemma LongerRun(g: Config, ss: seq<State>, actions: seq<Action>, a: Action, t: State)
    requires IsRun(g, ss, actions) && Shape(g, ss[|ss| - 1]) && Enabled(g, ss[|ss| - 1], a)
    requires t == Apply(g, ss[|ss| - 1], a)
    ensures IsRun(g, ss + [t], actions + [a])
  {
    var tt, more := ss + [t], actions + [a];
    forall k | 0 <= k < |more|
      ensures Shape(g, tt[k]) && Enabled(g, tt[k], more[k]) && tt[k + 1] == Apply(g, tt[k], more[k])
    {
      if k < |actions| { assert ss[k + 1] == Apply(g, ss[k], actions[k]); }
    }
  }

  /** A connection between calls, with one b-tree that it has not entered. */
  predicate IsOutside(x: Conn) {
    x.pc.Idle? && x.todo == [] && x.locked == [false] && x.wantToLock == [0]
  }

  /** A connection enters its only b-tree, up to the point where it has recorded itself there. */
  lemma Entering(g: Config, ss: seq<State>, actions: seq<Action>, c: nat, m: nat)
    returns (tt: seq<State>, more: seq<Action>)
    requires IsRun(g, ss, actions) && Shape(g, ss[|ss| - 1]) && c < |g.lists| && g.lists[c] == [m]
    requires IsOutside(ss[|ss| - 1].conns[c]) && m !in ss[|ss| - 1].owner
    ensures IsRun(g, tt, more) && |tt| > 0 && Shape(g, tt[|tt| - 1])
    ensures var s, t := ss[|ss| - 1], tt[|tt| - 1];
            && t.owner == s.owner[m := c] && t.db == s.db[m := c] && t.conns[c].pc == Stamped(0, 0, false)
            && t.conns[c].todo == [] && t.conns[c].wantToLock == [1] && t.conns[c].locked == [false]
            && forall d :: 0 <= d < |s.conns| && d != c ==> t.conns[d] == s.conns[d]
  {
    tt, more := Extend(g, ss, actions, Ask(c, One(Enter(Shared(0)))));
    tt, more := Extend(g, tt, more, Run(c));
    tt, more := Extend(g, tt, more, Run(c));
    tt, more := Extend(g, tt, more, Run(c));
  }

  lemma Entered(g: Config, ss: seq<State>, actions: seq<Action>, c: nat, m: nat)
    returns (tt: seq<State>, more: seq<Action>)
    requires IsRun(g, ss, actions) && |ss| > 0 && Shape(g, ss[|ss| - 1]) && c < |g.lists| && g.lists[c] == [m]
    requires ss[|ss| - 1].conns[c].pc == Stamped(0, 0, false) && ss[|ss| - 1].conns[c].todo == []
    requires ss[|ss| - 1].conns[c].wantToLock == [1]
    ensures IsRun(g, tt, more) && |tt| > 0 && Shape(g, tt[|tt| - 1])
    ensures var s, t := ss[|ss| - 1], tt[|tt| - 1];
            && t.conns[c].pc == Idle && t.conns[c].locked == [true]
            && t.conns[c].todo == [Leave(Shared(0))] && t.conns[c].wantToLock == [1]
            && forall d :: 0 <= d < |s.conns| && d != c ==> t.conns[d] == s.conns[d]
  {
    tt, more := Extend(g, ss, actions, Run(c));
    tt, more := Extend(g, tt, more, Ask(c, One(Leave(Shared(0)))));
  }

  /** A connection that has just entered its only b-tree leaves it again, but for clearing the flag. */
  lemma Leaving(g: Config, ss: seq<State>, actions: seq<Action>, c: nat, m: nat)
    returns (tt: seq<State>, more: seq<Action>)
    requires IsRun(g, ss, actions) && |ss| > 0 && Shape(g, ss[|ss| - 1]) && c < |g.lists| && g.lists[c] == [m]
    requires ss[|ss| - 1].conns[c].pc == Idle && ss[|ss| - 1].conns[c].locked == [true]
    requires ss[|ss| - 1].conns[c].todo == [Leave(Shared(0))] && ss[|ss| - 1].conns[c].wantToLock == [1]
    ensures IsRun(g, tt, more) && |tt| > 0 && Shape(g, tt[|tt| - 1])
    ensures var s, t := ss[|ss| - 1], tt[|tt| - 1];
            && m !in t.owner && t.conns[c].pc == Left(0) && t.conns[c].locked == [true]
            && forall d :: 0 <= d < |s.conns| && d != c ==> t.conns[d] == s.conns[d]
  {
    tt, more := Unlock(g, ss, actions, c);
    tt, more := Extend(g, tt, more, Run(c));
  }

  lemma Unlock(g: Config, ss: seq<State>, actions: seq<Action>, c: nat) returns (tt: seq<State>, more: seq<Action>)
    requires IsRun(g, ss, actions) && |ss| > 0 && Shape(g, ss[|ss| - 1]) && c < |g.lists| && |g.lists[c]| == 1
    requires ss[|ss| - 1].conns[c].pc == Idle && ss[|ss| - 1].conns[c].locked == [true]
    requires ss[|ss| - 1].conns[c].todo == [Leave(Shared(0))] && ss[|ss| - 1].conns[c].wantToLock == [1]
    ensures IsRun(g, tt, more) && |tt| > 0 && Shape(g, tt[|tt| - 1])
    ensures var s, t := ss[|ss| - 1], tt[|tt| - 1];
            && t.owner == s.owner && t.db == s.db && t.conns[c].pc == Unlocking(0) && t.conns[c].locked == [true]
            && forall d :: 0 <= d < |s.conns| && d != c ==> t.conns[d] == s.conns[d]
  {
    tt, more := Extend(g, ss, actions, Run(c));
  }

  /**
   Two connections that share one b-tree: one has left its mutex, the other has recorded itself, the flag is still set.
   */
  lemma LockedByNone(g: Config, m: nat) returns (ss: seq<State>, actions: seq<Action>)
    requires g == Config([[m], [m]], [[], []])
    ensures IsRun(g, ss, actions) && |ss| > 0 && Shape(g, ss[|ss| - 1])
    ensures ss[|ss| - 1].conns[0].locked[0] && !Recorded(g, ss[|ss| - 1], 0, 0)
  {
    ss, actions := [Init(g)], [];
    InitInv(g);
    ss, actions := Entering(g, ss, actions, 0, m);
    ss, actions := Entered(g, ss, actions, 0, m);
    ss, actions := Leaving(g, ss, actions, 0, m);
    ss, actions := Entering(g, ss, actions, 1, m);
  }

  /** Whoever waits for a mutex holds only mutexes that come before it. */
  lemma WaitsUpward(g: Config, s: State, c: nat, j: nat)
    requires Inv(g, s) && c < |s.conns| && Asks(s.conns[c]) && j < |g.lists[c]| && Holds(g, s, c, j)
    ensures g.lists[c][j] < Wanted(g.lists[c], s.conns[c])
  {
    assert ConnOk(g, s, c);
    assert ExpectHeld(s.conns[c].pc, j, s.conns[c].wantToLock[j]);
    assert Ascending(g.lists[c]);
  }

  predicate WaitsFor(g: Config, s: State, c: nat, d: nat)
    requires Shape(g, s)
  {
    c < |s.conns| && Blocked(g, s, c) && s.owner[Wanted(g.lists[c], s.conns[c])] == d
  }

  /** Along the waits-for relation the wanted mutexes ascend. */
  lemma WantsAscend(g: Config, s: State, c: nat, d: nat)
    requires Inv(g, s) && WaitsFor(g, s, c, d)
    ensures d < |s.conns| && d != c
    ensures Blocked(g, s, d) ==> Wanted(g.lists[c], s.conns[c]) < Wanted(g.lists[d], s.conns[d])
  {
    var m := Wanted(g.lists[c], s.conns[c]);
    assert m in g.lists[d];
    var j :| 0 <= j < |g.lists[d]| && g.lists[d][j] == m;
    assert Holds(g, s, d, j);
    if Asks(s.conns[d]) { WaitsUpward(g, s, d, j); }
  }

  ghost predicate IsWaitChain(g: Config, s: State, chain: seq<nat>)
    requires Shape(g, s)
  {
    |chain| > 0 && forall k :: 0 <= k < |chain| - 1 ==> WaitsFor(g, s, chain[k], chain[k + 1])
  }

  lemma {:induction false} ChainAscends(g: Config, s: State, chain: seq<nat>, k: nat)
    requires Inv(g, s) && IsWaitChain(g, s, chain) && 0 < k < |chain|
    requires chain[0] < |s.conns| && chain[k] < |s.conns|
    requires Blocked(g, s, chain[0]) && Blocked(g, s, chain[k])
    ensures Wanted(g.lists[chain[0]], s.conns[chain[0]]) < Wanted(g.lists[chain[k]], s.conns[chain[k]])
  {
    assert WaitsFor(g, s, chain[k - 1], chain[k - 1 + 1]);
    WantsAscend(g, s, chain[k - 1], chain[k]);
    if k > 1 { ChainAscends(g, s, chain, k - 1); }
  }

  /** No deadlock: in no state of any run does a chain of waiting connections close into a cycle. */
  lemma NoWaitCycle(g: Config, ss: seq<State>, actions: seq<Action>, k: nat, chain: seq<nat>)
    requires IsRun(g, ss, actions) && k < |ss|
    ensures Shape(g, ss[k])
    ensures IsWaitChain(g, ss[k], chain) && |chain| > 1 ==> chain[0] != chain[|chain| - 1]
  {
    RunInv(g, ss, actions, k);
    var s, l := ss[k], |chain| - 1;
    if IsWaitChain(g, s, chain) && l > 0 {
      assert WaitsFor(g, s, chain[0], chain[0 + 1]);
      if chain[0] == chain[l] { ChainAscends(g, s, chain, l); }
    }
  }

  /** All mutexes that any connection has are below this bound. */
  ghost function MutexBound(lists: seq<seq<nat>>): (b: nat)
    ensures forall c, j :: 0 <= c < |lists| && 0 <= j < |lists[c]| ==> lists[c][j] < b
  {
    if lists == [] then 0
    else
      var b, list := MutexBound(lists[..|lists| - 1]), lists[|lists| - 1];
      ListBound(list, b)
  }

  ghost function ListBound(list: seq<nat>, b: nat): (r: nat)
    ensures b <= r && forall j :: 0 <= j < |list| ==> list[j] < r
  {
    if list == [] then b
    else
      var r, m := ListBound(list[..|list| - 1], b), list[|list| - 1];
      if m < r then r else m + 1
  }

  /** Every wait chain can be followed to a connection that is not blocked. */
  lemma {:induction false} ChainEnds(g: Config, s: State, c: nat) returns (chain: seq<nat>)
    requires Inv(g, s) && c < |s.conns|
    ensures IsWaitChain(g, s, chain) && chain[0] == c
    ensures chain[|chain| - 1] < |s.conns| && !Blocked(g, s, chain[|chain| - 1])
    decreases if Blocked(g, s, c) then MutexBound(g.lists) - Wanted(g.lists[c], s.conns[c]) else 0,
              if Blocked(g, s, c) then 1 else 0
  {
    if Blocked(g, s, c) {
      var d := s.owner[Wanted(g.lists[c], s.conns[c])];
      assert WaitsFor(g, s, c, d);
      WantsAscend(g, s, c, d);
      var rest := ChainEnds(g, s, d);
      chain := [c] + rest;
      forall k | 0 <= k < |chain| - 1 ensures WaitsFor(g, s, chain[k], chain[k + 1]) {
        if k > 0 { assert WaitsFor(g, s, rest[k - 1], rest[k - 1 + 1]); }
      }
    } else {
      chain := [c];
    }
  }

  /** Connection d is between calls, holds a mutex, and may leave its b-tree. */
  ghost predicate CanLeave(g: Config, s: State, d: nat)
    requires Shape(g, s) && d < |s.conns|
  {
    exists j: nat :: j < |g.lists[d]| && Holds(g, s, d, j) && Enabled(g, s, Ask(d, One(Leave(Shared(j)))))
  }

  /**
   Progress: when a connection is in the middle of a call, either it can take its next step, or
   at the end of its wait chain there is a connection that can take one, or that is between
   calls and can leave the b-tree whose mutex is waited for.
   */
  lemma Progress(g: Config, ss: seq<State>, actions: seq<Action>, k: nat, c: nat) returns (d: nat)
    requires IsRun(g, ss, actions) && k < |ss| && c < |g.lists|
    requires Shape(g, ss[k]) && !ss[k].conns[c].pc.Idle?
    ensures d < |ss[k].conns|
    ensures Enabled(g, ss[k], Run(d)) || CanLeave(g, ss[k], d)
  {
    RunInv(g, ss, actions, k);
    var s := ss[k];
    var chain := ChainEnds(g, s, c);
    d := chain[|chain| - 1];
    assert ConnOk(g, s, d);
    var x := s.conns[d];
    if x.pc.Idle? && x.todo == [] {
      var e := chain[|chain| - 2];
      assert WaitsFor(g, s, chain[|chain| - 2], chain[|chain| - 2 + 1]);
      WantsAscend(g, s, e, d);
      var m := Wanted(g.lists[e], s.conns[e]);
      var j :| 0 <= j < |g.lists[d]| && g.lists[d][j] == m;
      assert Holds(g, s, d, j) && x.wantToLock[j] > 0;
      assert Calls(One(Leave(Shared(j))), g.dbs[d], x.noSharedCache) == [Leave(Shared(j))];
      assert Enabled(g, s, Ask(d, One(Leave(Shared(j)))));
    } else if x.pc.Idle? {
      assert MayCall(x, x.todo[0]);
    }
  }
}
