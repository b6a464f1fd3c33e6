/**
 Locking of shared b-trees: any number of connections, one thread each, entering and leaving
 b-trees whose mutexes they share. A state machine over the single steps that other threads
 can interleave with; a connection's own fields change only in its own steps.
 */
module BtMutex {

  /** A b-tree handle of a connection: absent, private to it, or number i of its list of sharable ones. */
  datatype Btree = Null | Private | Shared(i: nat)

  datatype Call = Enter(b: Btree) | Leave(b: Btree)

  /** What a connection may ask for when it is idle. */
  datatype Request = One(call: Call) | EnterAll | LeaveAll

  /** lists[c]: the mutexes of c's sharable b-trees along pNext; dbs[c]: c's array of databases. */
  datatype Config = Config(lists: seq<seq<nat>>, dbs: seq<seq<Btree>>)

  /** The point that a connection has reached inside Enter or Leave. */
  datatype Pc =
    | Idle
    | Trying(i: nat)                          // about to try the mutex of b-tree i
    | Releasing(i: nat, k: nat)               // looks at later b-tree k, to give it up
    | Released(i: nat, k: nat)                // has left the mutex of k, whose locked flag is still set
    | Blocking(i: nat)                        // asks for the mutex of i and waits for it
    | Relocking(i: nat, k: nat)               // looks at later b-tree k, to take it back
    | BlockingLater(i: nat, k: nat)           // asks for the mutex of k and waits for it
    | Got(i: nat, k: nat, careful: bool)      // has the mutex of k; its db is still to be set
    | Stamped(i: nat, k: nat, careful: bool)  // has set db; the locked flag is still to be set
    | Unlocking(i: nat)                       // Leave: about to leave the mutex of i
    | Left(i: nat)                            // Leave: has left it; the locked flag is still set

  /** log: the calls begun so far; it is not read by any step. */
  datatype Conn = Conn(
    pc: Pc, locked: seq<bool>, wantToLock: seq<nat>, noSharedCache: bool, todo: seq<Call>, log: seq<Call>)

  /** owner: the connection whose thread holds a mutex; db: the connection recorded in a shared b-tree. */
  datatype State = State(conns: seq<Conn>, owner: map<nat, nat>, db: map<nat, nat>)

  datatype Action = Ask(c: nat, r: Request) | Run(c: nat)

  // ---- Configurations ----

  predicate Ascending(list: seq<nat>) {
    forall i, j :: 0 <= i < j < |list| ==> list[i] < list[j]
  }

  predicate IsDbs(db: seq<Btree>, n: nat) {
    && (forall k :: 0 <= k < |db| && db[k].Shared? ==> db[k].i < n)
    && (forall k, l :: 0 <= k < l < |db| && db[k].Shared? ==> db[k] != db[l])
  }

  predicate IsConfig(g: Config) {
    && |g.lists| == |g.dbs|
    && (forall c :: 0 <= c < |g.lists| ==> Ascending(g.lists[c]))
    && (forall c :: 0 <= c < |g.dbs| ==> IsDbs(g.dbs[c], |g.lists[c]|))
  }

  predicate HasShared(db: seq<Btree>) {
    exists k :: 0 <= k < |db| && db[k].Shared?
  }

  function EnterCalls(db: seq<Btree>): seq<Call> {
    if db == [] then []
    else (if db[0].Shared? then [Enter(db[0])] else []) + EnterCalls(db[1..])
  }

  function LeaveCalls(db: seq<Btree>): seq<Call> {
    if db == [] then []
    else (if db[0].Null? then [] else [Leave(db[0])]) + LeaveCalls(db[1..])
  }

  function Calls(r: Request, db: seq<Btree>, noSharedCache: bool): seq<Call> {
    match r
    case One(call) => [call]
    case EnterAll => if noSharedCache then [] else EnterCalls(db)
    case LeaveAll => if noSharedCache then [] else LeaveCalls(db)
  }

  function Init(g: Config): State
    requires IsConfig(g)
  {
    State(seq(|g.lists|, c requires 0 <= c < |g.lists| =>
            Conn(Idle, seq(|g.lists[c]|, i => false), seq(|g.lists[c]|, i => 0), false, [], [])),
          map[], map[])
  }

  // ---- Steps ----

  predicate Shape(g: Config, s: State) {
    && IsConfig(g) && |s.conns| == |g.lists|
    && forall c :: 0 <= c < |s.conns| ==> Fits(s.conns[c], |g.lists[c]|)
  }

  predicate Fits(x: Conn, n: nat) {
    && |x.locked| == n && |x.wantToLock| == n
    && (match x.pc
        case Idle => true
        case Trying(i) => i < n
        case Releasing(i, k) => i < k <= n
        case Released(i, k) => i < k < n
        case Blocking(i) => i < n
        case Relocking(i, k) => i < k <= n
        case BlockingLater(i, k) => i < k < n
        case Got(i, k, careful) => i <= k < n && (k == i || careful)
        case Stamped(i, k, careful) => i <= k < n && (k == i || careful)
        case Unlocking(i) => i < n
        case Left(i) => i < n)
    && forall k :: 0 <= k < |x.todo| && x.todo[k].b.Shared? ==> x.todo[k].b.i < n
  }

  /** The mutex that a connection is asking for and cannot go on without. */
  predicate Asks(x: Conn) {
    x.pc.Blocking? || x.pc.BlockingLater?
  }

  function Wanted(list: seq<nat>, x: Conn): nat
    requires Asks(x) && Fits(x, |list|)
  {
    if x.pc.Blocking? then list[x.pc.i] else list[x.pc.k]
  }

  predicate Blocked(g: Config, s: State, c: nat)
    requires Shape(g, s) && c < |s.conns|
  {
    Asks(s.conns[c]) && Wanted(g.lists[c], s.conns[c]) in s.owner
  }

  /** A Leave is allowed only for a b-tree that has been entered: the caller's duty. */
  predicate MayCall(x: Conn, call: Call)
  {
    && (call.b.Shared? ==> call.b.i < |x.wantToLock|)
    && (call.Leave? && call.b.Shared? ==> x.wantToLock[call.b.i] > 0)
  }

  predicate Enabled(g: Config, s: State, a: Action)
    requires Shape(g, s)
  {
    && a.c < |s.conns|
    && var x := s.conns[a.c];
    match a
    case Ask(c, r) =>
      x.pc.Idle? && x.todo == [] && forall call <- Calls(r, g.dbs[c], x.noSharedCache) :: MayCall(x, call)
    case Run(c) =>
      if x.pc.Idle? then x.todo != [] && MayCall(x, x.todo[0])
      else !Blocked(g, s, c)
  }

  /** The first step of a call. */
  function Begin(x: Conn): Conn
    requires x.todo != [] && MayCall(x, x.todo[0]) && |x.locked| == |x.wantToLock|
  {
    var call, y := x.todo[0], x.(todo := x.todo[1..], log := x.log + [x.todo[0]]);
    if !call.b.Shared? then y
    else
      var i := call.b.i;
      var w := x.wantToLock[i];
      if call.Enter? then
        y.(wantToLock := x.wantToLock[i := w + 1],
           pc := if x.locked[i] then Idle else Trying(i))
      else
        y.(wantToLock := x.wantToLock[i := w - 1], pc := if w == 1 then Unlocking(i) else Idle)
  }

  function Put(s: State, c: nat, x: Conn): State
    requires c < |s.conns|
  {
    s.(conns := s.conns[c := x])
  }

  function Take(s: State, m: nat, c: nat): State {
    s.(owner := s.owner[m := c])
  }

  function Drop(s: State, m: nat): State {
    s.(owner := map x | x in s.owner && x != m :: s.owner[x])
  }

  /** One step of connection c inside a call. */
  function Move(g: Config, s: State, c: nat): State
    requires Shape(g, s) && c < |s.conns| && !s.conns[c].pc.Idle? && !Blocked(g, s, c)
  {
    var x, list := s.conns[c], g.lists[c];
    var n := |list|;
    match x.pc
    case Trying(i) =>
      if list[i] !in s.owner then Put(Take(s, list[i], c), c, x.(pc := Got(i, i, false)))
      else Put(s, c, x.(pc := Releasing(i, i + 1)))
    case Releasing(i, k) =>
      if k == n then Put(s, c, x.(pc := Blocking(i)))
      else if x.locked[k] then Put(Drop(s, list[k]), c, x.(pc := Released(i, k)))
      else Put(s, c, x.(pc := Releasing(i, k + 1)))
    case Released(i, k) => Put(s, c, x.(locked := x.locked[k := false], pc := Releasing(i, k + 1)))
    case Blocking(i) => Put(Take(s, list[i], c), c, x.(pc := Got(i, i, true)))
    case Relocking(i, k) =>
      if k == n then Put(s, c, x.(pc := Idle))
      else if x.wantToLock[k] > 0 then Put(s, c, x.(pc := BlockingLater(i, k)))
      else Put(s, c, x.(pc := Relocking(i, k + 1)))
    case BlockingLater(i, k) => Put(Take(s, list[k], c), c, x.(pc := Got(i, k, true)))
    case Got(i, k, careful) => Put(s.(db := s.db[list[k] := c]), c, x.(pc := Stamped(i, k, careful)))
    case Stamped(i, k, careful) =>
      Put(s, c, x.(locked := x.locked[k := true], pc := if careful then Relocking(i, k + 1) else Idle))
    case Unlocking(i) => Put(Drop(s, list[i]), c, x.(pc := Left(i)))
    case Left(i) => Put(s, c, x.(locked := x.locked[i := false], pc := Idle))
  }

  function Apply(g: Config, s: State, a: Action): State
    requires Shape(g, s) && Enabled(g, s, a)
  {
    var x := s.conns[a.c];
    match a
    case Ask(c, r) =>
      // Only EnterAll sets noSharedCache, to whether it found nothing to enter.
      Put(s, c, x.(todo := Calls(r, g.dbs[c], x.noSharedCache),
                   noSharedCache := if r.EnterAll? then x.noSharedCache || !HasShared(g.dbs[c]) else x.noSharedCache))
    case Run(c) =>
      if x.pc.Idle? then Put(s, c, Begin(x)) else Move(g, s, c)
  }

  /** Every finite run of the connections, in any interleaving. */
  ghost predicate IsRun(g: Config, ss: seq<State>, actions: seq<Action>) {
    && IsConfig(g) && |ss| == |actions| + 1 && ss[0] == Init(g)
    && forall k :: 0 <= k < |actions| ==>
      Shape(g, ss[k]) && Enabled(g, ss[k], actions[k]) && ss[k + 1] == Apply(g, ss[k], actions[k])
  }

  // ---- What a connection's program point says about its locks ----

  /** The locked flag of b-tree j, which is wanted w times, of a connection at pc. */
  function ExpectLocked(pc: Pc, j: nat, w: nat): bool {
    match pc
    case Idle => w > 0
    case Trying(i) => j != i && w > 0
    case Releasing(i, k) => (j < i || j >= k) && w > 0
    case Released(i, k) => (j < i || j >= k) && w > 0
    case Blocking(i) => j < i && w > 0
    case Relocking(i, k) => j < k && w > 0
    case BlockingLater(i, k) => j < k && w > 0
    case Got(i, k, careful) => (if careful then j < k else j != k) && w > 0
    case Stamped(i, k, careful) => (if careful then j < k else j != k) && w > 0
    case Unlocking(i) => j == i || w > 0
    case Left(i) => j == i || w > 0
  }

  /** Whether its thread holds the mutex of j: as the flag says, but for the windows around it. */
  function ExpectHeld(pc: Pc, j: nat, w: nat): bool {
    match pc
    case Released(i, k) => j != k && ExpectLocked(pc, j, w)
    case Got(i, k, _) => j == k || ExpectLocked(pc, j, w)
    case Stamped(i, k, _) => j == k || ExpectLocked(pc, j, w)
    case Left(i) => j != i && ExpectLocked(pc, j, w)
    case _ => ExpectLocked(pc, j, w)
  }

  /** What the counts are where a call has just changed them or relies on them. */
  predicate CountsFit(x: Conn, n: nat)
    requires Fits(x, n)
  {
    match x.pc
    case Idle => true
    case Unlocking(i) => x.wantToLock[i] == 0
    case Left(i) => x.wantToLock[i] == 0
    case Released(i, k) => x.wantToLock[i] > 0 && x.wantToLock[k] > 0
    case BlockingLater(i, k) => x.wantToLock[i] > 0 && x.wantToLock[k] > 0
    case Got(i, k, _) => x.wantToLock[i] > 0 && x.wantToLock[k] > 0
    case Stamped(i, k, _) => x.wantToLock[i] > 0 && x.wantToLock[k] > 0
    case _ => x.wantToLock[x.pc.i] > 0
  }

  predicate Holds(g: Config, s: State, c: nat, j: nat)
    requires c < |g.lists| && j < |g.lists[c]|
  {
    var m := g.lists[c][j];
    m in s.owner && s.owner[m] == c
  }

  predicate Recorded(g: Config, s: State, c: nat, j: nat)
    requires c < |g.lists| && j < |g.lists[c]|
  {
    var m := g.lists[c][j];
    m in s.db && s.db[m] == c
  }

  /** Calls still to be made are all allowed, in whatever order they come. */
  predicate TodoFits(x: Conn) {
    && (forall k :: 0 <= k < |x.todo| ==> MayCall(x, x.todo[k]))
    && (forall k, l :: 0 <= k < l < |x.todo| && x.todo[k].b.Shared? ==> x.todo[k].b != x.todo[l].b)
  }

  /** How often b-tree i has been entered and not yet left. */
  function Net(log: seq<Call>, i: nat): int {
    if log == [] then 0
    else
      var call := log[|log| - 1];
      Net(log[..|log| - 1], i) +
      (if call.b != Shared(i) then 0 else if call.Enter? then 1 else -1)
  }

  /** The invariant of one connection. */
  ghost predicate ConnOk(g: Config, s: State, c: nat)
    requires Shape(g, s) && c < |s.conns|
  {
    var x, n := s.conns[c], |g.lists[c]|;
    && CountsFit(x, n) && TodoFits(x)
    && (forall j :: 0 <= j < n ==> x.locked[j] == ExpectLocked(x.pc, j, x.wantToLock[j]))
    && (forall j :: 0 <= j < n ==> Holds(g, s, c, j) == ExpectHeld(x.pc, j, x.wantToLock[j]))
    && (forall j :: 0 <= j < n && Holds(g, s, c, j) && !(x.pc.Got? && x.pc.k == j) ==> Recorded(g, s, c, j))
    && (forall j :: 0 <= j < n ==> x.wantToLock[j] == Net(x.log, j))
  }

  /** A mutex is held only by a connection that has a b-tree with it. */
  predicate OwnersOk(g: Config, s: State)
    requires IsConfig(g)
  {
    forall m :: m in s.owner ==> s.owner[m] < |g.lists| && m in g.lists[s.owner[m]]
  }

  ghost predicate Inv(g: Config, s: State) {
    && Shape(g, s) && OwnersOk(g, s)
    && forall c {:trigger ConnOk(g, s, c)} :: 0 <= c < |s.conns| ==> ConnOk(g, s, c)
  }
}
