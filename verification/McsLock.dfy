/**
 The MCS queue lock of include/nautilus/mcslock.h as a step machine: any number of threads, each
 with its own queue node, and one atomic step per access to shared memory, in any interleaving.
 */
module McsLock {

  /** A thread; the queue node it passes as `me` carries the same name. */
  type Tid = nat

  datatype Ptr = Null | Node(tid: Tid)

  /** What an idle thread chooses to call next. */
  datatype Call = Lock | TryLock

  /** Where a thread is: the access it performs next. */
  datatype Pc =
    | Idle
    | LockClearNext | LockClearLocked | LockXchg | LockLink(last: Tid) | LockSpin
    | TryClearNext | TryClearLocked | TryCas
    | Critical
    | UnlockRead | UnlockTest | UnlockCas | UnlockWait | UnlockFetch | UnlockGrant(succ: Ptr)
    | NullDereference

  function Set<V>(f: Tid -> V, t: Tid, v: V): Tid -> V {
    (x: Tid) => if x == t then v else f(x)
  }

  /** `tail` is l->next; `next` and `locked` are the fields of every thread's node. */
  datatype State = State(tail: Ptr, next: Tid -> Ptr, locked: Tid -> int, pc: Tid -> Pc) {
    function Goto(t: Tid, c: Pc): State {
      this.(pc := Set(pc, t, c))
    }
    function SetNext(t: Tid, p: Ptr): State {
      this.(next := Set(next, t, p))
    }
    function SetLocked(t: Tid, v: int): State {
      this.(locked := Set(locked, t, v))
    }
  }

  /** Initially the lock is free and nobody runs; the nodes hold arbitrary garbage. */
  ghost predicate Init(s: State) {
    s.tail == Null && forall t :: s.pc(t) == Idle
  }

  /** One step of thread t. */
  function Do(s: State, t: Tid, call: Call): State {
    match s.pc(t)
    case Idle => s.Goto(t, if call == Lock then LockClearNext else TryClearNext)
    // nk_mcs_lock
    case LockClearNext => s.SetNext(t, Null).Goto(t, LockClearLocked)
    case LockClearLocked => s.SetLocked(t, 0).Goto(t, LockXchg)
    case LockXchg =>
      s.(tail := Node(t)).Goto(t, if s.tail == Null then Critical else LockLink(s.tail.tid))
    case LockLink(last) => s.SetNext(last, Node(t)).Goto(t, LockSpin)
    case LockSpin => if s.locked(t) != 1 then s else s.Goto(t, Critical)
    // nk_mcs_trylock
    case TryClearNext => s.SetNext(t, Null).Goto(t, TryClearLocked)
    case TryClearLocked => s.SetLocked(t, 0).Goto(t, TryCas)
    case TryCas => if s.tail == Null then s.(tail := Node(t)).Goto(t, Critical) else s.Goto(t, Idle)
    // leaving the critical section: nk_mcs_unlock
    case Critical => s.Goto(t, UnlockRead)
    case UnlockRead => s.Goto(t, UnlockTest)
    case UnlockTest => s.Goto(t, if s.next(t) == Null then UnlockCas else UnlockFetch)
    case UnlockCas => if s.tail == Node(t) then s.(tail := Null).Goto(t, Idle) else s.Goto(t, UnlockWait)
    case UnlockWait => if s.next(t) == Null then s else s.Goto(t, UnlockFetch)
    case UnlockFetch => s.Goto(t, UnlockGrant(s.next(t)))
    case UnlockGrant(succ) =>
      if succ == Null then s.Goto(t, NullDereference) else s.SetLocked(succ.tid, 1).Goto(t, Idle)
    case NullDereference => s
  }

  /** The thread owns the lock: it is in its critical section or has not finished releasing. */
  predicate Holds(c: Pc) {
    c.Critical? || c.UnlockRead? || c.UnlockTest? || c.UnlockCas? || c.UnlockWait? || c.UnlockFetch? || c.UnlockGrant?
  }

  predicate Waits(c: Pc) {
    c.LockLink? || c.LockSpin?
  }

  predicate Queued(c: Pc) {
    Holds(c) || Waits(c)
  }

  /** t's next step appends its node to the queue: a successful exchange or compare-and-swap. */
  predicate Joins(s: State, t: Tid) {
    s.pc(t) == LockXchg || (s.pc(t) == TryCas && s.tail == Null)
  }

  /** t's next step gives the lock away. */
  predicate Leaves(s: State, t: Tid) {
    (s.pc(t) == UnlockCas && s.tail == Node(t)) || (s.pc(t).UnlockGrant? && s.pc(t).succ != Null)
  }

  // ----- the queue invariant -----

  ghost predicate Distinct(q: seq<Tid>) {
    forall i, j :: 0 <= i < j < |q| ==> q[i] != q[j]
  }

  /** Threads outside the queue have prepared their node when they are about to join. */
  ghost predicate OutsiderOk(s: State, t: Tid) {
    match s.pc(t)
    case LockClearLocked | TryClearLocked => s.next(t) == Null
    case LockXchg | TryCas => s.next(t) == Null && s.locked(t) == 0
    case NullDereference => false
    case _ => true
  }

  /** The link from q[i] to its successor is written exactly when that successor no longer owes it. */
  ghost predicate LinkOk(s: State, q: seq<Tid>, i: nat)
    requires i < |q|
  {
    s.next(q[i]) == if i + 1 < |q| && s.pc(q[i + 1]) == LockSpin then Node(q[i + 1]) else Null
  }

  /** Everyone behind the head waits, ungranted, on its own node. */
  ghost predicate WaiterOk(s: State, q: seq<Tid>, i: nat)
    requires 0 < i < |q|
  {
    && (s.pc(q[i]) == LockLink(q[i - 1]) || s.pc(q[i]) == LockSpin)
    && s.locked(q[i]) == 0
  }

  ghost predicate HeadOk(s: State, q: seq<Tid>)
    requires |q| > 0
  {
    match s.pc(q[0])
    case LockSpin => s.locked(q[0]) == 1
    case Critical | UnlockRead | UnlockTest | UnlockCas => true
    case UnlockWait => |q| > 1
    case UnlockFetch => |q| > 1 && s.pc(q[1]) == LockSpin
    case UnlockGrant(succ) => |q| > 1 && succ == Node(q[1]) && s.pc(q[1]) == LockSpin
    case _ => false
  }

  /** q is the queue of s: l->next is its last node, and every link is written or still owed. */
  ghost predicate QueueInv(s: State, q: seq<Tid>) {
    && Distinct(q)
    && (forall t :: Queued(s.pc(t)) <==> t in q)
    && (forall t :: OutsiderOk(s, t))
    && s.tail == (if q == [] then Null else Node(q[|q| - 1]))
    && (forall i | 0 <= i < |q| :: LinkOk(s, q, i))
    && (forall i | 0 < i < |q| :: WaiterOk(s, q, i))
    && (q != [] ==> HeadOk(s, q))
  }

  predicate HeadHolds(s: State, q: seq<Tid>) {
    q != [] && Holds(s.pc(q[0]))
  }

  lemma HolderIsHead(s: State, q: seq<Tid>, t: Tid)
    requires QueueInv(s, q) && Holds(s.pc(t))
    ensures q != [] && t == q[0]
  {
    forall i | 0 < i < |q| ensures !Holds(s.pc(q[i])) {
      assert WaiterOk(s, q, i);
    }
  }

  lemma JoinStep(s: State, q: seq<Tid>, t: Tid, call: Call)
    requires QueueInv(s, q) && Joins(s, t)
    ensures QueueInv(Do(s, t, call), q + [t])
    ensures (Do(s, t, call).pc(t) == Critical) == (q == [])
    ensures HeadHolds(Do(s, t, call), q + [t]) == (HeadHolds(s, q) || q == [])
  {
    var s', q' := Do(s, t, call), q + [t];
    assert t !in q && OutsiderOk(s, t);
    forall x ensures OutsiderOk(s', x) {
      assert OutsiderOk(s, x);
    }
    forall i | 0 <= i < |q'| ensures LinkOk(s', q', i) {
      if i < |q| { assert LinkOk(s, q, i); }
    }
    forall i | 0 < i < |q'| ensures WaiterOk(s', q', i) {
      if i < |q| { assert WaiterOk(s, q, i); }
    }
  }

  lemma LeaveStep(s: State, q: seq<Tid>, t: Tid, call: Call)
    requires QueueInv(s, q) && Leaves(s, t)
    ensures q != [] && t == q[0]
    ensures QueueInv(Do(s, t, call), q[1..])
    ensures HeadHolds(s, q) && !HeadHolds(Do(s, t, call), q[1..]) && Do(s, t, call).pc(t) == Idle
  {
    HolderIsHead(s, q, t);
    var s', q' := Do(s, t, call), q[1..];
    forall x ensures OutsiderOk(s', x) {
      assert OutsiderOk(s, x);
    }
    forall i | 0 <= i < |q'| ensures LinkOk(s', q', i) {
      assert LinkOk(s, q, i + 1);
    }
    forall i | 0 < i < |q'| ensures WaiterOk(s', q', i) {
      assert WaiterOk(s, q, i + 1);
    }
    assert forall x :: x in q <==> x == t || x in q';
    if |q| > 1 { assert WaiterOk(s, q, 1); }
  }

  /** A step of a holder that does not release: its node and the others' nodes stay as they are. */
  lemma HolderStep(s: State, q: seq<Tid>, t: Tid, call: Call)
    requires QueueInv(s, q) && Holds(s.pc(t)) && !Leaves(s, t)
    ensures QueueInv(Do(s, t, call), q)
    ensures HeadHolds(s, q) && HeadHolds(Do(s, t, call), q) && Do(s, t, call).pc(t) != Critical
  {
    var s' := Do(s, t, call);
    HolderIsHead(s, q, t);
    assert LinkOk(s, q, 0);
    assert s' == s.Goto(t, s'.pc(t)) || s' == s;
    assert Holds(s'.pc(t));
    forall x ensures OutsiderOk(s', x) {
      assert OutsiderOk(s, x);
    }
    forall i | 0 <= i < |q| ensures LinkOk(s', q, i) {
      assert LinkOk(s, q, i);
    }
    forall i | 0 < i < |q| ensures WaiterOk(s', q, i) {
      assert WaiterOk(s, q, i);
    }
  }

  lemma LinkStep(s: State, q: seq<Tid>, t: Tid, call: Call)
    requires QueueInv(s, q) && s.pc(t).LockLink?
    ensures QueueInv(Do(s, t, call), q)
    ensures HeadHolds(s, q) == HeadHolds(Do(s, t, call), q) && Do(s, t, call).pc(t) != Critical
  {
    var s' := Do(s, t, call);
    var k :| 0 <= k < |q| && q[k] == t;
    assert k > 0 && WaiterOk(s, q, k) && q[k - 1] in q;
    forall x ensures OutsiderOk(s', x) {
      assert OutsiderOk(s, x);
    }
    forall i | 0 <= i < |q| ensures LinkOk(s', q, i) {
      assert LinkOk(s, q, i);
    }
    forall i | 0 < i < |q| ensures WaiterOk(s', q, i) {
      assert WaiterOk(s, q, i);
    }
  }

  lemma SpinStep(s: State, q: seq<Tid>, t: Tid, call: Call)
    requires QueueInv(s, q) && s.pc(t) == LockSpin
    ensures QueueInv(Do(s, t, call), q)
    ensures if Do(s, t, call).pc(t) == Critical
            then t in q && t == q[0] && !HeadHolds(s, q) && HeadHolds(Do(s, t, call), q)
            else HeadHolds(s, q) == HeadHolds(Do(s, t, call), q)
  {
    var s' := Do(s, t, call);
    var k :| 0 <= k < |q| && q[k] == t;
    if k > 0 {
      assert WaiterOk(s, q, k);
    } else {
      forall x ensures OutsiderOk(s', x) {
        assert OutsiderOk(s, x);
      }
      forall i | 0 <= i < |q| ensures LinkOk(s', q, i) {
        assert LinkOk(s, q, i);
      }
      forall i | 0 < i < |q| ensures WaiterOk(s', q, i) {
        assert WaiterOk(s, q, i);
      }
    }
  }

  /** A step that touches no node, pc or link of the queue keeps the invariant. */
  lemma OutsideFrame(s: State, s': State, q: seq<Tid>, t: Tid)
    requires QueueInv(s, q) && t !in q
    requires forall x | x != t :: s'.pc(x) == s.pc(x) && s'.next(x) == s.next(x) && s'.locked(x) == s.locked(x)
    requires s'.tail == s.tail && !Queued(s'.pc(t)) && OutsiderOk(s', t)
    ensures QueueInv(s', q)
  {
    forall x ensures OutsiderOk(s', x) {
      assert OutsiderOk(s, x);
    }
    forall i | 0 <= i < |q| ensures LinkOk(s', q, i) {
      assert LinkOk(s, q, i);
    }
    forall i | 0 < i < |q| ensures WaiterOk(s', q, i) {
      assert WaiterOk(s, q, i);
    }
  }

  lemma OuterStep(s: State, q: seq<Tid>, t: Tid, call: Call)
    requires QueueInv(s, q) && !Queued(s.pc(t)) && !Joins(s, t)
    ensures QueueInv(Do(s, t, call), q)
    ensures HeadHolds(s, q) == HeadHolds(Do(s, t, call), q) && Do(s, t, call).pc(t) != Critical
  {
    assert OutsiderOk(s, t);
    OutsideFrame(s, Do(s, t, call), q, t);
  }

  /** The queue after a step of t: joiners go to the back, leavers come off the front. */
  function QueueAfter(s: State, q: seq<Tid>, t: Tid): seq<Tid> {
    if Joins(s, t) then q + [t] else if Leaves(s, t) && q != [] then q[1..] else q
  }

  /** Every step keeps the queue invariant; whoever enters is first and nobody else holds. */
  lemma QueueStep(s: State, q: seq<Tid>, t: Tid, call: Call)
    requires QueueInv(s, q)
    ensures QueueInv(Do(s, t, call), QueueAfter(s, q, t))
    ensures Leaves(s, t) ==> q != [] && t == q[0] && HeadHolds(s, q)
    ensures if Do(s, t, call).pc(t) == Critical
            then !HeadHolds(s, q) && HeadHolds(Do(s, t, call), QueueAfter(s, q, t)) && QueueAfter(s, q, t)[0] == t
            else HeadHolds(Do(s, t, call), QueueAfter(s, q, t)) == (HeadHolds(s, q) && !Leaves(s, t))
  {
    if Joins(s, t) {
      JoinStep(s, q, t, call);
    } else if Leaves(s, t) {
      LeaveStep(s, q, t, call);
    } else if Holds(s.pc(t)) {
      HolderStep(s, q, t, call);
    } else if s.pc(t).LockLink? {
      LinkStep(s, q, t, call);
    } else if s.pc(t).LockSpin? {
      SpinStep(s, q, t, call);
    } else {
      OuterStep(s, q, t, call);
    }
  }

  // ----- runs -----

  datatype Move = Move(t: Tid, call: Call)

  /** An interleaving: who moves at each instant, and which function an idle thread then calls. */
  type Schedule = nat -> Move

  /** The state after n moves. */
  ghost function At(s0: State, sched: Schedule, n: nat): State {
    if n == 0 then s0 else Do(At(s0, sched, n - 1), sched(n - 1).t, sched(n - 1).call)
  }

  /** What an observer writes down, in order: who joined the queue, who entered the critical
      section, and who gave the lock away. */
  datatype Log = Log(joined: seq<Tid>, entered: seq<Tid>, left: seq<Tid>)

  function Observe(l: Log, s: State, t: Tid, call: Call): Log {
    Log(if Joins(s, t) then l.joined + [t] else l.joined,
        if Do(s, t, call).pc(t) == Critical then l.entered + [t] else l.entered,
        if Leaves(s, t) then l.left + [t] else l.left)
  }

  ghost function LogAt(s0: State, sched: Schedule, n: nat): Log {
    if n == 0 then Log([], [], [])
    else Observe(LogAt(s0, sched, n - 1), At(s0, sched, n - 1), sched(n - 1).t, sched(n - 1).call)
  }

  /** Everyone who joined and has not left yet, in the order of joining. */
  function Queue(l: Log): seq<Tid> {
    if |l.left| <= |l.joined| then l.joined[|l.left|..] else []
  }

  /** Threads enter and leave in the order of joining; all who entered but the holder have left. */
  ghost predicate InOrder(l: Log, held: bool) {
    && l.left <= l.entered <= l.joined
    && |l.entered| == |l.left| + (if held then 1 else 0)
  }

  ghost predicate LogInv(s: State, l: Log) {
    InOrder(l, HeadHolds(s, Queue(l))) && QueueInv(s, Queue(l))
  }

  lemma LogTracksQueue(l: Log, s: State, t: Tid, call: Call)
    requires |l.left| <= |l.joined|
    requires Leaves(s, t) ==> Queue(l) != []
    ensures Queue(Observe(l, s, t, call)) == QueueAfter(s, Queue(l), t)
  {
    assert Joins(s, t) ==> !Leaves(s, t);
  }

  lemma LogStep(s: State, l: Log, t: Tid, call: Call)
    requires LogInv(s, l)
    ensures LogInv(Do(s, t, call), Observe(l, s, t, call))
  {
    var q, l' := Queue(l), Observe(l, s, t, call);
    QueueStep(s, q, t, call);
    LogTracksQueue(l, s, t, call);
    OrderStep(l, l', t, HeadHolds(s, q), HeadHolds(Do(s, t, call), Queue(l')));
  }

  lemma OrderStep(l: Log, l': Log, t: Tid, held: bool, held': bool)
    requires InOrder(l, held) && (held' ==> Queue(l') != [])
    requires l'.joined == l.joined || l'.joined == l.joined + [t]
    requires if l'.entered == l.entered then held' == (held && l'.left == l.left)
             else l'.entered == l.entered + [t] && !held && held' && l'.left == l.left && Queue(l')[0] == t
    requires l'.left == l.left || (l'.left == l.left + [t] && held && Queue(l)[0] == t)
    ensures InOrder(l', held')
  {
  }

  lemma {:induction false} RunInv(s0: State, sched: Schedule, n: nat)
    requires Init(s0)
    ensures LogInv(At(s0, sched, n), LogAt(s0, sched, n))
  {
    if n > 0 {
      RunInv(s0, sched, n - 1);
      LogStep(At(s0, sched, n - 1), LogAt(s0, sched, n - 1), sched(n - 1).t, sched(n - 1).call);
    }
  }

  // ----- safety -----

  /** Mutual exclusion: in every state of every run at most one thread owns the lock. */
  lemma MutualExclusion(s0: State, sched: Schedule, n: nat, t: Tid, u: Tid)
    requires Init(s0)
    requires Holds(At(s0, sched, n).pc(t)) && Holds(At(s0, sched, n).pc(u))
    ensures t == u
  {
    RunInv(s0, sched, n);
    var s, q := At(s0, sched, n), Queue(LogAt(s0, sched, n));
    HolderIsHead(s, q, t);
    HolderIsHead(s, q, u);
  }

  /** First come, first served: threads enter, and leave, in the order in which they joined. */
  lemma EntersInJoinOrder(s0: State, sched: Schedule, n: nat)
    requires Init(s0)
    ensures var l := LogAt(s0, sched, n);
            l.left <= l.entered <= l.joined && |l.entered| - |l.left| <= 1
  {
    RunInv(s0, sched, n);
  }

  /** The release path never follows a null link. */
  lemma NeverDereferencesNull(s0: State, sched: Schedule, n: nat, t: Tid)
    requires Init(s0)
    ensures At(s0, sched, n).pc(t) != NullDereference
  {
    RunInv(s0, sched, n);
    assert OutsiderOk(At(s0, sched, n), t);
  }

  /** trylock takes the lock exactly when nobody owns it or waits for it. */
  lemma TryLockTakesFreeLock(s0: State, sched: Schedule, n: nat, t: Tid, call: Call)
    requires Init(s0) && At(s0, sched, n).pc(t) == TryCas
    ensures var s := At(s0, sched, n);
            (Do(s, t, call).pc(t) == Critical) == (forall u :: !Queued(s.pc(u)))
  {
    RunInv(s0, sched, n);
    var s, q := At(s0, sched, n), Queue(LogAt(s0, sched, n));
    if q != [] { assert q[0] in q; }
  }

  // ----- progress -----

  /** How far the head of the queue is from giving the lock away. */
  ghost function HeadRank(s: State, q: seq<Tid>): nat
    requires q != []
  {
    match s.pc(q[0])
    case LockSpin => 8
    case Critical => 7
    case UnlockRead => 6
    case UnlockTest => 5
    case UnlockCas => 4
    case UnlockWait => if |q| > 1 && s.pc(q[1]).LockLink? then 3 else 2
    case UnlockFetch => 1
    case _ => 0
  }

  /** The thread everyone in the queue depends on: the head, or, when the head spins for its link,
      the successor that owes the link. */
  ghost function Helper(s: State, q: seq<Tid>): Tid
    requires q != []
  {
    if s.pc(q[0]) == UnlockWait && |q| > 1 && s.pc(q[1]).LockLink? then q[1] else q[0]
  }

  /** What the queue invariant says about the first two nodes. */
  ghost predicate FrontOk(s: State, q: seq<Tid>) {
    && q != [] && HeadOk(s, q) && LinkOk(s, q, 0)
    && (s.tail == Node(q[0]) <==> |q| == 1)
    && (|q| > 1 ==> q[0] != q[1] && WaiterOk(s, q, 1))
  }

  lemma FrontIsOk(s: State, q: seq<Tid>)
    requires QueueInv(s, q) && q != []
    ensures FrontOk(s, q)
  {
    if |q| > 1 { assert WaiterOk(s, q, 1); }
  }

  /** t is queued and its next step is not another round of a spin loop. */
  predicate CanMove(s: State, t: Tid, call: Call) {
    Queued(s.pc(t)) && Do(s, t, call).pc(t) != s.pc(t)
  }

  lemma HelperMoves(s: State, q: seq<Tid>, call: Call)
    requires FrontOk(s, q)
    ensures Helper(s, q) in q && CanMove(s, Helper(s, q), call)
  {
  }

  lemma QueueCanMove(s: State, q: seq<Tid>, t: Tid, call: Call)
    requires QueueInv(s, q) && Queued(s.pc(t))
    ensures exists h :: CanMove(s, h, call)
  {
    assert t in q;
    FrontIsOk(s, q);
    HelperMoves(s, q, call);
  }

  /** No waiter is lost: a non-empty queue always has a member whose next step is not a spin. */
  lemma SomebodyCanMove(s0: State, sched: Schedule, n: nat, t: Tid, call: Call)
    requires Init(s0) && Queued(At(s0, sched, n).pc(t))
    ensures exists h :: CanMove(At(s0, sched, n), h, call)
  {
    RunInv(s0, sched, n);
    QueueCanMove(At(s0, sched, n), Queue(LogAt(s0, sched, n)), t, call);
  }

  /** Unless it is the release itself, a step does not raise the head's rank, the helper's step
      lowers it, and until then the helper stays the same. */
  lemma RankStep(s: State, q: seq<Tid>, u: Tid, call: Call)
    requires FrontOk(s, q) && !Leaves(s, u)
    requires u in q || !Queued(s.pc(u))
    requires u in q && u != q[0] ==> Waits(s.pc(u))
    ensures var s', q' := Do(s, u, call), QueueAfter(s, q, u);
            && q <= q'
            && HeadRank(s', q') <= HeadRank(s, q)
            && (u == Helper(s, q) ==> HeadRank(s', q') < HeadRank(s, q))
            && (HeadRank(s', q') == HeadRank(s, q) ==> Helper(s', q') == Helper(s, q))
  {
  }

  /** Steps before the queue is reached, then position in the queue and rank of the head. */
  ghost function Phase(c: Pc): nat {
    match c
    case LockClearNext | TryClearNext => 3
    case LockClearLocked | TryClearLocked => 2
    case LockXchg | TryCas => 1
    case _ => 0
  }

  ghost function Position(q: seq<Tid>, t: Tid): (k: nat)
    ensures t in q ==> k < |q| && q[k] == t
  {
    if q == [] || q[0] == t then 0 else 1 + Position(q[1..], t)
  }

  ghost function Remaining(s: State, q: seq<Tid>, t: Tid): nat {
    if t in q then 9 * Position(q, t) + HeadRank(s, q) else 0
  }

  lemma PositionUnique(q: seq<Tid>, t: Tid, k: nat)
    requires Distinct(q) && k < |q| && q[k] == t
    ensures Position(q, t) == k
  {
  }

  ghost function HelperOf(s: State, q: seq<Tid>, t: Tid): Tid {
    if t in q then Helper(s, q) else t
  }

  /** Nobody's step pushes a queued thread back; the helper's step brings it forward, and until
      then the helper stays the same. */
  lemma QueuedAdvances(s: State, q: seq<Tid>, t: Tid, u: Tid, call: Call)
    requires QueueInv(s, q) && t in q && !(t == u && Leaves(s, t))
    ensures var s', q' := Do(s, u, call), QueueAfter(s, q, u);
            && t in q'
            && Remaining(s', q', t) <= Remaining(s, q, t)
            && (u == Helper(s, q) ==> Remaining(s', q', t) < Remaining(s, q, t))
            && (Remaining(s', q', t) == Remaining(s, q, t) ==> Helper(s', q') == Helper(s, q))
  {
    var s', q' := Do(s, u, call), QueueAfter(s, q, u);
    QueueStep(s, q, u, call);
    FrontIsOk(s, q);
    var k := Position(q, t);
    if Leaves(s, u) {
      assert q'[k - 1] == t;
      PositionUnique(q', t, k - 1);
    } else {
      if u in q && u != q[0] {
        var i :| 0 < i < |q| && q[i] == u;
        assert WaiterOk(s, q, i);
      }
      RankStep(s, q, u, call);
      assert q'[k] == t;
      PositionUnique(q', t, k);
    }
  }

  /** t takes a step at instant m, or has nothing to do then. */
  ghost predicate Serves(s0: State, sched: Schedule, t: Tid, m: nat) {
    sched(m).t == t || At(s0, sched, m).pc(t) == Idle
  }

  ghost predicate ServedAfter(s0: State, sched: Schedule, t: Tid, n: nat) {
    exists m: nat :: n <= m && Serves(s0, sched, t, m)
  }

  /** No thread with a step to take is passed over forever; in particular critical sections end. */
  ghost predicate Fair(s0: State, sched: Schedule) {
    forall t, n :: ServedAfter(s0, sched, t, n)
  }

  /** A thread that has not joined is its own helper, and only its own steps change its phase. */
  lemma OutsiderAdvances(s: State, q: seq<Tid>, t: Tid, u: Tid, call: Call)
    requires QueueInv(s, q) && t !in q && s.pc(t) != Idle
    ensures var c' := Do(s, u, call).pc(t);
            if u == t then c' == Idle || Phase(c') < Phase(s.pc(t)) else c' == s.pc(t)
  {
    assert OutsiderOk(s, t);
  }

  /** A measure of how much must happen before t's call returns. */
  datatype Measure = Measure(phase: nat, remaining: nat, helper: Tid) {
    predicate Below(that: Measure) {
      phase < that.phase || (phase == that.phase && remaining < that.remaining)
    }
  }

  ghost function MeasureOf(s: State, q: seq<Tid>, t: Tid): Measure {
    Measure(Phase(s.pc(t)), Remaining(s, q, t), HelperOf(s, q, t))
  }

  /** One move: the measure drops or stays the same, and it drops when the helper moves. */
  ghost predicate Advances(before: Measure, after: Measure, mover: Tid) {
    after.Below(before) || (after == before && mover != before.helper)
  }

  lemma QueuedMeasure(s: State, q: seq<Tid>, t: Tid, u: Tid, call: Call)
    requires QueueInv(s, q) && t in q && !(t == u && Leaves(s, t))
    ensures Advances(MeasureOf(s, q, t), MeasureOf(Do(s, u, call), QueueAfter(s, q, u), t), u)
    ensures s.pc(HelperOf(s, q, t)) != Idle
  {
    QueuedAdvances(s, q, t, u, call);
    QueueStep(s, q, u, call);
    QueuedHasNoPhase(s, q, t);
    QueuedHasNoPhase(Do(s, u, call), QueueAfter(s, q, u), t);
    FrontIsOk(s, q);
    HelperMoves(s, q, call);
  }

  lemma QueuedHasNoPhase(s: State, q: seq<Tid>, t: Tid)
    requires QueueInv(s, q) && t in q
    ensures Phase(s.pc(t)) == 0
  {
    assert Queued(s.pc(t));
  }

  lemma OutsiderMeasure(s: State, q: seq<Tid>, t: Tid, u: Tid, call: Call)
    requires QueueInv(s, q) && t !in q && s.pc(t) != Idle && Do(s, u, call).pc(t) != Idle
    ensures Advances(MeasureOf(s, q, t), MeasureOf(Do(s, u, call), QueueAfter(s, q, u), t), u)
  {
    OutsiderAdvances(s, q, t, u, call);
    if u != t { assert t !in QueueAfter(s, q, u); }
  }

  ghost function MeasureAt(s0: State, sched: Schedule, t: Tid, n: nat): Measure {
    MeasureOf(At(s0, sched, n), Queue(LogAt(s0, sched, n)), t)
  }

  lemma LeavesToIdle(s: State, t: Tid, call: Call)
    ensures Leaves(s, t) ==> Do(s, t, call).pc(t) == Idle
  {
  }

  lemma MoveAdvances(s0: State, sched: Schedule, t: Tid, n: nat)
    requires Init(s0) && At(s0, sched, n).pc(t) != Idle && At(s0, sched, n + 1).pc(t) != Idle
    ensures Advances(MeasureAt(s0, sched, t, n), MeasureAt(s0, sched, t, n + 1), sched(n).t)
    ensures At(s0, sched, n).pc(MeasureAt(s0, sched, t, n).helper) != Idle
  {
    RunInv(s0, sched, n);
    var l, s := LogAt(s0, sched, n), At(s0, sched, n);
    if t in Queue(l) {
      LeavesToIdle(s, t, sched(n).call);
      QueuedMeasure(s, Queue(l), t, sched(n).t, sched(n).call);
    } else {
      OutsiderMeasure(s, Queue(l), t, sched(n).t, sched(n).call);
    }
    QueueStep(s, Queue(l), sched(n).t, sched(n).call);
    LogTracksQueue(l, s, sched(n).t, sched(n).call);
  }

  /** A measure that never rises and drops whenever its helper moves runs out, provided that every
      helper h that does not rest moves again after every instant k, at soon(h, k). */
  lemma {:induction false} WaitingEnds(measure: nat -> Measure, mover: nat -> Tid, done: nat -> bool,
                                       rests: (Tid, nat) -> bool, soon: (Tid, nat) -> nat, n: nat, served: nat)
    returns (m: nat)
    requires forall k: nat | !done(k) && !done(k + 1) ::
               Advances(measure(k), measure(k + 1), mover(k)) && !rests(measure(k).helper, k)
    requires forall h: Tid, k: nat :: k <= soon(h, k) && (mover(soon(h, k)) == h || rests(h, soon(h, k)))
    requires n <= served && (mover(served) == measure(n).helper || rests(measure(n).helper, served))
    ensures n <= m && done(m)
    decreases measure(n).phase, measure(n).remaining, served - n
  {
    if done(n) { return n; }
    if done(n + 1) { return n + 1; }
    var served' := if measure(n + 1).Below(measure(n)) then soon(measure(n + 1).helper, n + 1) else served;
    m := WaitingEnds(measure, mover, done, rests, soon, n + 1, served');
  }

  ghost function NextService(s0: State, sched: Schedule, t: Tid, n: nat): (m: nat)
    requires Fair(s0, sched)
    ensures n <= m && Serves(s0, sched, t, m)
  {
    assert ServedAfter(s0, sched, t, n);
    var m: nat :| n <= m && Serves(s0, sched, t, m);
    m
  }

  /** Under a fair schedule every call returns and every critical section is left. */
  lemma EveryCallReturns(s0: State, sched: Schedule, t: Tid, n: nat) returns (m: nat)
    requires Init(s0) && Fair(s0, sched)
    ensures n <= m && At(s0, sched, m).pc(t) == Idle
  {
    var measure, mover := (k: nat) => MeasureAt(s0, sched, t, k), (k: nat) => sched(k).t;
    var done := (k: nat) => At(s0, sched, k).pc(t) == Idle;
    var rests := (h: Tid, k: nat) => At(s0, sched, k).pc(h) == Idle;
    var soon := (h: Tid, k: nat) requires Fair(s0, sched) => NextService(s0, sched, h, k);
    forall k: nat | !done(k) && !done(k + 1)
      ensures Advances(measure(k), measure(k + 1), mover(k)) && !rests(measure(k).helper, k)
    {
      MoveAdvances(s0, sched, t, k);
    }
    m := WaitingEnds(measure, mover, done, rests, soon, n, soon(measure(n).helper, n));
  }

  predicate Locking(c: Pc) {
    c.LockClearNext? || c.LockClearLocked? || c.LockXchg? || Waits(c)
  }

  lemma LockingStep(s: State, t: Tid, u: Tid, call: Call)
    requires Locking(s.pc(t))
    ensures var c' := Do(s, u, call).pc(t); Locking(c') || c' == Critical
  {
  }

  /** t is inside nk_mcs_lock from instant n up to m. */
  ghost predicate LockingUntil(s0: State, sched: Schedule, t: Tid, n: nat, m: nat) {
    forall i: nat | n <= i < m :: Locking(At(s0, sched, i).pc(t))
  }

  lemma LockingSince(s0: State, sched: Schedule, t: Tid, n: nat, m: nat)
    requires Locking(At(s0, sched, n).pc(t)) && LockingUntil(s0, sched, t, n + 1, m)
    ensures LockingUntil(s0, sched, t, n, m)
  {
    forall i: nat | n <= i < m ensures Locking(At(s0, sched, i).pc(t)) {
      var s := At(s0, sched, i);
      if i > n { assert Locking(s.pc(t)); }
    }
  }

  lemma LockingMove(s0: State, sched: Schedule, t: Tid, n: nat)
    requires Locking(At(s0, sched, n).pc(t))
    ensures var c' := At(s0, sched, n + 1).pc(t); Locking(c') || c' == Critical
  {
    LockingStep(At(s0, sched, n), t, sched(n).t, sched(n).call);
  }

  /** nk_mcs_lock is left only into the critical section; k is the instant at which t enters. */
  lemma {:induction false} LockLeadsIn(s0: State, sched: Schedule, t: Tid, n: nat, m: nat) returns (k: nat)
    requires n <= m && Locking(At(s0, sched, n).pc(t)) && At(s0, sched, m).pc(t) == Idle
    ensures n < k <= m && At(s0, sched, k).pc(t) == Critical && LockingUntil(s0, sched, t, n, k)
    decreases m - n
  {
    LockingMove(s0, sched, t, n);
    if At(s0, sched, n + 1).pc(t) == Critical {
      k := n + 1;
    } else {
      k := LockLeadsIn(s0, sched, t, n + 1, m);
      LockingSince(s0, sched, t, n, k);
    }
  }

  /** Starvation freedom: under a fair schedule whoever is inside nk_mcs_lock enters, and stays inside
      the call until then. */
  lemma EveryLockerEnters(s0: State, sched: Schedule, t: Tid, n: nat) returns (m: nat)
    requires Init(s0) && Fair(s0, sched) && Locking(At(s0, sched, n).pc(t))
    ensures n < m && At(s0, sched, m).pc(t) == Critical && LockingUntil(s0, sched, t, n, m)
  {
    m := EveryCallReturns(s0, sched, t, n);
    m := LockLeadsIn(s0, sched, t, n, m);
  }

  /** A call of nk_mcs_lock does not come back without the lock: under a fair schedule an idle thread
      that calls it enters the critical section, and is not idle at any instant in between. */
  lemma LockCallEnters(s0: State, sched: Schedule, t: Tid, n: nat) returns (m: nat)
    requires Init(s0) && Fair(s0, sched) && At(s0, sched, n).pc(t) == Idle && sched(n) == Move(t, Lock)
    ensures n < m && At(s0, sched, m).pc(t) == Critical
    ensures forall i: nat | n < i <= m :: At(s0, sched, i).pc(t) != Idle
  {
    LockCallStep(s0, sched, t, n);
    m := EveryLockerEnters(s0, sched, t, n + 1);
    NotIdleUntil(s0, sched, t, n + 1, m);
  }

  lemma LockCallStep(s0: State, sched: Schedule, t: Tid, n: nat)
    requires At(s0, sched, n).pc(t) == Idle && sched(n) == Move(t, Lock)
    ensures Locking(At(s0, sched, n + 1).pc(t))
  {
  }

  lemma NotIdleUntil(s0: State, sched: Schedule, t: Tid, n: nat, m: nat)
    requires n <= m && LockingUntil(s0, sched, t, n, m) && At(s0, sched, m).pc(t) == Critical
    ensures forall i: nat | n <= i <= m :: At(s0, sched, i).pc(t) != Idle
  {
    forall i: nat | n <= i <= m ensures At(s0, sched, i).pc(t) != Idle {
      var s := At(s0, sched, i);
      assert i < m ==> Locking(s.pc(t));
    }
  }

  // ----- a call of nk_mcs_trylock is over after three steps of its own -----

  /** How often t moves from instant n up to m. */
  ghost function Moves(sched: Schedule, t: Tid, n: nat, m: nat): nat {
    if m <= n then 0 else Moves(sched, t, n, m - 1) + if sched(m - 1).t == t then 1 else 0
  }

  /** The call is over: the thread has the lock or has been turned away. */
  predicate Returned(c: Pc) {
    c == Critical || c == Idle
  }

  /** A call of nk_mcs_trylock never waits, on any run: as long as it has not returned, where it is
      depends only on the number of its own steps, and the third one returns. */
  lemma {:induction false} TryLockNeverWaits(s0: State, sched: Schedule, t: Tid, n: nat, m: nat)
    requires At(s0, sched, n).pc(t) == Idle && sched(n) == Move(t, TryLock) && n < m
    requires forall i: nat | n < i < m :: !Returned(At(s0, sched, i).pc(t))
    ensures Moves(sched, t, n + 1, m) <= 3 && !Waits(At(s0, sched, m).pc(t))
    ensures var c := At(s0, sched, m).pc(t);
            match Moves(sched, t, n + 1, m)
            case 0 => c == TryClearNext
            case 1 => c == TryClearLocked
            case 2 => c == TryCas
            case _ => Returned(c)
  {
    if n + 1 < m {
      TryLockNeverWaits(s0, sched, t, n, m - 1);
      assert !Returned(At(s0, sched, m - 1).pc(t));
    }
  }

  // ----- a release that finds its successor linked is over after three steps of its own -----

  /** Where a release is after so many of its own steps, when the successor was linked before the test. */
  ghost predicate ReleasedBy(s: State, t: Tid, steps: nat) {
    match steps
    case 0 => s.pc(t) == UnlockTest && s.next(t) != Null
    case 1 => s.pc(t) == UnlockFetch && s.next(t) != Null
    case 2 => s.pc(t).UnlockGrant? && s.pc(t).succ != Null
    case 3 => s.pc(t) == Idle
    case _ => false
  }

  lemma ReleaseStep(s: State, t: Tid, steps: nat, u: Tid, call: Call)
    requires ReleasedBy(s, t, steps) && s.pc(t) != Idle
    ensures ReleasedBy(Do(s, u, call), t, if u == t then steps + 1 else steps)
  {
  }

  /** Such a release neither swaps l->next nor waits, on any run. */
  lemma {:induction false} LinkedReleaseNeverWaits(s0: State, sched: Schedule, t: Tid, n: nat, m: nat)
    requires At(s0, sched, n).pc(t) == UnlockTest && At(s0, sched, n).next(t) != Null && n <= m
    requires forall i: nat | n <= i < m :: At(s0, sched, i).pc(t) != Idle
    ensures ReleasedBy(At(s0, sched, m), t, Moves(sched, t, n, m))
  {
    if n < m {
      LinkedReleaseNeverWaits(s0, sched, t, n, m - 1);
      ReleaseStep(At(s0, sched, m - 1), t, Moves(sched, t, n, m - 1), sched(m - 1).t, sched(m - 1).call);
    }
  }
}
