/**
 * The session table of one cryptodev handle, used by any number of threads at once.
 *
 * `fcr.sem` (here the table lock) guards the list; each session has its own `sem`. A step of a
 * thread is one lock operation or one access between two of them, so a run is any interleaving at
 * that grain. Sessions are heap cells named by a reference; `kfree` marks the cell freed and a
 * reference is never handed out again.
 */
module Sessions {
  import opened Wire

  type Ref = nat
  type Sid = nat
  type Thread = nat

  datatype Session = Session(sid: Sid, owner: Option<Thread>, freed: bool)

  /** A call of the session interface. */
  datatype Request = NewSession(sid: Sid) | FinishSession(sid: Sid) | FinishSessions | GetSession(sid: Sid)

  /** What a thread that waits for, or scans under, the table lock is doing. */
  datatype Op = Create(r: Ref) | Finish(sid: Sid) | FinishAll | Get(sid: Sid)

  /** What follows `crypto_destroy_session`: leave, or go on with the saved successor. */
  datatype Rest = Last | Next(next: Option<Ref>)

  /** What a thread has in hand when it gives the table lock back. */
  datatype Outcome = Nothing | Made(r: Ref) | Found(r: Ref, sid: Sid)

  datatype Pc =
    | Idle
    | WantTable(op: Op)                  // blocked on fcr.sem
    | Scan(op: Op, i: nat)               // looking at entry i of the list
    | Sweep(next: Option<Ref>)           // loop head of crypto_finish_all_sessions
    | WaitFound(r: Ref, sid: Sid)        // found by id, blocked on its sem
    | WaitRemoved(r: Ref, rest: Rest)    // taken off the list, blocked on its sem
    | Destroy(r: Ref, rest: Rest)        // holds its sem, releasing its buffers
    | Release(r: Ref, rest: Rest)        // its sem is free again, about to kfree it
    | Leave(out: Outcome)                // about to unlock fcr.sem
    | Report(r: Ref)                     // table lock given back, about to copy the new id out
    | Holding(r: Ref, sid: Sid)          // crypto_get_session_by_sid has returned the locked session

  datatype State = State(pc: map<Thread, Pc>, table: Option<Thread>, list: seq<Ref>, heap: map<Ref, Session>)

  predicate HoldsTable(p: Pc) {
    p.Scan? || p.Sweep? || p.WaitFound? || p.WaitRemoved? || p.Destroy? || p.Release? || p.Leave?
  }

  predicate HoldsSession(p: Pc, r: Ref) {
    match p
    case Destroy(q, _) => q == r
    case Leave(Found(q, _)) => q == r
    case Holding(q, _) => q == r
    case _ => false
  }

  /** The session only this thread can reach: not yet listed, or already taken off the list. */
  function Private(p: Pc): Option<Ref> {
    match p
    case WantTable(Create(r)) => Some(r)
    case Scan(Create(r), _) => Some(r)
    case WaitRemoved(r, _) => Some(r)
    case Destroy(r, _) => Some(r)
    case Release(r, _) => Some(r)
    case _ => None
  }

  predicate Starting(p: Pc) {
    match p
    case WantTable(Create(_)) => true
    case Scan(Create(_), _) => true
    case _ => false
  }

  function First(list: seq<Ref>): Option<Ref> {
    if list == [] then None else Some(list[0])
  }

  /** The id that the scan of `op` compares entries with. */
  function Sought(s: State, op: Op): Option<Sid> {
    match op
    case Create(r) => if r in s.heap then Some(s.heap[r].sid) else None
    case Finish(sid) => Some(sid)
    case Get(sid) => Some(sid)
    case FinishAll => None
  }

  // ----- steps -----

  predicate Free(s: State, r: Ref) {
    r in s.heap && s.heap[r].owner == None
  }

  /** A blocked thread cannot step; every other one can. */
  predicate Enabled(s: State, t: Thread) {
    && t in s.pc
    && match s.pc[t]
       case WantTable(_) => s.table == None
       case WaitFound(r, _) => Free(s, r)
       case WaitRemoved(r, _) => Free(s, r)
       case _ => true
  }

  function Lock(s: State, r: Ref, owner: Option<Thread>): State {
    if r in s.heap then s.(heap := s.heap[r := s.heap[r].(owner := owner)]) else s
  }

  function Kfree(s: State, r: Ref): State {
    if r in s.heap then s.(heap := s.heap[r := s.heap[r].(freed := true)]) else s
  }

  function Goto(s: State, t: Thread, p: Pc): State {
    s.(pc := s.pc[t := p])
  }

  function Without(list: seq<Ref>, i: nat): seq<Ref>
    requires i < |list|
  {
    list[..i] + list[i + 1..]
  }

  /** What the surroundings choose: the request of an idle thread, the address kzalloc returns and a random id. */
  datatype Choice = Choice(request: Request, r: Ref, random: Sid)

  predicate Possible(s: State, t: Thread, c: Choice) {
    && Enabled(s, t)
    && (s.pc[t].Idle? && c.request.NewSession? ==> c.r !in s.heap)
  }

  function Start(s: State, t: Thread, c: Choice): State {
    match c.request
    case NewSession(sid) =>
      Goto(s.(heap := s.heap[c.r := Session(sid, None, false)]), t, WantTable(Create(c.r)))
    case FinishSession(sid) => Goto(s, t, WantTable(Finish(sid)))
    case FinishSessions => Goto(s, t, WantTable(FinishAll))
    case GetSession(sid) => Goto(s, t, WantTable(Get(sid)))
  }

  /** One look at entry `i` of the list, or the end of the list. */
  function ScanStep(s: State, t: Thread, op: Op, i: nat, random: Sid): State {
    if i < |s.list| then
      var hit := s.list[i] in s.heap && Sought(s, op) == Some(s.heap[s.list[i]].sid);
      match op
      case Create(r) =>
        if hit then Goto(Reroll(s, r, random), t, Scan(op, 0)) else Goto(s, t, Scan(op, i + 1))
      case Finish(_) =>
        if hit then Goto(s.(list := Without(s.list, i)), t, WaitRemoved(s.list[i], Last))
        else Goto(s, t, Scan(op, i + 1))
      case Get(sid) =>
        if hit then Goto(s, t, WaitFound(s.list[i], sid)) else Goto(s, t, Scan(op, i + 1))
      case FinishAll => Goto(s, t, Leave(Nothing))
    else if op.Create? then Goto(s.(list := [op.r] + s.list), t, Leave(Made(op.r)))
    else Goto(s, t, Leave(Nothing))
  }

  /** `get_random_bytes` into the id of a session that is not listed yet. */
  function Reroll(s: State, r: Ref, random: Sid): State {
    if r in s.heap then s.(heap := s.heap[r := s.heap[r].(sid := random)]) else s
  }

  /** `list_del` of the entry at the head of the loop, its successor saved first. */
  function SweepStep(s: State, t: Thread, next: Option<Ref>): State {
    match next
    case None => Goto(s, t, Leave(Nothing))
    case Some(r) =>
      if s.list != [] && s.list[0] == r then
        Goto(s.(list := s.list[1..]), t, WaitRemoved(r, Next(First(s.list[1..]))))
      else s
  }

  function AfterUnlock(out: Outcome): Pc {
    match out
    case Nothing => Idle
    case Made(r) => Report(r)
    case Found(r, sid) => Holding(r, sid)
  }

  function Step(s: State, t: Thread, c: Choice): State
    requires Possible(s, t, c)
  {
    match s.pc[t]
    case Idle => Start(s, t, c)
    case WantTable(op) =>
      Goto(s.(table := Some(t)), t, if op.FinishAll? then Sweep(First(s.list)) else Scan(op, 0))
    case Scan(op, i) => ScanStep(s, t, op, i, c.random)
    case Sweep(next) => SweepStep(s, t, next)
    case WaitFound(r, sid) => Goto(Lock(s, r, Some(t)), t, Leave(Found(r, sid)))
    case WaitRemoved(r, rest) => Goto(Lock(s, r, Some(t)), t, Destroy(r, rest))
    case Destroy(r, rest) => Goto(Lock(s, r, None), t, Release(r, rest))
    case Release(r, rest) => Goto(Kfree(s, r), t, if rest.Last? then Leave(Nothing) else Sweep(rest.next))
    case Leave(out) => Goto(s.(table := None), t, AfterUnlock(out))
    case Report(_) => Goto(s, t, Idle)
    case Holding(r, _) => Goto(Lock(s, r, None), t, Idle)
  }

  // ----- runs -----

  datatype Turn = Turn(t: Thread, c: Choice)

  /** The state after `run`, or None if some turn of it cannot be taken. */
  function Run(s: State, run: seq<Turn>): Option<State>
    decreases |run|
  {
    if run == [] then Some(s)
    else
      var last := run[|run| - 1];
      match Run(s, run[..|run| - 1])
      case None => None
      case Some(m) => if Possible(m, last.t, last.c) then Some(Step(m, last.t, last.c)) else None
  }

  /** The handle just opened: an empty table, every thread idle. */
  predicate Initial(s: State) {
    && s.table == None && s.list == [] && s.heap == map[]
    && forall t <- s.pc :: s.pc[t] == Idle
  }

  // ----- the invariant -----

  predicate Live(s: State, r: Ref) {
    r in s.heap && !s.heap[r].freed
  }

  /** The table lock is held by exactly the thread whose position says so. */
  ghost predicate TableLock(s: State, t: Thread) {
    s.table == Some(t) <==> t in s.pc && HoldsTable(s.pc[t])
  }

  /** The same for the lock of session `r`. */
  ghost predicate SessionLock(s: State, r: Ref, t: Thread) {
    r in s.heap ==> (s.heap[r].owner == Some(t) <==> t in s.pc && HoldsSession(s.pc[t], r))
  }

  /** Listed sessions are live, and two entries differ in reference and in id. */
  ghost predicate Entry(s: State, i: nat) {
    i < |s.list| ==> Live(s, s.list[i])
  }

  ghost predicate Differ(s: State, i: nat, j: nat) {
    i < j < |s.list| ==>
      && s.list[i] != s.list[j] && Live(s, s.list[i]) && Live(s, s.list[j])
      && s.heap[s.list[i]].sid != s.heap[s.list[j]].sid
  }

  /** No entry before `i` has the id sought. */
  ghost predicate NotBefore(s: State, op: Op, i: nat) {
    i <= |s.list| && forall j :: 0 <= j < i ==> s.list[j] in s.heap && Sought(s, op) != Some(s.heap[s.list[j]].sid)
  }

  ghost predicate FoundOk(s: State, r: Ref, sid: Sid) {
    Live(s, r) && s.heap[r].sid == sid
  }

  /** What each position knows about the session at hand. */
  ghost predicate PcOk(s: State, p: Pc) {
    match p
    case Scan(op, i) => NotBefore(s, op, i) && !op.FinishAll?
    case Sweep(next) => next == First(s.list)
    case WaitFound(r, sid) => r in s.list && FoundOk(s, r, sid)
    case WaitRemoved(_, rest) => rest.Next? ==> rest.next == First(s.list)
    case Destroy(_, rest) => rest.Next? ==> rest.next == First(s.list)
    case Release(_, rest) => rest.Next? ==> rest.next == First(s.list)
    case Leave(Found(r, sid)) => r in s.list && FoundOk(s, r, sid)
    case Leave(Made(r)) => r in s.heap
    case Report(r) => r in s.heap
    case Holding(r, sid) => FoundOk(s, r, sid)
    case _ => true
  }

  /** A private session is live and off the list; before it is listed and after its lock is dropped nobody owns it. */
  ghost predicate PrivateOk(s: State, p: Pc) {
    Private(p).Some? ==>
      var r := Private(p).value;
      Live(s, r) && r !in s.list && (Starting(p) || p.Release? ==> s.heap[r].owner == None)
  }

  ghost predicate ThreadOk(s: State, t: Thread) {
    t in s.pc ==> PcOk(s, s.pc[t]) && PrivateOk(s, s.pc[t])
  }

  ghost predicate Apart(s: State, t: Thread, u: Thread) {
    t in s.pc && u in s.pc && t != u && Private(s.pc[t]).Some? ==> Private(s.pc[t]) != Private(s.pc[u])
  }

  /** Every session ever allocated is freed, listed, or in the hands of one thread. */
  ghost predicate Accounted(s: State, r: Ref) {
    r in s.heap ==> s.heap[r].freed || r in s.list || exists t :: t in s.pc && Private(s.pc[t]) == Some(r)
  }

  ghost predicate Inv(s: State) {
    && (forall t :: TableLock(s, t))
    && (forall r, t :: SessionLock(s, r, t))
    && (forall i :: Entry(s, i))
    && (forall i, j :: Differ(s, i, j))
    && (forall t :: ThreadOk(s, t))
    && (forall t, u :: Apart(s, t, u))
    && (forall r :: Accounted(s, r))
  }

  // ----- every step keeps it -----

  lemma TableLockStep(s: State, t: Thread, c: Choice, u: Thread)
    requires Inv(s) && Possible(s, t, c)
    ensures TableLock(Step(s, t, c), u)
  {
    assert TableLock(s, t) && TableLock(s, u) && ThreadOk(s, t);
  }

  lemma SessionLockStep(s: State, t: Thread, c: Choice, r: Ref, u: Thread)
    requires Inv(s) && Possible(s, t, c)
    ensures SessionLock(Step(s, t, c), r, u)
  {
    assert SessionLock(s, r, t) && SessionLock(s, r, u) && ThreadOk(s, t) && ThreadOk(s, u);
  }

  /** A step changes the id of, or frees, no session but the one private to its thread. */
  lemma KeepsCell(s: State, t: Thread, c: Choice, r: Ref)
    requires Inv(s) && Possible(s, t, c) && r in s.heap && Private(s.pc[t]) != Some(r)
    ensures var s' := Step(s, t, c);
            r in s'.heap && s'.heap[r].sid == s.heap[r].sid && s'.heap[r].freed == s.heap[r].freed
  {
  }

  /** The place in the old list of entry `i` of the new one; -1 for an entry just added. */
  ghost function Origin(s: State, t: Thread, c: Choice, i: nat): int
    requires Possible(s, t, c)
  {
    var l, l' := s.list, Step(s, t, c).list;
    if |l'| == |l| then i
    else if |l'| == |l| + 1 then i - 1
    else if s.pc[t].Scan? && i < s.pc[t].i then i
    else i + 1
  }

  lemma ListStep(s: State, t: Thread, c: Choice, i: nat)
    requires Inv(s) && Possible(s, t, c) && i < |Step(s, t, c).list|
    ensures var j := Origin(s, t, c, i);
            && -1 <= j < |s.list|
            && (j == -1 ==> s.pc[t].Scan? && s.pc[t].op == Create(Step(s, t, c).list[i]) && s.pc[t].i == |s.list|)
            && (j >= 0 ==> Step(s, t, c).list[i] == s.list[j])
  {
    assert ThreadOk(s, t);
  }

  lemma EntryStep(s: State, t: Thread, c: Choice, i: nat)
    requires Inv(s) && Possible(s, t, c)
    ensures Entry(Step(s, t, c), i)
  {
    var s' := Step(s, t, c);
    if i < |s'.list| {
      var j := Origin(s, t, c, i);
      ListStep(s, t, c, i);
      assert ThreadOk(s, t);
      if j >= 0 {
        assert Entry(s, j);
        KeepsCell(s, t, c, s.list[j]);
      }
    }
  }

  lemma DifferStep(s: State, t: Thread, c: Choice, i: nat, k: nat)
    requires Inv(s) && Possible(s, t, c)
    ensures Differ(Step(s, t, c), i, k)
  {
    var s' := Step(s, t, c);
    if i < k < |s'.list| {
      var j, m := Origin(s, t, c, i), Origin(s, t, c, k);
      ListStep(s, t, c, i);
      ListStep(s, t, c, k);
      EntryStep(s, t, c, i);
      EntryStep(s, t, c, k);
      assert ThreadOk(s, t) && Entry(s, m);
      KeepsCell(s, t, c, s.list[m]);
      if j >= 0 {
        assert Entry(s, j) && Differ(s, j, m);
        KeepsCell(s, t, c, s.list[j]);
      }
    }
  }

  lemma ApartStep(s: State, t: Thread, c: Choice, u: Thread, v: Thread)
    requires Inv(s) && Possible(s, t, c)
    ensures Apart(Step(s, t, c), u, v)
  {
    assert Apart(s, u, v) && ThreadOk(s, t) && ThreadOk(s, u) && ThreadOk(s, v) && Entry(s, 0);
  }

  /** The position of a thread that does not move stays right. */
  lemma OtherThread(s: State, t: Thread, c: Choice, u: Thread)
    requires Inv(s) && Possible(s, t, c) && u != t
    ensures ThreadOk(Step(s, t, c), u)
  {
    if u in s.pc {
      assert ThreadOk(s, u) && ThreadOk(s, t) && Apart(s, u, t);
      assert TableLock(s, u) && TableLock(s, t);
      if s.pc[u].Holding? { assert SessionLock(s, s.pc[u].r, u); }
    }
  }

  /** The entry taken off the list is on it no more. */
  lemma RemovedIsOff(s: State, i: nat)
    requires Inv(s) && i < |s.list|
    ensures s.list[i] !in Without(s.list, i)
  {
    forall k: nat | k < |s.list| && k != i ensures s.list[k] != s.list[i] {
      assert Differ(s, k, i) && Differ(s, i, k);
    }
  }

  /** A thread that looks at the list knows, after the look, what its next position needs. */
  lemma OwnScan(s: State, t: Thread, c: Choice)
    requires Inv(s) && Possible(s, t, c) && s.pc[t].Scan?
    ensures ThreadOk(Step(s, t, c), t)
  {
    assert ThreadOk(s, t);
    if s.pc[t].i < |s.list| {
      assert Entry(s, s.pc[t].i);
      RemovedIsOff(s, s.pc[t].i);
    }
  }

  lemma OwnThread(s: State, t: Thread, c: Choice)
    requires Inv(s) && Possible(s, t, c)
    ensures ThreadOk(Step(s, t, c), t)
  {
    assert ThreadOk(s, t) && TableLock(s, t);
    if s.pc[t].Scan? {
      OwnScan(s, t, c);
    } else if s.pc[t].Idle? {
      forall i: nat | i < |s.list| ensures s.list[i] in s.heap { assert Entry(s, i); }
    } else if s.pc[t].Sweep? && s.list != [] {
      assert Entry(s, 0);
      RemovedIsOff(s, 0);
      assert Without(s.list, 0) == s.list[1..];
    }
  }

  lemma AccountedStep(s: State, t: Thread, c: Choice, r: Ref)
    requires Inv(s) && Possible(s, t, c)
    ensures Accounted(Step(s, t, c), r)
  {
    var s' := Step(s, t, c);
    assert ThreadOk(s, t) && Accounted(s, r);
    if r in s.heap && !s'.heap[r].freed {
      if r in s.list {
        var k: nat :| k < |s.list| && s.list[k] == r;
        KeepsCell(s, t, c, r);
        StaysListed(s, t, c, k);
        if r !in s'.list {
          assert Private(s'.pc[t]) == Some(r);
        }
      } else if Private(s.pc[t]) == Some(r) {
        assert r in s'.list || Private(s'.pc[t]) == Some(r);
      } else {
        KeepsCell(s, t, c, r);
        var u :| u in s.pc && Private(s.pc[u]) == Some(r);
        assert s'.pc[u] == s.pc[u];
      }
    } else if r in s'.heap && r !in s.heap {
      assert Private(s'.pc[t]) == Some(r);
    }
  }

  /** A listed session stays listed unless this very step takes it off. */
  lemma StaysListed(s: State, t: Thread, c: Choice, k: nat)
    requires Inv(s) && Possible(s, t, c) && k < |s.list|
    ensures s.list[k] in Step(s, t, c).list || Private(Step(s, t, c).pc[t]) == Some(s.list[k])
  {
    assert ThreadOk(s, t);
    var l, l' := s.list, Step(s, t, c).list;
    if |l'| == |l| + 1 {
      assert l'[k + 1] == l[k];
    } else if |l'| < |l| {
      var i: nat := if s.pc[t].Scan? then s.pc[t].i else 0;
      if k < i {
        assert l'[k] == l[k];
      } else if k > i {
        assert l'[k - 1] == l[k];
      }
    }
  }

  lemma StepKeepsInv(s: State, t: Thread, c: Choice)
    requires Inv(s) && Possible(s, t, c)
    ensures Inv(Step(s, t, c))
  {
    hide Step, ThreadOk, Apart, Accounted, TableLock, SessionLock, Entry, Differ;
    var s' := Step(s, t, c);
    forall u ensures TableLock(s', u) { TableLockStep(s, t, c, u); }
    forall r, u ensures SessionLock(s', r, u) { SessionLockStep(s, t, c, r, u); }
    forall i ensures Entry(s', i) { EntryStep(s, t, c, i); }
    forall i, j ensures Differ(s', i, j) { DifferStep(s, t, c, i, j); }
    forall u ensures ThreadOk(s', u) {
      if u == t { OwnThread(s, t, c); } else { OtherThread(s, t, c, u); }
    }
    forall u, v ensures Apart(s', u, v) { ApartStep(s, t, c, u, v); }
    forall r ensures Accounted(s', r) { AccountedStep(s, t, c, r); }
  }

  /** Every state any run reaches from a fresh handle satisfies the invariant. */
  lemma {:induction false} RunKeepsInv(s: State, run: seq<Turn>)
    requires Initial(s) && Run(s, run).Some?
    ensures Inv(Run(s, run).value)
    decreases |run|
  {
    if run == [] {
    } else {
      var m := Run(s, run[..|run| - 1]).value;
      RunKeepsInv(s, run[..|run| - 1]);
      StepKeepsInv(m, run[|run| - 1].t, run[|run| - 1].c);
    }
  }

  // ----- what was asked for -----

  /** What thread `t` last asked for: the request of the last turn it took while idle. */
  ghost function Asked(s: State, run: seq<Turn>, t: Thread): Option<Request>
    requires Run(s, run).Some?
    decreases |run|
  {
    if run == [] then None
    else
      var before, last := run[..|run| - 1], run[|run| - 1];
      var m := Run(s, before).value;
      if last.t == t && m.pc[t].Idle? then Some(last.c.request) else Asked(s, before, t)
  }

  /** The id given to session `r`: by the request that made it, or by the last collision before it was listed. */
  ghost function Given(s: State, run: seq<Turn>, r: Ref): Option<Sid>
    requires Run(s, run).Some?
    decreases |run|
  {
    if run == [] then None
    else
      var before, last := run[..|run| - 1], run[|run| - 1];
      var m := Run(s, before).value;
      if m.pc[last.t].Idle? && last.c.request.NewSession? && last.c.r == r then Some(last.c.request.sid)
      else if Collides(m, last.t, r) then Some(last.c.random)
      else Given(s, before, r)
  }

  /** Thread `t` is about to find that another session has the id of its new session `r`. */
  ghost predicate Collides(s: State, t: Thread, r: Ref) {
    && t in s.pc && s.pc[t].Scan? && s.pc[t].op == Create(r) && s.pc[t].i < |s.list|
    && r in s.heap && s.list[s.pc[t].i] in s.heap && s.heap[s.list[s.pc[t].i]].sid == s.heap[r].sid
  }

  ghost predicate Listed(s: State, sid: Sid) {
    exists r :: r in s.list && r in s.heap && s.heap[r].sid == sid
  }

  /** What position `p` of a thread means for what it asked for. */
  ghost predicate Answers(s: State, p: Pc, asked: Request) {
    match p
    case Idle => true
    case WantTable(op) => Pursues(op, asked)
    case Scan(op, _) => Pursues(op, asked)
    case Sweep(_) => asked == FinishSessions
    case WaitFound(r, _) => r in s.heap && asked == GetSession(s.heap[r].sid)
    case WaitRemoved(r, rest) => Removes(s, r, rest, asked)
    case Destroy(r, rest) => Removes(s, r, rest, asked)
    case Release(r, rest) => Removes(s, r, rest, asked)
    case Leave(Nothing) =>
      match asked {
        case GetSession(sid) => !Listed(s, sid)
        case FinishSession(sid) => !Listed(s, sid)
        case FinishSessions => s.list == []
        case NewSession(_) => false
      }
    case Leave(Made(r)) => asked.NewSession? && r in s.list
    case Leave(Found(r, _)) => r in s.heap && asked == GetSession(s.heap[r].sid)
    case Report(_) => asked.NewSession?
    case Holding(r, _) => r in s.heap && asked == GetSession(s.heap[r].sid)
  }

  ghost predicate Pursues(op: Op, asked: Request) {
    match op
    case Create(_) => asked.NewSession?
    case Finish(sid) => asked == FinishSession(sid)
    case Get(sid) => asked == GetSession(sid)
    case FinishAll => asked == FinishSessions
  }

  /** The one removed is the one asked for, and no other has its id; or all are to go. */
  ghost predicate Removes(s: State, r: Ref, rest: Rest, asked: Request) {
    if rest.Next? then asked == FinishSessions
    else r in s.heap && asked == FinishSession(s.heap[r].sid) && !Listed(s, s.heap[r].sid)
  }

  lemma OwnAnswer(s: State, t: Thread, c: Choice, asked: Request)
    requires Inv(s) && Possible(s, t, c)
    requires if s.pc[t].Idle? then asked == c.request else Answers(s, s.pc[t], asked)
    ensures Answers(Step(s, t, c), Step(s, t, c).pc[t], asked)
  {
    assert ThreadOk(s, t);
    var s' := Step(s, t, c);
    if s.pc[t].Scan? {
      OwnScanAnswer(s, t, c, asked);
    }
  }

  lemma OwnScanAnswer(s: State, t: Thread, c: Choice, asked: Request)
    requires Inv(s) && Possible(s, t, c) && s.pc[t].Scan? && Answers(s, s.pc[t], asked)
    ensures Answers(Step(s, t, c), Step(s, t, c).pc[t], asked)
  {
    assert ThreadOk(s, t);
    var s', op, i := Step(s, t, c), s.pc[t].op, s.pc[t].i;
    if i < |s.list| {
      assert Entry(s, i);
      if op.Finish? && s.heap[s.list[i]].sid == op.sid {
        forall r | r in s'.list && r in s'.heap ensures s'.heap[r].sid != op.sid {
          var j: nat :| j < |s'.list| && s'.list[j] == r;
          var k := if j < i then j else j + 1;
          assert s.list[k] == r;
          assert Differ(s, i, k) && Differ(s, k, i);
        }
      }
    } else {
      forall r | r in s.list ensures r in s.heap && Sought(s, op) != Some(s.heap[r].sid) {
        var j: nat :| j < |s.list| && s.list[j] == r;
      }
    }
  }

  /** Another thread's step does not change what a position means: it alone may hold the table lock. */
  lemma OtherAnswer(s: State, t: Thread, c: Choice, u: Thread, asked: Request)
    requires Inv(s) && Possible(s, t, c) && u in s.pc && u != t && Answers(s, s.pc[u], asked)
    ensures Answers(Step(s, t, c), s.pc[u], asked)
  {
    assert ThreadOk(s, t) && ThreadOk(s, u) && TableLock(s, t) && TableLock(s, u) && Apart(s, t, u) && Apart(s, u, t);
    var s', p := Step(s, t, c), s.pc[u];
    if HoldsTable(p) {
      assert s'.list == s.list;
      forall r | r in s.list ensures r in s.heap && r in s'.heap && s'.heap[r].sid == s.heap[r].sid {
        var j: nat :| j < |s.list| && s.list[j] == r;
        assert Entry(s, j);
        if Private(s.pc[t]) != Some(r) { KeepsCell(s, t, c, r); }
      }
    }
    if p.Holding? || p.WaitFound? || p.WaitRemoved? || p.Destroy? || p.Release? {
      assert SessionLock(s, p.r, t) && SessionLock(s, p.r, u);
      KeepsCell(s, t, c, p.r);
    } else if p.Leave? && p.out.Found? {
      KeepsCell(s, t, c, p.out.r);
    }
  }

  /** In every reachable state each busy thread is where its request has brought it. */
  lemma {:induction false} RunAnswers(s: State, run: seq<Turn>, t: Thread)
    requires Initial(s) && Run(s, run).Some? && t in Run(s, run).value.pc && !Run(s, run).value.pc[t].Idle?
    ensures Asked(s, run, t).Some? && Answers(Run(s, run).value, Run(s, run).value.pc[t], Asked(s, run, t).value)
    decreases |run|
  {
    hide Step, Answers, Inv;
    if run == [] {
    } else {
      var before, last := run[..|run| - 1], run[|run| - 1];
      var m := Run(s, before).value;
      RunKeepsInv(s, before);
      SameThreads(m, last.t, last.c, t);
      if !m.pc[t].Idle? {
        RunAnswers(s, before, t);
      }
      if last.t == t {
        OwnAnswer(m, t, last.c, if m.pc[t].Idle? then last.c.request else Asked(s, before, t).value);
      } else {
        OtherAnswer(m, last.t, last.c, t, Asked(s, before, t).value);
      }
    }
  }

  lemma SameThreads(s: State, t: Thread, c: Choice, u: Thread)
    requires Possible(s, t, c)
    ensures var s' := Step(s, t, c); (u in s'.pc <==> u in s.pc) && (u in s.pc && u != t ==> s'.pc[u] == s.pc[u])
  {
  }

  /** Every session has the id it was given. */
  lemma {:induction false} IdIsGiven(s: State, run: seq<Turn>, r: Ref)
    requires Initial(s) && Run(s, run).Some? && r in Run(s, run).value.heap
    ensures Given(s, run, r) == Some(Run(s, run).value.heap[r].sid)
    decreases |run|
  {
    if run == [] {
    } else {
      var before, last := run[..|run| - 1], run[|run| - 1];
      RunKeepsInv(s, before);
      if r in Run(s, before).value.heap {
        IdIsGiven(s, before, r);
      }
      assert ThreadOk(Run(s, before).value, last.t);
    }
  }

  /**
   * A thread leaves a lookup or removal empty-handed only if no session with the id asked for is listed any more, and
   * what it removes or holds is the one asked for.
   */
  lemma AnswerIsRight(s: State, run: seq<Turn>, t: Thread)
    requires Initial(s) && Run(s, run).Some? && t in Run(s, run).value.pc && !Run(s, run).value.pc[t].Idle?
    ensures Asked(s, run, t).Some?
    ensures var e, asked := Run(s, run).value, Asked(s, run, t).value;
            match e.pc[t]
            case Holding(r, _) => r in e.heap && asked == GetSession(e.heap[r].sid)
            case Destroy(r, Last) => r in e.heap && asked == FinishSession(e.heap[r].sid)
            case Destroy(_, Next(_)) => asked == FinishSessions
            case Leave(Nothing) =>
              match asked {
                case GetSession(sid) => !Listed(e, sid)
                case FinishSession(sid) => !Listed(e, sid)
                case FinishSessions => e.list == []
                case NewSession(_) => false
              }
            case Leave(Made(r)) => asked.NewSession? && r in e.list
            case _ => true
  {
    RunAnswers(s, run, t);
  }

  // ----- every call ends -----

  /** How far a call still has to go: to get the table lock, to give it back, to return. */
  function Phase(p: Pc): nat {
    if p.WantTable? then 2 else if HoldsTable(p) then 1 else 0
  }

  function Left(s: State, p: Pc): nat {
    match p
    case Scan(_, i) => if i <= |s.list| then 4 + |s.list| - i else 0
    case Sweep(_) => 4 * |s.list| + 1
    case WaitFound(_, _) => 1
    case WaitRemoved(_, rest) => if rest.Last? then 3 else 4 * |s.list| + 4
    case Destroy(_, rest) => if rest.Last? then 2 else 4 * |s.list| + 3
    case Release(_, rest) => if rest.Last? then 1 else 4 * |s.list| + 2
    case Report(_) => 1
    case Holding(_, _) => 1
    case _ => 0
  }

  /** Each step of a call brings it nearer its end, but for a collision of ids; nobody else's step sets it back. */
  lemma CallsEnd(s: State, t: Thread, c: Choice, u: Thread)
    requires Inv(s) && Possible(s, t, c) && u in s.pc && !s.pc[u].Idle?
    ensures var s' := Step(s, t, c);
            && u in s'.pc
            && (u != t ==> Phase(s'.pc[u]) == Phase(s.pc[u]))
            && (u != t && Phase(s.pc[u]) < 2 ==> Left(s', s'.pc[u]) == Left(s, s.pc[u]))
            && (u == t && !(exists r :: Collides(s, t, r)) ==>
                  || Phase(s'.pc[t]) < Phase(s.pc[t])
                  || (Phase(s'.pc[t]) == Phase(s.pc[t]) && Left(s', s'.pc[t]) < Left(s, s.pc[t])))
  {
    assert ThreadOk(s, t) && TableLock(s, t) && TableLock(s, u);
    if u == t && s.pc[t].Scan? && s.pc[t].i < |s.list| {
      assert Entry(s, s.pc[t].i);
      if s.pc[t].op.Create? {
        assert Private(s.pc[t]) == Some(s.pc[t].op.r);
        var r := s.pc[t].op.r;
        assert Collides(s, t, r) ==> exists q :: Collides(s, t, q);
      }
    }
  }

  // ----- what it gives -----

  /**
   * No thread holding a session from `crypto_get_session_by_sid` sees it freed, and it is the one asked for, held
   * alone.
   */
  lemma HolderIsSafe(s: State, run: seq<Turn>, t: Thread)
    requires Initial(s) && Run(s, run).Some?
    requires t in Run(s, run).value.pc && Run(s, run).value.pc[t].Holding?
    ensures var e := Run(s, run).value;
            var h := e.pc[t];
            && h.r in e.heap && e.heap[h.r] == Session(h.sid, Some(t), false)
            && Asked(s, run, t) == Some(GetSession(e.heap[h.r].sid))
            && forall u <- e.pc :: u != t ==> !HoldsSession(e.pc[u], h.r)
  {
    RunKeepsInv(s, run);
    RunAnswers(s, run, t);
    var e := Run(s, run).value;
    assert ThreadOk(e, t) && SessionLock(e, e.pc[t].r, t);
    forall u <- e.pc | u != t ensures !HoldsSession(e.pc[u], e.pc[t].r) {
      assert SessionLock(e, e.pc[t].r, u);
    }
  }

  /**
   * Ids of listed sessions are pairwise distinct, and no session is lost: it is freed, listed or in one thread's hands.
   */
  lemma IdsAreDistinct(s: State, run: seq<Turn>, i: nat, j: nat)
    requires Initial(s) && Run(s, run).Some? && i < j < |Run(s, run).value.list|
    ensures var e := Run(s, run).value;
            Live(e, e.list[i]) && Live(e, e.list[j]) && e.heap[e.list[i]].sid != e.heap[e.list[j]].sid
  {
    RunKeepsInv(s, run);
    assert Differ(Run(s, run).value, i, j);
  }

  lemma NoSessionIsLost(s: State, run: seq<Turn>, r: Ref)
    requires Initial(s) && Run(s, run).Some? && r in Run(s, run).value.heap
    ensures var e := Run(s, run).value;
            Live(e, r) <==> (r in e.list || exists t <- e.pc :: Private(e.pc[t]) == Some(r))
  {
    RunKeepsInv(s, run);
    var e := Run(s, run).value;
    assert Accounted(e, r);
    if r in e.list {
      var k: nat :| k < |e.list| && e.list[k] == r;
      assert Entry(e, k);
    } else if t :| t in e.pc && Private(e.pc[t]) == Some(r) {
      assert ThreadOk(e, t);
    }
  }

  /** The sessions thread `t` dereferences in its next step. */
  function Touched(s: State, t: Thread): set<Ref>
    requires t in s.pc
  {
    match s.pc[t]
    case WantTable(Create(r)) => {r}
    case Scan(op, i) =>
      (if op.Create? then {op.r} else {}) + (if i < |s.list| then {s.list[i]} else {})
    case Sweep(next) => if next.Some? then {next.value} else {}
    case WaitFound(r, _) => {r}
    case WaitRemoved(r, _) => {r}
    case Destroy(r, _) => {r}
    case Release(r, _) => {r}
    case Report(r) => {r}
    case Holding(r, _) => {r}
    case _ => {}
  }

  /**
   * Exactly when a step touches a live session: always, except that a creator who copies the new id out after
   * giving the table lock back finds it live just while it is still listed or in a thread's hands.
   */
  lemma AccessIsSafe(s: State, run: seq<Turn>, t: Thread, r: Ref)
    requires Initial(s) && Run(s, run).Some? && t in Run(s, run).value.pc
    requires r in Touched(Run(s, run).value, t)
    ensures var e := Run(s, run).value;
            Live(e, r) <==> !e.pc[t].Report? || r in e.list || exists u <- e.pc :: Private(e.pc[u]) == Some(r)
  {
    RunKeepsInv(s, run);
    var e := Run(s, run).value;
    assert ThreadOk(e, t) && Entry(e, 0);
    if e.pc[t].Scan? { assert Entry(e, e.pc[t].i); }
    if e.pc[t].Report? { NoSessionIsLost(s, run, r); }
  }

  lemma RunMore(s: State, run: seq<Turn>, t: Thread, c: Choice)
    requires Run(s, run).Some? && Possible(Run(s, run).value, t, c)
    ensures Run(s, run + [Turn(t, c)]) == Some(Step(Run(s, run).value, t, c))
  {
    assert (run + [Turn(t, c)])[..|run|] == run;
  }

  /** A run after which the creator of a session is about to read it although another thread has finished it. */
  lemma FinishedBeforeReported() returns (s: State, run: seq<Turn>)
    ensures Initial(s) && Run(s, run).Some?
    ensures var e := Run(s, run).value;
            0 in e.pc && e.pc[0] == Report(0) && 0 in Touched(e, 0) && 0 in e.heap && e.heap[0].freed
  {
    hide Run;
    s := State(map[0 := Idle, 1 := Idle], None, [], map[]);
    var create, finish := Choice(NewSession(7), 0, 0), Choice(FinishSession(7), 0, 0);
    run := Created(s, create);
    RunMore(s, run, 1, finish);
    run := run + [Turn(1, finish)];
    RunMore(s, run, 1, finish);
    run := run + [Turn(1, finish)];
    RunMore(s, run, 1, finish);
    run := run + [Turn(1, finish)];
    RunMore(s, run, 1, finish);
    run := run + [Turn(1, finish)];
    RunMore(s, run, 1, finish);
    run := run + [Turn(1, finish)];
    RunMore(s, run, 1, finish);
    run := run + [Turn(1, finish)];
  }

  lemma RunNone(s: State)
    ensures Run(s, []) == Some(s)
  {
  }

  /** Thread 0 creates session 0 and gives the table lock back. */
  lemma Created(s: State, c: Choice) returns (run: seq<Turn>)
    requires s == State(map[0 := Idle, 1 := Idle], None, [], map[]) && c.request.NewSession? && c.r == 0
    ensures Run(s, run) ==
            Some(State(map[0 := Report(0), 1 := Idle], None, [0], map[0 := Session(c.request.sid, None, false)]))
  {
    hide Run;
    RunNone(s);
    run := [];
    RunMore(s, run, 0, c);
    run := run + [Turn(0, c)];
    RunMore(s, run, 0, c);
    run := run + [Turn(0, c)];
    RunMore(s, run, 0, c);
    run := run + [Turn(0, c)];
    RunMore(s, run, 0, c);
    run := run + [Turn(0, c)];
    var e := Run(s, run).value;
    assert e.pc == map[0 := Report(0), 1 := Idle] && e.list == [0];
    assert e.heap == map[0 := Session(c.request.sid, None, false)];
  }

  /** A lookup leaves empty-handed only if no listed session has the id, and a sweep leaves only an empty table. */
  lemma LeavingEmptyHanded(s: State, run: seq<Turn>, t: Thread)
    requires Initial(s) && Run(s, run).Some? && t in Run(s, run).value.pc
    ensures var e := Run(s, run).value;
            && (e.pc[t].Scan? && (e.pc[t].op.Get? || e.pc[t].op.Finish?) && e.pc[t].i == |e.list| ==>
                  forall r <- e.list :: r in e.heap && e.heap[r].sid != e.pc[t].op.sid)
            && (e.pc[t] == Sweep(None) ==> e.list == [])
  {
    RunKeepsInv(s, run);
    assert ThreadOk(Run(s, run).value, t);
  }

  /**
   * Deadlock freedom: when some thread is not idle, a thread that is not idle can step. A blocked thread
   * waits for the holder of the table lock, who waits at most for a session that an unblocked thread holds.
   */
  lemma SomeThreadCanStep(s: State, run: seq<Turn>, t: Thread) returns (u: Thread)
    requires Initial(s) && Run(s, run).Some?
    requires t in Run(s, run).value.pc && !Run(s, run).value.pc[t].Idle?
    ensures var e := Run(s, run).value; u in e.pc && !e.pc[u].Idle? && forall c :: Possible(e, u, c)
  {
    RunKeepsInv(s, run);
    var e := Run(s, run).value;
    u := t;
    assert TableLock(e, t) && ThreadOk(e, t);
    if !Enabled(e, u) && e.pc[u].WantTable? {
      u := e.table.value;
      assert TableLock(e, u) && ThreadOk(e, u);
    }
    if !Enabled(e, u) {
      var r := e.pc[u].r;
      var v := e.heap[r].owner.value;
      assert TableLock(e, u) && TableLock(e, v) && SessionLock(e, r, v);
      u := v;
    }
  }
}
