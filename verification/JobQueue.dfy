/**
 * The asynchronous job queue of a cryptodev handle: any number of threads submit and fetch jobs, one worker
 * serves them. Each list has its own lock, so a step is one critical section or the work between two.
 */
module JobQueue {
  import opened Wire

  type Item = nat
  type Job = nat
  type Thread = nat

  const DEFAULT_RING: nat := 16
  const MAX_RING: nat := 64

  /** struct todo_list_item. */
  datatype Cell = Cell(job: Job, result: int)

  datatype Pc =
    | Idle
    | Allocating(job: Job)              // itemcount raised, kzalloc pending
    | Filling(item: Item, job: Job)     // has an item, request not copied in yet
    | Filled(item: Item)                // about to append to todo
    | Popped(item: Item, k: nat)        // took the k-th completed job
    | Returning(item: Item)             // result copied out, about to give the item back

  datatype Worker = Resting | Serving(batch: seq<Item>, next: nat)

  /** Where an item is: the bookkeeping that no list or pointer of the program spells out. */
  datatype Place = InFree | InTodo | InDone | InBatch | With(t: Thread)

  /**
   * The queue, and its history: `place` of every item allocated, `failed` allocations, `appended` jobs in the
   * order they joined todo, results in the order they were `ran`, the number `popped` from done, and what was
   * `returned` for each.
   */
  datatype State = State(
    free: seq<Item>, todo: seq<Item>, done: seq<Item>, itemcount: nat, worker: Worker,
    pc: map<Thread, Pc>, cells: map<Item, Cell>,
    place: map<Item, Place>, failed: nat, appended: seq<Job>, ran: seq<int>, popped: nat, returned: map<nat, Cell>)

  function Batch(s: State): seq<Item> {
    if s.worker.Serving? then s.worker.batch else []
  }

  function HeldBy(p: Pc): Option<Item> {
    match p
    case Filling(item, _) => Some(item)
    case Filled(item) => Some(item)
    case Popped(item, _) => Some(item)
    case Returning(item) => Some(item)
    case _ => None
  }

  // ----- steps -----

  datatype Action =
    | Submit(t: Thread, job: Job)
    | Allocate(t: Thread, item: Option<Item>)
    | CopyIn(t: Thread)
    | Append(t: Thread)
    | Fetch(t: Thread)
    | CopyOut(t: Thread)
    | GiveBack(t: Thread)
    | Cut
    | Serve(result: int)
    | Push

  predicate Enabled(s: State, a: Action) {
    match a
    case Submit(t, _) => t in s.pc && s.pc[t].Idle?
    case Allocate(t, item) => t in s.pc && s.pc[t].Allocating? && (item.Some? ==> item.value !in s.place)
    case CopyIn(t) => t in s.pc && s.pc[t].Filling? && s.pc[t].item in s.cells
    case Append(t) => t in s.pc && s.pc[t].Filled? && s.pc[t].item in s.cells
    case Fetch(t) => t in s.pc && s.pc[t].Idle?
    case CopyOut(t) => t in s.pc && s.pc[t].Popped? && s.pc[t].item in s.cells
    case GiveBack(t) => t in s.pc && s.pc[t].Returning?
    case Cut => s.worker.Resting?
    case Serve(_) => s.worker.Serving? && s.worker.next < |s.worker.batch| && s.worker.batch[s.worker.next] in s.cells
    case Push => s.worker.Serving? && s.worker.next == |s.worker.batch|
  }

  function Goto(s: State, t: Thread, p: Pc): State {
    s.(pc := s.pc[t := p])
  }

  function Move(s: State, item: Item, p: Place): State {
    s.(place := s.place[item := p])
  }

  /** All of `items` go to place `p`. */
  function MoveAll(place: map<Item, Place>, items: seq<Item>, p: Place): map<Item, Place> {
    map r | r in place :: if r in items then p else place[r]
  }

  /** -EBUSY leaves everything as it was. */
  function Step(s: State, a: Action): State
    requires Enabled(s, a)
  {
    match a
    case Submit(t, job) =>
      if s.free != [] then
        var item := s.free[0];
        Goto(Move(s, item, With(t)).(free := s.free[1..]), t, Filling(item, job))
      else if s.itemcount < MAX_RING then
        Goto(s.(itemcount := s.itemcount + 1), t, Allocating(job))
      else s
    case Allocate(t, item) =>
      (match item
       case None => Goto(s.(failed := s.failed + 1), t, Idle)
       case Some(r) => Goto(Move(s, r, With(t)).(cells := s.cells[r := Cell(0, 0)]), t, Filling(r, s.pc[t].job)))
    case CopyIn(t) =>
      var item := s.pc[t].item;
      Goto(s.(cells := s.cells[item := s.cells[item].(job := s.pc[t].job)]), t, Filled(item))
    case Append(t) =>
      var item := s.pc[t].item;
      Goto(Move(s, item, InTodo).(todo := s.todo + [item], appended := s.appended + [s.cells[item].job]), t, Idle)
    case Fetch(t) =>
      if s.done == [] then s
      else
        var item := s.done[0];
        Goto(Move(s, item, With(t)).(done := s.done[1..], popped := s.popped + 1), t, Popped(item, s.popped))
    case CopyOut(t) =>
      var item, k := s.pc[t].item, s.pc[t].k;
      Goto(s.(returned := s.returned[k := s.cells[item]]), t, Returning(item))
    case GiveBack(t) =>
      var item := s.pc[t].item;
      Goto(Move(s, item, InFree).(free := s.free + [item]), t, Idle)
    case Cut =>
      s.(place := MoveAll(s.place, s.todo, InBatch), todo := [], worker := Serving(s.todo, 0))
    case Serve(result) =>
      var item := s.worker.batch[s.worker.next];
      s.(cells := s.cells[item := s.cells[item].(result := result)], ran := s.ran + [result],
         worker := s.worker.(next := s.worker.next + 1))
    case Push =>
      s.(place := MoveAll(s.place, s.worker.batch, InDone), done := s.done + s.worker.batch, worker := Resting)
  }

  /** The state after `run`, or None if some action of it cannot be taken. */
  function Run(s: State, run: seq<Action>): Option<State>
    decreases |run|
  {
    if run == [] then Some(s)
    else
      match Run(s, run[..|run| - 1])
      case None => None
      case Some(m) => if Enabled(m, run[|run| - 1]) then Some(Step(m, run[|run| - 1])) else None
  }

  // ----- the invariant -----

  ghost predicate Distinct(s: seq<Item>) {
    forall i, j {:trigger s[i], s[j]} :: 0 <= i < j < |s| ==> s[i] != s[j]
  }

  /** List `l` holds, once each, exactly the items whose place is `p`. */
  ghost predicate ListAt(place: map<Item, Place>, l: seq<Item>, p: Place) {
    && Distinct(l)
    && (forall i :: 0 <= i < |l| ==> l[i] in place && place[l[i]] == p)
    && (forall r :: r in place && place[r] == p ==> r in l)
  }

  lemma ListPop(place: map<Item, Place>, l: seq<Item>, p: Place, q: Place)
    requires ListAt(place, l, p) && l != [] && q != p
    ensures l[0] in place && place[l[0]] == p && ListAt(place[l[0] := q], l[1..], p)
  {
  }

  lemma ListPush(place: map<Item, Place>, l: seq<Item>, p: Place, r: Item)
    requires ListAt(place, l, p) && (r in place ==> place[r] != p)
    ensures ListAt(place[r := p], l + [r], p)
  {
    assert r !in l;
  }

  lemma ListKeeps(place: map<Item, Place>, l: seq<Item>, p: Place, r: Item, q: Place)
    requires ListAt(place, l, p) && (r in place ==> place[r] != p) && q != p
    ensures ListAt(place[r := q], l, p)
  {
    assert r !in l;
  }

  /** Splicing one list onto another. */
  lemma ListSplice(place: map<Item, Place>, l: seq<Item>, p: Place, m: seq<Item>, q: Place)
    requires ListAt(place, l, p) && ListAt(place, m, q) && p != q
    ensures ListAt(MoveAll(place, l, q), [], p) && ListAt(MoveAll(place, l, q), m + l, q)
  {
    var place' := MoveAll(place, l, q);
    forall i, j | 0 <= i < j < |m + l| ensures (m + l)[i] != (m + l)[j] {
      if i < |m| <= j {
        assert place[m[i]] == q && place[l[j - |m|]] == p;
      }
    }
    forall r | r in place' && place'[r] == q ensures r in m + l {
      assert r in place;
    }
  }

  lemma ListKeepsAll(place: map<Item, Place>, l: seq<Item>, p: Place, q: Place, m: seq<Item>, o: Place)
    requires ListAt(place, l, p) && ListAt(place, m, o) && o != p && o != q
    ensures ListAt(MoveAll(place, l, q), m, o)
  {
    var place' := MoveAll(place, l, q);
    forall i | 0 <= i < |m| ensures m[i] in place' && place'[m[i]] == o {
      assert place[m[i]] == o;
    }
  }

  /** The lists hold exactly the items in their places. */
  ghost predicate Lists(s: State) {
    && ListAt(s.place, s.free, InFree) && ListAt(s.place, s.todo, InTodo)
    && ListAt(s.place, s.done, InDone) && ListAt(s.place, Batch(s), InBatch)
  }

  /** A thread holds the item placed with it, and only that. */
  ghost predicate Hand(s: State, t: Thread) {
    t in s.pc && HeldBy(s.pc[t]).Some? ==>
      var r := HeldBy(s.pc[t]).value;
      r in s.place && s.place[r] == With(t)
  }

  ghost predicate Held(s: State, r: Item) {
    && (r in s.place <==> r in s.cells)
    && (r in s.place && s.place[r].With? ==> s.place[r].t in s.pc && HeldBy(s.pc[s.place[r].t]) == Some(r))
  }

  ghost predicate Hands(s: State) {
    (forall t :: Hand(s, t)) && forall r :: Held(s, r)
  }

  lemma ListsStep(s: State, a: Action)
    requires Lists(s) && Hands(s) && Enabled(s, a)
    ensures Lists(Step(s, a))
  {
    hide ListAt;
    match a
    case Submit(t, _) =>
      if s.free != [] {
        ListPop(s.place, s.free, InFree, With(t));
        Others(s, s.free[0], With(t));
      }
    case Allocate(t, item) =>
      if item.Some? { Others(s, item.value, With(t)); }
    case CopyIn(_) =>
    case Append(t) =>
      assert Hand(s, t);
      ListPush(s.place, s.todo, InTodo, s.pc[t].item);
      Others(s, s.pc[t].item, InTodo);
    case Fetch(t) =>
      if s.done != [] {
        ListPop(s.place, s.done, InDone, With(t));
        Others(s, s.done[0], With(t));
      }
    case CopyOut(_) =>
    case GiveBack(t) =>
      assert Hand(s, t);
      ListPush(s.place, s.free, InFree, s.pc[t].item);
      Others(s, s.pc[t].item, InFree);
    case Cut =>
      ListSplice(s.place, s.todo, InTodo, [], InBatch);
      assert [] + s.todo == s.todo;
      ListKeepsAll(s.place, s.todo, InTodo, InBatch, s.free, InFree);
      ListKeepsAll(s.place, s.todo, InTodo, InBatch, s.done, InDone);
    case Serve(_) =>
    case Push =>
      ListSplice(s.place, Batch(s), InBatch, s.done, InDone);
      ListKeepsAll(s.place, Batch(s), InBatch, InDone, s.free, InFree);
      ListKeepsAll(s.place, Batch(s), InBatch, InDone, s.todo, InTodo);
  }

  /** Moving `r` to `q` leaves every list alone that it neither leaves nor joins. */
  lemma Others(s: State, r: Item, q: Place)
    requires Lists(s)
    ensures var was := if r in s.place then s.place[r] else q;
            var place' := s.place[r := q];
            && (was != InFree && q != InFree ==> ListAt(place', s.free, InFree))
            && (was != InTodo && q != InTodo ==> ListAt(place', s.todo, InTodo))
            && (was != InDone && q != InDone ==> ListAt(place', s.done, InDone))
            && (was != InBatch && q != InBatch ==> ListAt(place', Batch(s), InBatch))
  {
    hide ListAt;
    var was := if r in s.place then s.place[r] else q;
    if was != InFree && q != InFree { ListKeeps(s.place, s.free, InFree, r, q); }
    if was != InTodo && q != InTodo { ListKeeps(s.place, s.todo, InTodo, r, q); }
    if was != InDone && q != InDone { ListKeeps(s.place, s.done, InDone, r, q); }
    if was != InBatch && q != InBatch { ListKeeps(s.place, Batch(s), InBatch, r, q); }
  }

  lemma ListPlace(place: map<Item, Place>, l: seq<Item>, p: Place)
    requires ListAt(place, l, p)
    ensures forall r <- l :: r in place && place[r] == p
    ensures l != [] ==> l[0] in l
  {
  }

  lemma HandStep(s: State, a: Action, t: Thread)
    requires Lists(s) && Hands(s) && Enabled(s, a)
    ensures Hand(Step(s, a), t)
  {
    hide ListAt;
    assert Hand(s, t);
    match a
    case Submit(_, _) => ListPlace(s.place, s.free, InFree);
    case Fetch(_) => ListPlace(s.place, s.done, InDone);
    case Cut => ListPlace(s.place, s.todo, InTodo);
    case Push => ListPlace(s.place, Batch(s), InBatch);
    case Append(u) => assert Hand(s, u);
    case GiveBack(u) => assert Hand(s, u);
    case _ =>
  }

  lemma HeldStep(s: State, a: Action, r: Item)
    requires Lists(s) && Hands(s) && Enabled(s, a)
    ensures Held(Step(s, a), r)
  {
    hide ListAt;
    assert Held(s, r);
    match a
    case Submit(_, _) => ListPlace(s.place, s.free, InFree);
    case Fetch(_) => ListPlace(s.place, s.done, InDone);
    case Cut => ListPlace(s.place, s.todo, InTodo);
    case Push => ListPlace(s.place, Batch(s), InBatch);
    case Append(u) => assert Hand(s, u);
    case GiveBack(u) => assert Hand(s, u);
    case _ =>
  }

  // ----- counting -----

  ghost function Pending(pc: map<Thread, Pc>): set<Thread> {
    set t | t in pc && pc[t].Allocating?
  }

  lemma PendingGoto(pc: map<Thread, Pc>, t: Thread, p: Pc)
    requires t in pc
    ensures var n := if pc[t].Allocating? then 1 else 0;
            |Pending(pc[t := p])| == |Pending(pc)| - n + if p.Allocating? then 1 else 0
  {
    var rest := Pending(pc) - {t};
    assert Pending(pc) == if pc[t].Allocating? then rest + {t} else rest;
    assert Pending(pc[t := p]) == if p.Allocating? then rest + {t} else rest;
  }

  /** Items exist for every count taken except failed and pending allocations. */
  ghost predicate Counted(s: State) {
    s.itemcount <= MAX_RING && |s.place.Keys| + s.failed + |Pending(s.pc)| == s.itemcount
  }

  /** Which items exist changes only by a successful allocation. */
  lemma ItemsStep(s: State, a: Action)
    requires Lists(s) && Hands(s) && Enabled(s, a)
    ensures Step(s, a).place.Keys == s.place.Keys + if a.Allocate? && a.item.Some? then {a.item.value} else {}
  {
    hide ListAt;
    match a
    case Submit(_, _) => ListPlace(s.place, s.free, InFree);
    case Fetch(_) => ListPlace(s.place, s.done, InDone);
    case Append(t) => assert Hand(s, t);
    case GiveBack(t) => assert Hand(s, t);
    case _ =>
  }

  lemma CountedStep(s: State, a: Action)
    requires Lists(s) && Hands(s) && Counted(s) && Enabled(s, a)
    ensures Counted(Step(s, a))
  {
    hide Lists, Hands, Pending;
    var s' := Step(s, a);
    ItemsStep(s, a);
    if s'.pc != s.pc {
      PendingGoto(s.pc, a.t, s'.pc[a.t]);
    }
  }

  // ----- order -----

  /** `l` holds, in order, the jobs appended from number `k` on; the first `n` of them have their results. */
  ghost predicate Holds(s: State, l: seq<Item>, k: nat, n: nat) {
    && n <= |l| && k + |l| <= |s.appended| && (n > 0 ==> k + n <= |s.ran|)
    && (forall i :: 0 <= i < |l| ==> l[i] in s.cells && s.cells[l[i]].job == s.appended[k + i])
    && (forall i :: 0 <= i < n ==> l[i] in s.cells && s.cells[l[i]].result == s.ran[k + i])
  }

  function Served(s: State): nat {
    if s.worker.Serving? then s.worker.next else 0
  }

  /** done, batch and todo, one after the other, are the jobs appended and not popped yet. */
  ghost predicate Ordered(s: State) {
    && |s.appended| == s.popped + |s.done| + |Batch(s)| + |s.todo|
    && Served(s) <= |Batch(s)| && |s.ran| == s.popped + |s.done| + Served(s)
    && Holds(s, s.done, s.popped, |s.done|)
    && Holds(s, Batch(s), s.popped + |s.done|, Served(s))
    && Holds(s, s.todo, s.popped + |s.done| + |Batch(s)|, 0)
  }

  ghost predicate Delivers(s: State, k: nat, c: Cell) {
    k < s.popped && k < |s.ran| && k < |s.appended| && c == Cell(s.appended[k], s.ran[k])
  }

  ghost predicate Delivered(s: State) {
    && (forall t :: t in s.pc && s.pc[t].Popped? ==>
         s.pc[t].item in s.cells && Delivers(s, s.pc[t].k, s.cells[s.pc[t].item]))
    && (forall k :: k in s.returned ==> Delivers(s, k, s.returned[k]))
  }

  /** No number is handed to two fetches. */
  ghost predicate Once(s: State) {
    && (forall t :: t in s.pc && s.pc[t].Popped? ==> s.pc[t].k !in s.returned && s.pc[t].k < s.popped)
    && (forall k :: k in s.returned ==> k < s.popped)
    && (forall t, u {:trigger s.pc[t], s.pc[u]} ::
          t in s.pc && u in s.pc && t != u && s.pc[t].Popped? && s.pc[u].Popped? ==> s.pc[t].k != s.pc[u].k)
  }

  lemma HoldsKeeps(s: State, s': State, l: seq<Item>, k: nat, n: nat)
    requires Holds(s, l, k, n) && s.appended <= s'.appended && s.ran <= s'.ran
    requires forall r <- l :: r in s'.cells && s'.cells[r] == s.cells[r]
    ensures Holds(s', l, k, n)
  {
  }

  /** A cell changes only in the hands of the thread that holds it, or under the worker. */
  lemma CellsStep(s: State, a: Action, r: Item)
    requires Lists(s) && Hands(s) && Enabled(s, a) && r in s.place
    requires s.place[r] in {InFree, InTodo, InDone} || (s.place[r] == InBatch && !a.Serve?)
    ensures r in s.cells && r in Step(s, a).cells && Step(s, a).cells[r] == s.cells[r]
  {
    hide ListAt;
    assert Held(s, r);
    match a
    case CopyIn(t) => assert Hand(s, t);
    case Serve(_) => ListPlace(s.place, Batch(s), InBatch);
    case _ =>
  }

  lemma ListCells(s: State, a: Action, l: seq<Item>, p: Place, k: nat, n: nat)
    requires Lists(s) && Hands(s) && Enabled(s, a) && ListAt(s.place, l, p) && Holds(s, l, k, n)
    requires p in {InFree, InTodo, InDone} || (p == InBatch && !a.Serve?)
    ensures Holds(Step(s, a), l, k, n)
  {
    hide Lists, Hands, ListAt, Holds;
    ListPlace(s.place, l, p);
    forall r <- l ensures r in Step(s, a).cells && r in s.cells && Step(s, a).cells[r] == s.cells[r] {
      CellsStep(s, a, r);
    }
    HoldsKeeps(s, Step(s, a), l, k, n);
  }

  lemma OrderedStep(s: State, a: Action)
    requires Lists(s) && Hands(s) && Ordered(s) && Enabled(s, a)
    ensures Ordered(Step(s, a))
  {
    hide Hands, ListAt, Holds;
    var s' := Step(s, a);
    var d, b := s.popped + |s.done|, s.popped + |s.done| + |Batch(s)|;
    ListCells(s, a, s.done, InDone, s.popped, |s.done|);
    ListCells(s, a, s.todo, InTodo, b, 0);
    if a.Serve? {
      ServeHolds(s, a, d);
    } else {
      ListCells(s, a, Batch(s), InBatch, d, Served(s));
    }
    match a
    case Append(t) => AppendHolds(s, a, b);
    case Fetch(_) => if s.done != [] { TailHolds(s', s.done, s.popped); }
    case Cut => NoneHold(s', |s.appended|);
    case Push =>
      JoinHolds(s', s.done, Batch(s), s.popped);
      NoneHold(s', b);
    case _ =>
  }

  lemma AppendHolds(s: State, a: Action, k: nat)
    requires Hands(s) && Enabled(s, a) && a.Append? && Holds(Step(s, a), s.todo, k, 0) && |s.appended| == k + |s.todo|
    ensures Holds(Step(s, a), s.todo + [s.pc[a.t].item], k, 0)
  {
    assert Hand(s, a.t) && Held(s, s.pc[a.t].item);
  }

  lemma ServeHolds(s: State, a: Action, k: nat)
    requires Lists(s) && Enabled(s, a) && a.Serve? && Holds(s, Batch(s), k, Served(s)) && |s.ran| == k + Served(s)
    ensures Holds(Step(s, a), Batch(s), k, Served(s) + 1)
  {
  }

  lemma TailHolds(s: State, l: seq<Item>, k: nat)
    requires l != [] && Holds(s, l, k, |l|)
    ensures Holds(s, l[1..], k + 1, |l| - 1)
  {
    var m := l[1..];
    forall i | 0 <= i < |m| ensures m[i] in s.cells && s.cells[m[i]] == Cell(s.appended[k + 1 + i], s.ran[k + 1 + i]) {
      assert m[i] == l[i + 1] && s.appended[k + (i + 1)] == s.appended[k + 1 + i];
    }
  }

  lemma JoinHolds(s: State, l: seq<Item>, m: seq<Item>, k: nat)
    requires Holds(s, l, k, |l|) && Holds(s, m, k + |l|, |m|)
    ensures Holds(s, l + m, k, |l| + |m|)
  {
    var j := l + m;
    forall i | 0 <= i < |j| ensures j[i] in s.cells && s.cells[j[i]] == Cell(s.appended[k + i], s.ran[k + i]) {
      if i >= |l| {
        assert j[i] == m[i - |l|] && s.appended[k + |l| + (i - |l|)] == s.appended[k + i];
      }
    }
  }

  lemma NoneHold(s: State, k: nat)
    requires k <= |s.appended|
    ensures Holds(s, [], k, 0)
  {
  }

  /** What a delivery relies on stays: results and jobs are only ever added. */
  lemma DeliveredStep(s: State, a: Action)
    requires Lists(s) && Hands(s) && Ordered(s) && Delivered(s) && Enabled(s, a)
    ensures Delivered(Step(s, a))
  {
    hide Lists, Hands, Ordered, Step;
    var s' := Step(s, a);
    forall t | t in s'.pc && s'.pc[t].Popped?
      ensures s'.pc[t].item in s'.cells && Delivers(s', s'.pc[t].k, s'.cells[s'.pc[t].item])
    {
      DeliveryPending(s, a, t);
    }
    forall k | k in s'.returned ensures Delivers(s', k, s'.returned[k]) {
      DeliveryMade(s, a, k);
    }
  }

  lemma DeliveryPending(s: State, a: Action, t: Thread)
    requires Lists(s) && Hands(s) && Ordered(s) && Delivered(s) && Enabled(s, a)
    requires t in Step(s, a).pc && Step(s, a).pc[t].Popped?
    ensures var s' := Step(s, a); s'.pc[t].item in s'.cells && Delivers(s', s'.pc[t].k, s'.cells[s'.pc[t].item])
  {
    hide Lists, Hands, Step, Ordered;
    HistoryGrows(s, a);
    if t in s.pc && s.pc[t] == Step(s, a).pc[t] {
      HeldCell(s, a, t);
    } else {
      JustPopped(s, a, t);
    }
  }

  lemma HistoryGrows(s: State, a: Action)
    requires Enabled(s, a)
    ensures var s' := Step(s, a); s.appended <= s'.appended && s.ran <= s'.ran && s.popped <= s'.popped
  {
  }

  /** Only a fetch puts a thread there, and the item it takes is the next in order, served. */
  lemma JustPopped(s: State, a: Action, t: Thread)
    requires Ordered(s) && Enabled(s, a) && t in Step(s, a).pc && Step(s, a).pc[t].Popped?
    requires t in s.pc ==> s.pc[t] != Step(s, a).pc[t]
    ensures var s' := Step(s, a); s'.pc[t].item in s'.cells && Delivers(s', s'.pc[t].k, s'.cells[s'.pc[t].item])
  {
    assert a == Fetch(t) && s.done != [];
    assert s.done[0] in s.cells && s.cells[s.done[0]] == Cell(s.appended[s.popped], s.ran[s.popped]) by {
      assert s.appended[s.popped + 0] == s.appended[s.popped];
    }
  }

  lemma DeliveryMade(s: State, a: Action, k: nat)
    requires Delivered(s) && Enabled(s, a) && k in Step(s, a).returned
    ensures Delivers(Step(s, a), k, Step(s, a).returned[k])
  {
    HistoryGrows(s, a);
    if a.CopyOut? && k == s.pc[a.t].k {
      assert Delivers(s, k, s.cells[s.pc[a.t].item]);
    } else {
      assert k in s.returned && Step(s, a).returned[k] == s.returned[k];
    }
  }

  lemma OnceStep(s: State, a: Action)
    requires Once(s) && Enabled(s, a)
    ensures Once(Step(s, a))
  {
  }

  /** The cell of an item in a thread's hands is out of everyone else's reach. */
  lemma HeldCell(s: State, a: Action, t: Thread)
    requires Lists(s) && Hands(s) && Enabled(s, a)
    requires t in s.pc && HeldBy(s.pc[t]).Some? && s.pc[t] == Step(s, a).pc[t]
    ensures var r := s.pc[t].item; r in s.cells && r in Step(s, a).cells && Step(s, a).cells[r] == s.cells[r]
  {
    hide ListAt;
    var r := s.pc[t].item;
    assert Hand(s, t) && Held(s, r);
    match a
    case CopyIn(u) => assert Hand(s, u);
    case Serve(_) => ListPlace(s.place, Batch(s), InBatch);
    case _ =>
  }

  ghost predicate Inv(s: State) {
    Lists(s) && Hands(s) && Counted(s) && Ordered(s) && Delivered(s) && Once(s)
  }

  lemma StepKeepsInv(s: State, a: Action)
    requires Inv(s) && Enabled(s, a)
    ensures Inv(Step(s, a))
  {
    hide Step, Lists, Hand, Held, Counted, Ordered, Delivered, Once;
    ListsStep(s, a);
    forall t ensures Hand(Step(s, a), t) { HandStep(s, a, t); }
    forall r ensures Held(Step(s, a), r) { HeldStep(s, a, r); }
    CountedStep(s, a);
    OrderedStep(s, a);
    DeliveredStep(s, a);
    OnceStep(s, a);
  }

  /** A handle after `cryptodev_open`: sixteen items in free, every thread idle. */
  ghost predicate Opened(s: State) {
    && |s.free| == s.itemcount == DEFAULT_RING && Distinct(s.free)
    && s.todo == s.done == [] && s.worker == Resting && (forall t <- s.pc :: s.pc[t].Idle?)
    && s.place == (map r | r in s.free :: InFree) && s.cells.Keys == s.place.Keys
    && s.failed == 0 && s.appended == [] && s.ran == [] && s.popped == 0 && s.returned == map[]
  }

  lemma OpenedInv(s: State)
    requires Opened(s)
    ensures Inv(s)
  {
    DistinctSize(s.free);
    assert s.place.Keys == SetOf(s.free);
    assert Pending(s.pc) == {};
    forall r ensures Held(s, r) { assert r in s.place.Keys <==> r in s.cells.Keys; }
  }

  ghost function SetOf(l: seq<Item>): set<Item> {
    set r | r in l
  }

  lemma {:induction false} DistinctSize(l: seq<Item>)
    requires Distinct(l)
    ensures |SetOf(l)| == |l|
  {
    if l == [] {
    } else {
      var m, x := l[..|l| - 1], l[|l| - 1];
      DistinctSize(m);
      assert x !in m && l == m + [x];
      assert SetOf(l) == SetOf(m) + {x};
    }
  }

  lemma {:induction false} RunKeepsInv(s: State, run: seq<Action>)
    requires Opened(s) && Run(s, run).Some?
    ensures Inv(Run(s, run).value)
    decreases |run|
  {
    hide Inv, Opened, Step;
    if run == [] {
      OpenedInv(s);
    } else {
      RunKeepsInv(s, run[..|run| - 1]);
      StepKeepsInv(Run(s, run[..|run| - 1]).value, run[|run| - 1]);
    }
  }

  // ----- what it gives -----

  /** In how many of the four lists `r` stands. */
  function Listed(s: State, r: Item): nat {
    (if r in s.free then 1 else 0) + (if r in s.todo then 1 else 0)
    + (if r in s.done then 1 else 0) + (if r in Batch(s) then 1 else 0)
  }

  /** Every item stands once in one list, or is in the hands of one thread, and nowhere else. */
  lemma EachItemInOnePlace(s: State, run: seq<Action>, r: Item)
    requires Opened(s) && Run(s, run).Some? && r in Run(s, run).value.cells
    ensures var e := Run(s, run).value;
            && Distinct(e.free) && Distinct(e.todo) && Distinct(e.done) && Distinct(Batch(e))
            && Listed(e, r) <= 1
            && (Listed(e, r) == 0 <==> exists t <- e.pc :: HeldBy(e.pc[t]) == Some(r))
            && forall t <- e.pc, u <- e.pc {:trigger HeldBy(e.pc[t]), HeldBy(e.pc[u])} ::
                 HeldBy(e.pc[t]) == Some(r) == HeldBy(e.pc[u]) ==> t == u
  {
    RunKeepsInv(s, run);
    var e := Run(s, run).value;
    assert Held(e, r);
    ListPlace(e.place, e.free, InFree);
    ListPlace(e.place, e.todo, InTodo);
    ListPlace(e.place, e.done, InDone);
    ListPlace(e.place, Batch(e), InBatch);
    forall t <- e.pc | HeldBy(e.pc[t]) == Some(r) ensures e.place[r] == With(t) { assert Hand(e, t); }
    if e.place[r].With? { assert HeldBy(e.pc[e.place[r].t]) == Some(r); }
  }

  /**
   * There are never more than 64 items; -EBUSY means that 64 are in use, being allocated, or lost to a failed kzalloc.
   */
  lemma ItemsAreBounded(s: State, run: seq<Action>, t: Thread, job: Job)
    requires Opened(s) && Run(s, run).Some?
    ensures var e := Run(s, run).value;
            && |e.cells.Keys| == e.itemcount - e.failed - |Pending(e.pc)| && e.itemcount <= MAX_RING
            && (Enabled(e, Submit(t, job)) ==>
                  (Step(e, Submit(t, job)) == e <==>
                     e.free == [] && |e.cells.Keys| + e.failed + |Pending(e.pc)| == MAX_RING))
  {
    RunKeepsInv(s, run);
    var e := Run(s, run).value;
    forall r ensures r in e.cells.Keys <==> r in e.place.Keys { assert Held(e, r); }
    assert e.cells.Keys == e.place.Keys;
    hide Inv, Lists, Hands, Ordered, Delivered, Pending;
    if Enabled(e, Submit(t, job)) {
      assert e.pc[t].Idle?;
      if e.free != [] { assert Step(e, Submit(t, job)).pc[t].Filling?; }
    }
  }

  // ----- the jobs of a run -----

  /** The job that thread `t` last submitted. */
  function Submitted(run: seq<Action>, t: Thread): Option<Job>
    decreases |run|
  {
    if run == [] then None
    else
      match run[|run| - 1]
      case Submit(u, job) => if u == t then Some(job) else Submitted(run[..|run| - 1], t)
      case _ => Submitted(run[..|run| - 1], t)
  }

  /** The jobs that joined todo, in that order. */
  function Jobs(run: seq<Action>): seq<Job>
    decreases |run|
  {
    if run == [] then []
    else
      var before := run[..|run| - 1];
      match run[|run| - 1]
      case Append(t) => Jobs(before) + (if Submitted(before, t).Some? then [Submitted(before, t).value] else [])
      case _ => Jobs(before)
  }

  /** What serving them gave, in that order. */
  function Results(run: seq<Action>): seq<int>
    decreases |run|
  {
    if run == [] then []
    else
      match run[|run| - 1]
      case Serve(result) => Results(run[..|run| - 1]) + [result]
      case _ => Results(run[..|run| - 1])
  }

  /** A thread on its way to todo carries the job it submitted. */
  ghost predicate Carries(s: State, t: Thread, job: Option<Job>) {
    t in s.pc ==>
      match s.pc[t]
      case Allocating(j) => Some(j) == job
      case Filling(_, j) => Some(j) == job
      case Filled(item) => item in s.cells && Some(s.cells[item].job) == job
      case _ => true
  }

  lemma CarriesStep(s: State, a: Action, t: Thread, job: Option<Job>)
    requires Lists(s) && Hands(s) && Enabled(s, a) && Carries(s, t, job)
    ensures Carries(Step(s, a), t, if a.Submit? && a.t == t then Some(a.job) else job)
  {
    hide Lists, Hands;
    if t in s.pc && HeldBy(s.pc[t]).Some? && s.pc[t] == Step(s, a).pc[t] {
      HeldCell(s, a, t);
    }
  }

  /** The queue's own record is the record of the run. */
  lemma {:induction false} RecordIsTheRun(s: State, run: seq<Action>)
    requires Opened(s) && Run(s, run).Some?
    ensures var e := Run(s, run).value;
            e.appended == Jobs(run) && e.ran == Results(run) && forall t :: Carries(e, t, Submitted(run, t))
    decreases |run|
  {
    hide Inv, Lists, Hands, Opened, Carries;
    if run == [] {
      NothingYet(s);
    } else {
      var before, a := run[..|run| - 1], run[|run| - 1];
      var m := Run(s, before).value;
      RecordIsTheRun(s, before);
      RunKeepsInv(s, before);
      InvParts(m);
      forall t ensures Carries(Step(m, a), t, Submitted(run, t)) {
        CarriesStep(m, a, t, Submitted(before, t));
      }
      RecordStep(m, a, before);
    }
  }

  lemma NothingYet(s: State)
    requires Opened(s)
    ensures s.appended == [] && s.ran == [] && forall t :: Carries(s, t, None)
  {
  }

  lemma InvParts(s: State)
    requires Inv(s)
    ensures Lists(s) && Hands(s) && Ordered(s)
  {
  }

  lemma RecordStep(s: State, a: Action, before: seq<Action>)
    requires Enabled(s, a) && s.appended == Jobs(before) && s.ran == Results(before)
    requires forall t :: Carries(s, t, Submitted(before, t))
    ensures Step(s, a).appended == Jobs(before + [a]) && Step(s, a).ran == Results(before + [a])
  {
    assert (before + [a])[..|before|] == before;
    if a.Append? { assert Carries(s, a.t, Submitted(before, a.t)); }
  }

  /** The k-th job fetched is the k-th job submitted and appended, with the result of its own run; none comes twice. */
  lemma JobsComeBackInOrder(s: State, run: seq<Action>, k: nat)
    requires Opened(s) && Run(s, run).Some?
    ensures var e := Run(s, run).value;
            && (k in e.returned ==>
                  k < e.popped <= |Results(run)| <= |Jobs(run)| && e.returned[k] == Cell(Jobs(run)[k], Results(run)[k]))
            && (forall t <- e.pc :: e.pc[t].Popped? && e.pc[t].k == k ==>
                  k !in e.returned && k < |Results(run)| <= |Jobs(run)| && e.pc[t].item in e.cells
                  && e.cells[e.pc[t].item] == Cell(Jobs(run)[k], Results(run)[k]))
  {
    RunKeepsInv(s, run);
    RecordIsTheRun(s, run);
  }

  // ----- nothing is left behind -----

  lemma RunMore(s: State, run: seq<Action>, a: Action)
    requires Run(s, run).Some? && Enabled(Run(s, run).value, a)
    ensures Run(s, run + [a]) == Some(Step(Run(s, run).value, a))
  {
    assert (run + [a])[..|run|] == run;
  }

  /** With an item free, or one that can be allocated, a job is in todo after its thread's next steps. */
  lemma SubmitAppends(s: State, run: seq<Action>, t: Thread, job: Job, item: Item) returns (more: seq<Action>)
    requires Opened(s) && Run(s, run).Some?
    requires var e := Run(s, run).value;
             && t in e.pc && e.pc[t].Idle?
             && (e.free == [] ==> e.itemcount < MAX_RING && item !in e.cells)
    ensures more == [Submit(t, job)] + (if Run(s, run).value.free == [] then [Allocate(t, Some(item))] else [])
                    + [CopyIn(t), Append(t)]
    ensures Run(s, run + more).Some?
    ensures var e, e' := Run(s, run).value, Run(s, run + more).value;
            e'.pc == e.pc && Jobs(run + more) == Jobs(run) + [job] && |e'.todo| == |e.todo| + 1
  {
    hide Inv, Opened, Step, Enabled;
    var e := Run(s, run).value;
    RunKeepsInv(s, run);
    InvParts(e);
    var first := if e.free == [] then [Submit(t, job), Allocate(t, Some(item))] else [Submit(t, job)];
    var f := GetItem(s, run, t, job, item);
    assert run + first == if e.free == [] then run + [Submit(t, job)] + [Allocate(t, Some(item))]
                          else run + [Submit(t, job)];
    FillItem(f, t);
    RunMore(s, run + first, CopyIn(t));
    RunMore(s, run + first + [CopyIn(t)], Append(t));
    more := first + [CopyIn(t), Append(t)];
    assert run + more == run + first + [CopyIn(t)] + [Append(t)];
    RecordIsTheRun(s, run);
    RecordIsTheRun(s, run + more);
  }

  /** A thread that submits comes to hold an item, with everything else as it was. */
  lemma GetItem(s: State, run: seq<Action>, t: Thread, job: Job, item: Item) returns (f: State)
    requires Run(s, run).Some? && Lists(Run(s, run).value) && Hands(Run(s, run).value)
    requires var e := Run(s, run).value;
             && t in e.pc && e.pc[t].Idle?
             && (e.free == [] ==> e.itemcount < MAX_RING && item !in e.cells)
    ensures var e := Run(s, run).value;
            && f.pc.Keys == e.pc.Keys && f.pc[t].Filling? && f.pc[t].job == job && f.pc[t].item in f.cells
            && f.pc[t := Idle] == e.pc && f.todo == e.todo && f.appended == e.appended
            && Some(f) == if e.free == [] then Run(s, run + [Submit(t, job)] + [Allocate(t, Some(item))])
                          else Run(s, run + [Submit(t, job)])
  {
    hide Run;
    var e := Run(s, run).value;
    RunMore(s, run, Submit(t, job));
    f := Step(e, Submit(t, job));
    if e.free == [] {
      assert Held(e, item);
      RunMore(s, run + [Submit(t, job)], Allocate(t, Some(item)));
      f := Step(f, Allocate(t, Some(item)));
    } else {
      ListPlace(e.place, e.free, InFree);
      assert Held(e, e.free[0]);
    }
  }

  lemma FillItem(f: State, t: Thread)
    requires t in f.pc && f.pc[t].Filling? && f.pc[t].item in f.cells
    ensures Enabled(f, CopyIn(t)) && Enabled(Step(f, CopyIn(t)), Append(t))
    ensures var g := Step(Step(f, CopyIn(t)), Append(t));
            && g.pc == f.pc[t := Idle] && g.appended == f.appended + [f.pc[t].job] && |g.todo| == |f.todo| + 1
  {
  }

  /** One round of the worker: all of todo, served with these results. */
  function Round(results: seq<int>): seq<Action> {
    [Cut] + Serves(results) + [Push]
  }

  function Serves(results: seq<int>): (r: seq<Action>)
    ensures |r| == |results|
  {
    seq(|results|, i requires 0 <= i < |results| => Serve(results[i]))
  }

  /** A round of the worker leaves nothing behind in todo: every job appended has been fetched or can be. */
  lemma RoundServesAll(s: State, run: seq<Action>, results: seq<int>)
    requires Opened(s) && Run(s, run).Some?
    requires Run(s, run).value.worker.Resting? && |results| == |Run(s, run).value.todo|
    ensures Run(s, run + Round(results)).Some?
    ensures var e, e' := Run(s, run).value, Run(s, run + Round(results)).value;
            && e'.done == e.done + e.todo && e'.todo == [] && e'.worker.Resting? && e'.pc == e.pc
            && Results(run + Round(results)) == Results(run) + results
            && e'.popped == e.popped && e'.popped + |e'.done| == |Jobs(run)| == |Results(run + Round(results))|
  {
    hide Inv, Opened, Step, Enabled;
    var e := Run(s, run).value;
    CutStep(e);
    RunMore(s, run, Cut);
    ServeRun(s, run + [Cut], results);
    PushStep(Run(s, run + [Cut] + Serves(results)).value);
    RunMore(s, run + [Cut] + Serves(results), Push);
    assert run + Round(results) == run + [Cut] + Serves(results) + [Push];
    RecordIsTheRun(s, run);
    RecordIsTheRun(s, run + Round(results));
    RunKeepsInv(s, run + Round(results));
    InvParts(Run(s, run + Round(results)).value);
  }

  lemma CutStep(s: State)
    requires s.worker.Resting?
    ensures Enabled(s, Cut)
    ensures var s' := Step(s, Cut);
            && s'.worker == Serving(s.todo, 0) && s'.todo == [] && s'.done == s.done && s'.pc == s.pc
            && s'.popped == s.popped && s'.ran == s.ran && s'.appended == s.appended
  {
  }

  lemma PushStep(s: State)
    requires s.worker.Serving? && s.worker.next == |s.worker.batch|
    ensures Enabled(s, Push)
    ensures var s' := Step(s, Push);
            && s'.worker == Resting && s'.todo == s.todo && s'.done == s.done + s.worker.batch && s'.pc == s.pc
            && s'.popped == s.popped && s'.ran == s.ran && s'.appended == s.appended
  {
  }

  lemma ServeStep(s: State, result: int)
    requires Lists(s) && Hands(s) && s.worker.Serving? && s.worker.next < |s.worker.batch|
    ensures Enabled(s, Serve(result))
    ensures var s' := Step(s, Serve(result));
            && s'.worker == Serving(s.worker.batch, s.worker.next + 1) && s'.todo == s.todo && s'.done == s.done
            && s'.pc == s.pc && s'.popped == s.popped && s'.ran == s.ran + [result] && s'.appended == s.appended
  {
    ListPlace(s.place, Batch(s), InBatch);
    assert Held(s, s.worker.batch[s.worker.next]);
  }

  lemma ServesMore(run: seq<Action>, front: seq<int>, last: int)
    ensures run + Serves(front + [last]) == run + Serves(front) + [Serve(last)]
  {
  }

  /** The worker's loop over its batch. */
  lemma {:induction false} ServeRun(s: State, run: seq<Action>, results: seq<int>)
    requires Opened(s) && Run(s, run).Some?
    requires var e := Run(s, run).value;
             e.worker.Serving? && e.worker.next == 0 && |results| <= |e.worker.batch|
    ensures Run(s, run + Serves(results)).Some?
    ensures var e, e' := Run(s, run).value, Run(s, run + Serves(results)).value;
            && e'.worker == Serving(e.worker.batch, |results|) && e'.todo == e.todo && e'.done == e.done
            && e'.pc == e.pc && e'.popped == e.popped && e'.ran == e.ran + results && e'.appended == e.appended
    decreases |results|
  {
    hide Inv, Opened, Step, Enabled, Lists, Hands, Ordered;
    if results == [] {
      assert run + Serves(results) == run;
    } else {
      var front, last := results[..|results| - 1], results[|results| - 1];
      ServeRun(s, run, front);
      ServesMore(run, front, last);
      assert results == front + [last];
      var m := Run(s, run + Serves(front)).value;
      RunKeepsInv(s, run + Serves(front));
      InvParts(m);
      ServeStep(m, last);
      RunMore(s, run + Serves(front), Serve(last));
    }
  }

  /**
   * A fetch is -EBUSY exactly when no result waits. Otherwise its thread gets the next job and its result, and the item
   * is free again.
   */
  lemma FetchGetsNext(s: State, run: seq<Action>, t: Thread)
    requires Opened(s) && Run(s, run).Some? && t in Run(s, run).value.pc && Run(s, run).value.pc[t].Idle?
    ensures var e := Run(s, run).value;
            var waits := e.popped < |Results(run)| - Served(e);
            && Enabled(e, Fetch(t)) && (Step(e, Fetch(t)) == e <==> !waits)
            && (waits ==>
                  && Run(s, run + [Fetch(t)] + [CopyOut(t)] + [GiveBack(t)]).Some?
                  && var e' := Run(s, run + [Fetch(t)] + [CopyOut(t)] + [GiveBack(t)]).value;
                     && e.popped < |Jobs(run)| && e'.popped == e.popped + 1 && e'.pc == e.pc && e.done != []
                     && e'.returned == e.returned[e.popped := Cell(Jobs(run)[e.popped], Results(run)[e.popped])]
                     && e'.free == e.free + [e.done[0]] && e'.done == e.done[1..])
  {
    hide Inv, Opened, Hands, Lists;
    var e := Run(s, run).value;
    RunKeepsInv(s, run);
    RecordIsTheRun(s, run);
    InvParts(e);
    hide Run;
    if e.done != [] {
      RunMore(s, run, Fetch(t));
      NextDone(e);
      RunMore(s, run + [Fetch(t)], CopyOut(t));
      RunMore(s, run + [Fetch(t)] + [CopyOut(t)], GiveBack(t));
    }
  }

  lemma NextDone(s: State)
    requires Ordered(s) && s.done != []
    ensures s.done[0] in s.cells && s.popped < |s.ran| <= |s.appended|
    ensures s.cells[s.done[0]] == Cell(s.appended[s.popped], s.ran[s.popped])
  {
    assert s.appended[s.popped + 0] == s.appended[s.popped];
  }

  // ----- opening and closing the handle -----

  /** The allocation loop of `cryptodev_open`; None is -ENOMEM. `kzalloc` never returns one address twice. */
  method Open(memory: seq<Option<Item>>) returns (free: Option<seq<Item>>, itemcount: nat)
    requires |memory| == DEFAULT_RING
    requires forall i, j :: 0 <= i < j < |memory| && memory[i].Some? ==> memory[i] != memory[j]
    ensures free.Some? <==> forall i :: 0 <= i < |memory| ==> memory[i].Some?
    ensures free.Some? ==> Distinct(free.value) && |free.value| == itemcount == DEFAULT_RING
    ensures free.Some? ==> forall i :: 0 <= i < |memory| ==> Some(free.value[|memory| - 1 - i]) == memory[i]
  {
    var list := [];
    itemcount := 0;
    var i := 0;
    while i < DEFAULT_RING
      invariant 0 <= i <= DEFAULT_RING && |list| == itemcount == i
      invariant forall j :: 0 <= j < i ==> memory[j] == Some(list[i - 1 - j])
    {
      if memory[i].None? {
        return None, itemcount;
      }
      itemcount := itemcount + 1;
      list := [memory[i].value] + list;
      i := i + 1;
    }
    forall j, k | 0 <= j < k < |list| ensures list[j] != list[k] {
      assert memory[i - 1 - k] != memory[i - 1 - j];
    }
    free := Some(list);
  }

  /**
   * `cryptodev_release`, once no thread and no worker is inside: splices todo and done onto free and frees the entries.
   */
  method Release(free: seq<Item>, todo: seq<Item>, done: seq<Item>) returns (freed: seq<Item>, count: nat)
    ensures freed == free + todo + done && count == |freed|
  {
    var list := free + todo;
    list := list + done;
    freed, count := [], 0;
    ghost var all := list;
    while list != []
      invariant freed + list == all && count == |freed|
      decreases |list|
    {
      var item := list[0];
      list := list[1..];
      freed := freed + [item];
      count := count + 1;
    }
  }

  /** That frees every item once, and the count matches itemcount exactly when no allocation ever failed. */
  lemma ReleaseFreesEachOnce(s: State, run: seq<Action>)
    requires Opened(s) && Run(s, run).Some?
    requires Run(s, run).value.worker.Resting? && forall t <- Run(s, run).value.pc :: Run(s, run).value.pc[t].Idle?
    ensures var e := Run(s, run).value;
            var freed := e.free + e.todo + e.done;
            Distinct(freed) && SetOf(freed) == e.cells.Keys && |freed| == e.itemcount - e.failed
  {
    RunKeepsInv(s, run);
    QuietItems(Run(s, run).value);
  }

  lemma QuietItems(e: State)
    requires Inv(e) && e.worker.Resting? && forall t <- e.pc :: e.pc[t].Idle?
    ensures var freed := e.free + e.todo + e.done;
            Distinct(freed) && SetOf(freed) == e.cells.Keys && |freed| == e.itemcount - e.failed
  {
    hide ListAt, Ordered, Delivered, Once;
    var freed := e.free + e.todo + e.done;
    var place1 := MoveAll(e.place, e.todo, InFree);
    ListSplice(e.place, e.todo, InTodo, e.free, InFree);
    ListKeepsAll(e.place, e.todo, InTodo, InFree, e.done, InDone);
    ListSplice(place1, e.done, InDone, e.free + e.todo, InFree);
    forall r ensures r in freed <==> r in e.cells {
      assert Held(e, r);
      ListMembers(e.place, e.todo, InTodo, r);
      ListMembers(e.place, e.free, InFree, r);
      ListMembers(e.place, e.done, InDone, r);
      ListMembers(e.place, [], InBatch, r);
    }
    ListDistinct(MoveAll(place1, e.done, InFree), freed, InFree);
    assert SetOf(freed) == e.cells.Keys;
    forall r ensures r in e.place <==> r in e.cells { assert Held(e, r); }
    assert e.place.Keys == e.cells.Keys && Pending(e.pc) == {};
    DistinctSize(freed);
  }

  lemma ListMembers(place: map<Item, Place>, l: seq<Item>, p: Place, r: Item)
    requires ListAt(place, l, p)
    ensures r in l <==> r in place && place[r] == p
  {
  }

  lemma ListDistinct(place: map<Item, Place>, l: seq<Item>, p: Place)
    requires ListAt(place, l, p)
    ensures Distinct(l)
  {
  }
}
