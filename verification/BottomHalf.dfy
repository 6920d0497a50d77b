/**
 * Bottom halves: a list of callbacks that may create, schedule, cancel and delete bottom halves or poll
 * again while they run. Deleted ones stay linked until the outermost poll ends.
 */
module BottomHalf {
  import opened Halves

  /**
   * QEMUBH. `freed` is the allocator's view; the counters count schedules, callback runs and dropped schedules; `id` is
   * the place in the order of creation.
   */
  class Bh {
    var next: Bh?
    var scheduled: bool
    var idle: bool
    var deleted: bool
    var freed: bool
    ghost const id: nat
    ghost var schedules: nat
    ghost var runs: nat
    ghost var drops: nat

    constructor (next: Bh?, ghost id: nat)
      ensures this.next == next && this.id == id && !freed && Past() == NEW
    {
      this.next := next;
      this.id := id;
      scheduled, idle, deleted, freed := false, false, false, false;
      schedules, runs, drops := 0, 0, 0;
    }

    ghost function Past(): History
      reads `scheduled, `idle, `deleted, `schedules, `runs, `drops
    {
      History(scheduled, idle, deleted, schedules, runs, drops)
    }
  }

  // ----- the list -----

  /** Entry `i` of `s`, or what comes after `s`. */
  function Hop(s: seq<Bh>, i: nat, to: Bh?): Bh? {
    if i < |s| then s[i] else to
  }

  /** Following `next` from `from` visits `s` and then arrives at `to`. */
  ghost predicate Chain(from: Bh?, s: seq<Bh>, to: Bh?)
    reads s`next
  {
    && from == Hop(s, 0, to)
    && forall i {:trigger s[i].next} :: 0 <= i < |s| ==> s[i].next == Hop(s, i + 1, to)
  }

  lemma ChainTail(from: Bh?, s: seq<Bh>, to: Bh?)
    requires Chain(from, s, to) && s != []
    ensures from == s[0] && Chain(s[0].next, s[1..], to)
  {
  }

  lemma ChainExtends(from: Bh?, s: seq<Bh>, b: Bh)
    requires Chain(from, s, b)
    ensures Chain(from, s + [b], b.next)
  {
  }

  lemma ChainCons(b: Bh, s: seq<Bh>, to: Bh?)
    requires Chain(b.next, s, to)
    ensures Chain(b, [b] + s, to)
  {
  }

  /** The bottom halves made since there were `n`, the newest first. */
  ghost function NewestFirst(made: seq<Bh>, n: nat): (r: seq<Bh>)
    requires n <= |made|
    ensures |r| == |made| - n
  {
    seq(|made| - n, i requires 0 <= i < |made| - n => made[|made| - 1 - i])
  }

  /** The undeleted ones among the first `n` of `s`, in order. */
  ghost function Kept(s: seq<Bh>, n: nat): seq<Bh>
    requires n <= |s|
    reads s`deleted
  {
    if n == 0 then []
    else if s[n - 1].deleted then Kept(s, n - 1)
    else Kept(s, n - 1) + [s[n - 1]]
  }

  lemma {:induction false} KeptOk(s: seq<Bh>, n: nat)
    requires Distinct(s) && n <= |s|
    ensures Distinct(Kept(s, n))
    ensures forall k :: 0 <= k < |Kept(s, n)| ==> Kept(s, n)[k] in s[..n] && !Kept(s, n)[k].deleted
    ensures forall i :: 0 <= i < n && !s[i].deleted ==> s[i] in Kept(s, n)
  {
    if n == 0 {
    } else {
      KeptOk(s, n - 1);
      assert s[..n] == s[..n - 1] + [s[n - 1]];
      assert s[n - 1] !in s[..n - 1];
    }
  }

  /** What is still to be visited is not among what has been kept, and occurs once. */
  lemma KeptIsApart(s: seq<Bh>, n: nat)
    requires Distinct(s) && n < |s|
    ensures Distinct(Kept(s, n)) && forall b <- Kept(s, n) :: b in s
    ensures forall i :: 0 <= i < |s[n..]| ==> s[n..][i] !in Kept(s, n)
    ensures forall i :: 0 <= i < |s| && i != n ==> s[i] != s[n]
    ensures s[n..] != [] && s[n..][0] == s[n] && s[n..][1..] == s[n + 1..]
    ensures Kept(s, n + 1) == if s[n].deleted then Kept(s, n) else Kept(s, n) + [s[n]]
  {
    KeptOk(s, n);
    forall i | 0 <= i < |s[n..]| ensures s[n..][i] !in Kept(s, n) {
      assert s[n..][i] == s[n + i] && s[n + i] !in s[..n];
    }
  }

  ghost predicate Distinct(s: seq<Bh>) {
    forall i, j {:trigger s[i], s[j]} :: 0 <= i < j < |s| ==> s[i] != s[j]
  }

  /** Newest first. */
  ghost predicate Newest(s: seq<Bh>) {
    forall i, j {:trigger s[i], s[j]} :: 0 <= i < j < |s| ==> s[i].id > s[j].id
  }

  lemma {:induction false} KeptNewest(s: seq<Bh>, n: nat)
    requires Newest(s) && n <= |s|
    ensures Newest(Kept(s, n)) && forall b <- Kept(s, n) :: b in s[..n]
  {
    if n == 0 {
    } else {
      KeptNewest(s, n - 1);
      assert s[..n] == s[..n - 1] + [s[n - 1]];
      assert forall b <- s[..n - 1] :: b.id > s[n - 1].id;
    }
  }

  ghost function NumbersOf(s: seq<Bh>): (ks: seq<nat>)
    ensures |ks| == |s| && forall i :: 0 <= i < |s| ==> ks[i] == s[i].id
  {
    seq(|s|, i requires 0 <= i < |s| => s[i].id)
  }

  /** The highest of falling numbers comes first. */
  lemma HighestFirst(ks: seq<nat>, k: nat)
    requires Falling(ks) && k in ks && forall j :: j in ks ==> j <= k
    ensures ks[0] == k && forall j :: j in ks[1..] <==> j in ks && j != k
  {
    assert ks[0] in ks;
    assert ks == [k] + ks[1..];
  }

  lemma FirstBelow(ks: seq<nat>, n: nat)
    requires |ks| > 0 && forall k :: k in ks ==> k < n
    ensures ks[0] < n
  {
    assert ks[0] in ks;
  }

  /** Only one sequence has these members in this order. */
  lemma {:induction false} OrderIs(ks: seq<nat>, n: nat, dead: set<nat>)
    requires Falling(ks) && forall k :: k in ks <==> 0 <= k < n && k !in dead
    ensures ks == Numbers(n, dead)
    decreases n
  {
    hide Falling;
    if |ks| > 0 { FirstBelow(ks, n); }
    if n == 0 {
    } else if n - 1 in dead {
      OrderIs(ks, n - 1, dead);
    } else {
      HighestFirst(ks, n - 1);
      var rest := ks[1..];
      assert ks == [n - 1] + rest;
      TailFalls(ks);
      OrderIs(rest, n - 1, dead);
    }
  }

  lemma TailFalls(ks: seq<nat>)
    requires Falling(ks) && ks != []
    ensures Falling(ks[1..])
  {
  }

  lemma NewestCons(b: Bh, s: seq<Bh>)
    requires Newest(s) && forall i :: 0 <= i < |s| ==> s[i].id < b.id
    ensures Newest([b] + s)
  {
  }

  lemma NewestOne(made: seq<Bh>)
    requires made != []
    ensures NewestFirst(made, |made| - 1) == [made[|made| - 1]]
  {
  }

  lemma NewestFirstSplits(made: seq<Bh>, made': seq<Bh>, n: nat)
    requires n <= |made| && made <= made'
    ensures NewestFirst(made', n) == NewestFirst(made', |made|) + NewestFirst(made, n)
  {
  }

  /** The histories of the first `n`. */
  ghost function Pasts(s: seq<Bh>, n: nat): (p: seq<History>)
    requires n <= |s|
    reads s`scheduled, s`idle, s`deleted, s`schedules, s`runs, s`drops
    ensures |p| == n && forall k :: 0 <= k < n ==> p[k] == s[k].Past()
  {
    if n == 0 then [] else Pasts(s, n - 1) + [s[n - 1].Past()]
  }

  ghost function FreedOnes(s: seq<Bh>): set<nat>
    reads s`freed
  {
    set k | 0 <= k < |s| && s[k].freed
  }

  /** What is left of a pass, from entry `j` on, leads to `goal`. */
  ghost predicate LeadsTo(w: World, ks: seq<nat>, j: nat, c: Callbacks, ret: bool, goal: Passed) {
    && j <= |ks| && Below(ks[j..], |w.halves|)
    && var r := DoPass(w, ks[j..], c); Passed(r.w, ret || r.ret) == goal
  }

  lemma LeadsOn(w: World, ks: seq<nat>, j: nat, c: Callbacks, ret: bool, goal: Passed)
    requires LeadsTo(w, ks, j, c, ret, goal) && j < |ks|
    ensures ks[j] < |w.halves|
    ensures var v := DoVisit(w, ks[j], c); LeadsTo(v.w, ks, j + 1, v.rest, ret || v.lively, goal)
  {
    hide DoVisit;
    var now, later := ks[j..], ks[j + 1..];
    assert now[0] == ks[j] && now[1..] == later;
    assert forall i :: 0 <= i < |later| ==> later[i] == now[i + 1];
  }

  lemma LeadsAll(w: World, ks: seq<nat>, c: Callbacks)
    requires Below(ks, |w.halves|)
    ensures LeadsTo(w, ks, 0, c, false, DoPass(w, ks, c))
  {
    assert ks[0..] == ks;
  }

  lemma LeadsEnd(w: World, ks: seq<nat>, c: Callbacks, ret: bool, goal: Passed)
    requires LeadsTo(w, ks, |ks|, c, ret, goal)
    ensures goal == Passed(w, ret)
  {
    assert ks[|ks|..] == [];
  }

  class Context {
    var first: Bh?
    var nesting: nat
    var made: seq<Bh>
    ghost var list: seq<Bh>
    ghost var log: seq<Event>  // which callbacks were called, and what they did

    /** The links spell out `list`, which holds exactly the live bottom halves, newest first. */
    ghost predicate Shape()
      reads this`first, this`made, this`list, made`next, made`freed
    {
      && (forall i :: 0 <= i < |made| ==> made[i].id == i)
      && Newest(list)
      && (forall i :: 0 <= i < |list| ==> list[i] in made && !list[i].freed)
      && Chain(first, list, null)
      && (forall i :: 0 <= i < |made| ==> made[i].freed || made[i] in list)
    }

    /** The state as the specification sees it. */
    ghost function Now(): World
      reads this`made, this`log, made`freed
      reads made`scheduled, made`idle, made`deleted, made`schedules, made`runs, made`drops
    {
      World(Pasts(made, |made|), FreedOnes(made), log)
    }

    ghost predicate Books()
      reads this`made, made`scheduled, made`idle, made`deleted, made`schedules, made`runs, made`drops
    {
      forall i :: 0 <= i < |made| ==> made[i].Past().Balanced()
    }

    ghost predicate Valid()
      reads this, made
    {
      Shape() && Books()
    }

    constructor ()
      ensures Valid() && nesting == 0 && made == [] && list == [] && log == []
    {
      first, nesting, made, list, log := null, 0, [], [], [];
    }

    /** The list of the specification is this list. */
    lemma ListIs()
      requires Valid()
      ensures NumbersOf(list) == Now().List()
    {
      var ks, w := NumbersOf(list), Now();
      forall k ensures k in ks <==> 0 <= k < |w.halves| && k !in w.dead {
        if 0 <= k < |made| && !made[k].freed {
          var i :| 0 <= i < |list| && list[i] == made[k];
          assert ks[i] == k;
        }
        if k in ks {
          var i :| 0 <= i < |ks| && ks[i] == k;
          assert list[i] in made;
        }
      }
      OrderIs(ks, |made|, FreedOnes(made));
    }

    /** While a poll is running handles stay and the list only grows at the front, by what is new. */
    twostate predicate Grown()
      reads this
    {
      && old(made) <= made && nesting == old(nesting) && Fresh()
      && list == NewestFirst(made, |old(made)|) + old(list)
    }

    /** Handles to bottom halves made in the meantime are fresh. */
    twostate predicate Fresh()
      reads this
    {
      |old(made)| <= |made| && forall i :: |old(made)| <= i < |made| ==> fresh(made[i])
    }

    method New() returns (b: Bh)
      requires Valid()
      modifies this`first, this`made, this`list
      ensures Valid() && fresh(b) && made == old(made) + [b] && list == [b] + old(list)
      ensures b.Past() == NEW && !b.freed
    {
      hide Newest, Chain;
      b := new Bh(first, |made|);
      ChainCons(b, list, null);
      NewestCons(b, list);
      first := b;
      made := made + [b];
      list := [b] + list;
    }

    method ScheduleIdle(b: Bh)
      requires Valid() && b in made && !b.freed
      modifies b`scheduled, b`idle, b`schedules
      ensures Valid() && b.scheduled
      ensures b.schedules == old(b.schedules) + if old(b.scheduled) then 0 else 1
      ensures b.idle == if old(b.scheduled) then old(b.idle) else true
    {
      hide Shape;
      if b.scheduled {
        return;
      }
      b.scheduled, b.idle, b.schedules := true, true, b.schedules + 1;
    }

    method Schedule(b: Bh)
      requires Valid() && b in made && !b.freed
      modifies b`scheduled, b`idle, b`schedules
      ensures Valid() && b.scheduled
      ensures b.schedules == old(b.schedules) + if old(b.scheduled) then 0 else 1
      ensures b.idle == if old(b.scheduled) then old(b.idle) else false
    {
      hide Shape;
      if b.scheduled {
        return;
      }
      b.scheduled, b.idle, b.schedules := true, false, b.schedules + 1;
    }

    method Cancel(b: Bh)
      requires Valid() && b in made && !b.freed
      modifies b`scheduled, b`drops
      ensures Valid() && !b.scheduled
      ensures b.drops == old(b.drops) + if old(b.scheduled) then 1 else 0
    {
      hide Shape;
      if b.scheduled {
        b.drops := b.drops + 1;
      }
      b.scheduled := false;
    }

    method Delete(b: Bh)
      requires Valid() && b in made && !b.freed
      modifies b`scheduled, b`drops, b`deleted
      ensures Valid() && !b.scheduled && b.deleted
      ensures b.drops == old(b.drops) + if old(b.scheduled) then 1 else 0
    {
      hide Shape;
      if b.scheduled {
        b.drops := b.drops + 1;
      }
      b.scheduled := false;
      b.deleted := true;
    }

    lemma GrowTwice(made0: seq<Bh>, list0: seq<Bh>, made1: seq<Bh>, list1: seq<Bh>)
      requires |made0| <= |made1| && made1 <= made
      requires list1 == NewestFirst(made1, |made0|) + list0 && list == NewestFirst(made, |made1|) + list1
      ensures list == NewestFirst(made, |made0|) + list0
    {
      NewestFirstSplits(made1, made, |made0|);
    }

    /** The body of a callback. */
    method RunActs(acts: Acts)
      requires Valid() && nesting > 0
      modifies this, made
      ensures Valid() && Grown() && Now() == DoActs(old(Now()), acts)
      decreases ActsSize(acts)
    {
      hide Shape, NewestFirst, Books, Simple, DoPass, Pasts, FreedOnes;
      if acts.End? {
        return;
      }
      Perform(acts.act, acts);
      ghost var made1, list1 := made, list;
      RunActs(acts.rest);
      GrowTwice(old(made), old(list), made1, list1);
    }

    /** The effect of an act on a bottom half that exists. */
    twostate predicate Performed(act: Act)
      reads this, made
    {
      old(made) <= made &&
      match act
      case New => |made| == |old(made)| + 1
      case Poll(_) => true
      case Schedule(k) => k < |old(made)| && !old(made[k].freed) ==> IsScheduled(old(made)[k], false)
      case ScheduleIdle(k) => k < |old(made)| && !old(made[k].freed) ==> IsScheduled(old(made)[k], true)
      case Cancel(k) => k < |old(made)| && !old(made[k].freed) ==> IsDropped(old(made)[k])
      case Delete(k) => k < |old(made)| && !old(made[k].freed) ==> IsDropped(old(made)[k]) && old(made)[k].deleted
    }

    /** Pending now, marked idle as asked unless it was pending before, and counted once. */
    twostate predicate IsScheduled(b: Bh, idle: bool)
      reads b
    {
      && b.scheduled && b.idle == (if old(b.scheduled) then old(b.idle) else idle)
      && b.schedules == old(b.schedules) + if old(b.scheduled) then 0 else 1
    }

    twostate predicate IsDropped(b: Bh)
      reads b
    {
      !b.scheduled && b.drops == old(b.drops) + if old(b.scheduled) then 1 else 0
    }

    method Perform(act: Act, ghost acts: Acts)
      requires Valid() && nesting > 0 && acts.Then? && act == acts.act
      modifies this, made
      ensures Valid() && Grown() && Now() == DoActs(old(Now()), Then(act, End)) && Performed(act)
      decreases ActsSize(acts), 0
    {
      hide Shape, NewestFirst, Books, Simple, DoPass, Pasts, FreedOnes;
      if !act.Poll? {
        PerformSimple(act);
      } else {
        log := log + [Did(act)];
        var _ := this.Poll(act.callbacks);
      }
    }

    /** Any act but a poll. */
    method PerformSimple(act: Act)
      requires Valid() && !act.Poll?
      modifies this, made
      ensures Valid() && Grown() && Now() == Simple(old(Now()), act) && Performed(act)
    {
      hide Shape, NewestFirst, Books, Pasts, FreedOnes;
      ghost var w := Now();
      NothingNew();
      log := log + [Did(act)];
      if act.New? {
        var b := New();
        NewestOne(made);
        NewWorld(w, b);
      } else if act.k < |made| && !made[act.k].freed {
        PerformOn(act, made[act.k]);
      }
    }

    lemma NothingNew()
      ensures NewestFirst(made, |made|) == []
      ensures forall k :: 0 <= k < |made| ==> (k in FreedOnes(made) <==> made[k].freed)
    {
    }

    lemma NewWorld(w: World, b: Bh)
      requires made != [] && made[|made| - 1] == b && !b.freed && b.Past() == NEW
      requires w.halves == Pasts(made[..|made| - 1], |made| - 1) && w.dead == FreedOnes(made[..|made| - 1])
      ensures Pasts(made, |made|) == w.halves + [NEW] && FreedOnes(made) == w.dead
    {
    }

    /** An act on a bottom half. */
    method PerformOn(act: Act, b: Bh)
      requires act.Schedule? || act.ScheduleIdle? || act.Cancel? || act.Delete?
      requires Valid() && act.k < |made| && made[act.k] == b && !b.freed
      modifies b`scheduled, b`idle, b`deleted, b`schedules, b`drops
      ensures Valid() && Now().halves == Simple(old(Now()), act).halves && Performed(act)
    {
      hide Shape, Pasts;
      ghost var w := Now();
      OneHandle(act.k);
      match act
      case Schedule(_) => Schedule(b);
      case ScheduleIdle(_) => ScheduleIdle(b);
      case Cancel(_) => Cancel(b);
      case Delete(_) => Delete(b);
      assert Pasts(made, |made|) == w.halves[act.k := b.Past()];
    }

    /** Only one handle is to the k-th bottom half. */
    lemma OneHandle(k: nat)
      requires Shape() && k < |made|
      ensures made[k].id == k && forall i :: 0 <= i < |made| && i != k ==> made[i] != made[k]
    {
    }

    /** Turns a pending schedule into a run; `lively` says that it was not idle. */
    method Begin(bh: Bh) returns (lively: bool)
      requires Valid() && bh in made && bh.Past().Due()
      modifies bh`scheduled, bh`idle, bh`runs, this`log
      ensures Valid() && bh.id < |made| && lively == !old(bh.idle)
      ensures !bh.scheduled && !bh.idle && bh.runs == old(bh.runs) + 1
      ensures Now() == old(Now()).Put(bh.id, old(bh.Past()).Run()).Record(Ran(bh.id, old(bh.idle)))
    {
      hide Shape, Pasts, FreedOnes;
      ghost var k :| 0 <= k < |made| && made[k] == bh;
      ghost var w := Now();
      OneHandle(k);
      log := log + [Ran(k, bh.idle)];
      bh.scheduled, bh.runs := false, bh.runs + 1;
      lively := false;
      if !bh.idle {
        lively := true;
      }
      bh.idle := false;
      assert Pasts(made, |made|) == w.halves[k := bh.Past()];
    }

    /** Runs the callback of `bh` if it is due; `lively` says that it was due and not idle. */
    method Visit(bh: Bh, callbacks: Callbacks) returns (rest: Callbacks, lively: bool)
      requires Valid() && nesting > 0 && bh in made && !bh.freed
      modifies this, made
      ensures Valid() && Grown() && bh.id < |old(made)|
      ensures Visited(Now(), rest, lively) == DoVisit(old(Now()), bh.id, callbacks)
      ensures lively <==> old(bh.scheduled && !bh.deleted && !bh.idle)
      ensures old(!bh.scheduled || bh.deleted) ==> Now() == old(Now()) && rest == callbacks
      ensures old(bh.scheduled && !bh.deleted) ==>
                && |old(log)| < |log| && log[|old(log)|] == Ran(bh.id, old(bh.idle)) && bh.runs > old(bh.runs)
                && rest == if callbacks.Call? then callbacks.rest else NoMore
      decreases CallbacksSize(callbacks), 0
    {
      hide Shape, NewestFirst, Books, DoActs, FreedOnes, Pasts, Follows, AllBalanced;
      rest, lively := callbacks, false;
      HandleOf(bh);
      NowIsBalanced();
      if !bh.deleted && bh.scheduled {
        VisitLog(Now(), bh.id, callbacks);
        VisitRuns(Now(), bh.id, callbacks);
        lively := Begin(bh);
        if callbacks.Call? {
          RunActs(callbacks.body);
          rest := callbacks.rest;
        }
      }
    }

    lemma HandleOf(b: Bh)
      requires Shape() && b in made
      ensures b.id < |made| && made[b.id] == b && NewestFirst(made, |made|) == []
    {
    }

    /**
     * One turn of the loop: `bh` is live, its successor is noted, and after the callback that is still the next entry.
     */
    method Turn(bh: Bh, callbacks: Callbacks, ret: bool,
                ghost made0: seq<Bh>, ghost start: seq<Bh>, ghost j: nat, ghost goal: Passed)
      returns (next: Bh?, rest: Callbacks, ret': bool)
      requires Valid() && nesting > 0 && j < |start| && bh == start[j]
      requires made0 <= made && list == NewestFirst(made, |made0|) + start
      requires LeadsTo(Now(), NumbersOf(start), j, callbacks, ret, goal)
      modifies this, made
      ensures Valid() && Fresh() && nesting == old(nesting) && old(made) <= made
      ensures list == NewestFirst(made, |made0|) + start && next == Hop(start, j + 1, null)
      ensures LeadsTo(Now(), NumbersOf(start), j + 1, rest, ret', goal)
      ensures CallbacksSize(rest) <= CallbacksSize(callbacks)
      decreases CallbacksSize(callbacks), 2
    {
      hide Shape, NewestFirst, DoVisit, Hop, Books, LeadsTo, CallbacksSize;
      InList(made0, start, j);
      LeadsOn(Now(), NumbersOf(start), j, callbacks, ret, goal);
      assert !bh.freed;
      next := bh.next;
      ghost var made1, list1 := made, list;
      var lively;
      rest, lively := Visit(bh, callbacks);
      ret' := ret || lively;
      GrowTwice(made0, start, made1, list1);
    }

    /** The `for` loop: what is left of the pass always leads to the same end. */
    method Loop(callbacks: Callbacks, ghost goal: Passed) returns (ret: bool)
      requires Valid() && nesting > 0 && LeadsTo(Now(), NumbersOf(list), 0, callbacks, false, goal)
      modifies this, made
      ensures Valid() && Grown() && Passed(Now(), ret) == goal
      decreases CallbacksSize(callbacks), 3
    {
      hide Valid, NewestFirst, Hop, CallbacksSize, LeadsTo, Now, NumbersOf;
      ret := false;
      var cbs := callbacks;
      var bh := first;
      ghost var made0, start := made, list;
      ghost var j: nat := 0;
      StartOfList();
      while bh != null
        invariant Valid() && Fresh() && nesting == old(nesting) && made0 <= made
        invariant list == NewestFirst(made, |made0|) + start && j <= |start| && bh == Hop(start, j, null)
        invariant CallbacksSize(cbs) <= CallbacksSize(callbacks)
        invariant LeadsTo(Now(), NumbersOf(start), j, cbs, ret, goal)
        decreases |start| - j
      {
        HopIs(start, j);
        bh, cbs, ret := Turn(bh, cbs, ret, made0, start, j, goal);
        j := j + 1;
      }
      HopIs(start, j);
      LeadsEnd(Now(), NumbersOf(start), cbs, ret, goal);
    }

    /** One pass over the list as it was on entry. */
    method RunList(callbacks: Callbacks) returns (ret: bool)
      requires Valid() && nesting > 0
      modifies this, made
      ensures Valid() && Grown()
      ensures Passed(Now(), ret) == DoPass(old(Now()), old(Now()).List(), callbacks)
      decreases CallbacksSize(callbacks), 4
    {
      hide Valid, NewestFirst, DoPass, LeadsTo, Numbers;
      ListIs();
      LeadsAll(Now(), NumbersOf(list), callbacks);
      ret := Loop(callbacks, DoPass(Now(), NumbersOf(list), callbacks));
    }

    lemma HopIs(s: seq<Bh>, j: nat)
      ensures Hop(s, j, null) == if j < |s| then s[j] else null
    {
    }

    lemma StartOfList()
      requires Valid()
      ensures first == Hop(list, 0, null) && list == NewestFirst(made, |made|) + list
    {
    }

    /** An entry of the list on entry is still live and still followed by the same one. */
    lemma InList(made0: seq<Bh>, start: seq<Bh>, j: nat)
      requires Shape() && |made0| <= |made| && list == NewestFirst(made, |made0|) + start && j < |start|
      ensures start[j] in made && !start[j].freed && start[j].next == Hop(start, j + 1, null)
    {
      hide Distinct, NewestFirst, Newest;
      var i := |made| - |made0| + j;
      assert start[j] == list[i] && list[i].next == Hop(list, i + 1, null);
    }

    /** `*bhp = bh->next`, where `bhp` is `&first` when nothing is kept yet and else the link of the last one kept. */
    method Unlink(prev: Bh?, bh: Bh, ghost kept: seq<Bh>)
      requires Distinct(kept) && bh !in kept && Chain(first, kept, bh)
      requires prev == if kept == [] then null else kept[|kept| - 1]
      modifies this`first, (if prev == null then {} else {prev})`next
      ensures Chain(first, kept, bh.next) && bh.next == old(bh.next)
    {
      if prev == null {
        first := bh.next;
      } else {
        prev.next := bh.next;
      }
    }

    /** Frees `bh` if it is deleted and else keeps it; the chain from `first` then runs through what is kept so far. */
    method ReapOne(prev: Bh?, bh: Bh, ghost kept: seq<Bh>, ghost rest: seq<Bh>) returns (prev': Bh?, next: Bh?)
      requires Distinct(kept) && (forall i :: 0 <= i < |rest| ==> rest[i] !in kept)
      requires Chain(first, kept, bh) && Chain(bh, rest, null) && rest != []
      requires prev == if kept == [] then null else kept[|kept| - 1]
      modifies this`first, (if prev == null then {} else {prev})`next, bh`freed
      ensures bh == rest[0] && bh.next == old(bh.next)
      ensures bh.freed == (old(bh.freed) || bh.deleted)
      ensures var kept' := if bh.deleted then kept else kept + [bh];
              && Chain(first, kept', next) && Chain(next, rest[1..], null)
              && prev' == if kept' == [] then null else kept'[|kept'| - 1]
    {
      ChainTail(bh, rest, null);
      ghost var tail := rest[1..];
      assert forall i :: 0 <= i < |tail| ==> tail[i] == rest[i + 1];
      if bh.deleted {
        Unlink(prev, bh, kept);
        next, prev' := bh.next, prev;
        bh.freed := true;
      } else {
        ChainExtends(first, kept, bh);
        next, prev' := bh.next, bh;
      }
    }

    /** Unlinks and frees every deleted bottom half. */
    method Reap()
      requires Valid() && nesting == 0
      modifies this`first, this`list, made`next, made`freed
      ensures Valid()
      ensures list == Kept(old(list), |old(list)|)
      ensures forall i :: 0 <= i < |made| ==> (made[i].freed <==> old(made[i].freed) || made[i].deleted)
    {
      hide Distinct, Newest, Kept, Shape, Books, Reaping, FreedBelow, Apart;
      var prev: Bh? := null;
      var bh := first;
      ghost var all, dead := list, FreedOnes(made);
      ghost var n: nat := 0;
      StartReaping();
      while bh != null
        invariant n <= |all| && Reaping(all, n, prev, bh) && FreedBelow(all, n)
        invariant Apart(all, dead)
        decreases |all| - n
      {
        StillToReap(all, n, prev, bh);
        assert all[n] in all;
        prev, bh := ReapNext(prev, bh, all, n, dead);
        n := n + 1;
      }
      StillToReap(all, n, prev, bh);
      list := Kept(all, n);
      Reaped(all, prev, dead);
      NowFreed(all, dead);
    }

    lemma NowFreed(all: seq<Bh>, dead: set<nat>)
      requires Apart(all, dead) && forall b <- all :: b.freed <==> b.deleted
      requires forall i :: 0 <= i < |made| && made[i] in all ==> i !in dead
      ensures forall i :: 0 <= i < |made| ==> (made[i].freed <==> i in dead || made[i].deleted)
    {
    }

    /** The end of the outermost poll. */
    method Finish()
      requires Valid() && nesting == 0
      modifies this`first, this`list, made`next, made`freed
      ensures Valid() && list == Kept(old(list), |old(list)|) && forall b <- made :: b.freed <==> b !in list
      ensures Now() == old(Now()).(dead := old(Now()).dead + Deleted(old(Now())))
    {
      hide Shape, Kept, Books, Pasts;
      ghost var w := Now();
      Reap();
      ListIsLive();
      assert FreedOnes(made) == w.dead + Deleted(w);
    }

    /** Those off the list are the ones freed before. */
    ghost predicate Apart(all: seq<Bh>, dead: set<nat>)
      reads this`made, made`freed
    {
      forall i :: 0 <= i < |made| && made[i] !in all ==> made[i].freed && i in dead
    }

    ghost predicate FreedBelow(all: seq<Bh>, n: nat)
      reads all`freed, all`deleted
    {
      forall i :: 0 <= i < |all| ==> (all[i].freed <==> all[i].deleted && i < n)
    }

    /** One turn of the removal loop. */
    method ReapNext(prev: Bh?, bh: Bh, ghost all: seq<Bh>, ghost n: nat, ghost dead: set<nat>)
      returns (prev': Bh?, next: Bh?)
      requires Apart(all, dead)
      requires n < |all| && Distinct(all) && bh == all[n] && Reaping(all, n, prev, bh) && FreedBelow(all, n)
      modifies this`first, (if prev == null then {} else {prev})`next, bh`freed
      ensures Reaping(all, n + 1, prev', next) && FreedBelow(all, n + 1) && Apart(all, dead)
    {
      hide Distinct, Kept, Chain, Hop;
      KeptIsApart(all, n);
      prev', next := ReapOne(prev, bh, Kept(all, n), all[n..]);
    }

    /** The removal loop before entry `n`. */
    ghost predicate Reaping(all: seq<Bh>, n: nat, prev: Bh?, bh: Bh?)
      requires n <= |all|
      reads this`first, all`deleted, all`next, Kept(all, n)`next
    {
      && Chain(first, Kept(all, n), bh) && Chain(bh, all[n..], null)
      && prev == if Kept(all, n) == [] then null else Kept(all, n)[|Kept(all, n)| - 1]
    }

    lemma StartReaping()
      requires Shape()
      ensures Reaping(list, 0, null, first) && FreedBelow(list, 0) && Apart(list, FreedOnes(made))
      ensures Distinct(made) && Distinct(list) && Newest(list) && (forall b <- list :: b in made && !b.freed)
      ensures forall i :: 0 <= i < |made| ==> (made[i].freed || made[i] in list) && made[i].id == i
    {
      assert list[0..] == list;
    }

    lemma StillToReap(all: seq<Bh>, n: nat, prev: Bh?, bh: Bh?)
      requires n <= |all| && Reaping(all, n, prev, bh) && Distinct(all)
      ensures bh == if n < |all| then all[n] else null
      ensures prev != null ==> prev in all
    {
      KeptOk(all, n);
    }

    lemma Reaped(all: seq<Bh>, prev: Bh?, dead: set<nat>)
      requires Distinct(made) && Distinct(all) && list == Kept(all, |all|) && Reaping(all, |all|, prev, null)
      requires FreedBelow(all, |all|) && (forall b <- all :: b in made) && Newest(all)
      requires Apart(all, dead) && forall i :: 0 <= i < |made| ==> made[i].id == i
      ensures Shape()
      ensures forall b <- all :: b.freed <==> b.deleted
    {
      KeptOk(all, |all|);
      KeptNewest(all, |all|);
      assert all[..|all|] == all;
    }

    /**
     * `qemu_bh_poll`. A nested poll frees nothing; the outermost one ends with the bottom halves made meanwhile,
     * newest first, then the old ones in order, minus exactly the deleted ones, which are freed.
     */
    method Poll(callbacks: Callbacks) returns (ret: bool)
      requires Valid()
      modifies this, made
      ensures Valid() && Fresh() && nesting == old(nesting) && old(made) <= made
      ensures Passed(Now(), ret) == DoPoll(old(Now()), nesting == 0, callbacks)
      ensures Accounts(old(Now()), Now().(dead := old(Now()).dead))
      ensures nesting > 0 ==> Grown()
      ensures nesting == 0 ==>
                var all := NewestFirst(made, |old(made)|) + old(list);
                list == Kept(all, |all|) && forall b <- made :: b.freed <==> b !in list
      decreases CallbacksSize(callbacks), 5
    {
      hide Shape, NewestFirst, Kept, DoPass, Books, Pasts, Numbers, Accounts, FreedOnes, AllBalanced;
      NowIsBalanced();
      PollAccounts(Now(), nesting == 0, callbacks);
      nesting := nesting + 1;
      ret := RunList(callbacks);
      nesting := nesting - 1;
      if nesting == 0 {
        Finish();
      }
    }

    /** What the lemmas about the specification ask for. */
    lemma NowIsBalanced()
      requires Valid()
      ensures AllBalanced(Now())
    {
    }

    lemma ListIsLive()
      requires Shape()
      ensures forall b <- made :: b.freed <==> b !in list
    {
    }
  }
}
