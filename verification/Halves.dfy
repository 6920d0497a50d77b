/**
 * What a poll does, on values: bottom halves are numbered in the order of their creation, and the list holds the
 * numbers of the live ones, newest first. The code in `BottomHalf` is proved to do exactly this.
 */
module Halves {
  /** What has happened to a bottom half so far: its flags, and how often it was scheduled, run and dropped. */
  datatype History = History(scheduled: bool, idle: bool, deleted: bool, schedules: nat, runs: nat, drops: nat) {
    predicate Due() {
      scheduled && !deleted
    }

    predicate Urgent() {
      Due() && !idle
    }

    function Schedule(idle': bool): History {
      if scheduled then this else this.(scheduled := true, idle := idle', schedules := schedules + 1)
    }

    function Cancel(): History {
      this.(scheduled := false, drops := drops + if scheduled then 1 else 0)
    }

    function Delete(): History {
      Cancel().(deleted := true)
    }

    function Run(): History {
      this.(scheduled := false, idle := false, runs := runs + 1)
    }

    /** Every schedule was run, dropped, or is still pending. */
    ghost predicate Balanced() {
      schedules == runs + drops + if scheduled then 1 else 0
    }

    /** Nothing undoes a deletion or takes back a count, and deleting drops a pending schedule. */
    ghost predicate Before(later: History) {
      && (deleted ==> later.deleted)
      && schedules <= later.schedules && runs <= later.runs && drops <= later.drops
      && (later.deleted ==> Consumed(later))
    }

    /** A schedule pending here has been run or dropped by `later`. */
    ghost predicate Consumed(later: History) {
      Due() ==> runs + drops < later.runs + later.drops
    }

    lemma BeforeIsTransitive(mid: History, later: History)
      requires Balanced() && mid.Balanced() && Before(mid) && mid.Before(later)
      ensures Before(later) && (Consumed(mid) || mid.Consumed(later) ==> Consumed(later))
    {
    }
  }

  const NEW := History(false, false, false, 0, 0, 0)

  // ----- what callbacks do -----

  /** An operation of a callback, naming bottom halves by the order of their creation. */
  datatype Act =
    | New
    | Schedule(k: nat)
    | ScheduleIdle(k: nat)
    | Cancel(k: nat)
    | Delete(k: nat)
    | Poll(callbacks: Callbacks)

  datatype Acts = End | Then(act: Act, rest: Acts)

  /** What the callbacks that a poll runs do, in the order it runs them; missing ones do nothing. */
  datatype Callbacks = NoMore | Call(body: Acts, rest: Callbacks)

  function ActsSize(a: Acts): nat {
    match a
    case End => 0
    case Then(Poll(c), rest) => 1 + CallbacksSize(c) + ActsSize(rest)
    case Then(_, rest) => 1 + ActsSize(rest)
  }

  function CallbacksSize(c: Callbacks): nat {
    match c
    case NoMore => 0
    case Call(body, rest) => 1 + ActsSize(body) + CallbacksSize(rest)
  }

  function FirstBody(c: Callbacks): Acts {
    if c.NoMore? then End else c.body
  }

  function OtherBodies(c: Callbacks): (r: Callbacks)
    ensures CallbacksSize(r) <= CallbacksSize(c)
  {
    if c.NoMore? then c else c.rest
  }

  /**
   * What is recorded: a callback did something, or that of the k-th bottom half was called, scheduled as idle or not.
   */
  datatype Event = Did(act: Act) | Ran(k: nat, idle: bool)

  /** Bottom halves by number, those freed, and the record. */
  datatype World = World(halves: seq<History>, dead: set<nat>, log: seq<Event>) {
    predicate Live(k: nat) {
      k < |halves| && k !in dead
    }

    function Record(e: Event): World {
      this.(log := log + [e])
    }

    function Put(k: nat, h: History): World
      requires k < |halves|
    {
      this.(halves := halves[k := h])
    }

    /** The list: the live ones, newest first. */
    function List(): (ks: seq<nat>)
      ensures Below(ks, |halves|) && Falling(ks) && forall k :: k in ks <==> 0 <= k && Live(k)
    {
      Numbers(|halves|, dead)
    }
  }

  predicate Below(ks: seq<nat>, n: nat) {
    forall i :: 0 <= i < |ks| ==> ks[i] < n
  }

  predicate Falling(ks: seq<nat>) {
    forall i, j :: 0 <= i < j < |ks| ==> ks[i] > ks[j]
  }

  /** The numbers below `n` that are not in `dead`, from the highest down. */
  function Numbers(n: nat, dead: set<nat>): (r: seq<nat>)
    ensures forall k :: k in r <==> 0 <= k < n && k !in dead
    ensures Below(r, n) && Falling(r)
  {
    if n == 0 then []
    else if n - 1 in dead then Numbers(n - 1, dead)
    else [n - 1] + Numbers(n - 1, dead)
  }

  // ----- the specification -----

  /** Any operation but a poll. Operations on what is freed or not yet made have no effect. */
  function Simple(w: World, act: Act): World
    requires !act.Poll?
  {
    var w' := w.Record(Did(act));
    match act
    case New => w'.(halves := w.halves + [NEW])
    case Schedule(k) => if w.Live(k) then w'.Put(k, w.halves[k].Schedule(false)) else w'
    case ScheduleIdle(k) => if w.Live(k) then w'.Put(k, w.halves[k].Schedule(true)) else w'
    case Cancel(k) => if w.Live(k) then w'.Put(k, w.halves[k].Cancel()) else w'
    case Delete(k) => if w.Live(k) then w'.Put(k, w.halves[k].Delete()) else w'
  }

  /** A callback's body; a poll in it frees nothing. */
  function DoActs(w: World, acts: Acts): (w': World)
    ensures |w.halves| <= |w'.halves| && w'.dead == w.dead
    decreases ActsSize(acts), 0
  {
    match acts
    case End => w
    case Then(Poll(c), rest) =>
      var w1 := w.Record(Did(Poll(c)));
      DoActs(DoPass(w1, w1.List(), c).w, rest)
    case Then(act, rest) => DoActs(Simple(w, act), rest)
  }

  datatype Visited = Visited(w: World, rest: Callbacks, lively: bool)

  /** Calls the callback of `k` if it is due. */
  function DoVisit(w: World, k: nat, c: Callbacks): (v: Visited)
    requires k < |w.halves|
    ensures |w.halves| <= |v.w.halves| && v.w.dead == w.dead && CallbacksSize(v.rest) <= CallbacksSize(c)
    decreases CallbacksSize(c), 0
  {
    var h := w.halves[k];
    if !h.Due() then Visited(w, c, false)
    else
      var w1 := w.Put(k, h.Run()).Record(Ran(k, h.idle));
      Visited(if c.NoMore? then w1 else DoActs(w1, c.body), OtherBodies(c), !h.idle)
  }

  datatype Passed = Passed(w: World, ret: bool)

  /** One pass over `ks`. */
  function DoPass(w: World, ks: seq<nat>, c: Callbacks): (r: Passed)
    requires Below(ks, |w.halves|)
    ensures |w.halves| <= |r.w.halves| && r.w.dead == w.dead
    decreases CallbacksSize(c), |ks|
  {
    if ks == [] then Passed(w, false)
    else
      var v := DoVisit(w, ks[0], c);
      var r := DoPass(v.w, ks[1..], v.rest);
      Passed(r.w, v.lively || r.ret)
  }

  /** A poll: a pass over the list as it is, and the outermost one frees what is deleted. */
  function DoPoll(w: World, outermost: bool, c: Callbacks): Passed {
    var r := DoPass(w, w.List(), c);
    if outermost then r.(w := r.w.(dead := r.w.dead + Deleted(r.w))) else r
  }

  function Deleted(w: World): set<nat> {
    set k | 0 <= k < |w.halves| && w.halves[k].deleted
  }

  // ----- what is recorded accounts for everything -----

  datatype Kind = News | Runs(k: nat) | Schedules(k: nat) | Drops(k: nat) | Deletes(k: nat)

  predicate Is(e: Event, kind: Kind) {
    match kind
    case News => e == Did(New)
    case Runs(k) => e.Ran? && e.k == k
    case Schedules(k) => e == Did(Schedule(k)) || e == Did(ScheduleIdle(k))
    case Drops(k) => e == Did(Cancel(k)) || e == Did(Delete(k))
    case Deletes(k) => e == Did(Delete(k))
  }

  /** How many events of a kind there are. */
  function Count(log: seq<Event>, kind: Kind): nat {
    if log == [] then 0
    else Count(log[..|log| - 1], kind) + if Is(log[|log| - 1], kind) then 1 else 0
  }

  lemma CountOne(log: seq<Event>, e: Event)
    ensures forall kind :: Count(log + [e], kind) == Count(log, kind) + if Is(e, kind) then 1 else 0
  {
    assert (log + [e])[..|log|] == log;
  }

  /** Between two moments, by the events recorded in between. */
  ghost predicate Account(w: World, w': World, k: nat)
    requires k < |w.halves| && k < |w'.halves|
  {
    var h, h' := w.halves[k], w'.halves[k];
    && h'.runs - h.runs == Count(w'.log, Runs(k)) - Count(w.log, Runs(k))
    && 0 <= h'.schedules - h.schedules <= Count(w'.log, Schedules(k)) - Count(w.log, Schedules(k))
    && 0 <= h'.drops - h.drops <= Count(w'.log, Drops(k)) - Count(w.log, Drops(k))
    && Count(w.log, Deletes(k)) <= Count(w'.log, Deletes(k))
    && (h'.deleted <==> h.deleted || (k !in w.dead && Count(w'.log, Deletes(k)) > Count(w.log, Deletes(k))))
    && h.Before(h')
  }

  /** Every change to a bottom half is on record, and those made meanwhile number as recorded. */
  ghost predicate Accounts(w: World, w': World) {
    && w.log <= w'.log && w'.dead == w.dead
    && |w'.halves| - |w.halves| == Count(w'.log, News) - Count(w.log, News) >= 0
    && (forall k :: 0 <= k < |w.halves| ==> Account(w, w', k))
  }

  ghost predicate AllBalanced(w: World) {
    forall k :: 0 <= k < |w.halves| ==> w.halves[k].Balanced()
  }

  lemma AccountsTwice(w: World, w1: World, w2: World)
    requires AllBalanced(w) && AllBalanced(w1) && Accounts(w, w1) && Accounts(w1, w2)
    ensures Accounts(w, w2)
  {
    hide Count, History.Before, History.Balanced;
    forall k | 0 <= k < |w.halves| ensures Account(w, w2, k) {
      assert Account(w, w1, k) && Account(w1, w2, k);
      w.halves[k].BeforeIsTransitive(w1.halves[k], w2.halves[k]);
    }
  }

  lemma SimpleAccounts(w: World, act: Act)
    requires AllBalanced(w) && !act.Poll?
    ensures AllBalanced(Simple(w, act)) && Accounts(w, Simple(w, act))
  {
    hide Count;
    CountOne(w.log, Did(act));
  }

  lemma BeginAccounts(w: World, k: nat)
    requires AllBalanced(w) && k < |w.halves| && w.halves[k].Due()
    ensures var w' := w.Put(k, w.halves[k].Run()).Record(Ran(k, w.halves[k].idle));
            AllBalanced(w') && Accounts(w, w')
  {
    hide Count;
    CountOne(w.log, Ran(k, w.halves[k].idle));
  }

  lemma PollBegins(w: World, c: Callbacks)
    requires AllBalanced(w)
    ensures var w' := w.Record(Did(Poll(c))); AllBalanced(w') && Accounts(w, w')
  {
    hide Count;
    CountOne(w.log, Did(Poll(c)));
  }

  /** Whatever a callback does is on record. */
  lemma {:induction false} ActsAccount(w: World, acts: Acts)
    requires AllBalanced(w)
    ensures AllBalanced(DoActs(w, acts)) && Accounts(w, DoActs(w, acts))
    decreases ActsSize(acts), 0
  {
    hide Accounts, AllBalanced, Simple, DoPass;
    match acts
    case End =>
      NothingAccounts(w);
    case Then(act, rest) =>
      var w1 := if act.Poll? then w.Record(Did(act)) else Simple(w, act);
      if act.Poll? {
        PollBegins(w, act.callbacks);
        PassAccounts(w1, w1.List(), act.callbacks);
        AccountsTwice(w, w1, DoPass(w1, w1.List(), act.callbacks).w);
        w1 := DoPass(w1, w1.List(), act.callbacks).w;
      } else {
        SimpleAccounts(w, act);
      }
      ActsAccount(w1, rest);
      AccountsTwice(w, w1, DoActs(w1, rest));
  }

  lemma NothingAccounts(w: World)
    ensures Accounts(w, w)
  {
  }

  lemma {:induction false} VisitAccounts(w: World, k: nat, c: Callbacks)
    requires AllBalanced(w) && k < |w.halves|
    ensures AllBalanced(DoVisit(w, k, c).w) && Accounts(w, DoVisit(w, k, c).w)
    decreases CallbacksSize(c), 0
  {
    hide Accounts, AllBalanced, DoActs, History.Due;
    NothingAccounts(w);
    var h := w.halves[k];
    if h.Due() {
      BeginAccounts(w, k);
      var w1 := w.Put(k, h.Run()).Record(Ran(k, h.idle));
      if c.Call? {
        ActsAccount(w1, c.body);
        AccountsTwice(w, w1, DoActs(w1, c.body));
      }
    }
  }

  lemma {:induction false} PassAccounts(w: World, ks: seq<nat>, c: Callbacks)
    requires AllBalanced(w) && Below(ks, |w.halves|)
    ensures AllBalanced(DoPass(w, ks, c).w) && Accounts(w, DoPass(w, ks, c).w)
    decreases CallbacksSize(c), |ks|
  {
    hide Accounts, AllBalanced, DoVisit;
    if ks == [] {
      NothingAccounts(w);
    } else {
      var v := DoVisit(w, ks[0], c);
      VisitAccounts(w, ks[0], c);
      PassAccounts(v.w, ks[1..], v.rest);
      AccountsTwice(w, v.w, DoPass(v.w, ks[1..], v.rest).w);
    }
  }

  /**
   * A poll changes a bottom half only by what callbacks are recorded to have done to it and by recorded calls of its
   * own callback; it makes none but recorded ones; and the outermost one frees just what was deleted before or is
   * recorded as deleted.
   */
  lemma PollAccounts(w: World, outermost: bool, c: Callbacks)
    requires AllBalanced(w)
    ensures var w' := DoPoll(w, outermost, c).w;
            AllBalanced(w') && Accounts(w, w'.(dead := w.dead))
    ensures var w' := DoPoll(w, outermost, c).w;
            forall k :: 0 <= k < |w.halves| && k !in w.dead ==>
              (k in w'.dead <==>
                outermost && (w.halves[k].deleted || Count(w'.log, Deletes(k)) > Count(w.log, Deletes(k))))
  {
    hide DoPass, Count;
    PassAccounts(w, w.List(), c);
    var p := DoPass(w, w.List(), c).w;
    var w' := DoPoll(w, outermost, c).w;
    assert w'.(dead := w.dead) == p;
    forall k | 0 <= k < |w.halves| && k !in w.dead
      ensures k in w'.dead <==>
                outermost && (w.halves[k].deleted || Count(w'.log, Deletes(k)) > Count(w.log, Deletes(k)))
    {
      assert Account(w, p, k);
    }
  }

  // ----- what is due runs -----

  /** What is due when a pass begins has been run or dropped when it ends. */
  lemma {:induction false} PassConsumes(w: World, ks: seq<nat>, c: Callbacks, k: nat)
    requires AllBalanced(w) && Below(ks, |w.halves|) && k in ks
    ensures k < |w.halves| && w.halves[k].Consumed(DoPass(w, ks, c).w.halves[k])
    decreases |ks|
  {
    hide DoVisit, Count, History.Before, History.Consumed, History.Balanced;
    var v := DoVisit(w, ks[0], c);
    VisitAccounts(w, ks[0], c);
    PassAccounts(v.w, ks[1..], v.rest);
    var w2 := DoPass(v.w, ks[1..], v.rest).w;
    assert Account(w, v.w, k) && Account(v.w, w2, k);
    if k == ks[0] {
      VisitConsumes(w, k, c);
    } else {
      PassConsumes(v.w, ks[1..], v.rest, k);
    }
    w.halves[k].BeforeIsTransitive(v.w.halves[k], w2.halves[k]);
  }

  lemma VisitConsumes(w: World, k: nat, c: Callbacks)
    requires AllBalanced(w) && k < |w.halves|
    ensures w.halves[k].Consumed(DoVisit(w, k, c).w.halves[k])
  {
    hide DoActs, Count;
    var h := w.halves[k];
    if h.Due() && c.Call? {
      var w1 := w.Put(k, h.Run()).Record(Ran(k, h.idle));
      BeginAccounts(w, k);
      ActsAccount(w1, c.body);
      assert Account(w1, DoActs(w1, c.body), k);
    }
  }

  /**
   * A live bottom half due when a poll begins is run in it, unless a callback is recorded to have cancelled or deleted
   * it.
   */
  lemma PollRunsWhatIsDue(w: World, outermost: bool, c: Callbacks, k: nat)
    requires AllBalanced(w) && w.Live(k) && w.halves[k].Due()
    ensures var w' := DoPoll(w, outermost, c).w;
            && k < |w'.halves|
            && w.halves[k].Consumed(w'.halves[k])
            && (Count(w'.log, Drops(k)) == Count(w.log, Drops(k)) ==>
                  w'.halves[k].runs > w.halves[k].runs && Count(w'.log, Runs(k)) > Count(w.log, Runs(k)))
  {
    hide DoPass, Count;
    PassConsumes(w, w.List(), c, k);
    PassAccounts(w, w.List(), c);
    assert Account(w, DoPass(w, w.List(), c).w, k);
  }

  /** So it is in a poll that a callback starts. */
  lemma NestedPollRunsWhatIsDue(w: World, c: Callbacks, k: nat)
    requires AllBalanced(w) && w.Live(k) && w.halves[k].Due()
    ensures var w' := DoActs(w, Then(Poll(c), End));
            && w.halves[k].Consumed(w'.halves[k])
            && (Count(w'.log, Drops(k)) == Count(w.log, Drops(k)) ==> w'.halves[k].runs > w.halves[k].runs)
  {
    hide DoPass, Count;
    var w1 := w.Record(Did(Poll(c)));
    PollBegins(w, c);
    assert Account(w, w1, k);
    PollRunsWhatIsDue(w1, false, c, k);
    DoNothing(DoPass(w1, w1.List(), c).w);
    assert DoActs(w, Then(Poll(c), End)) == DoPass(w1, w1.List(), c).w;
    CountOne(w.log, Did(Poll(c)));
  }

  // ----- callbacks that do nothing -----

  /** Those of `ks` that were due have been run once, and nothing else has changed. */
  ghost predicate RunOnce(w: World, w': World, ks: seq<nat>) {
    && |w'.halves| == |w.halves|
    && forall k :: 0 <= k < |w.halves| ==>
         w'.halves[k] == if k in ks && w.halves[k].Due() then w.halves[k].Run() else w.halves[k]
  }

  ghost predicate AnyUrgent(w: World, ks: seq<nat>) {
    exists k :: k in ks && k < |w.halves| && w.halves[k].Urgent()
  }

  /** If callbacks do nothing, exactly those due are run, once each, and the result tells whether one was not idle. */
  lemma {:induction false} QuietPass(w: World, ks: seq<nat>)
    requires Below(ks, |w.halves|) && Falling(ks)
    ensures var r := DoPass(w, ks, NoMore); RunOnce(w, r.w, ks) && (r.ret <==> AnyUrgent(w, ks))
    decreases |ks|
  {
    hide DoVisit, RunOnce, AnyUrgent;
    if ks == [] {
      QuietStart(w);
    } else {
      var k, rest := ks[0], ks[1..];
      QuietVisit(w, k);
      var v := DoVisit(w, k, NoMore);
      assert ks == [k] + rest && k !in rest;
      QuietPass(v.w, rest);
      QuietStep(w, v.w, DoPass(v.w, rest, NoMore).w, k, rest);
    }
  }

  lemma QuietStart(w: World)
    ensures RunOnce(w, w, []) && !AnyUrgent(w, [])
  {
  }

  lemma QuietStep(w: World, w1: World, w2: World, k: nat, rest: seq<nat>)
    requires k < |w.halves| && k !in rest && RunOnce(w1, w2, rest)
    requires w1.halves == w.halves[k := if w.halves[k].Due() then w.halves[k].Run() else w.halves[k]]
    ensures RunOnce(w, w2, [k] + rest)
    ensures AnyUrgent(w, [k] + rest) <==> w.halves[k].Urgent() || AnyUrgent(w1, rest)
  {
    hide History.Due, History.Run, History.Urgent;
    if AnyUrgent(w1, rest) {
      var j :| j in rest && j < |w1.halves| && w1.halves[j].Urgent();
      assert j in [k] + rest && w.halves[j].Urgent();
    }
  }

  lemma QuietVisit(w: World, k: nat)
    requires k < |w.halves|
    ensures var v, h := DoVisit(w, k, NoMore), w.halves[k];
            && v.w.halves == w.halves[k := if h.Due() then h.Run() else h]
            && v.rest == NoMore && v.lively == h.Urgent()
  {
  }

  lemma QuietPoll(w: World, outermost: bool)
    ensures var r := DoPoll(w, outermost, NoMore); RunOnce(w, r.w, w.List()) && (r.ret <==> AnyUrgent(w, w.List()))
  {
    QuietPass(w, w.List());
  }

  // ----- in which order -----

  /** From position `from` on, `log` has the acts of `acts` in order, perhaps with others in between. */
  ghost predicate Follows(log: seq<Event>, from: nat, acts: Acts)
    decreases acts
  {
    acts.End? || exists i: nat :: from <= i < |log| && log[i] == Did(acts.act) && Follows(log, i + 1, acts.rest)
  }

  lemma {:induction false} FollowsStill(log: seq<Event>, log': seq<Event>, from: nat, from': nat, acts: Acts)
    requires Follows(log, from, acts) && log <= log' && from' <= from
    ensures Follows(log', from', acts)
    decreases acts
  {
    if acts.End? {
    } else {
      var i: nat :| from <= i < |log| && log[i] == Did(acts.act) && Follows(log, i + 1, acts.rest);
      FollowsStill(log, log', i + 1, i + 1, acts.rest);
      assert log'[i] == Did(acts.act);
    }
  }

  lemma {:induction false} ActsFollow(w: World, acts: Acts)
    requires AllBalanced(w)
    ensures Follows(DoActs(w, acts).log, |w.log|, acts)
    decreases acts
  {
    hide DoPass, AllBalanced, Accounts, Simple;
    match acts
    case End =>
    case Then(act, rest) =>
      var w1 := if act.Poll? then w.Record(Did(act)) else Simple(w, act);
      if act.Poll? {
        PollBegins(w, act.callbacks);
        PassAccounts(w1, w1.List(), act.callbacks);
        LogGrows(w1, DoPass(w1, w1.List(), act.callbacks).w);
        w1 := DoPass(w1, w1.List(), act.callbacks).w;
      } else {
        SimpleAccounts(w, act);
        SimpleLog(w, act);
      }
      ActsFollow(w1, rest);
      ActsAccount(w1, rest);
      var log := DoActs(w1, rest).log;
      LogGrows(w1, DoActs(w1, rest));
      assert log[|w.log|] == Did(act);
      FollowsStill(log, log, |w1.log|, |w.log| + 1, rest);
  }

  lemma LogGrows(w: World, w': World)
    requires Accounts(w, w')
    ensures w.log <= w'.log
  {
  }

  lemma SimpleLog(w: World, act: Act)
    requires !act.Poll?
    ensures Simple(w, act).log == w.log + [Did(act)]
  {
  }

  /** The callbacks from number `m` on. */
  ghost function After(c: Callbacks, m: nat): Callbacks {
    if m == 0 then c else After(OtherBodies(c), m - 1)
  }

  /**
   * Call number `m` was to entry `idx[m]` of `ks` and is recorded at `at[m]`; before the next one is recorded, what the
   * m-th callback does has been done in order.
   */
  ghost predicate CallAt(ks: seq<nat>, c: Callbacks, log: seq<Event>, idx: seq<nat>, at: seq<nat>, m: nat)
    requires m < |idx| == |at|
  {
    var next := if m + 1 < |at| then at[m + 1] else |log|;
    && at[m] < next <= |log| && idx[m] < |ks| && (m + 1 < |idx| ==> idx[m] < idx[m + 1])
    && log[at[m]].Ran? && log[at[m]].k == ks[idx[m]]
    && Follows(log[..next], at[m] + 1, FirstBody(After(c, m)))
  }

  ghost predicate Calls(ks: seq<nat>, c: Callbacks, log: seq<Event>, idx: seq<nat>, at: seq<nat>) {
    |idx| == |at| && forall m :: 0 <= m < |idx| ==> CallAt(ks, c, log, idx, at, m)
  }

  /** Some callback called was not scheduled as idle. */
  ghost predicate Lively(log: seq<Event>, at: seq<nat>) {
    exists m :: 0 <= m < |at| && at[m] < |log| && log[at[m]].Ran? && !log[at[m]].idle
  }

  /** Nothing is due before entry `n`. */
  ghost predicate NoneDue(w: World, ks: seq<nat>, n: nat)
    requires Below(ks, |w.halves|)
  {
    forall i :: 0 <= i < n && i < |ks| ==> !w.halves[ks[i]].Due()
  }

  /** Either nothing was due and nothing happened, or the first call, at once, was that of the first entry due. */
  ghost predicate FirstCall(w: World, ks: seq<nat>, log: seq<Event>, idx: seq<nat>, at: seq<nat>)
    requires Below(ks, |w.halves|)
  {
    if NoneDue(w, ks, |ks|) then idx == [] && log == w.log
    else
      && |idx| > 0 && |at| > 0 && at[0] == |w.log|
      && idx[0] < |ks| && w.halves[ks[idx[0]]].Due() && NoneDue(w, ks, idx[0])
  }

  ghost function Shift(idx: seq<nat>): seq<nat> {
    seq(|idx|, i requires 0 <= i < |idx| => idx[i] + 1)
  }

  /** An entry that is not called in front of the others. */
  lemma CallsSkip(k: nat, ks: seq<nat>, c: Callbacks, log: seq<Event>, idx: seq<nat>, at: seq<nat>)
    requires Calls(ks, c, log, idx, at)
    ensures Calls([k] + ks, c, log, Shift(idx), at)
  {
    forall m | 0 <= m < |idx| ensures CallAt([k] + ks, c, log, Shift(idx), at, m) {
      assert CallAt(ks, c, log, idx, at, m);
    }
  }

  /** One that is. */
  lemma CallsFirst(k: nat, ks: seq<nat>, c: Callbacks, log1: seq<Event>, log: seq<Event>, idx: seq<nat>, at: seq<nat>,
                   n: nat)
    requires Calls(ks, OtherBodies(c), log, idx, at) && log1 <= log && n < |log1| && log[n].Ran? && log[n].k == k
    requires (if at == [] then log1 == log else |log1| <= at[0]) && Follows(log1, n + 1, FirstBody(c))
    ensures Calls([k] + ks, c, log, [0] + Shift(idx), [n] + at)
  {
    var idx', at' := [0] + Shift(idx), [n] + at;
    forall m | 0 <= m < |idx'| ensures CallAt([k] + ks, c, log, idx', at', m) {
      if m == 0 {
        var next := if 1 < |at'| then at'[1] else |log|;
        if 1 < |at'| { assert CallAt(ks, OtherBodies(c), log, idx, at, 0); }
        FollowsStill(log1, log[..next], n + 1, n + 1, FirstBody(c));
      } else {
        assert CallAt(ks, OtherBodies(c), log, idx, at, m - 1);
        assert After(c, m) == After(OtherBodies(c), m - 1);
      }
    }
  }

  lemma LivelyFirst(log: seq<Event>, n: nat, at: seq<nat>)
    requires n < |log| && log[n].Ran?
    ensures Lively(log, [n] + at) <==> !log[n].idle || Lively(log, at)
  {
    var at' := [n] + at;
    assert at'[0] == n && forall m :: 0 <= m < |at| ==> at'[m + 1] == at[m];
    if Lively(log, at) {
      var m :| 0 <= m < |at| && at[m] < |log| && log[at[m]].Ran? && !log[at[m]].idle;
      assert at'[m + 1] == at[m];
    }
  }

  /** What a visit that calls a callback adds to the record. */
  lemma VisitLog(w: World, k: nat, c: Callbacks)
    requires AllBalanced(w) && k < |w.halves| && w.halves[k].Due()
    ensures var v, n := DoVisit(w, k, c), |w.log|;
            && w.log <= v.w.log && n < |v.w.log| && v.w.log[n] == Ran(k, !v.lively)
            && Follows(v.w.log, n + 1, FirstBody(c)) && v.rest == OtherBodies(c)
  {
    hide DoActs, Accounts, AllBalanced, Follows;
    var h := w.halves[k];
    BeginAccounts(w, k);
    var w1 := w.Put(k, h.Run()).Record(Ran(k, h.idle));
    ActsFollow(w1, FirstBody(c));
    ActsAccount(w1, FirstBody(c));
    LogGrows(w1, DoActs(w1, FirstBody(c)));
    DoNothing(w1);
  }

  lemma VisitRuns(w: World, k: nat, c: Callbacks)
    requires AllBalanced(w) && k < |w.halves| && w.halves[k].Due()
    ensures DoVisit(w, k, c).w.halves[k].runs > w.halves[k].runs
  {
    hide DoActs, Count;
    var h := w.halves[k];
    BeginAccounts(w, k);
    var w1 := w.Put(k, h.Run()).Record(Ran(k, h.idle));
    if c.Call? {
      ActsAccount(w1, c.body);
      assert Account(w1, DoActs(w1, c.body), k);
    }
  }

  lemma DoNothing(w: World)
    ensures DoActs(w, End) == w
  {
  }

  /** Callbacks are called in list order from the first due on, each body done before the next call. */
  lemma {:induction false} PassCalls(w: World, ks: seq<nat>, c: Callbacks) returns (idx: seq<nat>, at: seq<nat>)
    requires AllBalanced(w) && Below(ks, |w.halves|)
    ensures var r := DoPass(w, ks, c);
            && Calls(ks, c, r.w.log, idx, at) && FirstCall(w, ks, r.w.log, idx, at)
            && (r.ret <==> Lively(r.w.log, at))
    decreases |ks|
  {
    hide DoVisit, Accounts, AllBalanced, Follows, Calls, Lively;
    if ks == [] {
      idx, at := [], [];
      NoCalls(c, w.log);
    } else {
      var k, rest := ks[0], ks[1..];
      var v := DoVisit(w, k, c);
      VisitAccounts(w, k, c);
      idx, at := PassCalls(v.w, rest, v.rest);
      var log := DoPass(v.w, rest, v.rest).w.log;
      assert ks == [k] + rest;
      if w.halves[k].Due() {
        VisitLog(w, k, c);
        PassAccounts(v.w, rest, v.rest);
        LogGrows(v.w, DoPass(v.w, rest, v.rest).w);
        SameLength(rest, v.rest, log, idx, at);
        CallsFirst(k, rest, c, v.w.log, log, idx, at, |w.log|);
        LivelyFirst(log, |w.log|, at);
        idx, at := [0] + Shift(idx), [|w.log|] + at;
      } else {
        NotDueStays(w, k, c);
        CallsSkip(k, rest, c, log, idx, at);
        FirstCallSkip(w, k, rest, log, idx, at);
        idx := Shift(idx);
      }
    }
  }

  lemma SameLength(ks: seq<nat>, c: Callbacks, log: seq<Event>, idx: seq<nat>, at: seq<nat>)
    requires Calls(ks, c, log, idx, at)
    ensures |idx| == |at|
  {
  }

  lemma FirstCallSkip(w: World, k: nat, ks: seq<nat>, log: seq<Event>, idx: seq<nat>, at: seq<nat>)
    requires Below(ks, |w.halves|) && k < |w.halves| && !w.halves[k].Due() && FirstCall(w, ks, log, idx, at)
    ensures FirstCall(w, [k] + ks, log, Shift(idx), at)
  {
    var all := [k] + ks;
    assert forall i :: 0 <= i < |ks| ==> all[i + 1] == ks[i];
    assert forall i :: 0 < i < |all| ==> all[i] == ks[i - 1];
  }

  lemma NotDueStays(w: World, k: nat, c: Callbacks)
    requires k < |w.halves| && !w.halves[k].Due()
    ensures DoVisit(w, k, c) == Visited(w, c, false)
  {
  }

  lemma NoCalls(c: Callbacks, log: seq<Event>)
    ensures Calls([], c, log, [], []) && !Lively(log, [])
  {
  }

  /** A poll likewise, over the live ones from the newest to the oldest; it answers whether one called was not idle. */
  lemma PollCalls(w: World, outermost: bool, c: Callbacks) returns (idx: seq<nat>, at: seq<nat>)
    requires AllBalanced(w)
    ensures var r := DoPoll(w, outermost, c);
            && Calls(w.List(), c, r.w.log, idx, at) && FirstCall(w, w.List(), r.w.log, idx, at)
            && (r.ret <==> Lively(r.w.log, at))
  {
    hide DoPass, Calls, Lively;
    idx, at := PassCalls(w, w.List(), c);
  }

  // ----- what acts do -----

  /** An act on bottom half `k` changes it as asked and no other; one on what is freed or not made changes nothing. */
  lemma SimpleEffect(w: World, act: Act, k: nat)
    requires !act.Poll? && k < |w.halves|
    ensures var w' := Simple(w, act);
            && w'.log == w.log + [Did(act)] && w'.dead == w.dead
            && |w'.halves| == |w.halves| + (if act.New? then 1 else 0)
            && (act.New? ==>
                  var h := w'.halves[|w.halves|];
                  !h.scheduled && !h.idle && !h.deleted && h.schedules == h.runs == h.drops == 0)
            && var h, h' := w.halves[k], w'.halves[k];
               if act.New? || act.k != k || k in w.dead then h' == h
               else
                 && h'.runs == h.runs && h'.deleted == (h.deleted || act.Delete?)
                 && h'.scheduled == (act.Schedule? || act.ScheduleIdle?)
                 && h'.schedules == h.schedules + (if h'.scheduled && !h.scheduled then 1 else 0)
                 && h'.drops == h.drops + (if h.scheduled && !h'.scheduled then 1 else 0)
                 && h'.idle == (if h'.scheduled && !h.scheduled then act.ScheduleIdle? else h.idle)
  {
  }

  /** A call takes the schedule away before the callback runs. */
  lemma RunEffect(h: History)
    ensures var h' := h.Run();
            && !h'.scheduled && !h'.idle && h'.deleted == h.deleted
            && h'.runs == h.runs + 1 && h'.schedules == h.schedules && h'.drops == h.drops
  {
  }

  // ----- the record determines the state -----

  /** What one recorded event does. */
  function Effect(w: World, e: Event): World {
    match e
    case Did(Poll(_)) => w.Record(e)
    case Did(act) => Simple(w, act)
    case Ran(k, _) => if k < |w.halves| then w.Put(k, w.halves[k].Run()).Record(e) else w.Record(e)
  }

  /** What the first `n` events do, in order. */
  function Replay(w: World, es: seq<Event>, n: nat): (w': World)
    requires n <= |es|
    ensures w'.dead == w.dead && |w.halves| <= |w'.halves|
    decreases n
  {
    if n == 0 then w else Effect(Replay(w, es, n - 1), es[n - 1])
  }

  /** An initial part of the events. */
  lemma {:induction false} ReplayPrefix(w: World, es: seq<Event>, fs: seq<Event>, n: nat)
    requires n <= |es| <= |fs| && es <= fs
    ensures Replay(w, es, n) == Replay(w, fs, n)
    decreases n
  {
    if n == 0 {
    } else {
      ReplayPrefix(w, es, fs, n - 1);
    }
  }

  lemma {:induction false} ReplayTwice(w: World, es: seq<Event>, fs: seq<Event>, n: nat)
    requires n <= |fs|
    ensures Replay(w, es + fs, |es| + n) == Replay(Replay(w, es, |es|), fs, n)
    decreases n
  {
    if n == 0 {
      ReplayPrefix(w, es, es + fs, |es|);
    } else {
      ReplayTwice(w, es, fs, n - 1);
    }
  }

  /** Each call in `es`, made from `w` on, is of one scheduled and not deleted at that moment, idle as recorded. */
  ghost predicate CallsAreDue(w: World, es: seq<Event>) {
    forall i :: 0 <= i < |es| && es[i].Ran? ==> CallIsDue(Replay(w, es, i), es[i])
  }

  ghost predicate CallIsDue(w: World, e: Event) {
    e.Ran? && e.k < |w.halves| && w.halves[e.k].scheduled && !w.halves[e.k].deleted && w.halves[e.k].idle == e.idle
  }

  /** `w'` is what the events recorded since `w` make of it, calls being made when due. */
  ghost predicate Recorded(w: World, w': World) {
    && w.log <= w'.log
    && var es := w'.log[|w.log|..]; w' == Replay(w, es, |es|) && CallsAreDue(w, es)
  }

  lemma RecordedTwice(w: World, w1: World, w2: World)
    requires Recorded(w, w1) && Recorded(w1, w2)
    ensures Recorded(w, w2)
  {
    hide Effect;
    var es, fs := w1.log[|w.log|..], w2.log[|w1.log|..];
    var all := w2.log[|w.log|..];
    assert all == es + fs;
    ReplayTwice(w, es, fs, |fs|);
    forall i | 0 <= i < |all| && all[i].Ran? ensures CallIsDue(Replay(w, all, i), all[i]) {
      if i < |es| {
        ReplayPrefix(w, es, all, i);
        assert all[i] == es[i];
      } else {
        ReplayTwice(w, es, fs, i - |es|);
        assert all[i] == fs[i - |es|];
      }
    }
  }

  lemma RecordedNothing(w: World)
    ensures Recorded(w, w)
  {
  }

  lemma RecordedOne(w: World, e: Event)
    requires Effect(w, e).log == w.log + [e] && (e.Ran? ==> CallIsDue(w, e))
    ensures Recorded(w, Effect(w, e))
  {
    var es := [e];
    assert Effect(w, e).log[|w.log|..] == es;
    assert Replay(w, es, 0) == w && Replay(w, es, 1) == Effect(w, e);
  }

  lemma {:induction false} ActsRecorded(w: World, acts: Acts)
    ensures Recorded(w, DoActs(w, acts))
    decreases ActsSize(acts), 0
  {
    hide Recorded, Simple, DoPass;
    match acts
    case End =>
      RecordedNothing(w);
    case Then(act, rest) =>
      var w1 := Effect(w, Did(act));
      if !act.Poll? { SimpleLog(w, act); }
      RecordedOne(w, Did(act));
      if act.Poll? {
        PassRecorded(w1, w1.List(), act.callbacks);
        var w2 := DoPass(w1, w1.List(), act.callbacks).w;
        RecordedTwice(w, w1, w2);
        w1 := w2;
      }
      ActsRecorded(w1, rest);
      RecordedTwice(w, w1, DoActs(w1, rest));
  }

  lemma {:induction false} VisitRecorded(w: World, k: nat, c: Callbacks)
    requires k < |w.halves|
    ensures Recorded(w, DoVisit(w, k, c).w)
    decreases CallbacksSize(c), 0
  {
    hide Recorded, DoActs;
    RecordedNothing(w);
    var h := w.halves[k];
    if h.Due() {
      var e := Ran(k, h.idle);
      var w1 := Effect(w, e);
      RecordedOne(w, e);
      if c.Call? {
        ActsRecorded(w1, c.body);
        RecordedTwice(w, w1, DoActs(w1, c.body));
      }
    }
  }

  lemma {:induction false} PassRecorded(w: World, ks: seq<nat>, c: Callbacks)
    requires Below(ks, |w.halves|)
    ensures Recorded(w, DoPass(w, ks, c).w)
    decreases CallbacksSize(c), |ks|
  {
    hide Recorded, DoVisit;
    if ks == [] {
      RecordedNothing(w);
    } else {
      var v := DoVisit(w, ks[0], c);
      VisitRecorded(w, ks[0], c);
      PassRecorded(v.w, ks[1..], v.rest);
      RecordedTwice(w, v.w, DoPass(v.w, ks[1..], v.rest).w);
    }
  }

  /**
   * After a poll every bottom half is as the recorded acts and calls, one after another, make it; each call was of one
   * scheduled and not deleted at that moment.
   */
  lemma PollIsRecorded(w: World, outermost: bool, c: Callbacks)
    ensures var w' := DoPoll(w, outermost, c).w; Recorded(w, w'.(dead := w.dead))
  {
    hide Recorded, DoPass;
    PassRecorded(w, w.List(), c);
    var p := DoPass(w, w.List(), c).w;
    assert DoPoll(w, outermost, c).w.(dead := w.dead) == p;
  }

  // ----- what is scheduled stays so until it is run -----

  ghost predicate AsksFor(e: Event, k: nat) {
    e == Did(Schedule(k)) || e == Did(ScheduleIdle(k))
  }

  /** None of the events from `i` up to `n` takes a schedule of `k` away or runs it. */
  ghost predicate Untouched(es: seq<Event>, k: nat, i: nat, n: nat)
    requires n <= |es|
  {
    forall j :: i <= j < n ==> es[j] != Did(Cancel(k)) && es[j] != Did(Delete(k)) && !(es[j].Ran? && es[j].k == k)
  }

  lemma {:induction false} ScheduleLasts(w: World, es: seq<Event>, k: nat, i: nat, n: nat)
    requires i < n <= |es| && Replay(w, es, i).Live(k) && AsksFor(es[i], k) && Untouched(es, k, i + 1, n)
    ensures k < |Replay(w, es, n).halves| && Replay(w, es, n).halves[k].scheduled
    decreases n
  {
    if n == i + 1 {
    } else {
      ScheduleLasts(w, es, k, i, n - 1);
    }
  }

  /** What is undeleted stays so until it is deleted. */
  lemma {:induction false} UndeletedLasts(w: World, es: seq<Event>, k: nat, n: nat)
    requires n <= |es| && (k < |w.halves| ==> !w.halves[k].deleted)
    requires forall j :: 0 <= j < n ==> es[j] != Did(Delete(k))
    ensures k < |Replay(w, es, n).halves| ==> !Replay(w, es, n).halves[k].deleted
    decreases n
  {
    if n == 0 {
    } else {
      UndeletedLasts(w, es, k, n - 1);
    }
  }

  /**
   * What a callback schedules during a poll, by event `i` of those recorded, and no later one cancels, is due when the
   * poll ends unless it has been run since; it is not lost.
   */
  lemma PollKeepsSchedules(w: World, outermost: bool, c: Callbacks, es: seq<Event>, k: nat, i: nat)
    requires DoPoll(w, outermost, c).w.log == w.log + es
    requires i < |es| && AsksFor(es[i], k) && Replay(w, es, i).Live(k) && (k < |w.halves| ==> !w.halves[k].deleted)
    requires forall j :: 0 <= j < |es| ==> es[j] != Did(Delete(k)) && (j > i ==> es[j] != Did(Cancel(k)))
    ensures var w' := DoPoll(w, outermost, c).w;
            && k < |w'.halves|
            && ((w'.halves[k].scheduled && !w'.halves[k].deleted)
                || exists j :: i < j < |es| && es[j].Ran? && es[j].k == k)
  {
    hide DoPass, Effect;
    PollIsRecorded(w, outermost, c);
    var w' := DoPoll(w, outermost, c).w;
    assert w'.log[|w.log|..] == es;
    UndeletedLasts(w, es, k, |es|);
    if !(exists j :: i < j < |es| && es[j].Ran? && es[j].k == k) {
      ScheduleLasts(w, es, k, i, |es|);
    } else {
      ReplayGrows(w, es, i, |es|);
    }
  }

  lemma {:induction false} ReplayGrows(w: World, es: seq<Event>, i: nat, n: nat)
    requires i <= n <= |es|
    ensures |Replay(w, es, i).halves| <= |Replay(w, es, n).halves|
    decreases n
  {
    if i == n {
    } else {
      ReplayGrows(w, es, i, n - 1);
    }
  }
}
