/** Whole runs of RAM migration: guest writes, log syncs and saves in any order, then completion. */
module Migration {
  import opened Wire
  import opened RamStream
  import opened RamSave
  import RamLoad
  import Xbzrle

  type Receiver = RamLoad.Receiver

  /** What may happen between setup and completion. */
  datatype Event =
    | GuestWrite(p: Pos, page: Page)
    | SyncLog
    | SaveNext
    | EndSection

  ghost function Step(s: Sender, e: Event): (s': Sender)
    requires Valid(s) && FirstCallPrints(s)
    ensures Valid(s') && FirstCallPrints(s') && s'.blocks == s.blocks && s'.xbzrle == s.xbzrle
  {
    match e
    case GuestWrite(p, page) =>
      if !InBlocks(s.blocks, p) then s else s.(mem := s.mem[p := page], log := s.log + {p})
    case SyncLog => Sync(s)
    case SaveNext =>
      SaveBlockProgress(s, false);
      SaveBlockKeeps(s, false);
      SaveBlock(s, false).s
    case EndSection => s.(items := s.items + [Eos])
  }

  lemma SaveBlockKeeps(s: Sender, lastStage: bool)
    requires Valid(s)
    ensures SaveBlock(s, lastStage).s.xbzrle == s.xbzrle
  {
    var k := ScanOutcome(s, StartOf(s), TotalPages(s.blocks), -1, lastStage);
  }

  ghost function Run(s: Sender, es: seq<Event>): (s': Sender)
    requires Valid(s) && FirstCallPrints(s)
    ensures Valid(s') && FirstCallPrints(s') && s'.blocks == s.blocks && s'.xbzrle == s.xbzrle
  {
    if es == [] then s else Step(Run(s, es[..|es| - 1]), es[|es| - 1])
  }

  /** What the guest has in page `p` after a run: the last page it wrote there, or what was there before. */
  ghost function Guest(page: Page, es: seq<Event>, p: Pos): Page {
    if es == [] then page
    else
      var last := es[|es| - 1];
      if last.GuestWrite? && last.p == p then last.page else Guest(page, es[..|es| - 1], p)
  }

  /** Nothing but guest writes changes the memory to be migrated, and each one does. */
  lemma {:induction false} RunMemory(s: Sender, es: seq<Event>, p: Pos)
    requires Valid(s) && FirstCallPrints(s) && InBlocks(s.blocks, p)
    ensures Run(s, es).mem[p] == Guest(s.mem[p], es, p)
    decreases |es|
  {
    hide SaveBlock, ValidBlocks;
    if es == [] {
    } else {
      var before := es[..|es| - 1];
      RunMemory(s, before, p);
      SaveBlockProgress(Run(s, before), false);
    }
  }

  /** The destination after everything printed so far. */
  ghost predicate Arrived(s: Sender, r0: Receiver, r: Receiver)
    requires Valid(s) && RamLoad.SameBlocks(s.blocks, r0)
  {
    RamLoad.ApplyItems(s.blocks, r0, s.items) == Some(r)
  }

  /** Every page that is neither dirty nor in the log is already equal at the destination. */
  ghost predicate Synced(s: Sender, r: Receiver) {
    && Valid(s) && FirstCallPrints(s)
    && RamLoad.SameBlocks(s.blocks, r) && r.xbzrle == s.xbzrle
    && (forall p :: InBlocks(s.blocks, p) && p !in s.dirty && p !in s.log ==> r.mem[KeyOf(s.blocks, p)] == s.mem[p])
    && (s.lastBlock.Some? ==> r.cur == RamLoad.FindBlock(r.blocks, s.blocks[s.lastBlock.value].id, 0))
  }

  /** Every cached page in `ps` is a page the destination holds, and no duplicate page. */
  ghost predicate CacheMatches(s: Sender, r: Receiver, ps: set<Pos>)
    requires Valid(s) && RamLoad.SameBlocks(s.blocks, r)
  {
    s.xbzrle ==>
      forall p :: p in ps && InBlocks(s.blocks, p) && IsCached(s.cache, AddrOf(s.blocks, p)) ==>
        && CachedData(s.cache, AddrOf(s.blocks, p)) == r.mem[KeyOf(s.blocks, p)]
        && !IsDup(CachedData(s.cache, AddrOf(s.blocks, p)))
  }

  lemma KeyInjective(blocks: seq<Block>, p: Pos, q: Pos)
    requires ValidBlocks(blocks) && InBlocks(blocks, p) && InBlocks(blocks, q)
    ensures KeyOf(blocks, p) == KeyOf(blocks, q) ==> p == q
    ensures AddrOf(blocks, p) == AddrOf(blocks, q) ==> p == q
  {
    if p.b < q.b {
      assert Apart(blocks[p.b], blocks[q.b]);
    } else if q.b < p.b {
      assert Apart(blocks[q.b], blocks[p.b]);
    }
  }

  /** Applying one more item. */
  lemma ArrivedMore(s: Sender, s': Sender, r0: Receiver, r: Receiver, it: Item)
    requires Valid(s) && Valid(s') && s'.blocks == s.blocks && s'.items == s.items + [it]
    requires RamLoad.SameBlocks(s.blocks, r0) && Arrived(s, r0, r) && ValidItem(s.blocks, it)
    requires RamLoad.Acceptable(s.blocks, r, it)
    ensures Arrived(s', r0, RamLoad.ApplyItem(s.blocks, r, it))
  {
    assert s'.items[..|s.items|] == s.items;
  }

  /** What the destination makes of a record for page `p` whose body decodes to `page`. */
  ghost function Store(blocks: seq<Block>, r: Receiver, p: Pos, page: Page): (r': Receiver)
    requires InBlocks(blocks, p)
  {
    r.(mem := r.mem[KeyOf(blocks, p) := page], cur := RamLoad.FindBlock(r.blocks, blocks[p.b].id, 0))
  }

  /** The body chosen for a page decodes, at a destination whose cached copy is right, to that page. */
  ghost predicate SendsPage(s: Sender, r: Receiver, p: Pos, lastStage: bool)
    requires Valid(s) && InBlocks(s.blocks, p) && RamLoad.SameBlocks(s.blocks, r)
  {
    var saved := SavePage(s, p, lastStage);
    if saved.sent == 0 then r.mem[KeyOf(s.blocks, p)] == s.mem[p]
    else
      && OneMore(s.items, saved.s.items, p, s.lastBlock)
      && var it := saved.s.items[|s.items|];
         && ValidItem(s.blocks, it)
         && RamLoad.Acceptable(s.blocks, r, it)
         && RamLoad.ApplyItem(s.blocks, r, it) == Store(s.blocks, r, p, s.mem[p])
  }

  /** Saving one dirty page brings that page of the destination up to date, whichever branch is taken. */
  lemma SavePageDelivers(s: Sender, r: Receiver, p: Pos, lastStage: bool)
    requires Synced(s, r) && p in s.dirty && CacheMatches(s, r, {p})
    ensures SendsPage(s, r, p, lastStage)
  {
    hide Xbzrle.Encode, Xbzrle.Decode, ValidBlocks, FirstCallPrints;
    SavePageFrame(s, p, lastStage);
    SavePageValid(s, p, lastStage);
    var page, addr := s.mem[p], AddrOf(s.blocks, p);
    if IsDup(page) {
      assert Splat(page[0]) == page;
    } else if s.xbzrle && IsCached(s.cache, addr) {
      var prev := CachedData(s.cache, addr);
      Xbzrle.UnmodifiedIffEqual(prev, page, PAGE);
      if Xbzrle.Encode(prev, page, PAGE).Delta? {
        Xbzrle.DeltaReproducesPageIff(prev, page, prev, PAGE);
      }
    }
  }

  /** The sender once a scan has stopped at page `p`. */
  ghost function StopAt(s: Sender, p: Pos): (s': Sender) {
    s.(lastBlock := Some(p.b), lastPage := p.i)
  }

  /** A page is passed over only when it is in the cache, so not in the first call. */
  lemma UnsentIsCached(s: Sender, p: Pos, lastStage: bool)
    requires Valid(s) && FirstCallPrints(s) && InBlocks(s.blocks, p)
    ensures SavePage(s, p, lastStage).sent == 0 ==> s.lastBlock.Some?
  {
    hide Xbzrle.Encode, ValidBlocks, IsDup;
  }

  /** Storing the page just saved keeps the destination in step. */
  lemma SavePageSyncs(s: Sender, r: Receiver, p: Pos, lastStage: bool)
    requires Synced(s, r) && p in s.dirty && SendsPage(s, r, p, lastStage)
    ensures var saved := SavePage(s, p, lastStage);
            if saved.sent == 0 then Synced(saved.s, r)
            else Synced(StopAt(saved.s, p), Store(s.blocks, r, p, s.mem[p]))
  {
    hide Xbzrle.Encode, ValidBlocks, SavePage;
    SavePageFrame(s, p, lastStage);
    SavePageValid(s, p, lastStage);
    UnsentIsCached(s, p, lastStage);
    forall q | InBlocks(s.blocks, q)
      ensures KeyOf(s.blocks, p) == KeyOf(s.blocks, q) ==> p == q
    {
      KeyInjective(s.blocks, p, q);
    }
  }

  /** A cached page goes out as a duplicate page: the one branch that leaves the cache behind. */
  ghost predicate DupOfCached(s: Sender, p: Pos)
    requires Valid(s) && InBlocks(s.blocks, p)
  {
    s.xbzrle && IsDup(s.mem[p]) && IsCached(s.cache, AddrOf(s.blocks, p))
  }

  /**
   * Before the last stage, the cached copies stay those of the destination in every branch but one:
   * they do exactly when the page saved is not a cached page sent as a duplicate.
   */
  lemma SavePageKeepsCacheIff(s: Sender, r: Receiver, p: Pos)
    requires Synced(s, r) && p in s.dirty && CacheMatches(s, r, AllPages(s.blocks))
    ensures var saved := SavePage(s, p, false);
            var r' := if saved.sent == 0 then r else Store(s.blocks, r, p, s.mem[p]);
            && Valid(saved.s) && RamLoad.SameBlocks(s.blocks, r')
            && (CacheMatches(saved.s, r', AllPages(s.blocks)) <==> !DupOfCached(s, p))
  {
    hide Xbzrle.Encode, ValidBlocks, AllPages, Bucket;
    SavePageFrame(s, p, false);
    SavePageValid(s, p, false);
    var addr := AddrOf(s.blocks, p);
    forall q | InBlocks(s.blocks, q)
      ensures KeyOf(s.blocks, p) == KeyOf(s.blocks, q) ==> p == q
      ensures addr == AddrOf(s.blocks, q) ==> p == q
    {
      KeyInjective(s.blocks, p, q);
    }
    assert p in AllPages(s.blocks);
    if s.xbzrle && IsCached(s.cache, addr) {
      Xbzrle.UnmodifiedIffEqual(CachedData(s.cache, addr), s.mem[p], PAGE);
    }
  }

  /** In the last stage the cached copies of the pages still dirty stay those of the destination. */
  lemma SavePageKeepsDirtyCache(s: Sender, r: Receiver, p: Pos)
    requires Synced(s, r) && p in s.dirty && CacheMatches(s, r, s.dirty)
    ensures var saved := SavePage(s, p, true);
            var r' := if saved.sent == 0 then r else Store(s.blocks, r, p, s.mem[p]);
            && Valid(saved.s) && RamLoad.SameBlocks(s.blocks, r')
            && CacheMatches(saved.s, r', saved.s.dirty)
  {
    hide Xbzrle.Encode, ValidBlocks, Bucket;
    SavePageFrame(s, p, true);
    SavePageValid(s, p, true);
    forall q | InBlocks(s.blocks, q)
      ensures KeyOf(s.blocks, p) == KeyOf(s.blocks, q) ==> p == q
      ensures AddrOf(s.blocks, p) == AddrOf(s.blocks, q) ==> p == q
    {
      KeyInjective(s.blocks, p, q);
    }
  }

  /** A scan in which no cached page goes out as a duplicate. */
  ghost predicate ScanClean(s: Sender, f: nat, n: nat)
    requires Valid(s) && f < TotalPages(s.blocks)
    decreases n
  {
    n == 0 ||
    var next, p := Next(TotalPages(s.blocks), f), Unflat(s.blocks, 0, f);
    if p !in s.dirty then ScanClean(s, next, n - 1)
    else
      && !DupOfCached(s, p)
      && (SavePageValid(s, p, false);
          SavePageFrame(s, p, false);
          var saved := SavePage(s, p, false);
          saved.sent == 0 ==> ScanClean(saved.s, next, n - 1))
  }

  /** What is known of the cache in each stage. */
  ghost predicate CacheOk(s: Sender, r: Receiver, lastStage: bool)
    requires Valid(s) && RamLoad.SameBlocks(s.blocks, r)
  {
    CacheMatches(s, r, if lastStage then s.dirty else AllPages(s.blocks))
  }

  ghost predicate InStep(s: Sender, r0: Receiver, r: Receiver, lastStage: bool) {
    Synced(s, r) && RamLoad.SameBlocks(s.blocks, r0) && Arrived(s, r0, r) && CacheOk(s, r, lastStage)
  }

  /** One save, at the level of the whole invariant. */
  lemma SavePageInStep(s: Sender, r0: Receiver, r: Receiver, p: Pos, lastStage: bool) returns (r': Receiver)
    requires InStep(s, r0, r, lastStage) && p in s.dirty
    requires lastStage || !DupOfCached(s, p)
    ensures var saved := SavePage(s, p, lastStage);
            if saved.sent == 0 then InStep(saved.s, r0, r, lastStage) && r' == r
            else InStep(StopAt(saved.s, p), r0, r', lastStage)
  {
    hide SavePage, ValidBlocks, RamLoad.ApplyItem, RamLoad.ApplyItems, RamLoad.Acceptable, FirstCallPrints, IsDup,
      IsCached, CachedData, AllPages;
    assert CacheMatches(s, r, {p});
    SavePageDelivers(s, r, p, lastStage);
    SavePageSyncs(s, r, p, lastStage);
    SavePageFrame(s, p, lastStage);
    if lastStage {
      SavePageKeepsDirtyCache(s, r, p);
    } else {
      SavePageKeepsCacheIff(s, r, p);
    }
    var saved := SavePage(s, p, lastStage);
    r' := if saved.sent == 0 then r else Store(s.blocks, r, p, s.mem[p]);
    if saved.sent != 0 {
      ArrivedMore(s, StopAt(saved.s, p), r0, r, saved.s.items[|s.items|]);
    }
  }

  /** A whole scan keeps the destination in step. */
  lemma {:induction false} ScanInStep(s: Sender, r0: Receiver, r: Receiver, f: nat, n: nat, sent: int, lastStage: bool)
    returns (r': Receiver)
    requires InStep(s, r0, r, lastStage) && f < TotalPages(s.blocks) && (sent == -1 || sent == 0)
    requires lastStage || ScanClean(s, f, n)
    ensures var res := Scan(s, f, n, sent, lastStage);
            if res.sent > 0 then InStep(StopAt(res.s, Unflat(s.blocks, 0, res.f)), r0, r', lastStage)
            else InStep(res.s, r0, r', lastStage)
    decreases n
  {
    hide SavePage, InStep, Unflat, DupOfCached;
    InStepValid(s, r0, r, lastStage);
    r' := r;
    if n > 0 {
      ScanStep(s, f, n, sent, lastStage);
      var next, p := Next(TotalPages(s.blocks), f), Unflat(s.blocks, 0, f);
      if p !in s.dirty {
        r' := ScanInStep(s, r0, r, next, n - 1, sent, lastStage);
      } else {
        r' := SavePageInStep(s, r0, r, p, lastStage);
        var saved := SavePage(s, p, lastStage);
        if saved.sent == 0 {
          r' := ScanInStep(saved.s, r0, r, next, n - 1, 0, lastStage);
        }
      }
    }
  }

  lemma InStepValid(s: Sender, r0: Receiver, r: Receiver, lastStage: bool)
    requires InStep(s, r0, r, lastStage)
    ensures Valid(s) && FirstCallPrints(s)
  {
  }

  /** A scan that sends nothing went once around, so it stopped where the last one did. */
  lemma UnsentStopsAtStart(s: Sender, lastStage: bool)
    requires Valid(s) && FirstCallPrints(s)
    ensures var res := Scan(s, StartOf(s), TotalPages(s.blocks), -1, lastStage);
            res.sent <= 0 ==> s.lastBlock.Some? && StopAt(res.s, Unflat(s.blocks, 0, res.f)) == res.s
  {
    hide SavePage, Scan, Unflat, Flat, ValidBlocks;
    var total, start := TotalPages(s.blocks), StartOf(s);
    StartPosition(s);
    FirstSaveSends(s, lastStage);
    ScanStep(s, start, total, -1, lastStage);
    var k := ScanOutcome(s, start, total, -1, lastStage);
    WalkIs(total, start, k);
  }

  /** One call of the block saver keeps the destination in step. */
  lemma SaveBlockInStep(s: Sender, r0: Receiver, r: Receiver, lastStage: bool) returns (r': Receiver)
    requires InStep(s, r0, r, lastStage)
    requires lastStage || ScanClean(s, StartOf(s), TotalPages(s.blocks))
    ensures InStep(SaveBlock(s, lastStage).s, r0, r', lastStage)
  {
    hide InStep, Scan, Unflat, ScanClean;
    InStepValid(s, r0, r, lastStage);
    UnsentStopsAtStart(s, lastStage);
    r' := ScanInStep(s, r0, r, StartOf(s), TotalPages(s.blocks), -1, lastStage);
  }

  ghost predicate Clean(s: Sender, e: Event)
    requires Valid(s)
  {
    e.SaveNext? ==> ScanClean(s, StartOf(s), TotalPages(s.blocks))
  }

  /** A run before completion in which no cached page goes out as a duplicate page. */
  ghost predicate RunClean(s: Sender, es: seq<Event>)
    requires Valid(s) && FirstCallPrints(s)
  {
    es == [] ||
    (RunClean(s, es[..|es| - 1]) && Clean(Run(s, es[..|es| - 1]), es[|es| - 1]))
  }

  /** Every event keeps the destination in step. */
  lemma StepInStep(s: Sender, r0: Receiver, r: Receiver, e: Event) returns (r': Receiver)
    requires InStep(s, r0, r, false) && Clean(s, e)
    ensures InStep(Step(s, e), r0, r', false)
  {
    hide SaveBlock, ScanClean, ValidBlocks, AllPages, RamLoad.ApplyItems;
    r' := r;
    match e
    case GuestWrite(p, page) =>
    case SyncLog =>
    case SaveNext =>
      r' := SaveBlockInStep(s, r0, r, false);
    case EndSection =>
      ArrivedMore(s, Step(s, e), r0, r, Eos);
  }

  lemma {:induction false} RunInStep(s: Sender, r0: Receiver, r: Receiver, es: seq<Event>) returns (r': Receiver)
    requires InStep(s, r0, r, false) && RunClean(s, es)
    ensures InStep(Run(s, es), r0, r', false)
    decreases |es|
  {
    hide InStep, Clean, Step;
    InStepValid(s, r0, r, false);
    r' := r;
    if es == [] {
    } else {
      r' := RunInStep(s, r0, r, es[..|es| - 1]);
      r' := StepInStep(Run(s, es[..|es| - 1]), r0, r', es[|es| - 1]);
    }
  }

  lemma {:induction false} DrainInStep(s: Sender, r0: Receiver, r: Receiver) returns (r': Receiver)
    requires InStep(s, r0, r, true)
    ensures InStep(Drain(s), r0, r', true)
    decreases |s.dirty|
  {
    hide InStep, SaveBlock;
    InStepValid(s, r0, r, true);
    SaveBlockProgress(s, true);
    r' := SaveBlockInStep(s, r0, r, true);
    var saved := SaveBlock(s, true);
    if saved.sent < 0 {
    } else {
      SmallerSet(saved.s.dirty, s.dirty);
      r' := DrainInStep(saved.s, r0, r');
    }
  }

  /** The destination holds the sender's memory, page for page. */
  ghost predicate SameMemory(s: Sender, r: Receiver) {
    forall p :: InBlocks(s.blocks, p) ==>
      && p in s.mem && KeyOf(s.blocks, p) in r.mem
      && r.mem[KeyOf(s.blocks, p)] == s.mem[p]
  }

  /** Completion from a state in step delivers every page. */
  lemma CompleteDelivers(s: Sender, r0: Receiver, r: Receiver) returns (r': Receiver)
    requires InStep(s, r0, r, false)
    ensures Arrived(Complete(s), r0, r') && SameMemory(Complete(s), r')
  {
    hide Drain, ValidBlocks, RamLoad.ApplyItems;
    InStepSync(s, r0, r);
    r' := DrainInStep(Sync(s), r0, r);
    ArrivedMore(Drain(Sync(s)), Complete(s), r0, r', Eos);
  }

  lemma InStepSync(s: Sender, r0: Receiver, r: Receiver)
    requires InStep(s, r0, r, false)
    ensures InStep(Sync(s), r0, r, true)
  {
    hide ValidBlocks, RamLoad.ApplyItems;
  }

  /** The bytes a sender has printed. */
  ghost function Stream(s: Sender): (bytes: seq<Byte>)
    requires Valid(s)
  {
    IdsValid(s.blocks);
    Print(s.blocks, s.items)
  }

  /** Loading the printed bytes does what the printed records say. */
  lemma StreamArrives(s: Sender, r0: Receiver, r: Receiver)
    requires Valid(s) && RamLoad.SameBlocks(s.blocks, r0) && Arrived(s, r0, r)
    requires s.items != [] && s.items[|s.items| - 1].Eos?
    ensures RamLoad.LoadAll(r0, Stream(s), 0) == Some(r)
  {
    hide RamLoad.LoadAll, Print, ValidBlocks, RamLoad.SameBlocks;
    IdsValid(s.blocks);
    var n := |s.items|;
    assert s.items[..n] == s.items && s.items[..0] == [];
    RamLoad.StreamRoundTrip(s.blocks, r0, s.items, 0);
    assert RamLoad.After(s.blocks, r0, s.items, 0) == r0;
    assert RamLoad.After(s.blocks, r0, s.items, n) == r;
    assert RamLoad.Prefix(s.blocks, s.items, n) == Stream(s);
    PrintNothing(s.blocks);
  }

  lemma PrintNothing(blocks: seq<Block>)
    requires ValidBlocks(blocks)
    ensures RamLoad.Prefix(blocks, [], 0) == []
  {
  }

  lemma SetupInStep(blocks: seq<Block>, xbzrle: bool, mem: map<Pos, Page>, slots: nat, r0: Receiver)
    requires ValidBlocks(blocks) && slots > 0 && forall p :: InBlocks(blocks, p) ==> p in mem
    requires RamLoad.SameBlocks(blocks, r0) && r0.xbzrle == xbzrle
    ensures InStep(Setup(blocks, xbzrle, mem, slots), r0, r0, false)
  {
    hide ValidBlocks, RamLoad.SameBlocks;
    var s := Setup(blocks, xbzrle, mem, slots);
    assert RamLoad.ApplyItems(blocks, r0, []) == Some(r0);
    assert [BlockList][..0] == [];
    assert RamLoad.ApplyItems(blocks, r0, [BlockList]) == Some(r0);
    assert [BlockList, Eos][..1] == [BlockList];
  }

  /**
   * Migration delivers the guest. Setup, then any interleaving of guest writes, log syncs, saves and
   * section ends in which no cached page goes out as a duplicate, then completion: loading the bytes
   * printed leaves every page of the destination equal to the source.
   */
  lemma MigrationDelivers(blocks: seq<Block>, xbzrle: bool, mem: map<Pos, Page>, slots: nat, es: seq<Event>,
                          r0: Receiver)
    returns (r: Receiver)
    requires ValidBlocks(blocks) && slots > 0 && forall p :: InBlocks(blocks, p) ==> p in mem
    requires RamLoad.SameBlocks(blocks, r0) && r0.xbzrle == xbzrle
    requires RunClean(Setup(blocks, xbzrle, mem, slots), es)
    ensures var final := Complete(Run(Setup(blocks, xbzrle, mem, slots), es));
            && RamLoad.LoadAll(r0, Stream(final), 0) == Some(r)
            && SameMemory(final, r)
            && final.mem == Run(Setup(blocks, xbzrle, mem, slots), es).mem
            && forall p :: InBlocks(blocks, p) ==>
                 KeyOf(blocks, p) in r.mem && r.mem[KeyOf(blocks, p)] == Guest(mem[p], es, p)
  {
    hide InStep, Setup, Run, RunClean, ValidBlocks, RamLoad.SameBlocks;
    var s := Setup(blocks, xbzrle, mem, slots);
    SetupInStep(blocks, xbzrle, mem, slots, r0);
    r := RunInStep(s, r0, r0, es);
    SetupBlocks(blocks, xbzrle, mem, slots);
    r := CompleteDelivers(Run(s, es), r0, r);
    StreamArrives(Complete(Run(s, es)), r0, r);
    forall p | InBlocks(blocks, p)
      ensures KeyOf(blocks, p) in r.mem && r.mem[KeyOf(blocks, p)] == Guest(mem[p], es, p)
    {
      RunMemory(s, es, p);
    }
  }

  lemma SetupBlocks(blocks: seq<Block>, xbzrle: bool, mem: map<Pos, Page>, slots: nat)
    requires ValidBlocks(blocks) && slots > 0 && forall p :: InBlocks(blocks, p) ==> p in mem
    ensures Setup(blocks, xbzrle, mem, slots).blocks == blocks && Setup(blocks, xbzrle, mem, slots).mem == mem
  {
  }

  /** Without XBZRLE nothing is ever cached, so every run is clean. */
  lemma {:induction false} CleanWithoutXbzrle(s: Sender, es: seq<Event>)
    requires Valid(s) && FirstCallPrints(s) && !s.xbzrle
    ensures RunClean(s, es)
    decreases |es|
  {
    hide Scan, SaveBlock, ValidBlocks, Valid;
    if es == [] {
    } else {
      CleanWithoutXbzrle(s, es[..|es| - 1]);
      var s1 := Run(s, es[..|es| - 1]);
      ScanCleanWithoutXbzrle(s1, StartOf(s1), TotalPages(s1.blocks));
    }
  }

  lemma {:induction false} ScanCleanWithoutXbzrle(s: Sender, f: nat, n: nat)
    requires Valid(s) && !s.xbzrle && f < TotalPages(s.blocks)
    ensures ScanClean(s, f, n)
    decreases n
  {
    hide SavePage, Unflat, ValidBlocks;
    if n > 0 {
      var next, p := Next(TotalPages(s.blocks), f), Unflat(s.blocks, 0, f);
      if p !in s.dirty {
        ScanCleanWithoutXbzrle(s, next, n - 1);
      } else {
        SavePageValid(s, p, false);
        SavePageFrame(s, p, false);
        ScanCleanWithoutXbzrle(SavePage(s, p, false).s, next, n - 1);
      }
    }
  }

  /** With XBZRLE off, every interleaving delivers the guest. */
  lemma PlainMigrationDelivers(blocks: seq<Block>, mem: map<Pos, Page>, slots: nat, es: seq<Event>, r0: Receiver)
    returns (r: Receiver)
    requires ValidBlocks(blocks) && slots > 0 && forall p :: InBlocks(blocks, p) ==> p in mem
    requires RamLoad.SameBlocks(blocks, r0) && !r0.xbzrle
    ensures var final := Complete(Run(Setup(blocks, false, mem, slots), es));
            && RamLoad.LoadAll(r0, Stream(final), 0) == Some(r) && SameMemory(final, r)
            && forall p :: InBlocks(blocks, p) ==>
                 KeyOf(blocks, p) in r.mem && r.mem[KeyOf(blocks, p)] == Guest(mem[p], es, p)
  {
    hide Run, ValidBlocks, RamLoad.SameBlocks;
    CleanWithoutXbzrle(Setup(blocks, false, mem, slots), es);
    r := MigrationDelivers(blocks, false, mem, slots, es, r0);
  }

  /** Page `p` is cached as it stands in memory. */
  ghost predicate CachedAsIs(s: Sender, p: Pos) {
    && Valid(s) && s.xbzrle && InBlocks(s.blocks, p)
    && IsCached(s.cache, AddrOf(s.blocks, p))
    && CachedData(s.cache, AddrOf(s.blocks, p)) == s.mem[p] && !IsDup(s.mem[p])
  }

  /** Whatever arrives after `s'` shows the same page `p` as what had arrived after `s`. */
  ghost predicate PageStays(s: Sender, s': Sender, r0: Receiver, p: Pos)
    requires Valid(s) && Valid(s') && s'.blocks == s.blocks && RamLoad.SameBlocks(s.blocks, r0) && InBlocks(s.blocks, p)
  {
    forall r' :: Arrived(s', r0, r') ==>
      exists r :: Arrived(s, r0, r) && r'.mem[KeyOf(s.blocks, p)] == r.mem[KeyOf(s.blocks, p)]
  }

  /** Saving any page in the last stage leaves a page cached as it stands alone, at both ends. */
  lemma SavePageSkipsCached(s: Sender, r0: Receiver, p: Pos, q: Pos)
    requires CachedAsIs(s, p) && InBlocks(s.blocks, q) && RamLoad.SameBlocks(s.blocks, r0)
    ensures var saved := SavePage(s, q, true);
            CachedAsIs(saved.s, p) && PageStays(s, saved.s, r0, p)
  {
    hide Xbzrle.Encode, ValidBlocks, Bucket, RamLoad.ApplyItems;
    var saved := SavePage(s, q, true);
    SavePageValid(s, q, true);
    SavePageFrame(s, q, true);
    KeyInjective(s.blocks, p, q);
    if p == q {
      Xbzrle.UnmodifiedIffEqual(s.mem[p], s.mem[p], PAGE);
    } else {
      if IsCached(s.cache, AddrOf(s.blocks, q)) {
        UpdateInPlace(s.cache, AddrOf(s.blocks, q), AddrOf(s.blocks, p), s.mem[q]);
      }
      forall r' | saved.sent != 0 && Arrived(saved.s, r0, r')
        ensures exists r :: Arrived(s, r0, r) && r'.mem[KeyOf(s.blocks, p)] == r.mem[KeyOf(s.blocks, p)]
      {
        var r := ArrivedBefore(s, saved.s, r0, r');
      }
    }
  }

  /** Updating a page that is already cached evicts nothing. */
  lemma UpdateInPlace(cache: Cache, addr: nat, other: nat, data: Page)
    requires |cache| > 0 && addr != other && IsCached(cache, addr) && IsCached(cache, other)
    ensures var c := Insert(cache, addr, data);
            IsCached(c, other) && CachedData(c, other) == CachedData(cache, other)
  {
  }

  lemma ArrivedBefore(s: Sender, s': Sender, r0: Receiver, r': Receiver) returns (r: Receiver)
    requires Valid(s) && Valid(s') && s'.blocks == s.blocks && RamLoad.SameBlocks(s.blocks, r0)
    requires |s'.items| == |s.items| + 1 && s'.items == s.items + [s'.items[|s.items|]]
    requires Arrived(s', r0, r')
    ensures Arrived(s, r0, r) && RamLoad.SameBlocks(s.blocks, r)
    ensures RamLoad.Acceptable(s.blocks, r, s'.items[|s.items|])
    ensures r' == RamLoad.ApplyItem(s.blocks, r, s'.items[|s.items|])
  {
    assert s'.items[..|s.items|] == s.items;
    r := RamLoad.ApplyItems(s.blocks, r0, s.items).value;
  }

  ghost predicate Undisturbed(s: Sender, s': Sender, r0: Receiver, p: Pos)
    requires CachedAsIs(s, p) && RamLoad.SameBlocks(s.blocks, r0)
  {
    CachedAsIs(s', p) && s'.blocks == s.blocks && s'.mem == s.mem && PageStays(s, s', r0, p)
  }

  lemma UndisturbedChain(s: Sender, s1: Sender, s2: Sender, r0: Receiver, p: Pos)
    requires CachedAsIs(s, p) && RamLoad.SameBlocks(s.blocks, r0)
    requires Undisturbed(s, s1, r0, p) && Undisturbed(s1, s2, r0, p)
    ensures Undisturbed(s, s2, r0, p)
  {
    hide CachedAsIs, Valid, Arrived;
  }

  lemma UndisturbedBy(s: Sender, s': Sender, r0: Receiver, p: Pos)
    requires CachedAsIs(s, p) && RamLoad.SameBlocks(s.blocks, r0) && Valid(s')
    requires s'.blocks == s.blocks && s'.xbzrle && s'.mem == s.mem && s'.cache == s.cache && s'.items == s.items
    ensures Undisturbed(s, s', r0, p)
  {
    hide Valid, RamLoad.ApplyItems;
  }

  lemma {:induction false} ScanSkipsCached(s: Sender, r0: Receiver, p: Pos, f: nat, n: nat, sent: int)
    requires CachedAsIs(s, p) && RamLoad.SameBlocks(s.blocks, r0) && f < TotalPages(s.blocks)
    ensures Undisturbed(s, Scan(s, f, n, sent, true).s, r0, p)
    decreases n
  {
    hide SavePage, Unflat, CachedAsIs, PageStays, Valid, Scan, RamLoad.SameBlocks;
    CachedAsIsValid(s, p);
    ScanStep(s, f, n, sent, true);
    UndisturbedBy(s, s, r0, p);
    if n > 0 {
      var next, q := Next(TotalPages(s.blocks), f), Unflat(s.blocks, 0, f);
      if q !in s.dirty {
        ScanSkipsCached(s, r0, p, next, n - 1, sent);
      } else {
        SavePageSkipsCached(s, r0, p, q);
        SavePageFrame(s, q, true);
        var saved := SavePage(s, q, true);
        if saved.sent == 0 {
          ScanSkipsCached(saved.s, r0, p, next, n - 1, 0);
          UndisturbedChain(s, saved.s, Scan(saved.s, next, n - 1, 0, true).s, r0, p);
        }
      }
    }
  }

  lemma CachedAsIsValid(s: Sender, p: Pos)
    requires CachedAsIs(s, p)
    ensures Valid(s) && InBlocks(s.blocks, p) && s.xbzrle
  {
  }

  /** The last stage never resends a page that is cached as it stands. */
  lemma {:induction false} DrainSkipsCached(s: Sender, r0: Receiver, p: Pos)
    requires CachedAsIs(s, p) && RamLoad.SameBlocks(s.blocks, r0) && FirstCallPrints(s)
    ensures Undisturbed(s, Drain(s), r0, p)
    decreases |s.dirty|
  {
    hide CachedAsIs, PageStays, Valid, Scan, RamLoad.SameBlocks;
    CachedAsIsValid(s, p);
    SaveBlockProgress(s, true);
    SaveBlockKeeps(s, true);
    ScanSkipsCached(s, r0, p, StartOf(s), TotalPages(s.blocks), -1);
    var scanned := Scan(s, StartOf(s), TotalPages(s.blocks), -1, true).s;
    var saved := SaveBlock(s, true);
    CachedAsIsValid(scanned, p);
    UndisturbedBy(scanned, saved.s, r0, p);
    UndisturbedChain(s, scanned, saved.s, r0, p);
    if saved.sent < 0 {
    } else {
      SmallerSet(saved.s.dirty, s.dirty);
      DrainSkipsCached(saved.s, r0, p);
      UndisturbedChain(s, saved.s, Drain(saved.s), r0, p);
    }
  }

  /** The stream printed so far can be loaded and leaves the destination with the sender's memory. */
  ghost predicate Delivers(s: Sender, r0: Receiver)
    requires Valid(s) && RamLoad.SameBlocks(s.blocks, r0)
  {
    exists r :: Arrived(s, r0, r) && SameMemory(s, r)
  }

  lemma RunMore(s: Sender, es: seq<Event>, e: Event)
    requires Valid(s) && FirstCallPrints(s)
    ensures Run(s, []) == s
    ensures Run(s, es + [e]) == Step(Run(s, es), e)
    ensures RunClean(s, es + [e]) <==> RunClean(s, es) && Clean(Run(s, es), e)
    ensures RunClean(s, [])
  {
    hide Step, Clean;
    assert (es + [e])[..|es|] == es;
  }

  /** A stale cache entry loses a page: write the cached contents back and complete. */
  lemma StaleCacheLosesPage(s: Sender, r0: Receiver, r: Receiver, p: Pos)
    requires Synced(s, r) && RamLoad.SameBlocks(s.blocks, r0) && Arrived(s, r0, r)
    requires s.xbzrle && InBlocks(s.blocks, p) && IsCached(s.cache, AddrOf(s.blocks, p))
    requires var a := CachedData(s.cache, AddrOf(s.blocks, p));
             !IsDup(a) && a != r.mem[KeyOf(s.blocks, p)]
    ensures var es := [GuestWrite(p, CachedData(s.cache, AddrOf(s.blocks, p)))];
            RunClean(s, es) && !Delivers(Complete(Run(s, es)), r0)
  {
    hide Drain, RamLoad.ApplyItems, ValidBlocks, Bucket, Run, RunClean;
    var a := CachedData(s.cache, AddrOf(s.blocks, p));
    var e := GuestWrite(p, a);
    RunMore(s, [], e);
    assert [] + [e] == [e];
    var s1 := Step(s, e);
    var s2 := Sync(s1);
    assert CachedAsIs(s2, p);
    DrainSkipsCached(s2, r0, p);
    var d := Drain(s2);
    var final := Complete(s1);
    forall r' | Arrived(final, r0, r')
      ensures !SameMemory(final, r')
    {
      var r1 := ArrivedBefore(d, final, r0, r');
      var r2 :| Arrived(s2, r0, r2) && r1.mem[KeyOf(s.blocks, p)] == r2.mem[KeyOf(s.blocks, p)];
      assert r2 == r;
    }
  }

  /** What the cache never holds. */
  ghost predicate NoDupCached(s: Sender)
    requires Valid(s)
  {
    s.xbzrle ==>
      forall p :: InBlocks(s.blocks, p) && IsCached(s.cache, AddrOf(s.blocks, p))
                  ==> !IsDup(CachedData(s.cache, AddrOf(s.blocks, p)))
  }

  /** A duplicate page is never put in the cache. */
  lemma SavePageNoDup(s: Sender, p: Pos, lastStage: bool)
    requires Valid(s) && NoDupCached(s) && InBlocks(s.blocks, p)
    ensures var s' := SavePage(s, p, lastStage).s;
            Valid(s') && NoDupCached(s')
  {
    hide Xbzrle.Encode, ValidBlocks, IsDup, Bucket, Insert;
    SavePageValid(s, p, lastStage);
    SavePageFrame(s, p, lastStage);
    var addr, s' := AddrOf(s.blocks, p), SavePage(s, p, lastStage).s;
    if s.xbzrle && s'.cache != s.cache {
      assert s'.cache == Insert(s.cache, addr, s.mem[p]);
      InsertHolds(s.cache, addr, s.mem[p]);
    }
  }

  lemma InsertHolds(cache: Cache, addr: nat, data: Page)
    requires |cache| > 0
    ensures var c := Insert(cache, addr, data);
            && |c| == |cache|
            && forall a :: IsCached(c, a) ==>
                 CachedData(c, a) == data || (IsCached(cache, a) && CachedData(c, a) == CachedData(cache, a))
  {
  }

  lemma {:induction false} ScanNoDup(s: Sender, f: nat, n: nat, sent: int, lastStage: bool)
    requires Valid(s) && NoDupCached(s) && f < TotalPages(s.blocks)
    ensures NoDupCached(Scan(s, f, n, sent, lastStage).s)
    decreases n
  {
    hide SavePage, NoDupCached, Unflat, ValidBlocks;
    if n == 0 {
    } else {
      var next, p := Next(TotalPages(s.blocks), f), Unflat(s.blocks, 0, f);
      if p !in s.dirty {
        ScanNoDup(s, next, n - 1, sent, lastStage);
      } else {
        SavePageNoDup(s, p, lastStage);
        SavePageFrame(s, p, lastStage);
        var saved := SavePage(s, p, lastStage);
        ScanNoDup(saved.s, next, n - 1, 0, lastStage);
      }
    }
  }

  /** No state a migration reaches has a duplicate page in the cache. */
  lemma {:induction false} RunNoDup(s: Sender, es: seq<Event>)
    requires Valid(s) && FirstCallPrints(s) && NoDupCached(s)
    ensures NoDupCached(Run(s, es))
    decreases |es|
  {
    hide Scan, ValidBlocks, IsDup, IsCached, CachedData;
    if es == [] {
    } else {
      RunNoDup(s, es[..|es| - 1]);
      var s1 := Run(s, es[..|es| - 1]);
      ScanNoDup(s1, StartOf(s1), TotalPages(s1.blocks), -1, false);
    }
  }

  lemma ReachedNoDup(blocks: seq<Block>, xbzrle: bool, mem: map<Pos, Page>, slots: nat, es: seq<Event>)
    requires ValidBlocks(blocks) && slots > 0 && forall p :: InBlocks(blocks, p) ==> p in mem
    ensures NoDupCached(Run(Setup(blocks, xbzrle, mem, slots), es))
  {
    hide Run, ValidBlocks;
    RunNoDup(Setup(blocks, xbzrle, mem, slots), es);
  }

  /**
   * Exactly when XBZRLE is safe: every clean continuation of a state delivers the guest if and only
   * if every cached page is the page the destination holds.
   */
  lemma CacheMatchesIffDelivers(s: Sender, r0: Receiver, r: Receiver)
    requires Synced(s, r) && RamLoad.SameBlocks(s.blocks, r0) && Arrived(s, r0, r) && NoDupCached(s)
    ensures CacheMatches(s, r, AllPages(s.blocks))
            <==> forall es :: RunClean(s, es) ==> Delivers(Complete(Run(s, es)), r0)
  {
    hide RunClean, Complete, Run, ValidBlocks, RamLoad.ApplyItems, FirstCallPrints, Bucket, SameMemory;
    if CacheMatches(s, r, AllPages(s.blocks)) {
      forall es | RunClean(s, es)
        ensures Delivers(Complete(Run(s, es)), r0)
      {
        var r1 := RunInStep(s, r0, r, es);
        var r2 := CompleteDelivers(Run(s, es), r0, r1);
      }
    } else {
      var p :| p in AllPages(s.blocks) && InBlocks(s.blocks, p) && IsCached(s.cache, AddrOf(s.blocks, p))
               && CachedData(s.cache, AddrOf(s.blocks, p)) != r.mem[KeyOf(s.blocks, p)];
      StaleCacheLosesPage(s, r0, r, p);
    }
  }

  /**
   * The duplicate page branch does make a cache entry stale: saving a cached page as a duplicate
   * leaves a state in step from which a clean continuation loses that page.
   */
  lemma DupOfCachedLosesPage(s: Sender, r0: Receiver, r: Receiver, p: Pos)
    requires InStep(s, r0, r, false) && p in s.dirty && DupOfCached(s, p)
    ensures var s' := StopAt(SavePage(s, p, false).s, p);
            && Valid(s') && FirstCallPrints(s')
            && var es := [GuestWrite(p, CachedData(s.cache, AddrOf(s.blocks, p)))];
               RunClean(s', es) && !Delivers(Complete(Run(s', es)), r0)
  {
    hide RunClean, Complete, Run, ValidBlocks, RamLoad.ApplyItems, Bucket, Xbzrle.Encode;
    SavePageDelivers(s, r, p, false);
    SavePageSyncs(s, r, p, false);
    var saved := SavePage(s, p, false);
    var s', r' := StopAt(saved.s, p), Store(s.blocks, r, p, s.mem[p]);
    ArrivedMore(s, s', r0, r, saved.s.items[|s.items|]);
    StaleCacheLosesPage(s', r0, r', p);
  }

  /** A scan that is not clean stops by sending a cached page as a duplicate, with both ends in step until then. */
  lemma {:induction false} ScanMeetsDup(s: Sender, r0: Receiver, r: Receiver, f: nat, n: nat, sent: int)
    returns (s1: Sender, p: Pos)
    requires InStep(s, r0, r, false) && f < TotalPages(s.blocks) && !ScanClean(s, f, n)
    ensures InStep(s1, r0, r, false) && p in s1.dirty && s1.blocks == s.blocks && DupOfCached(s1, p)
    ensures var res := Scan(s, f, n, sent, false);
            res.sent > 0 && res.s == SavePage(s1, p, false).s && Unflat(s.blocks, 0, res.f) == p
    decreases n
  {
    hide SavePage, InStep, Unflat, DupOfCached, Valid;
    InStepValid(s, r0, r, false);
    ScanStep(s, f, n, sent, false);
    var next := Next(TotalPages(s.blocks), f);
    s1, p := s, Unflat(s.blocks, 0, f);
    if p !in s.dirty {
      s1, p := ScanMeetsDup(s, r0, r, next, n - 1, sent);
    } else if DupOfCached(s, p) {
      DupIsSent(s, p);
    } else {
      var _ := SavePageInStep(s, r0, r, p, false);
      SavePageFrame(s, p, false);
      s1, p := ScanMeetsDup(SavePage(s, p, false).s, r0, r, next, n - 1, 0);
    }
  }

  lemma DupIsSent(s: Sender, p: Pos)
    requires Valid(s) && InBlocks(s.blocks, p) && DupOfCached(s, p)
    ensures SavePage(s, p, false).sent > 0
  {
  }

  /** Every clean continuation, then completion, delivers the guest. */
  ghost predicate Safe(s: Sender, r0: Receiver)
    requires Valid(s) && FirstCallPrints(s) && RamLoad.SameBlocks(s.blocks, r0)
  {
    forall es :: RunClean(s, es) ==> Delivers(Complete(Run(s, es)), r0)
  }

  lemma InStepIsSafe(s: Sender, r0: Receiver, r: Receiver)
    requires InStep(s, r0, r, false)
    ensures Safe(s, r0)
  {
    hide RunClean, Complete, Run, ValidBlocks, RamLoad.ApplyItems, SameMemory, CacheOk;
    forall es | RunClean(s, es) ensures Delivers(Complete(Run(s, es)), r0) {
      var r1 := RunInStep(s, r0, r, es);
      var r2 := CompleteDelivers(Run(s, es), r0, r1);
    }
  }

  lemma DupOfCachedIsUnsafe(s: Sender, r0: Receiver, r: Receiver, p: Pos)
    requires InStep(s, r0, r, false) && p in s.dirty && DupOfCached(s, p)
    ensures var s' := StopAt(SavePage(s, p, false).s, p);
            Valid(s') && FirstCallPrints(s') && RamLoad.SameBlocks(s'.blocks, r0) && !Safe(s', r0)
  {
    hide RunClean, Complete, Run, ValidBlocks, RamLoad.ApplyItems, Bucket, SavePage;
    SavePageFrame(s, p, false);
    DupOfCachedLosesPage(s, r0, r, p);
  }

  /** A save leaves the migration safe exactly when it sends no cached page as a duplicate: the sender can tell. */
  lemma CleanIffSafe(s: Sender, r0: Receiver, r: Receiver)
    requires InStep(s, r0, r, false)
    ensures Clean(s, SaveNext) <==> Safe(Step(s, SaveNext), r0)
  {
    hide InStep, ScanClean, Scan, Safe, SavePage, Unflat, DupOfCached, Valid;
    InStepValid(s, r0, r, false);
    if Clean(s, SaveNext) {
      var r' := StepInStep(s, r0, r, SaveNext);
      InStepIsSafe(Step(s, SaveNext), r0, r');
    } else {
      var s1, p := ScanMeetsDup(s, r0, r, StartOf(s), TotalPages(s.blocks), -1);
      InStepValid(s1, r0, r, false);
      DupOfCachedIsUnsafe(s1, r0, r, p);
      assert Step(s, SaveNext) == StopAt(SavePage(s1, p, false).s, p);
    }
  }

  /** Every state on the way of a run is safe. */
  ghost predicate SafeThroughout(s: Sender, r0: Receiver, es: seq<Event>)
    requires Valid(s) && FirstCallPrints(s) && RamLoad.SameBlocks(s.blocks, r0)
  {
    Safe(Run(s, es), r0) && (es == [] || SafeThroughout(s, r0, es[..|es| - 1]))
  }

  /** It is so exactly when the run is clean. */
  lemma {:induction false} RunCleanIffSafe(s: Sender, r0: Receiver, r: Receiver, es: seq<Event>)
    requires InStep(s, r0, r, false)
    ensures Valid(s) && FirstCallPrints(s) && RamLoad.SameBlocks(s.blocks, r0)
    ensures RunClean(s, es) <==> SafeThroughout(s, r0, es)
    decreases |es|
  {
    hide InStep, Safe, Clean, Step, Run, RunClean, Valid, FirstCallPrints, RamLoad.SameBlocks;
    InStepBlocks(s, r0, r);
    if es == [] {
      InStepIsSafe(s, r0, r);
      RunMore(s, [], SyncLog);
    } else {
      var last, init := es[|es| - 1], es[..|es| - 1];
      assert es == init + [last];
      RunCleanIffSafe(s, r0, r, init);
      RunMore(s, init, last);
      if RunClean(s, init) {
        var r1 := RunInStep(s, r0, r, init);
        StepCleanIffSafe(Run(s, init), r0, r1, last);
      }
    }
  }

  lemma InStepBlocks(s: Sender, r0: Receiver, r: Receiver)
    requires InStep(s, r0, r, false)
    ensures Valid(s) && FirstCallPrints(s) && RamLoad.SameBlocks(s.blocks, r0)
  {
  }

  lemma StepCleanIffSafe(s: Sender, r0: Receiver, r: Receiver, e: Event)
    requires InStep(s, r0, r, false)
    ensures Clean(s, e) <==> Safe(Step(s, e), r0)
  {
    hide InStep, Safe, ScanClean, Step;
    InStepValid(s, r0, r, false);
    if e.SaveNext? {
      CleanIffSafe(s, r0, r);
    } else {
      var r' := StepInStep(s, r0, r, e);
      InStepIsSafe(Step(s, e), r0, r');
    }
  }

  /** The same from setup: a migration stays safe throughout exactly when no cached page goes out as a duplicate. */
  lemma MigrationSafeIff(blocks: seq<Block>, xbzrle: bool, mem: map<Pos, Page>, slots: nat, es: seq<Event>,
                         r0: Receiver)
    requires ValidBlocks(blocks) && slots > 0 && forall p :: InBlocks(blocks, p) ==> p in mem
    requires RamLoad.SameBlocks(blocks, r0) && r0.xbzrle == xbzrle
    ensures var s := Setup(blocks, xbzrle, mem, slots);
            RunClean(s, es) <==> SafeThroughout(s, r0, es)
  {
    hide InStep, SafeThroughout, RunClean, ValidBlocks, RamLoad.SameBlocks;
    SetupInStep(blocks, xbzrle, mem, slots, r0);
    RunCleanIffSafe(Setup(blocks, xbzrle, mem, slots), r0, r0, es);
  }

  /** On a machine with one page, a call that sends it stops at it. */
  lemma OnePageSave(s: Sender)
    requires Valid(s) && TotalPages(s.blocks) == 1 && InBlocks(s.blocks, Pos(0, 0)) && Pos(0, 0) in s.dirty
    requires SavePage(s, Pos(0, 0), false).sent > 0
    ensures SaveBlock(s, false).s == StopAt(SavePage(s, Pos(0, 0), false).s, Pos(0, 0))
  {
    hide SavePage, ValidBlocks;
    assert Unflat(s.blocks, 0, 0) == Pos(0, 0) by {
      UnflatFlat(s.blocks, 0, Pos(0, 0));
      assert Flat(s.blocks, 0, Pos(0, 0)) == 0;
    }
  }

  /** The first save of such a machine sends and caches its page. */
  lemma OnePageCached(block: Block, a: Page, slots: nat, r0: Receiver) returns (r: Receiver)
    requires ValidBlock(block) && block.pages == 1 && !IsDup(a) && slots > 0
    requires ValidBlocks([block]) && RamLoad.SameBlocks([block], r0) && r0.xbzrle
    requires forall q :: InBlocks([block], q) ==> q == Pos(0, 0)
    ensures InBlocks([block], Pos(0, 0)) && TotalPages([block]) == 1
    ensures var p := Pos(0, 0);
            var s := Step(Setup([block], true, map[p := a], slots), SaveNext);
            && InStep(s, r0, r, false) && s.blocks == [block] && s.xbzrle
            && IsCached(s.cache, AddrOf(s.blocks, p)) && CachedData(s.cache, AddrOf(s.blocks, p)) == a
  {
    hide RamLoad.ApplyItems, Bucket, Xbzrle.Encode, Scan, SaveBlock, ScanClean, ValidBlocks;
    var p := Pos(0, 0);
    var mem := map[p := a];
    var s := Setup([block], true, mem, slots);
    assert PagesFrom([block], 1) == 0;
    assert TotalPages([block]) == 1;
    SetupInStep([block], true, mem, slots, r0);
    assert !IsCached(s.cache, AddrOf(s.blocks, p));
    OnePageSave(s);
    r := SavePageInStep(s, r0, r0, p, false);
  }

  /**
   * The whole failing run, from setup: a page is sent, becomes a duplicate page, is sent again, and
   * goes back to what it was. Completion finds it unmodified and the destination keeps the duplicate.
   */
  lemma CounterexampleRun(block: Block, a: Page, z: Page, slots: nat, r0: Receiver)
    requires ValidBlock(block) && block.pages == 1 && !IsDup(a) && IsDup(z) && slots > 0
    requires ValidBlocks([block]) && RamLoad.SameBlocks([block], r0) && r0.xbzrle
    ensures var p := Pos(0, 0);
            var s := Setup([block], true, map[p := a], slots);
            var es := [SaveNext, GuestWrite(p, z), SyncLog, SaveNext, GuestWrite(p, a)];
            !Delivers(Complete(Run(s, es)), r0)
  {
    hide Run, RunClean, Complete, RamLoad.ApplyItems, Bucket, Xbzrle.Encode, Scan, SaveBlock, ScanClean;
    hide ValidBlocks, Setup;
    var p := Pos(0, 0);
    var s0 := Setup([block], true, map[p := a], slots);
    var r1 := OnePageCached(block, a, slots, r0);
    var s1 := Step(s0, SaveNext);
    var r2 := StepInStep(s1, r0, r1, GuestWrite(p, z));
    var s2 := Step(s1, GuestWrite(p, z));
    var r3 := StepInStep(s2, r0, r2, SyncLog);
    var s3 := Step(s2, SyncLog);
    assert CachedData(s3.cache, AddrOf(s3.blocks, p)) == a && s3.mem[p] == z;
    OnePageSave(s3);
    DupOfCachedLosesPage(s3, r0, r3, p);
    FiveEvents(s0, SaveNext, GuestWrite(p, z), SyncLog, SaveNext, GuestWrite(p, a));
    RunMore(Step(s3, SaveNext), [], GuestWrite(p, a));
    assert [] + [GuestWrite(p, a)] == [GuestWrite(p, a)];
  }

  lemma FiveEvents(s: Sender, e1: Event, e2: Event, e3: Event, e4: Event, e5: Event)
    requires Valid(s) && FirstCallPrints(s)
    ensures Run(s, [e1, e2, e3, e4, e5]) == Step(Step(Step(Step(Step(s, e1), e2), e3), e4), e5)
  {
    hide Step, Run;
    assert [] + [e1] == [e1] && [e1] + [e2] == [e1, e2] && [e1, e2] + [e3] == [e1, e2, e3];
    assert [e1, e2, e3] + [e4] == [e1, e2, e3, e4] && [e1, e2, e3, e4] + [e5] == [e1, e2, e3, e4, e5];
    RunMore(s, [], e1);
    RunMore(s, [e1], e2);
    RunMore(s, [e1, e2], e3);
    RunMore(s, [e1, e2, e3], e4);
    RunMore(s, [e1, e2, e3, e4], e5);
  }
}
