/** The sending side of RAM migration: the dirty page scan and the page cache behind XBZRLE. */
module RamSave {
  import opened Wire
  import opened RamStream
  import Xbzrle

  /** A bucket of the page cache: empty, or the last page put there. */
  datatype Slot = Empty | Slot(addr: nat, data: Page)

  type Cache = seq<Slot>

  /** The bucket of an address; the number of buckets is a power of two, so the mask is a remainder. */
  function Bucket(cache: Cache, addr: nat): (k: nat)
    requires |cache| > 0
    ensures k < |cache|
  {
    addr / PAGE % |cache|
  }

  predicate IsCached(cache: Cache, addr: nat)
    requires |cache| > 0
  {
    var it := cache[Bucket(cache, addr)];
    it.Slot? && it.addr == addr
  }

  function CachedData(cache: Cache, addr: nat): (p: Page)
    requires |cache| > 0 && IsCached(cache, addr)
  {
    cache[Bucket(cache, addr)].data
  }

  /** Puts a page in its bucket, evicting whatever was there. */
  function Insert(cache: Cache, addr: nat, data: Page): (c: Cache)
    requires |cache| > 0
    ensures |c| == |cache| && IsCached(c, addr) && CachedData(c, addr) == data
    ensures forall a :: a != addr ==>
              (IsCached(c, a) <==> IsCached(cache, a) && Bucket(cache, a) != Bucket(cache, addr))
    ensures forall a :: a != addr && IsCached(c, a) ==> CachedData(c, a) == CachedData(cache, a)
  {
    cache[Bucket(cache, addr) := Slot(addr, data)]
  }

  /** Everything the sender keeps between calls, and what it has printed. */
  datatype Sender = Sender(
    blocks: seq<Block>,
    xbzrle: bool,
    mem: map<Pos, Page>,
    dirty: set<Pos>,
    log: set<Pos>,
    lastBlock: Option<nat>,
    lastPage: nat,
    cache: Cache,
    items: seq<Item>)

  function AddrOf(blocks: seq<Block>, p: Pos): (a: nat)
    requires InBlocks(blocks, p)
  {
    blocks[p.b].base + p.i * PAGE
  }

  ghost predicate Valid(s: Sender) {
    && ValidBlocks(s.blocks)
    && (s.xbzrle ==> |s.cache| > 0)
    && (forall p :: InBlocks(s.blocks, p) ==> p in s.mem)
    && (forall p :: p in s.dirty + s.log ==> InBlocks(s.blocks, p))
    && (s.lastBlock.Some? ==> InBlocks(s.blocks, Pos(s.lastBlock.value, s.lastPage)))
    && (s.lastBlock.None? ==> s.lastPage == 0)
    && ValidItems(s.blocks, s.items)
  }

  /** Before the first call the first page is dirty and not cached: that call prints it. */
  ghost predicate FirstCallPrints(s: Sender) {
    s.lastBlock.None? ==> Pos(0, 0) in s.dirty && (s.xbzrle ==> forall k :: 0 <= k < |s.cache| ==> s.cache[k].Empty?)
  }

  datatype Saved = Saved(s: Sender, sent: int)

  function Emit(s: Sender, p: Pos, body: Body): (s': Sender) {
    s.(items := s.items + [PageItem(p.b, p.i, s.lastBlock == Some(p.b), body)])
  }

  /** Saves the dirty page at `p`: the new state and the bytes it counts for, 0 if nothing was sent. */
  ghost function SavePage(s: Sender, p: Pos, lastStage: bool): (r: Saved)
    requires Valid(s) && InBlocks(s.blocks, p)
  {
    var page := s.mem[p];
    var s1 := s.(dirty := s.dirty - {p});
    if IsDup(page) then
      Saved(Emit(s1, p, Dup(page[0])), 1)
    else if !s.xbzrle then
      Saved(Emit(s1, p, Raw(page)), PAGE)
    else
      var addr := AddrOf(s.blocks, p);
      if !IsCached(s.cache, addr) then
        var s2 := if lastStage then s1 else s1.(cache := Insert(s.cache, addr, page));
        Saved(Emit(s2, p, Raw(page)), PAGE)
      else
        match Xbzrle.Encode(CachedData(s.cache, addr), page, PAGE)
        case Unmodified => Saved(s1, 0)
        case Overflow => Saved(Emit(s1.(cache := Insert(s.cache, addr, page)), p, Raw(page)), PAGE)
        case Delta(bytes) =>
          var s2 := if lastStage then s1 else s1.(cache := Insert(s.cache, addr, page));
          Saved(Emit(s2, p, Body.Delta(bytes)), |bytes| + 3)
  }

  lemma SavePageValid(s: Sender, p: Pos, lastStage: bool)
    requires Valid(s) && InBlocks(s.blocks, p)
    ensures Valid(SavePage(s, p, lastStage).s) && SavePage(s, p, lastStage).sent >= 0
  {
    hide Xbzrle.Encode, Insert, IsCached, CachedData, ValidBlocks, IsDup;
    var addr := AddrOf(s.blocks, p);
    if s.xbzrle && IsCached(s.cache, addr) && Xbzrle.Encode(CachedData(s.cache, addr), s.mem[p], PAGE).Delta? {
      Xbzrle.DeltaLength(CachedData(s.cache, addr), s.mem[p], PAGE);
    }
  }

  /**
   * The scan: from flat position `f`, at most `n` pages in cyclic order, saving each dirty one
   * until one is sent. `sent` is what the pages seen so far amount to.
   */
  ghost function Scan(s: Sender, f: nat, n: nat, sent: int, lastStage: bool): (r: Scanned)
    requires Valid(s) && f < TotalPages(s.blocks)
    ensures Valid(r.s) && r.s.blocks == s.blocks && r.f < TotalPages(s.blocks)
    decreases n
  {
    var next := Next(TotalPages(s.blocks), f);
    var p := Unflat(s.blocks, 0, f);
    if n == 0 then Scanned(s, f, sent)
    else if p !in s.dirty then Scan(s, next, n - 1, sent, lastStage)
    else
      SavePageValid(s, p, lastStage);
      var r := SavePage(s, p, lastStage);
      if r.sent != 0 then Scanned(r.s, f, r.sent) else Scan(r.s, next, n - 1, 0, lastStage)
  }

  datatype Scanned = Scanned(s: Sender, f: nat, sent: int)

  ghost function StartOf(s: Sender): (f: nat)
    requires Valid(s)
    ensures f < TotalPages(s.blocks)
  {
    if s.lastBlock.None? then (assert s.blocks[0].pages > 0; 0)
    else Flat(s.blocks, 0, Pos(s.lastBlock.value, s.lastPage))
  }

  /** One call of the block saver: scan once around, remember where it stopped. */
  ghost function SaveBlock(s: Sender, lastStage: bool): (r: Saved)
    requires Valid(s)
    ensures Valid(r.s) && r.s.blocks == s.blocks
  {
    var r := Scan(s, StartOf(s), TotalPages(s.blocks), -1, lastStage);
    var p := Unflat(s.blocks, 0, r.f);
    Saved(r.s.(lastBlock := Some(p.b), lastPage := p.i), r.sent)
  }

  /** What saving a page leaves alone: the memory, the log, the scan position, other dirty bits. */
  lemma SavePageFrame(s: Sender, p: Pos, lastStage: bool)
    requires Valid(s) && InBlocks(s.blocks, p)
    ensures var r := SavePage(s, p, lastStage);
            && r.s == s.(dirty := s.dirty - {p}, cache := r.s.cache, items := r.s.items)
            && |r.s.cache| == |s.cache|
            && (r.sent == 0 ==> r.s.items == s.items && r.s.cache == s.cache)
            && (r.sent > 0 ==> OneMore(s.items, r.s.items, p, s.lastBlock))
  {
    hide Xbzrle.Encode, IsCached, CachedData, ValidBlocks, IsDup;
  }

  /**
   * Which record a page becomes. One whose bytes are all equal goes out as that byte. With XBZRLE a cached page goes
   * out as a delta if it has changed and the delta fits, and not at all if it has not changed. Any other page goes out
   * whole. The count is the length of what is printed after the header.
   */
  lemma SavePageChooses(s: Sender, p: Pos, lastStage: bool)
    requires Valid(s) && InBlocks(s.blocks, p)
    ensures var r, page, addr := SavePage(s, p, lastStage), s.mem[p], AddrOf(s.blocks, p);
            var allEqual := forall k :: 0 <= k < PAGE ==> page[k] == page[0];
            var cached := s.xbzrle && IsCached(s.cache, addr);
            && (r.sent == 0 <==> !allEqual && cached && CachedData(s.cache, addr) == page)
            && (r.sent != 0 ==>
                  && |r.s.items| == |s.items| + 1
                  && var body := r.s.items[|s.items|].body;
                     && r.sent == |PrintBody(body)|
                     && (body.Dup? <==> allEqual) && (body.Dup? ==> body.ch == page[0])
                     && (body.Delta? <==>
                           !allEqual && cached && Xbzrle.Encode(CachedData(s.cache, addr), page, PAGE).Delta?)
                     && (body.Delta? ==>
                           Xbzrle.Encode(CachedData(s.cache, addr), page, PAGE) == Xbzrle.Delta(body.bytes))
                     && (body.Raw? ==> body.data == page))
  {
    hide Xbzrle.Encode, ValidBlocks, Bucket;
    SavePageFrame(s, p, lastStage);
    SavePageValid(s, p, lastStage);
    var addr := AddrOf(s.blocks, p);
    if s.xbzrle && IsCached(s.cache, addr) {
      Xbzrle.UnmodifiedIffEqual(CachedData(s.cache, addr), s.mem[p], PAGE);
    }
  }

  /**
   * What saving a page leaves in the cache: that page, if XBZRLE is on, its bytes are not all equal, and it is not the
   * last stage. The last stage refreshes only a page whose delta did not fit. Other buckets stay as they were.
   */
  lemma SavePageCaches(s: Sender, p: Pos, lastStage: bool)
    requires Valid(s) && InBlocks(s.blocks, p) && s.xbzrle
    ensures var r, page, addr := SavePage(s, p, lastStage), s.mem[p], AddrOf(s.blocks, p);
            var allEqual := forall k :: 0 <= k < PAGE ==> page[k] == page[0];
            var overflow := IsCached(s.cache, addr) && Xbzrle.Encode(CachedData(s.cache, addr), page, PAGE).Overflow?;
            && |r.s.cache| == |s.cache|
            && (allEqual || (lastStage && !overflow) ==> r.s.cache == s.cache)
            && (!allEqual && (!lastStage || overflow) ==>
                  && IsCached(r.s.cache, addr) && CachedData(r.s.cache, addr) == page
                  && forall k :: 0 <= k < |s.cache| && k != addr / PAGE % |s.cache| ==> r.s.cache[k] == s.cache[k])
  {
    hide Xbzrle.Encode, ValidBlocks;
    var addr := AddrOf(s.blocks, p);
    if IsCached(s.cache, addr) {
      Xbzrle.UnmodifiedIffEqual(CachedData(s.cache, addr), s.mem[p], PAGE);
    }
  }

  function Next(total: nat, f: nat): (g: nat)
    requires f < total
    ensures g < total
  {
    if f + 1 == total then 0 else f + 1
  }

  /** The flat position `k` steps after `f`, in cyclic order. */
  ghost function Walk(total: nat, f: nat, k: nat): (g: nat)
    requires f < total
    ensures g < total
    decreases k
  {
    if k == 0 then f else Walk(total, Next(total, f), k - 1)
  }

  /** The pages met in `k` steps from `f`. */
  ghost function Passed(blocks: seq<Block>, f: nat, k: nat): (ps: set<Pos>)
    requires f < TotalPages(blocks)
    decreases k
  {
    if k == 0 then {} else {Unflat(blocks, 0, f)} + Passed(blocks, Next(TotalPages(blocks), f), k - 1)
  }

  /** The items `items'` are `items` and one record for page `p`, continued if `p` is in block `last`. */
  ghost predicate OneMore(items: seq<Item>, items': seq<Item>, p: Pos, last: Option<nat>) {
    && |items'| == |items| + 1
    && var it := items'[|items|];
       && items' == items + [it]
       && it.PageItem? && it.b == p.b && it.i == p.i
       && (it.cont <==> last == Some(p.b))
  }

  /** How a scan ends: `k` pages passed over, then the page that was sent, if one was. */
  ghost predicate ScanEnds(s: Sender, f: nat, n: nat, sent: int, r: Scanned, k: nat)
    requires f < TotalPages(s.blocks)
  {
    && r.s == s.(dirty := r.s.dirty, cache := r.s.cache, items := r.s.items)
    && |r.s.cache| == |s.cache|
    && r.f == Walk(TotalPages(s.blocks), f, k)
    && if r.sent > 0 then
         && k < n
         && r.s.dirty == s.dirty - Passed(s.blocks, f, k + 1)
         && Unflat(s.blocks, 0, r.f) in s.dirty
         && OneMore(s.items, r.s.items, Unflat(s.blocks, 0, r.f), s.lastBlock)
       else
         && k == n
         && r.s.dirty == s.dirty - Passed(s.blocks, f, k)
         && r.s.items == s.items
         && r.sent == if sent == -1 && s.dirty !! Passed(s.blocks, f, n) then -1 else 0
  }

  /**
   * A scan goes round in cyclic order, meets each page at most once, clears the dirty bit of
   * every page it passes and of no other, and sends at most one page: the one it stops at.
   */
  lemma {:induction false} ScanOutcome(s: Sender, f: nat, n: nat, sent: int, lastStage: bool) returns (k: nat)
    requires Valid(s) && f < TotalPages(s.blocks) && (sent == -1 || sent == 0)
    ensures ScanEnds(s, f, n, sent, Scan(s, f, n, sent, lastStage), k)
    decreases n
  {
    hide Valid, Unflat, SavePage;
    k := 0;
    var p := Unflat(s.blocks, 0, f);
    var next := Next(TotalPages(s.blocks), f);
    assert Passed(s.blocks, f, 1) == {p};
    if n > 0 {
      if p !in s.dirty {
        k := ScanOutcome(s, next, n - 1, sent, lastStage);
        k := k + 1;
      } else {
        SavePageValid(s, p, lastStage);
        SavePageFrame(s, p, lastStage);
        var r := SavePage(s, p, lastStage);
        if r.sent == 0 {
          k := ScanOutcome(r.s, next, n - 1, 0, lastStage);
          k := k + 1;
        }
      }
    }
  }

  lemma {:induction false} WalkIs(total: nat, f: nat, k: nat)
    requires f < total && k <= total
    ensures Walk(total, f, k) == if f + k < total then f + k else f + k - total
    decreases k
  {
    if k == 0 {
    } else {
      WalkIs(total, Next(total, f), k - 1);
    }
  }

  lemma {:induction false} WalkMore(total: nat, f: nat, k: nat)
    requires f < total
    ensures Walk(total, f, k + 1) == Next(total, Walk(total, f, k))
    decreases k
  {
    if k == 0 {
    } else {
      WalkMore(total, Next(total, f), k - 1);
    }
  }

  lemma {:induction false} PassedHas(blocks: seq<Block>, f: nat, n: nat, k: nat)
    requires f < TotalPages(blocks) && k < n
    ensures Unflat(blocks, 0, Walk(TotalPages(blocks), f, k)) in Passed(blocks, f, n)
    decreases n
  {
    if k == 0 {
    } else {
      PassedHas(blocks, Next(TotalPages(blocks), f), n - 1, k - 1);
    }
  }

  /** Once around meets every page. */
  lemma PassedAll(blocks: seq<Block>, f: nat, p: Pos)
    requires f < TotalPages(blocks) && InBlocks(blocks, p)
    ensures p in Passed(blocks, f, TotalPages(blocks))
  {
    var total, g := TotalPages(blocks), Flat(blocks, 0, p);
    var k := if g >= f then g - f else g + total - f;
    WalkIs(total, f, k);
    PassedHas(blocks, f, total, k);
    UnflatFlat(blocks, 0, p);
  }

  /**
   * The block saver reports that nothing is left exactly when no page is dirty, and otherwise
   * strictly shrinks the dirty set; it never touches the memory or the log.
   */
  lemma SaveBlockProgress(s: Sender, lastStage: bool)
    requires Valid(s)
    ensures var r := SaveBlock(s, lastStage);
            && (r.sent == -1 <==> s.dirty == {})
            && (r.sent != -1 ==> r.s.dirty < s.dirty)
            && (r.sent <= 0 ==> r.s.dirty == {} && r.s.items == s.items)
            && r.s.mem == s.mem && r.s.log == s.log && r.s.lastBlock.Some?
            && (r.sent > 0 ==>
                  exists p :: p in s.dirty && r.s.lastBlock == Some(p.b) && OneMore(s.items, r.s.items, p, s.lastBlock))
  {
    var total, f := TotalPages(s.blocks), StartOf(s);
    var k := ScanOutcome(s, f, total, -1, lastStage);
    forall p | p in s.dirty
      ensures p in Passed(s.blocks, f, total)
    {
      PassedAll(s.blocks, f, p);
    }
    var r := Scan(s, f, total, -1, lastStage);
    if r.sent > 0 {
      PassedHas(s.blocks, f, k + 1, k);
    }
  }

  ghost function AllPages(blocks: seq<Block>): (ps: set<Pos>)
    ensures forall p :: p in ps <==> InBlocks(blocks, p)
  {
    set b, i | 0 <= b < |blocks| && 0 <= i < blocks[b].pages :: Pos(b, i)
  }

  /** The state after setup: every page dirty, nothing cached, the block list printed. */
  ghost function Setup(blocks: seq<Block>, xbzrle: bool, mem: map<Pos, Page>, slots: nat): (s: Sender)
    requires ValidBlocks(blocks) && slots > 0 && forall p :: InBlocks(blocks, p) ==> p in mem
    ensures Valid(s) && FirstCallPrints(s)
    ensures (forall p :: p in s.dirty <==> InBlocks(blocks, p)) && s.log == {}
    ensures |s.cache| == slots && (forall a :: !IsCached(s.cache, a)) && s.items == [BlockList, Eos]
  {
    IdsValid(blocks);
    FirstPosition(blocks);
    Sender(blocks, xbzrle, mem, AllPages(blocks), {}, None, 0, seq(slots, _ => Empty), [BlockList, Eos])
  }

  /** Merges the pending log into the dirty bits. */
  ghost function Sync(s: Sender): (s': Sender) {
    s.(dirty := s.dirty + s.log, log := {})
  }

  /** The last stage: saves until nothing is dirty. */
  ghost function Drain(s: Sender): (s': Sender)
    requires Valid(s) && FirstCallPrints(s)
    ensures Valid(s') && s'.blocks == s.blocks && s'.dirty == {} && s'.mem == s.mem && s'.log == s.log
    decreases |s.dirty|
  {
    SaveBlockProgress(s, true);
    var r := SaveBlock(s, true);
    if r.sent < 0 then r.s
    else
      SmallerSet(r.s.dirty, s.dirty);
      Drain(r.s)
  }

  lemma SmallerSet<T>(a: set<T>, b: set<T>)
    requires a < b
    ensures |a| < |b|
  {
    var x :| x in b && x !in a;
    assert a <= b - {x};
    SubsetSize(a, b - {x});
  }

  lemma SubsetSize<T>(a: set<T>, b: set<T>)
    requires a <= b
    ensures |a| <= |b|
    decreases |a|
  {
    if a != {} {
      var x :| x in a;
      SubsetSize(a - {x}, b - {x});
    }
  }

  /** Completion, with the guest stopped: sync, drain, end marker. */
  ghost function Complete(s: Sender): (s': Sender)
    requires Valid(s) && FirstCallPrints(s)
    ensures Valid(s') && s'.blocks == s.blocks && s'.mem == s.mem && s'.dirty == {} && s'.log == {}
  {
    var d := Drain(Sync(s));
    d.(items := d.items + [Eos])
  }

  /** Compares the page with its splatted first byte, one vector of 16 bytes at a time. */
  method IsDupPage(page: Page) returns (dup: bool)
    ensures dup == IsDup(page)
  {
    var val: seq<Byte> := seq(16, _ => page[0]);
    for i := 0 to PAGE / 16
      invariant forall k :: 0 <= k < 16 * i ==> page[k] == page[0]
    {
      var lane := page[16 * i..16 * i + 16];
      if val != lane {
        var k :| 0 <= k < 16 && val[k] != lane[k];
        assert page[16 * i + k] != page[0];
        return false;
      }
      forall k | 16 * i <= k < 16 * i + 16
        ensures page[k] == page[0]
      {
        assert lane[k - 16 * i] == val[k - 16 * i];
      }
    }
    return true;
  }

  lemma FirstPosition(blocks: seq<Block>)
    requires ValidBlocks(blocks)
    ensures InBlocks(blocks, Pos(0, 0)) && Flat(blocks, 0, Pos(0, 0)) == 0
  {
  }

  lemma StartPosition(s: Sender)
    requires Valid(s)
    ensures var p := Pos(if s.lastBlock.None? then 0 else s.lastBlock.value, s.lastPage);
            && InBlocks(s.blocks, p) && Flat(s.blocks, 0, p) == StartOf(s) && Unflat(s.blocks, 0, StartOf(s)) == p
            && Walk(TotalPages(s.blocks), StartOf(s), 0) == StartOf(s)
            && ValidBlocks(s.blocks) && (s.lastBlock.None? ==> s.lastPage == 0)
  {
    FirstPosition(s.blocks);
    UnflatFlat(s.blocks, 0, Pos(if s.lastBlock.None? then 0 else s.lastBlock.value, s.lastPage));
  }

  /** The scan, one page at a time. */
  lemma ScanStep(s: Sender, f: nat, n: nat, sent: int, lastStage: bool)
    requires Valid(s) && f < TotalPages(s.blocks)
    ensures n == 0 ==> Scan(s, f, n, sent, lastStage) == Scanned(s, f, sent)
    ensures n > 0 ==>
      var p, next := Unflat(s.blocks, 0, f), Next(TotalPages(s.blocks), f);
      if p !in s.dirty then Scan(s, f, n, sent, lastStage) == Scan(s, next, n - 1, sent, lastStage)
      else
        var r := SavePage(s, p, lastStage);
        && Valid(r.s) && r.s.blocks == s.blocks && r.sent >= 0
        && Scan(s, f, n, sent, lastStage)
           == if r.sent != 0 then Scanned(r.s, f, r.sent) else Scan(r.s, next, n - 1, 0, lastStage)
  {
    hide Unflat, SavePage;
    if n > 0 {
      SavePageValid(s, Unflat(s.blocks, 0, f), lastStage);
      SavePageFrame(s, Unflat(s.blocks, 0, f), lastStage);
    }
  }

  lemma FinishSave(s: Sender, s': Sender, p: Pos, f: nat, sent: int, lastStage: bool)
    requires Valid(s) && InBlocks(s.blocks, p) && f < TotalPages(s.blocks) && p == Unflat(s.blocks, 0, f)
    requires Scan(s, StartOf(s), TotalPages(s.blocks), -1, lastStage) == Scanned(s', f, sent)
    ensures var r := SaveBlock(s, lastStage);
            r == Saved(s'.(lastBlock := Some(p.b), lastPage := p.i), sent) && Valid(r.s)
  {
    hide Scan, Valid;
  }

  /** One step of the scan in both views; it is back where it began after exactly one round. */
  lemma StepRound(blocks: seq<Block>, p: Pos, start: nat, steps: nat)
    requires ValidBlocks(blocks) && InBlocks(blocks, p)
    requires start < TotalPages(blocks) && steps < TotalPages(blocks)
    requires Flat(blocks, 0, p) == Walk(TotalPages(blocks), start, steps)
    ensures var q, g := Advance(blocks, p), Walk(TotalPages(blocks), start, steps + 1);
            && InBlocks(blocks, q) && Flat(blocks, 0, q) == g && Unflat(blocks, 0, g) == q
            && g == Next(TotalPages(blocks), Flat(blocks, 0, p))
            && (q == Unflat(blocks, 0, start) <==> steps + 1 == TotalPages(blocks))
  {
    var total := TotalPages(blocks);
    AdvanceFlat(blocks, 0, p);
    WalkMore(total, start, steps);
    WalkIs(total, start, steps + 1);
    FirstPosition(blocks);
    UnflatFlat(blocks, 0, Advance(blocks, p));
    FlatUnflat(blocks, 0, start);
  }

  /** The first call of all sends the first page: nothing is cached yet. */
  lemma FirstSaveSends(s: Sender, lastStage: bool)
    requires Valid(s) && FirstCallPrints(s)
    ensures s.lastBlock.None? ==>
              && InBlocks(s.blocks, Pos(0, 0)) && Pos(0, 0) in s.dirty
              && SavePage(s, Pos(0, 0), lastStage).sent > 0
  {
  }

  lemma SyncValid(s: Sender)
    requires Valid(s) && FirstCallPrints(s)
    ensures Valid(Sync(s)) && FirstCallPrints(Sync(s))
  {
  }

  lemma ConsistentEos(s: Sender)
    requires Valid(s)
    ensures Valid(s.(items := s.items + [Eos]))
    ensures (IdsValid(s.blocks); Print(s.blocks, s.items + [Eos]) == Print(s.blocks, s.items) + PutBe(FLAG_EOS, 8))
  {
    IdsValid(s.blocks);
    PrintAppend(s.blocks, s.items, Eos);
  }

  /** The sender as a running program. */
  class RamSaver {
    const blocks: seq<Block>
    const xbzrle: bool
    var mem: map<Pos, Page>
    var dirty: set<Pos>
    var log: set<Pos>
    var lastBlock: Option<nat>
    var lastPage: nat
    var cache: Cache
    var out: seq<Byte>
    ghost var items: seq<Item>

    ghost function State(): (s: Sender)
      reads this
    {
      Sender(blocks, xbzrle, mem, dirty, log, lastBlock, lastPage, cache, items)
    }

    ghost predicate Consistent()
      reads this
    {
      Valid(State()) && out == Print(blocks, items)
    }

    /** Prints one page record. */
    method Put(p: Pos, body: Body)
      requires Consistent() && InBlocks(blocks, p)
      requires body.Delta? ==> 0 < |body.bytes| <= PAGE
      modifies this`out, this`items
      ensures Consistent() && State() == Emit(old(State()), p, body)
    {
      hide PutBe, BitOr, PrintId, ValidBlocks, Print;
      IdsValid(blocks);
      var cont := lastBlock == Some(p.b);
      ghost var it := PageItem(p.b, p.i, cont, body);
      PrintAppend(blocks, items, it);
      out := out + (PrintHeader(blocks[p.b].id, p.i * PAGE, cont, BodyFlag(body)) + PrintBody(body));
      items := items + [it];
    }

    /** The XBZRLE branch for a page that is not a duplicate: -1 if the page must be sent whole. */
    method SaveXbzrlePage(p: Pos, lastStage: bool) returns (sent: int)
      requires Consistent() && InBlocks(blocks, p) && xbzrle
      modifies this`out, this`items, this`cache
      ensures Consistent()
      ensures var s, addr, page := old(State()), AddrOf(blocks, p), mem[p];
              if !IsCached(old(cache), addr) then
                sent == -1 && State() == if lastStage then s else s.(cache := Insert(s.cache, addr, page))
              else
                match Xbzrle.Encode(CachedData(old(cache), addr), page, PAGE)
                case Unmodified => sent == 0 && State() == s
                case Overflow => sent == -1 && State() == s.(cache := Insert(s.cache, addr, page))
                case Delta(bytes) =>
                  && sent == |bytes| + 3
                  && State()
                     == Emit(if lastStage then s else s.(cache := Insert(s.cache, addr, page)), p, Body.Delta(bytes))
    {
      var addr, page := AddrOf(blocks, p), mem[p];
      if !IsCached(cache, addr) {
        if !lastStage {
          cache := Insert(cache, addr, page);
        }
        return -1;
      }
      var prev := CachedData(cache, addr);
      var encoded := new Byte[PAGE](_ => 0);
      var len := Xbzrle.EncodeBuffer(prev, page, encoded);
      if Xbzrle.Encode(prev, page, PAGE).Delta? {
        Xbzrle.DeltaLength(prev, page, PAGE);
      }
      hide Xbzrle.Encode;
      if len == 0 {
        return 0;
      } else if len == -1 {
        cache := Insert(cache, addr, page);
        return -1;
      }
      if !lastStage {
        cache := Insert(cache, addr, page);
      }
      Put(p, Body.Delta(encoded[..len]));
      return len + 3;
    }

    /** Saves the dirty page at `p`. */
    method SavePageAt(p: Pos, lastStage: bool) returns (sent: int)
      requires Consistent() && InBlocks(blocks, p)
      modifies this`out, this`items, this`cache, this`dirty
      ensures Consistent()
      ensures Saved(State(), sent) == SavePage(old(State()), p, lastStage)
    {
      hide Xbzrle.Encode, IsDup;
      dirty := dirty - {p};
      var page := mem[p];
      sent := -1;
      var dup := IsDupPage(page);
      if dup {
        Put(p, Dup(page[0]));
        sent := 1;
      } else if xbzrle {
        var addr := AddrOf(blocks, p);
        sent := SaveXbzrlePage(p, lastStage);
        if !lastStage {
          page := CachedData(cache, addr);
        }
      }
      if sent == -1 {
        Put(p, Raw(page));
        sent := PAGE;
      }
    }

    /** Sends the next dirty page in cyclic order: its size, 0 if all were unmodified, -1 if none is dirty. */
    method SaveBlockStep(lastStage: bool) returns (sent: int)
      requires Consistent() && FirstCallPrints(State())
      modifies this`out, this`items, this`cache, this`dirty, this`lastBlock, this`lastPage
      ensures Consistent()
      ensures Saved(State(), sent) == SaveBlock(old(State()), lastStage)
    {
      hide Unflat, Flat, SavePage, Scan, Valid, ValidBlocks, FirstCallPrints, Print, Walk, StartOf, Advance, PagesFrom,
        OneMore, SaveBlock;
      var p := Pos(if lastBlock.None? then 0 else lastBlock.value, lastPage);
      ghost var s0, start, total := State(), StartOf(State()), TotalPages(blocks);
      ghost var f, left := start, total;
      ghost var result := Scan(s0, start, total, -1, lastStage);
      sent := -1;
      StartPosition(s0);
      var going := true;
      while going
        invariant Consistent() && State() == s0.(dirty := dirty, cache := cache, items := items)
        invariant InBlocks(blocks, p) && f < total && p == Unflat(blocks, 0, f) && f == Flat(blocks, 0, p)
        invariant left <= total && (sent == -1 || sent == 0 || !going)
        invariant going ==> left > 0 && f == Walk(total, start, total - left)
        invariant going ==> result == Scan(State(), f, left, sent, lastStage)
        invariant going && lastBlock.None? ==> left == total && State() == s0
        invariant !going ==> result == Scanned(State(), f, sent)
        decreases going, left
      {
        ScanStep(State(), f, left, sent, lastStage);
        FirstSaveSends(s0, lastStage);
        if p in dirty {
          SavePageFrame(State(), p, lastStage);
          sent := SavePageAt(p, lastStage);
          if sent != 0 {
            break;
          }
        }
        StepRound(blocks, p, start, total - left);
        p := Advance(blocks, p);
        f, left := Next(total, f), left - 1;
        going := Some(p.b) != lastBlock || p.i != lastPage;
        ScanStep(State(), f, left, sent, lastStage);
      }
      FinishSave(s0, State(), p, f, sent, lastStage);
      lastBlock := Some(p.b);
      lastPage := p.i;
    }

    /** Setup: all pages dirty, nothing remembered, the block list printed. */
    constructor (blocks: seq<Block>, xbzrle: bool, mem: map<Pos, Page>, slots: nat)
      requires ValidBlocks(blocks) && slots > 0 && forall p :: InBlocks(blocks, p) ==> p in mem
      ensures Consistent() && State() == Setup(blocks, xbzrle, mem, slots)
    {
      this.blocks, this.xbzrle, this.mem := blocks, xbzrle, mem;
      dirty, log, lastBlock, lastPage := {}, {}, None, 0;
      cache := seq(slots, _ => Empty);
      out, items := [], [];
      new;
      hide Valid, Print, PutBe, BitOr, PrintId;
      IdsValid(blocks);
      for b := 0 to |blocks|
        invariant forall p :: p in dirty <==> InBlocks(blocks, p) && p.b < b
        invariant out == [] && items == [] && lastBlock.None? && lastPage == 0 && log == {}
        invariant this.mem == mem && cache == seq(slots, _ => Empty)
      {
        for i := 0 to blocks[b].pages
          invariant forall p :: p in dirty <==> InBlocks(blocks, p) && (p.b < b || (p.b == b && p.i < i))
          invariant out == [] && items == [] && lastBlock.None? && lastPage == 0 && log == {}
          invariant this.mem == mem && cache == seq(slots, _ => Empty)
        {
          if Pos(b, i) !in dirty {
            dirty := dirty + {Pos(b, i)};
          }
        }
      }
      assert dirty == AllPages(blocks);
      PrintBlockList();
    }

    /** Prints the total, the block list and the end marker. */
    method PrintBlockList()
      requires ValidBlocks(blocks) && out == [] && items == []
      modifies this`out, this`items
      ensures ValidItems(blocks, items) && items == [BlockList, Eos]
      ensures (IdsValid(blocks); out == Print(blocks, items))
    {
      hide PutBe, BitOr, PrintId, ValidBlocks, Print;
      IdsValid(blocks);
      var total := SumPages();
      out := PutBe(BitOr(total, FLAG_MEM_SIZE), 8);
      ghost var list := PrintItem(blocks, BlockList);
      for b := 0 to |blocks|
        invariant out + PrintBlocks(blocks, b) == list && items == []
      {
        out := out + (PrintId(blocks[b].id) + PutBe(blocks[b].pages * PAGE, 8));
      }
      out := out + PutBe(FLAG_EOS, 8);
      PrintAppend(blocks, [], BlockList);
      PrintAppend(blocks, [BlockList], Eos);
      items := [BlockList, Eos];
      NothingPrinted(blocks);
      assert [] + [BlockList] == [BlockList] && [BlockList] + [Eos] == items;
    }

    /** The loop of `ram_bytes_total`. */
    method SumPages() returns (total: nat)
      ensures total == TotalPages(blocks) * PAGE
    {
      total := 0;
      for b := 0 to |blocks|
        invariant total + PagesFrom(blocks, b) * PAGE == TotalPages(blocks) * PAGE
      {
        total := total + blocks[b].pages * PAGE;
      }
    }

    /** Completion: sync, save until nothing is dirty, end marker. */
    method SaveComplete()
      requires Consistent() && FirstCallPrints(State())
      modifies this
      ensures Consistent() && State() == Complete(old(State()))
    {
      hide Valid, Print, SaveBlock, PrintItem;
      dirty, log := dirty + log, {};
      SyncValid(old(State()));
      ghost var s0 := State();
      var more := true;
      while more
        invariant Consistent() && (more ==> FirstCallPrints(State()))
        invariant more ==> Drain(s0) == Drain(State())
        invariant !more ==> Drain(s0) == State()
        decreases more, |dirty|
      {
        ghost var s := State();
        SaveBlockProgress(s, true);
        var sent := SaveBlockStep(true);
        if sent < 0 {
          more := false;
        } else {
          SmallerSet(dirty, s.dirty);
        }
      }
      ConsistentEos(State());
      out := out + PutBe(FLAG_EOS, 8);
      items := items + [Eos];
    }
  }
}
