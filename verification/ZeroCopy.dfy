/** Zero copy: pinning the pages of user buffers and describing them by scatterlists. */
module ZeroCopy {
  import opened Arith
  import opened Scatter
  import opened Wire

  /** The physical address of user address `v`: `frame` maps user pages to physical ones. */
  ghost function Phys(frame: nat -> nat, p: nat, v: nat): nat
    requires p > 0
  {
    frame(v / p) * p + v % p
  }

  /** The physical addresses of `len` user bytes from `addr` on. */
  ghost function UserSpan(frame: nat -> nat, p: nat, addr: nat, len: nat): (r: seq<nat>)
    requires p > 0
    ensures |r| == len && forall k :: 0 <= k < len ==> r[k] == Phys(frame, p, addr + k)
  {
    if len == 0 then [] else UserSpan(frame, p, addr, len - 1) + [Phys(frame, p, addr + len - 1)]
  }

  ghost predicate Injective(frame: nat -> nat) {
    forall q, r :: frame(q) == frame(r) ==> q == r
  }

  /** Different user pages in different frames: different user bytes at different addresses. */
  lemma PhysInjective(frame: nat -> nat, p: nat, v: nat, w: nat)
    requires p > 0 && Injective(frame) && Phys(frame, p, v) == Phys(frame, p, w)
    ensures v == w
  {
    hide Injective;
    SameFrame(frame, p, v / p, v % p, w / p, w % p);
    SameNumber(p, v, w);
  }

  lemma SameFrame(frame: nat -> nat, p: nat, q: nat, r: nat, q': nat, r': nat)
    requires p > 0 && Injective(frame) && r < p && r' < p && frame(q) * p + r == frame(q') * p + r'
    ensures q == q' && r == r'
  {
    SameQuotient(p, frame(q), r, frame(q'), r');
  }

  lemma UserSpanDistinct(frame: nat -> nat, p: nat, addr: nat, len: nat)
    requires p > 0 && Injective(frame)
    ensures var s := UserSpan(frame, p, addr, len);
            forall i, j {:trigger s[i], s[j]} :: 0 <= i < j < len ==> s[i] != s[j]
  {
    hide Phys, Injective;
    var s := UserSpan(frame, p, addr, len);
    forall i: nat, j: nat | i < j < len ensures s[i] != s[j] {
      if s[i] == s[j] {
        PhysInjective(frame, p, addr + i, addr + j);
      }
    }
  }

  /** The physical pages of `n` user pages from page `q` on. */
  ghost function Frames(frame: nat -> nat, q: nat, n: nat): (r: seq<nat>)
    ensures |r| == n && forall k :: 0 <= k < n ==> r[k] == frame(q + k)
  {
    if n == 0 then [] else Frames(frame, q, n - 1) + [frame(q + n - 1)]
  }

  /** These are the pages of a buffer at `addr`. */
  ghost predicate PagesOf(pages: seq<nat>, frame: nat -> nat, p: nat, addr: nat)
    requires p > 0
  {
    pages == Frames(frame, addr / p, |pages|)
  }

  lemma FramesNone(frame: nat -> nat, q: nat)
    ensures Frames(frame, q, 0) == []
  {
  }

  lemma FramesNext(frame: nat -> nat, q: nat, i: nat)
    ensures Frames(frame, q, i + 1) == Frames(frame, q, i) + [frame(q + i)]
  {
  }

  /** PAGECOUNT: last page - first page + 1, or none. */
  function PageCount(p: nat, addr: nat, len: nat): nat
    requires p > 0
  {
    if len > 0 then
      LastPage(p, addr, addr + len - 1);
      (addr + len - 1) / p - addr / p + 1
    else 0
  }

  lemma LastPage(p: nat, x: nat, y: nat)
    requires p > 0 && x <= y
    ensures x / p <= y / p
  {
    if x / p > y / p {
      assert y < (y / p + 1) * p;
      Monotone(y / p + 1, x / p, p);
    }
  }

  /** A stretch inside one user page is one entry. */
  lemma OneEntry(frame: nat -> nat, p: nat, addr: nat, n: nat)
    requires p > 0 && addr % p + n <= p
    ensures Span(p, Entry(frame(addr / p), addr % p, n)) == UserSpan(frame, p, addr, n)
  {
    var s := Span(p, Entry(frame(addr / p), addr % p, n));
    forall k: nat | k < n ensures s[k] == UserSpan(frame, p, addr, n)[k] {
      Quotient(addr + k, p, addr / p, addr % p + k);
    }
  }

  lemma UserSpanSplits(frame: nat -> nat, p: nat, addr: nat, m: nat, n: nat)
    requires p > 0
    ensures UserSpan(frame, p, addr, m + n) == UserSpan(frame, p, addr, m) + UserSpan(frame, p, addr + m, n)
  {
    var rest := UserSpan(frame, p, addr + m, n);
    forall k: nat | k < n ensures rest[k] == UserSpan(frame, p, addr, m + n)[m + k] {
      assert addr + m + k == addr + (m + k);
    }
  }

  lemma {:induction false} EmptyEntries(p: nat, s: seq<Entry>)
    requires forall i :: 0 <= i < |s| ==> s[i].length == 0
    ensures Flatten(p, s) == []
    decreases |s|
  {
    if s == [] {
    } else {
      EmptyEntries(p, s[..|s| - 1]);
    }
  }

  /**
   * How far the loop has come: `i` pages hold the first `done` bytes, which end at a page boundary unless all are done.
   */
  ghost predicate Mapped(p: nat, addr: nat, len: nat, i: nat, done: nat) {
    && p > 0 && 0 < done <= len && i >= 1
    && (addr / p + i - 1) * p < addr + done <= (addr / p + i) * p
    && (done < len ==> addr + done == (addr / p + i) * p)
  }

  lemma MappedMore(p: nat, addr: nat, len: nat, i: nat, done: nat)
    requires Mapped(p, addr, len, i, done)
    ensures done < len ==> i < PageCount(p, addr, len) && (addr + done) / p == addr / p + i && (addr + done) % p == 0
    ensures done == len ==> i == PageCount(p, addr, len)
  {
    if done < len {
      MultipleOf(addr / p + i, p);
      LastPage(p, addr + done, addr + len - 1);
    } else {
      var q := addr / p + i - 1;
      assert (q + 1) * p == q * p + p;
      Quotient(addr + len - 1, p, q, addr + len - 1 - q * p);
    }
  }

  lemma MappedFirst(p: nat, addr: nat, len: nat)
    requires p > 0 && len > 0
    ensures addr % p < p
    ensures var n := if p - addr % p < len then p - addr % p else len; Mapped(p, addr, len, 1, n)
  {
    var q := addr / p;
    assert addr == q * p + addr % p && (q + 1) * p == q * p + p;
  }

  lemma MappedNext(p: nat, addr: nat, len: nat, i: nat, done: nat)
    requires Mapped(p, addr, len, i, done) && done < len
    ensures var n := if p < len - done then p else len - done; n > 0 && Mapped(p, addr, len, i + 1, done + n)
  {
    var q := addr / p + i;
    assert (q + 1) * p == q * p + p;
  }

  /** The entries for a buffer: `i` filled ones and empty ones after them. */
  lemma Filled(frame: nat -> nat, p: nat, addr: nat, len: nat, s: seq<Entry>, i: nat)
    requires p > 0 && i <= |s| && Flatten(p, s[..i]) == UserSpan(frame, p, addr, len)
    requires forall k :: i <= k < |s| ==> s[k].length == 0
    ensures Flatten(p, s) == UserSpan(frame, p, addr, len)
  {
    EmptyEntries(p, s[i..]);
    assert s == s[..i] + s[i..];
    FlattenConcat(p, s[..i], s[i..]);
  }

  lemma FirstFilled(frame: nat -> nat, p: nat, addr: nat, s: seq<Entry>, n: nat)
    requires p > 0 && s != [] && s[0] == Entry(frame(addr / p), addr % p, n) && addr % p + n <= p
    ensures Flatten(p, s[..1]) == UserSpan(frame, p, addr, n)
  {
    OneEntry(frame, p, addr, n);
    assert s[..1] == [s[0]];
    FlattenOne(p, s[0]);
  }

  lemma FilledNext(frame: nat -> nat, p: nat, addr: nat, s: seq<Entry>, i: nat, done: nat, n: nat)
    requires p > 0 && i < |s| && Flatten(p, s[..i]) == UserSpan(frame, p, addr, done)
    requires s[i] == Entry(frame((addr + done) / p), (addr + done) % p, n) && (addr + done) % p + n <= p
    ensures Flatten(p, s[..i + 1]) == UserSpan(frame, p, addr, done + n)
  {
    OneEntry(frame, p, addr + done, n);
    UserSpanSplits(frame, p, addr, done, n);
    FlattenAt(p, s, i);
  }

  class Session {
    const p: nat                // PAGE_SIZE
    var arraySize: nat
    var pages: array<nat>
    var sg: array<Entry>
    var usedPages: nat
    var readonlyPages: nat
    ghost var pinned: seq<nat>    // pages taken by get_user_pages, in order
    ghost var released: seq<nat>  // pages given back, in order

    ghost predicate Valid()
      reads this
    {
      p > 0 && arraySize > 0 && pages.Length >= arraySize && sg.Length >= arraySize
    }

    constructor (p: nat, arraySize: nat)
      requires p > 0 && arraySize > 0
      ensures Valid() && this.p == p && this.arraySize == arraySize && usedPages == readonlyPages == 0
      ensures pinned == released == [] && fresh(pages) && fresh(sg)
    {
      this.p, this.arraySize, usedPages, readonlyPages := p, arraySize, 0, 0;
      pinned, released := [], [];
      pages := new nat[arraySize];
      sg := new Entry[arraySize](_ => Entry(0, 0, 0));
    }

    /** `get_user_pages`: pins `n` pages from that of `addr` on and notes them at `at`. */
    method PinPages(frame: nat -> nat, addr: nat, n: nat, at: nat)
      requires Valid() && at + n <= pages.Length
      modifies this`pinned, pages
      ensures pages[at..at + n] == Frames(frame, addr / p, n)
      ensures forall k :: 0 <= k < at || at + n <= k < pages.Length ==> pages[k] == old(pages[k])
      ensures pinned == old(pinned) + Frames(frame, addr / p, n)
    {
      hide Frames;
      var i, q := 0, addr / p;
      FramesNone(frame, q);
      while i < n
        invariant i <= n && pages[at..at + i] == Frames(frame, q, i)
        invariant forall k :: 0 <= k < at || at + i <= k < pages.Length ==> pages[k] == old(pages[k])
        invariant pinned == old(pinned) + Frames(frame, q, i)
      {
        ghost var before := pages[at..at + i];
        FramesNext(frame, q, i);
        pages[at + i] := frame(q + i);
        pinned := pinned + [frame(q + i)];
        assert pages[at..at + i + 1] == before + [frame(q + i)];
        i := i + 1;
      }
    }

    /** `sg_init_table`. */
    method InitTable(at: nat, n: nat)
      requires at + n <= sg.Length
      modifies sg
      ensures forall k :: at <= k < at + n ==> sg[k] == Entry(0, 0, 0)
      ensures forall k :: 0 <= k < at || at + n <= k < sg.Length ==> sg[k] == old(sg[k])
    {
      var i := 0;
      while i < n
        invariant i <= n
        invariant forall k :: at <= k < at + i ==> sg[k] == Entry(0, 0, 0)
        invariant forall k :: 0 <= k < at || at + i <= k < sg.Length ==> sg[k] == old(sg[k])
      {
        sg[at + i] := Entry(0, 0, 0);
        i := i + 1;
      }
    }

    /** One entry per page: the first up to its end, the others from their start. */
    method FillEntries(frame: nat -> nat, addr: nat, len: nat, count: nat, at: nat) returns (n: nat)
      requires Valid() && at + count <= pages.Length && at + count <= sg.Length && len > 0
      requires count >= PageCount(p, addr, len)
      requires pages[at..at + count] == Frames(frame, addr / p, count)
      requires forall k :: at <= k < at + count ==> sg[k].length == 0
      modifies sg
      ensures forall k :: 0 <= k < at || at + count <= k < sg.Length ==> sg[k] == old(sg[k])
      ensures n == PageCount(p, addr, len)
      ensures Flatten(p, sg[at..at + count]) == UserSpan(frame, p, addr, len)
    {
      hide Flatten, Span, UserSpan, Mapped, PageCount, Frames;
      ghost var from := pages[at..at + count];
      MappedFirst(p, addr, len);
      var pglen := if p - addr % p < len then p - addr % p else len;
      MappedMore(p, addr, len, 1, pglen);
      assert pages[at] == from[0];
      sg[at] := Entry(pages[at], addr % p, pglen);
      n := 1;
      var left: nat := len - pglen;
      FirstFilled(frame, p, addr, sg[at..at + count], pglen);
      while left > 0
        invariant 0 <= left < len && 1 <= n <= count && Mapped(p, addr, len, n, len - left)
        invariant Flatten(p, sg[at..at + count][..n]) == UserSpan(frame, p, addr, len - left)
        invariant forall k :: at + n <= k < at + count ==> sg[k].length == 0
        invariant forall k :: 0 <= k < at || at + count <= k < sg.Length ==> sg[k] == old(sg[k])
      {
        MappedMore(p, addr, len, n, len - left);
        MappedNext(p, addr, len, n, len - left);
        pglen := if p < left then p else left;
        assert pages[at + n] == from[n];
        ghost var before := sg[at..at + count];
        sg[at + n] := Entry(pages[at + n], 0, pglen);
        assert sg[at..at + count][..n] == before[..n];
        FilledNext(frame, p, addr, sg[at..at + count], n, len - left, pglen);
        n, left := n + 1, left - pglen;
      }
      MappedMore(p, addr, len, n, len);
      Filled(frame, p, addr, len, sg[at..at + count], n);
    }

    /**
     * `__get_userbuf`: `count` pages and entries at `at` for the buffer, or nothing for an empty or null one.
     * `lucky` says whether all pages could be pinned.
     */
    method MapBuffer(frame: nat -> nat, addr: nat, len: nat, count: nat, at: nat, lucky: bool)
      returns (ok: bool, n: nat)
      requires Valid() && at + count <= pages.Length && at + count <= sg.Length && count >= PageCount(p, addr, len)
      modifies this`pinned, pages, sg
      ensures ok <==> lucky || count == 0 || len == 0 || addr == 0
      ensures forall k :: 0 <= k < at || at + count <= k < pages.Length ==> pages[k] == old(pages[k])
      ensures forall k :: 0 <= k < at || at + count <= k < sg.Length ==> sg[k] == old(sg[k])
      ensures ok && len > 0 && addr > 0 ==>
                && n == PageCount(p, addr, len)
                && pages[at..at + count] == Frames(frame, addr / p, count)
                && pinned == old(pinned) + pages[at..at + count]
                && Flatten(p, sg[at..at + count]) == UserSpan(frame, p, addr, len)
      ensures !ok || len == 0 || addr == 0 ==> pinned == old(pinned) && n == 0
    {
      hide Flatten, UserSpan, Frames;
      n := 0;
      if count == 0 || len == 0 || addr == 0 {
        return true, 0;
      }
      if !lucky {
        return false, 0;
      }
      ok := true;
      PinPages(frame, addr, count, at);
      InitTable(at, count);
      n := FillEntries(frame, addr, len, count, at);
    }

    /**
     * `adjust_sg_array`: doubles the size until it suffices. `pagesOk` and `sgOk` say whether the reallocations
     * succeed.
     */
    method AdjustArray(count: nat, pagesOk: bool, sgOk: bool) returns (ok: bool)
      requires Valid()
      modifies this`arraySize, this`pages, this`sg
      ensures Valid() && (ok <==> pagesOk && sgOk)
      ensures ok ==> LeastDoubling(old(arraySize), count, arraySize)
      ensures !ok ==> arraySize == old(arraySize)
      ensures pages == old(pages) || fresh(pages)
      ensures sg == old(sg) || fresh(sg)
    {
      var size := arraySize;
      ghost var k: nat := 0;
      while size < count
        invariant size > 0 && size == arraySize * Pow2(k) && (k > 0 ==> arraySize * Pow2(k - 1) < count)
        invariant size >= arraySize
        decreases count - size
      {
        assert arraySize * Pow2(k + 1) == size * 2;
        size := size * 2;
        k := k + 1;
      }
      assert LeastDoubling(arraySize, count, size);
      if !pagesOk {
        return false;
      }
      var from := pages;
      pages := new nat[size](i requires 0 <= i reads from => if i < from.Length then from[i] else 0);
      if !sgOk {
        return false;
      }
      var entries := sg;
      sg := new Entry[size](
        i requires 0 <= i reads entries => if i < entries.Length then entries[i] else Entry(0, 0, 0));
      arraySize := size;
      ok := true;
    }

    /** `release_user_pages`. */
    method Release()
      requires Valid() && usedPages <= arraySize
      modifies this`usedPages, this`readonlyPages, this`released
      ensures usedPages == 0
      ensures released == old(released) + old(pages[..usedPages])
      ensures readonlyPages == if old(readonlyPages) < old(usedPages) then 0 else old(readonlyPages) - old(usedPages)
    {
      var i := 0;
      while i < usedPages
        invariant i <= usedPages == old(usedPages)
        invariant released == old(released) + pages[..i]
        invariant readonlyPages == if old(readonlyPages) < i then 0 else old(readonlyPages) - i
      {
        if readonlyPages != 0 {
          readonlyPages := readonlyPages - 1;
        }
        released := released + [pages[i]];
        assert pages[..i + 1] == pages[..i] + [pages[i]];
        i := i + 1;
      }
      usedPages := 0;
    }

    /**
     * `get_userbuf`: both buffers mapped, one list when they are the same. A null buffer counts as empty. `srcOk`
     * and `dstOk` say whether the pages could be pinned.
     */
    method GetUserbuf(frame: nat -> nat, src: nat, srcLen: nat, dst: nat, dstLen: nat,
                      pagesOk: bool, sgOk: bool, srcOk: bool, dstOk: bool) returns (ok: bool)
      requires Valid()
      modifies this, pages, sg
      ensures Valid()
      ensures var n, m := if src == 0 then 0 else srcLen, if dst == 0 then 0 else dstLen;
              ok <==>
                && (PagesNeeded(p, src, n, dst, m) <= old(arraySize) || (pagesOk && sgOk))
                && (srcOk || n == 0) && (src == dst || dstOk || m == 0)
      ensures ok ==>
                var n, m := if src == 0 then 0 else srcLen, if dst == 0 then 0 else dstLen;
                && usedPages == PagesNeeded(p, src, n, dst, m) <= arraySize
                && (src == dst && n > 0 ==> Flatten(p, sg[..usedPages]) == UserSpan(frame, p, src, n))
                && (src != dst ==>
                      && readonlyPages == PageCount(p, src, n) <= usedPages
                      && (n > 0 ==> Flatten(p, sg[..readonlyPages]) == UserSpan(frame, p, src, n))
                      && (m > 0 ==> Flatten(p, sg[readonlyPages..usedPages]) == UserSpan(frame, p, dst, m)))
                && pinned == old(pinned) + (if src == dst && n == 0 then [] else pages[..usedPages])
                && released == old(released)
                && (src == dst && n > 0 ==> PagesOf(pages[..usedPages], frame, p, src))
                && (src != dst ==>
                      && PagesOf(pages[..readonlyPages], frame, p, src)
                      && PagesOf(pages[readonlyPages..usedPages], frame, p, dst))
    {
      hide Flatten, UserSpan, PageCount, Frames;
      var n, m := if src == 0 then 0 else srcLen, if dst == 0 then 0 else dstLen;
      PagesAreSome(p, src, n);
      PagesAreSome(p, dst, m);
      var srcCount, dstCount := PageCount(p, src, n), PageCount(p, dst, m);
      usedPages := if src == dst then MaxOf(srcCount, dstCount) else srcCount + dstCount;
      readonlyPages := if src == dst then 0 else srcCount;
      if usedPages > arraySize {
        var rc := AdjustArray(usedPages, pagesOk, sgOk);
        if !rc {
          return false;
        }
      }
      if src == dst {
        var k;
        ok, k := MapBuffer(frame, src, n, usedPages, 0, srcOk);
        assert pages[0..usedPages] == pages[..usedPages] && sg[0..usedPages] == sg[..usedPages];
      } else {
        ok := MapBoth(frame, src, n, dst, m, srcOk, dstOk);
      }
    }

    /**
     * Two different buffers: the source first, the destination behind it. When only the destination cannot be
     * pinned, the pages noted for both are given back although only those of the source were taken.
     */
    method MapBoth(frame: nat -> nat, src: nat, n: nat, dst: nat, m: nat, srcOk: bool, dstOk: bool) returns (ok: bool)
      requires Valid() && usedPages <= arraySize && (src == 0 ==> n == 0) && (dst == 0 ==> m == 0)
      requires readonlyPages == PageCount(p, src, n) && usedPages == readonlyPages + PageCount(p, dst, m)
      modifies this`pinned, this`usedPages, this`readonlyPages, this`released, pages, sg
      ensures ok <==> (srcOk || n == 0) && (dstOk || m == 0)
      ensures ok ==>
                && usedPages == old(usedPages) && readonlyPages == old(readonlyPages)
                && (n > 0 ==> Flatten(p, sg[..readonlyPages]) == UserSpan(frame, p, src, n))
                && (m > 0 ==> Flatten(p, sg[readonlyPages..usedPages]) == UserSpan(frame, p, dst, m))
                && PagesOf(pages[..readonlyPages], frame, p, src)
                && PagesOf(pages[readonlyPages..usedPages], frame, p, dst)
                && pinned == old(pinned) + pages[..usedPages] && released == old(released)
      ensures !ok ==>
                if srcOk || n == 0
                then
                  && pinned == old(pinned) + pages[..old(readonlyPages)]
                  && released == old(released) + pages[..old(usedPages)]
                else pinned == old(pinned) && released == old(released)
    {
      hide Flatten, UserSpan, PageCount, Frames;
      PagesAreSome(p, src, n);
      FramesNone(frame, src / p);
      if src != 0 {
        var k;
        ok, k := MapBuffer(frame, src, n, readonlyPages, 0, srcOk);
        if !ok {
          return;
        }
      }
      ghost var before, entries := pages[0..0 + readonlyPages], sg[0..0 + readonlyPages];
      assert before == pages[..readonlyPages] && entries == sg[..readonlyPages];
      assert pinned == old(pinned) + before;
      ok := MapSecond(frame, dst, m, dstOk);
      if ok {
        Split(pages[..usedPages], readonlyPages);
      }
    }

    /** The destination, behind the `readonlyPages` pages of the source. */
    method MapSecond(frame: nat -> nat, dst: nat, m: nat, dstOk: bool) returns (ok: bool)
      requires Valid() && readonlyPages <= usedPages <= arraySize && (dst == 0 ==> m == 0)
      requires usedPages == readonlyPages + PageCount(p, dst, m)
      modifies this`pinned, this`usedPages, this`readonlyPages, this`released, pages, sg
      ensures ok <==> dstOk || m == 0
      ensures pages[..old(readonlyPages)] == old(pages[..readonlyPages])
      ensures sg[..old(readonlyPages)] == old(sg[..readonlyPages])
      ensures ok ==>
                && usedPages == old(usedPages) && readonlyPages == old(readonlyPages) && released == old(released)
                && (m > 0 ==> Flatten(p, sg[readonlyPages..usedPages]) == UserSpan(frame, p, dst, m))
                && PagesOf(pages[readonlyPages..usedPages], frame, p, dst)
                && pinned == old(pinned) + pages[readonlyPages..usedPages]
      ensures !ok ==> pinned == old(pinned) && released == old(released) + pages[..old(usedPages)]
    {
      hide Flatten, UserSpan, PageCount, Frames;
      PagesAreSome(p, dst, m);
      FramesNone(frame, dst / p);
      if dst != 0 {
        var k;
        ok, k := MapBuffer(frame, dst, m, usedPages - readonlyPages, readonlyPages, dstOk);
        if !ok {
          Release();
          return;
        }
      }
      ok := true;
    }

    /** A buffer pair in use, nothing failing: mapped, then given back. */
    method UseBuffers(frame: nat -> nat, src: nat, srcLen: nat, dst: nat, dstLen: nat) returns (ok: bool)
      requires Valid()
      modifies this, pages, sg
      ensures Valid() && ok && usedPages == 0
      ensures old(pinned) <= pinned && old(released) <= released
      ensures |released| - |old(released)| ==
                PagesNeeded(p, src, if src == 0 then 0 else srcLen, dst, if dst == 0 then 0 else dstLen)
      ensures EmptyInPlace(src, srcLen, dst, dstLen) ==> pinned == old(pinned)
      ensures pinned[|old(pinned)|..] == released[|old(released)|..] <==> !EmptyInPlace(src, srcLen, dst, dstLen)
    {
      ok := GetUserbuf(frame, src, srcLen, dst, dstLen, true, true, true, true);
      ghost var back := pages[..usedPages];
      ghost var now := if src == dst && (src == 0 || srcLen == 0) then [] else back;
      Release();
      assert pinned == old(pinned) + now;
      assert released == old(released) + back;
    }
  }

  /** One such use: a page is given back that was never taken. */
  method EmptyInPlaceUnbalanced() returns (z: Session)
    ensures fresh(z) && z.pinned == [] && |z.released| == 1
  {
    z := new Session(4096, 32);
    var ok := z.UseBuffers(q => q, 4096, 0, 4096, 16);
  }

  /** The pages `get_userbuf` counts on: those of both buffers, or of the longer one when they are the same. */
  function PagesNeeded(p: nat, src: nat, n: nat, dst: nat, m: nat): nat
    requires p > 0
  {
    var srcCount, dstCount := PageCount(p, src, n), PageCount(p, dst, m);
    if src == dst then MaxOf(srcCount, dstCount) else srcCount + dstCount
  }

  lemma Split(s: seq<nat>, i: nat)
    requires i <= |s|
    ensures s == s[..i] + s[i..]
  {
  }

  lemma PagesAreSome(p: nat, addr: nat, len: nat)
    requires p > 0
    ensures PageCount(p, addr, len) == 0 <==> len == 0
  {
  }

  /** Source and destination are the same buffer, with nothing to read from it but room to write. */
  predicate EmptyInPlace(src: nat, srcLen: nat, dst: nat, dstLen: nat) {
    src == dst && src != 0 && srcLen == 0 && dstLen > 0
  }

  function MaxOf(x: nat, y: nat): nat {
    if x < y then y else x
  }

  /** `size` is the first of `n`, `2n`, `4n`, ... that reaches `need`. */
  ghost predicate LeastDoubling(n: nat, need: nat, size: nat) {
    size >= need && exists k: nat :: size == n * Pow2(k) && (k > 0 ==> n * Pow2(k - 1) < need)
  }
}
