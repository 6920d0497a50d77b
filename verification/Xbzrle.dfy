/**
 * The XBZRLE page delta codec. A delta is a list of (zrun, nzrun) pairs: how many bytes are
 * unchanged, then how many changed, followed by the changed bytes themselves.
 */
module Xbzrle {
  import opened Memory
  import opened Wire

  /** The longest run a two-byte unsigned LEB128 can hold. */
  const MAX_RUN := 0x3fff

  /** The width of the word-at-a-time loops, `sizeof(long)`. */
  const WORD := 8

  /** A run length in one or two bytes; the encoder only meets lengths up to `MAX_RUN`. */
  function Uleb(n: nat): (s: seq<Byte>)
    ensures 1 <= |s| <= 2
  {
    if n < 0x80 then [n] else [n % 0x80 + 0x80, n / 0x80 % 0x80]
  }

  /** A decoded run length and the position after it. */
  datatype Count = Count(count: nat, next: nat)

  /** Reads a run length at `i`; a run length is never read from fewer than two bytes. */
  function ReadUleb(src: seq<Byte>, i: nat): (r: Option<Count>)
    ensures r.Some? ==> i < r.value.next <= |src|
  {
    if i + 2 > |src| then None
    else if src[i] < 0x80 then Some(Count(src[i], i + 1))
    else if src[i + 1] >= 0x80 then None
    else
      var high: nat, low: nat := src[i + 1], src[i] - 0x80;
      Some(Count(high * 0x80 + low, i + 2))
  }

  /** How many bytes from `i` on are equal in both pages. */
  function EqualRun(prev: seq<Byte>, cur: seq<Byte>, i: nat): (n: nat)
    requires i <= |prev| == |cur|
    ensures i + n <= |prev|
    ensures forall k :: i <= k < i + n ==> prev[k] == cur[k]
    ensures i + n < |prev| ==> prev[i + n] != cur[i + n]
    decreases |prev| - i
  {
    if i == |prev| || prev[i] != cur[i] then 0 else 1 + EqualRun(prev, cur, i + 1)
  }

  /** How many bytes from `i` on differ between the pages. */
  function DiffRun(prev: seq<Byte>, cur: seq<Byte>, i: nat): (n: nat)
    requires i <= |prev| == |cur|
    ensures i + n <= |prev|
    ensures forall k :: i <= k < i + n ==> prev[k] != cur[k]
    ensures i + n < |prev| ==> prev[i + n] == cur[i + n]
    decreases |prev| - i
  {
    if i == |prev| || prev[i] == cur[i] then 0 else 1 + DiffRun(prev, cur, i + 1)
  }

  /** A delta: bytes to skip, the changed bytes that follow them, and so on. */
  datatype Runs = End | Run(skip: nat, data: seq<Byte>, more: Runs)

  /** The runs of the two pages from `i` on; a last unchanged run is left out. */
  function RunsBetween(prev: seq<Byte>, cur: seq<Byte>, i: nat): (rs: Runs)
    requires i <= |prev| == |cur|
    decreases |prev| - i
  {
    var z := i + EqualRun(prev, cur, i);
    if z == |prev| then End
    else
      var j := z + DiffRun(prev, cur, z);
      Run(z - i, cur[z..j], RunsBetween(prev, cur, j))
  }

  /** Runs that a page with `room` bytes can take; only the first may have nothing to skip. */
  ghost predicate Writable(rs: Runs, first: bool, room: nat) {
    rs.End? ||
    (&& rs.data != [] && (first || rs.skip > 0)
     && rs.skip + |rs.data| <= room
     && Writable(rs.more, false, room - rs.skip - |rs.data|))
  }

  function WriteRun(skip: nat, data: seq<Byte>): (s: seq<Byte>)
    ensures |s| >= 2 + |data|
  {
    Uleb(skip) + Uleb(|data|) + data
  }

  function WriteRuns(rs: Runs): (s: seq<Byte>)
    ensures s == [] <==> rs.End?
  {
    if rs.End? then [] else WriteRun(rs.skip, rs.data) + WriteRuns(rs.more)
  }

  /** Installs the runs in `page` from position `d` on. */
  ghost function ApplyRuns(rs: Runs, first: bool, page: seq<Byte>, d: nat): (r: seq<Byte>)
    requires d <= |page| && Writable(rs, first, |page| - d)
    ensures |r| == |page|
    decreases rs
  {
    if rs.End? then page
    else ApplyRuns(rs.more, false, Splice(page, d + rs.skip, rs.data), d + rs.skip + |rs.data|)
  }

  /** Whether writing the runs from `i` on never trips an overflow test, `d` bytes being in use. */
  ghost predicate Fits(prev: seq<Byte>, cur: seq<Byte>, i: nat, d: nat, dlen: nat)
    requires i <= |prev| == |cur| <= MAX_RUN
    decreases |prev| - i
  {
    i == |prev| ||
    (&& d + 2 <= dlen
     && var z := i + EqualRun(prev, cur, i);
        z == |prev| ||
        var d1 := d + |Uleb(z - i)|;
        (&& d1 + 2 <= dlen
         && var n := DiffRun(prev, cur, z);
            var end := d1 + |Uleb(n)| + n;
            && end <= dlen
            && Fits(prev, cur, z + n, end, dlen)))
  }

  lemma {:induction false} RunsWritable(prev: seq<Byte>, cur: seq<Byte>, i: nat, first: bool)
    requires i <= |prev| == |cur|
    requires first || i == |prev| || prev[i] == cur[i]
    ensures Writable(RunsBetween(prev, cur, i), first, |prev| - i)
    decreases |prev| - i
  {
    var z := i + EqualRun(prev, cur, i);
    if z == |prev| {
    } else {
      RunsWritable(prev, cur, z + DiffRun(prev, cur, z), false);
    }
  }

  datatype Encoded = Unmodified | Overflow | Delta(bytes: seq<Byte>)

  /** What the encoder answers: nothing to send, no room, or the runs between the pages. */
  ghost function Encode(prev: seq<Byte>, cur: seq<Byte>, dlen: nat): (r: Encoded)
    requires |prev| == |cur| <= MAX_RUN
  {
    if !Fits(prev, cur, 0, 0, dlen) then Overflow
    else
      var rs := RunsBetween(prev, cur, 0);
      if rs.End? then Unmodified else Delta(WriteRuns(rs))
  }

  /** One (zrun, nzrun) pair: how far to skip, and where the bytes to install lie. */
  datatype Pair = Pair(skip: nat, from: nat, to: nat)

  /** Reads the pair at `i`, for a page with `room` bytes left. */
  function ReadPair(src: seq<Byte>, i: nat, room: nat): (r: Option<Pair>)
    ensures r.Some? ==> i < r.value.from < r.value.to <= |src|
    ensures r.Some? ==> r.value.skip + (r.value.to - r.value.from) <= room
  {
    match ReadUleb(src, i)
    case None => None
    case Some(z) =>
      if (i > 0 && z.count == 0) || z.count > room then None
      else
        match ReadUleb(src, z.next)
        case None => None
        case Some(n) =>
          if n.count == 0 || z.count + n.count > room || n.next + n.count > |src| then None
          else Some(Pair(z.count, n.next, n.next + n.count))
  }

  /** Applies the delta `src` from its position `i` on to `page` from position `d` on. */
  function DecodeFrom(src: seq<Byte>, i: nat, page: seq<Byte>, d: nat): (r: Option<seq<Byte>>)
    requires d <= |page| && i <= |src|
    ensures r.Some? ==> |r.value| == |page|
    decreases |src| - i
  {
    if i == |src| then Some(page)
    else
      match ReadPair(src, i, |page| - d)
      case None => None
      case Some(p) =>
        DecodeFrom(src, p.to, Splice(page, d + p.skip, src[p.from..p.to]), d + p.skip + (p.to - p.from))
  }

  function Decode(src: seq<Byte>, page: seq<Byte>): (r: Option<seq<Byte>>)
    ensures r.Some? ==> |r.value| == |page|
  {
    DecodeFrom(src, 0, page, 0)
  }

  /** A run length is read back as it was written. */
  lemma UlebRoundTrip(src: seq<Byte>, i: nat, n: nat)
    requires n <= MAX_RUN && i + |Uleb(n)| < |src| && At(src, i, Uleb(n))
    ensures ReadUleb(src, i) == Some(Count(n, i + |Uleb(n)|))
  {
    var u := Uleb(n);
    assert src[i + 0] == u[0];
    if |u| == 2 {
      assert src[i + 1] == u[1];
    }
  }

  /** A run is read back as it was written. */
  lemma RunRoundTrip(src: seq<Byte>, i: nat, skip: nat, data: seq<Byte>, room: nat)
    requires skip <= MAX_RUN && 0 < |data| <= MAX_RUN && skip + |data| <= room
    requires i == 0 || skip > 0
    requires At(src, i, WriteRun(skip, data))
    ensures var end := i + |WriteRun(skip, data)|;
            && ReadPair(src, i, room) == Some(Pair(skip, end - |data|, end))
            && src[end - |data|..end] == data
  {
    var zs, ns := Uleb(skip), Uleb(|data|);
    AtParts(src, i, zs + ns, data);
    AtParts(src, i, zs, ns);
    UlebRoundTrip(src, i, skip);
    UlebRoundTrip(src, i + |zs|, |data|);
    AtSlice(src, i + |zs| + |ns|, data);
  }

  /** `base` with every byte at or after `i` where the two pages differ replaced by the new one. */
  ghost predicate IsPatched(r: seq<Byte>, base: seq<Byte>, prev: seq<Byte>, cur: seq<Byte>, i: nat)
    requires |base| == |prev| == |cur|
  {
    && |r| == |base|
    && forall k :: 0 <= k < |base| ==> r[k] == if k >= i && prev[k] != cur[k] then cur[k] else base[k]
  }

  /** The decoder installs exactly the runs that were written. */
  lemma {:induction false} DecodeRuns(src: seq<Byte>, at: nat, rs: Runs, page: seq<Byte>, d: nat)
    requires d <= |page| <= MAX_RUN && Writable(rs, at == 0, |page| - d)
    requires At(src, at, WriteRuns(rs))
    requires |src| == at + |WriteRuns(rs)|
    ensures DecodeFrom(src, at, page, d) == Some(ApplyRuns(rs, at == 0, page, d))
    decreases rs
  {
    hide WriteRun, ReadPair, Splice, At;
    if !rs.Run? {
    } else {
      var w := WriteRun(rs.skip, rs.data);
      var page' := Splice(page, d + rs.skip, rs.data);
      var d' := d + rs.skip + |rs.data|;
      AtParts(src, at, w, WriteRuns(rs.more));
      RunRoundTrip(src, at, rs.skip, rs.data, |page| - d);
      DecodeRuns(src, at + |w|, rs.more, page', d');
    }
  }

  /** Installing the runs between two pages replaces exactly the bytes in which they differ. */
  lemma {:induction false} RunsPatch(prev: seq<Byte>, cur: seq<Byte>, base: seq<Byte>, i: nat, first: bool)
    requires i <= |prev| == |cur| == |base|
    requires Writable(RunsBetween(prev, cur, i), first, |base| - i)
    ensures IsPatched(ApplyRuns(RunsBetween(prev, cur, i), first, base, i), base, prev, cur, i)
    decreases |prev| - i
  {
    hide EqualRun;
    hide DiffRun;
    hide Splice;
    var z := i + EqualRun(prev, cur, i);
    if z == |prev| {
    } else {
      var j := z + DiffRun(prev, cur, z);
      var base' := Splice(base, z, cur[z..j]);
      var r := ApplyRuns(RunsBetween(prev, cur, i), first, base, i);
      assert r == ApplyRuns(RunsBetween(prev, cur, j), false, base', j);
      RunsPatch(prev, cur, base', j, false);
      SpliceBytes(base, z, cur[z..j]);
      assert IsPatched(r, base, prev, cur, i) by {
        hide ApplyRuns;
        hide RunsBetween;
      }
    }
  }

  /** The encoder reports an unmodified page exactly when the two pages are equal. */
  lemma UnmodifiedIffEqual(prev: seq<Byte>, cur: seq<Byte>, dlen: nat)
    requires |prev| == |cur| <= MAX_RUN && dlen >= 2
    ensures Encode(prev, cur, dlen).Unmodified? <==> prev == cur
  {
    var z := EqualRun(prev, cur, 0);
    if z < |prev| {
      assert prev[z] != cur[z];
    }
  }

  /**
   * A delta sent against `prev` turns the page held by the receiver into `cur` exactly when the
   * receiver agrees with `prev` on every byte the delta leaves out.
   */
  lemma DeltaReproducesPageIff(prev: seq<Byte>, cur: seq<Byte>, held: seq<Byte>, dlen: nat)
    requires |prev| == |cur| == |held| <= MAX_RUN
    requires Encode(prev, cur, dlen).Delta?
    ensures Decode(Encode(prev, cur, dlen).bytes, held).Some?
    ensures Decode(Encode(prev, cur, dlen).bytes, held) == Some(cur)
            <==> forall k :: 0 <= k < |prev| && prev[k] == cur[k] ==> held[k] == prev[k]
  {
    var rs := RunsBetween(prev, cur, 0);
    var src := Encode(prev, cur, dlen).bytes;
    RunsWritable(prev, cur, 0, true);
    DecodeRuns(src, 0, rs, held, 0);
    RunsPatch(prev, cur, held, 0, true);
    var r := ApplyRuns(rs, true, held, 0);
    hide *;
    if forall k :: 0 <= k < |prev| && prev[k] == cur[k] ==> held[k] == prev[k] {
      assert r == cur;
    } else {
      var k :| 0 <= k < |prev| && prev[k] == cur[k] && held[k] != prev[k];
      assert r[k] != cur[k];
    }
  }

  /** Equal bytes lengthen the run of equal bytes. */
  lemma {:induction false} EqualRunSkip(prev: seq<Byte>, cur: seq<Byte>, i: nat, j: nat)
    requires i <= j <= |prev| == |cur|
    requires prev[i..j] == cur[i..j]
    ensures EqualRun(prev, cur, i) == j - i + EqualRun(prev, cur, j)
    decreases j - i
  {
    if i == j {
    } else {
      assert prev[i] == prev[i..j][0] && cur[i] == cur[i..j][0];
      assert prev[i + 1..j] == prev[i..j][1..] && cur[i + 1..j] == cur[i..j][1..];
      EqualRunSkip(prev, cur, i + 1, j);
    }
  }

  /** Differing bytes lengthen the run of differing bytes. */
  lemma {:induction false} DiffRunSkip(prev: seq<Byte>, cur: seq<Byte>, i: nat, j: nat)
    requires i <= j <= |prev| == |cur|
    requires forall k :: i <= k < j ==> prev[k] != cur[k]
    ensures DiffRun(prev, cur, i) == j - i + DiffRun(prev, cur, j)
    decreases j - i
  {
    if i == j {
    } else {
      DiffRunSkip(prev, cur, i + 1, j);
    }
  }

  /** The first scan of the encoder loop: bytes up to a word boundary, then words, then bytes. */
  method SkipEqual(prev: seq<Byte>, cur: seq<Byte>, start: nat) returns (i: nat)
    requires start <= |prev| == |cur|
    ensures i == start + EqualRun(prev, cur, start)
  {
    hide EqualRun;
    i := start;
    var slen := |prev|;
    var res := (slen - i) % WORD;
    ghost var words := (slen - i) / WORD;
    while res != 0 && prev[i] == cur[i]
      invariant 0 <= res && slen - i == WORD * words + res
      invariant EqualRun(prev, cur, start) == i - start + EqualRun(prev, cur, i)
      decreases res
    {
      EqualRunSkip(prev, cur, i, i + 1);
      i := i + 1;
      res := res - 1;
    }
    if res == 0 {
      i := SkipEqualWords(prev, cur, i, words);
    }
  }

  /** Whole words, then the bytes of the last one. */
  method SkipEqualWords(prev: seq<Byte>, cur: seq<Byte>, start: nat, ghost count: nat) returns (i: nat)
    requires start <= |prev| == |cur| && |prev| - start == WORD * count
    ensures i == start + EqualRun(prev, cur, start)
  {
    hide EqualRun;
    i := start;
    var slen := |prev|;
    ghost var words := count;
    while i < slen && prev[i..i + WORD] == cur[i..i + WORD]
      invariant i <= slen && slen - i == WORD * words
      invariant EqualRun(prev, cur, start) == i - start + EqualRun(prev, cur, i)
    {
      EqualRunSkip(prev, cur, i, i + WORD);
      i, words := i + WORD, words - 1;
    }
    while i < slen && prev[i] == cur[i]
      invariant i <= slen
      invariant EqualRun(prev, cur, start) == i - start + EqualRun(prev, cur, i)
    {
      EqualRunSkip(prev, cur, i, i + 1);
      i := i + 1;
    }
  }

  /** The second scan: bytes up to a word boundary, then words that hold no equal byte. */
  method SkipDiff(prev: seq<Byte>, cur: seq<Byte>, start: nat) returns (i: nat)
    requires start <= |prev| == |cur|
    ensures i == start + DiffRun(prev, cur, start)
  {
    hide DiffRun;
    i := start;
    var slen := |prev|;
    var res := (slen - i) % WORD;
    ghost var words := (slen - i) / WORD;
    while res != 0 && prev[i] != cur[i]
      invariant 0 <= res && slen - i == WORD * words + res
      invariant DiffRun(prev, cur, start) == i - start + DiffRun(prev, cur, i)
      decreases res
    {
      DiffRunSkip(prev, cur, i, i + 1);
      i := i + 1;
      res := res - 1;
    }
    if res == 0 {
      while i < slen
        invariant i <= slen && slen - i == WORD * words
        invariant DiffRun(prev, cur, start) == i - start + DiffRun(prev, cur, i)
      {
        // the word test of the source; ZeroByteTest relates it to this condition
        if exists k :: i <= k < i + WORD && prev[k] == cur[k] {
          ghost var stop :| i <= stop < i + WORD && prev[stop] == cur[stop];
          while prev[i] != cur[i]
            invariant i <= stop
            invariant DiffRun(prev, cur, start) == i - start + DiffRun(prev, cur, i)
            decreases stop - i
          {
            DiffRunSkip(prev, cur, i, i + 1);
            i := i + 1;
          }
          break;
        } else {
          DiffRunSkip(prev, cur, i, i + WORD);
          i, words := i + WORD, words - 1;
        }
      }
    }
  }

  /** `xor` has a zero byte exactly when the mask test of the word loop says so. */
  lemma ZeroByteTest(xor: bv64)
    ensures (xor - 0x0101_0101_0101_0101) & !xor & 0x8080_8080_8080_8080 != 0
            <==> || xor & 0xff == 0 || xor & 0xff00 == 0 || xor & 0xff_0000 == 0 || xor & 0xff00_0000 == 0
                 || xor & 0xff_0000_0000 == 0 || xor & 0xff00_0000_0000 == 0
                 || xor & 0xff_0000_0000_0000 == 0 || xor & 0xff00_0000_0000_0000 == 0
  {
  }

  method PutUleb(dst: array<Byte>, d: nat, n: nat) returns (len: nat)
    requires n <= MAX_RUN && d + 2 <= dst.Length
    modifies dst
    ensures len == |Uleb(n)| && dst[..d + len] == old(dst[..d]) + Uleb(n)
  {
    if n < 0x80 {
      dst[d] := n;
      len := 1;
    } else {
      dst[d] := n % 0x80 + 0x80;
      dst[d + 1] := n / 0x80;
      len := 2;
    }
  }

  method CopyRun(dst: array<Byte>, d: nat, data: seq<Byte>)
    requires d + |data| <= dst.Length
    modifies dst
    ensures dst[..d + |data|] == old(dst[..d]) + data
  {
    forall k | 0 <= k < |data| {
      dst[d + k] := data[k];
    }
  }

  lemma EncodeEnds(prev: seq<Byte>, cur: seq<Byte>, i: nat, d: nat, dlen: nat)
    requires i <= |prev| == |cur| <= MAX_RUN
    ensures i == |prev| ==> Fits(prev, cur, i, d, dlen) && RunsBetween(prev, cur, i).End?
                            && WriteRuns(RunsBetween(prev, cur, i)) == []
    ensures i < |prev| && d + 2 > dlen ==> !Fits(prev, cur, i, d, dlen)
  {
  }

  /** Writes one run at `d`, stopping at either overflow test; the new end of the output, or -1. */
  method PutRun(dst: array<Byte>, d: nat, skip: nat, data: seq<Byte>) returns (r: int)
    requires skip <= MAX_RUN && |data| <= MAX_RUN && d + 2 <= dst.Length
    modifies dst
    ensures var d1 := d + |Uleb(skip)|;
            var d2 := d1 + |Uleb(|data|)|;
            if d1 + 2 <= dst.Length && d2 + |data| <= dst.Length then
              r == d + |WriteRun(skip, data)| <= dst.Length && dst[..r] == old(dst[..d]) + WriteRun(skip, data)
            else
              r == -1
  {
    hide Uleb;
    ghost var out := dst[..d];
    var used := PutUleb(dst, d, skip);
    var at := d + used;
    if at + 2 > dst.Length {
      return -1;
    }
    used := PutUleb(dst, at, |data|);
    at := at + used;
    if at + |data| > dst.Length {
      return -1;
    }
    CopyRun(dst, at, data);
    assert dst[..at + |data|] == out + (Uleb(skip) + Uleb(|data|) + data);
    return at + |data|;
  }

  /** One turn of the encoder loop peels off one run. */
  lemma EncodeStep(prev: seq<Byte>, cur: seq<Byte>, i: nat, d: nat, dlen: nat)
    requires i < |prev| == |cur| <= MAX_RUN && d + 2 <= dlen
    ensures var z := i + EqualRun(prev, cur, i);
            if z == |prev| then
              Fits(prev, cur, i, d, dlen) && RunsBetween(prev, cur, i).End?
            else
              var j := z + DiffRun(prev, cur, z);
              var d1 := d + |Uleb(z - i)|;
              var d2 := d1 + |Uleb(j - z)|;
              && j > z
              && WriteRuns(RunsBetween(prev, cur, i))
                 == WriteRun(z - i, cur[z..j]) + WriteRuns(RunsBetween(prev, cur, j))
              && |WriteRun(z - i, cur[z..j])| == d2 - d + (j - z)
              && !RunsBetween(prev, cur, i).End?
              && (Fits(prev, cur, i, d, dlen)
                  <==> d1 + 2 <= dlen && d2 + (j - z) <= dlen && Fits(prev, cur, j, d2 + (j - z), dlen))
  {
    hide Uleb;
  }

  /** Runs that pass every overflow test fit the output buffer. */
  lemma {:induction false} FittingLength(prev: seq<Byte>, cur: seq<Byte>, i: nat, d: nat, dlen: nat)
    requires i <= |prev| == |cur| <= MAX_RUN && d <= dlen
    requires Fits(prev, cur, i, d, dlen)
    ensures d + |WriteRuns(RunsBetween(prev, cur, i))| <= dlen
    decreases |prev| - i
  {
    hide Fits, WriteRuns, RunsBetween, WriteRun, Uleb, EqualRun, DiffRun;
    EncodeEnds(prev, cur, i, d, dlen);
    if i == |prev| {
    } else {
      EncodeStep(prev, cur, i, d, dlen);
      var z := i + EqualRun(prev, cur, i);
      if z < |prev| {
        var j := z + DiffRun(prev, cur, z);
        FittingLength(prev, cur, j, d + |WriteRun(z - i, cur[z..j])|, dlen);
      }
    }
  }

  /** The overflow tests pass exactly if the runs fit, with two bytes to spare when the pages end alike. */
  lemma {:induction false} FitsIff(prev: seq<Byte>, cur: seq<Byte>, i: nat, d: nat, dlen: nat)
    requires i < |prev| == |cur| <= MAX_RUN
    ensures var len := d + |WriteRuns(RunsBetween(prev, cur, i))|;
            Fits(prev, cur, i, d, dlen) <==> len <= dlen && (prev[|prev| - 1] == cur[|prev| - 1] ==> len + 2 <= dlen)
    decreases |prev| - i
  {
    hide Fits, WriteRuns, RunsBetween, WriteRun, Uleb, EqualRun, DiffRun;
    var z := i + EqualRun(prev, cur, i);
    RunsFrom(prev, cur, i, d, dlen);
    if z < |prev| {
      var j := z + DiffRun(prev, cur, z);
      EncodeEnds(prev, cur, j, d + |WriteRun(z - i, cur[z..j])|, dlen);
      if j < |prev| {
        FitsIff(prev, cur, j, d + |WriteRun(z - i, cur[z..j])|, dlen);
      }
    }
  }

  lemma RunsFrom(prev: seq<Byte>, cur: seq<Byte>, i: nat, d: nat, dlen: nat)
    requires i < |prev| == |cur| <= MAX_RUN
    ensures var z := i + EqualRun(prev, cur, i);
            if z == |prev| then
              && WriteRuns(RunsBetween(prev, cur, i)) == [] && prev[|prev| - 1] == cur[|prev| - 1]
              && (Fits(prev, cur, i, d, dlen) <==> d + 2 <= dlen)
            else
              var j := z + DiffRun(prev, cur, z);
              var w := WriteRun(z - i, cur[z..j]);
              && z < j && |w| >= 3 && (j == |prev| ==> prev[|prev| - 1] != cur[|prev| - 1])
              && WriteRuns(RunsBetween(prev, cur, i)) == w + WriteRuns(RunsBetween(prev, cur, j))
              && (Fits(prev, cur, i, d, dlen) <==> d + |w| <= dlen && Fits(prev, cur, j, d + |w|, dlen))
  {
    hide Uleb;
    if d + 2 <= dlen {
      EncodeStep(prev, cur, i, d, dlen);
    }
  }

  /** The encoder gives up exactly when the delta does not fit, with two bytes to spare when the pages end alike. */
  lemma OverflowIff(prev: seq<Byte>, cur: seq<Byte>, dlen: nat)
    requires 0 < |prev| == |cur| <= MAX_RUN
    ensures var len := |WriteRuns(RunsBetween(prev, cur, 0))|;
            Encode(prev, cur, dlen).Overflow? <==>
              len > dlen || (prev[|prev| - 1] == cur[|prev| - 1] && len + 2 > dlen)
  {
    FitsIff(prev, cur, 0, 0, dlen);
  }

  // ----- what the decoder accepts -----

  /** The bytes of `src` from `i` up to `j` are a run length `n`, in one byte or in two. */
  ghost predicate Spells(src: seq<Byte>, i: nat, j: nat, n: nat) {
    || (j == i + 1 && j < |src| && n < 0x80 && src[i] == n)
    || (j == i + 2 && j <= |src| && n <= MAX_RUN && src[i] == 0x80 + n % 0x80 && src[i + 1] == n / 0x80)
  }

  /** From `i` on `src` is these runs and nothing else. */
  ghost predicate Lists(src: seq<Byte>, i: nat, rs: Runs)
    decreases rs
  {
    if rs.End? then i == |src|
    else
      exists j: nat, k: nat ::
        && Spells(src, i, j, rs.skip) && Spells(src, j, k, |rs.data|)
        && At(src, k, rs.data) && Lists(src, k + |rs.data|, rs.more)
  }

  /** A delta is accepted only if it lists runs that fit the page, none of them empty; they are then installed. */
  lemma {:induction false} DecodeOnlyRuns(src: seq<Byte>, i: nat, page: seq<Byte>, d: nat) returns (rs: Runs)
    requires i <= |src| && d <= |page|
    ensures DecodeFrom(src, i, page, d).Some? ==>
              && Lists(src, i, rs) && Writable(rs, i == 0, |page| - d)
              && DecodeFrom(src, i, page, d).value == ApplyRuns(rs, i == 0, page, d)
    decreases |src| - i
  {
    hide Splice, At, ReadPair, Spells;
    rs := End;
    if i == |src| || ReadPair(src, i, |page| - d).None? {
    } else {
      var p := ReadPair(src, i, |page| - d).value;
      var data := src[p.from..p.to];
      var more := DecodeOnlyRuns(src, p.to, Splice(page, d + p.skip, data), d + p.skip + |data|);
      rs := Run(p.skip, data, more);
      var j := PairSpells(src, i, |page| - d);
      SliceIsAt(src, p.from, p.to);
    }
  }

  lemma PairSpells(src: seq<Byte>, i: nat, room: nat) returns (j: nat)
    requires ReadPair(src, i, room).Some?
    ensures var p := ReadPair(src, i, room).value;
            && Spells(src, i, j, p.skip) && Spells(src, j, p.from, p.to - p.from)
            && (i > 0 ==> p.skip > 0)
  {
    j := ReadUleb(src, i).value.next;
  }

  lemma SliceIsAt(src: seq<Byte>, i: nat, j: nat)
    requires i <= j <= |src|
    ensures At(src, i, src[i..j])
  {
  }

  lemma DeltaLength(prev: seq<Byte>, cur: seq<Byte>, dlen: nat)
    requires |prev| == |cur| <= MAX_RUN
    requires Encode(prev, cur, dlen).Delta?
    ensures 0 < |Encode(prev, cur, dlen).bytes| <= dlen
  {
    FittingLength(prev, cur, 0, 0, dlen);
  }

  /** Encodes `cur` against `prev` into `dst`: the length used, 0 if unmodified, -1 if too long. */
  method EncodeBuffer(prev: seq<Byte>, cur: seq<Byte>, dst: array<Byte>) returns (r: int)
    requires |prev| == |cur| <= MAX_RUN
    modifies dst
    ensures var e := Encode(prev, cur, dst.Length);
            && (e.Overflow? ==> r == -1)
            && (e.Unmodified? ==> r == 0)
            && (e.Delta? ==> r == |e.bytes| <= dst.Length && dst[..r] == e.bytes)
  {
    hide Fits, WriteRuns, RunsBetween, WriteRun, Uleb, EqualRun, DiffRun;
    var i: nat, d: nat, dlen := 0, 0, dst.Length;
    ghost var all := WriteRuns(RunsBetween(prev, cur, 0));
    while i < |prev|
      invariant i <= |prev| && d <= dlen
      invariant Fits(prev, cur, 0, 0, dlen) == Fits(prev, cur, i, d, dlen)
      invariant all == dst[..d] + WriteRuns(RunsBetween(prev, cur, i))
      invariant d == 0 <==> i == 0
    {
      if d + 2 > dlen {
        EncodeEnds(prev, cur, i, d, dlen);
        return -1;
      }
      EncodeStep(prev, cur, i, d, dlen);
      ghost var out := dst[..d];
      var z := SkipEqual(prev, cur, i);
      if z - i == |prev| {
        return 0;
      }
      if z == |prev| {
        return d;
      }
      var j := SkipDiff(prev, cur, z);
      var end := PutRun(dst, d, z - i, cur[z..j]);
      if end == -1 {
        return -1;
      }
      assert out + (WriteRun(z - i, cur[z..j]) + WriteRuns(RunsBetween(prev, cur, j)))
          == out + WriteRun(z - i, cur[z..j]) + WriteRuns(RunsBetween(prev, cur, j));
      i, d := j, end;
    }
    EncodeEnds(prev, cur, i, d, dlen);
    return d;
  }

  /** One turn of the decoder loop, spelled out test by test. */
  lemma DecodeStep(src: seq<Byte>, i: nat, page: seq<Byte>, d: nat)
    requires i <= |src| && d <= |page|
    ensures DecodeFrom(src, i, page, d) ==
      if i == |src| then Some(page)
      else
        var z := ReadUleb(src, i);
        if z.None? || (i > 0 && z.value.count == 0) || d + z.value.count > |page| then None
        else
          var n := ReadUleb(src, z.value.next);
          if n.None? || n.value.count == 0 then None
          else
            var d1, from, to := d + z.value.count, n.value.next, n.value.next + n.value.count;
            if d1 + n.value.count > |page| || to > |src| then None
            else DecodeFrom(src, to, Splice(page, d1, src[from..to]), d1 + n.value.count)
  {
    hide ReadUleb, Splice;
  }

  /** Applies the delta `src` to the page held in `dst`, in place: the end position, or -1. */
  method DecodeBuffer(src: seq<Byte>, dst: array<Byte>) returns (r: int)
    modifies dst
    ensures var e := Decode(src, old(dst[..]));
            if e.None? then r == -1 else 0 <= r <= dst.Length && dst[..] == e.value
  {
    hide DecodeFrom, ReadUleb, ReadPair;
    var i: nat, d: nat := 0, 0;
    while i < |src|
      invariant i <= |src| && d <= dst.Length
      invariant Decode(src, old(dst[..])) == DecodeFrom(src, i, dst[..], d)
      decreases |src| - i
    {
      DecodeStep(src, i, dst[..], d);
      var z := ReadUleb(src, i);
      if z.None? || (i > 0 && z.value.count == 0) {
        return -1;
      }
      if d + z.value.count > dst.Length {
        return -1;
      }
      var n := ReadUleb(src, z.value.next);
      if n.None? || n.value.count == 0 {
        return -1;
      }
      var from, to := n.value.next, n.value.next + n.value.count;
      if d + z.value.count + n.value.count > dst.Length || to > |src| {
        return -1;
      }
      d := d + z.value.count;
      Store(dst, d, src[from..to]);
      d := d + n.value.count;
      i := to;
    }
    DecodeStep(src, i, dst[..], d);
    return d;
  }
}
