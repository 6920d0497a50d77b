/**
 * Scatterlists over user pages: mapping a user buffer, copying a list and moving its start.
 *
 * An entry names a stretch of physical memory; what a list means is the sequence of byte addresses it
 * covers. A list is a stretch of an entry array; `sg_next` of its last entry is null.
 */
module Scatter {
  import opened Arith
  import opened Wire

  datatype Entry = Entry(page: nat, offset: nat, length: nat)

  /** The addresses of one entry, for pages of `p` bytes. */
  function Span(p: nat, e: Entry): (r: seq<nat>)
    ensures |r| == e.length
  {
    seq(e.length, k requires 0 <= k => e.page * p + e.offset + k)
  }

  /** The addresses of a list, in order. */
  function Flatten(p: nat, s: seq<Entry>): seq<nat>
    decreases |s|
  {
    if s == [] then [] else Flatten(p, s[..|s| - 1]) + Span(p, s[|s| - 1])
  }

  lemma {:induction false} FlattenConcat(p: nat, s: seq<Entry>, t: seq<Entry>)
    ensures Flatten(p, s + t) == Flatten(p, s) + Flatten(p, t)
    decreases |t|
  {
    if t == [] {
      assert s + t == s;
    } else {
      assert (s + t)[..|s + t| - 1] == s + t[..|t| - 1];
      FlattenConcat(p, s, t[..|t| - 1]);
    }
  }

  lemma FlattenNone(p: nat, s: seq<Entry>)
    ensures Flatten(p, s[..0]) == []
  {
  }

  lemma FlattenOne(p: nat, e: Entry)
    ensures Flatten(p, [e]) == Span(p, e)
  {
    assert [e][..0] == [];
  }

  /** Splitting a list at entry `i`. */
  lemma FlattenAt(p: nat, s: seq<Entry>, i: nat)
    requires i < |s|
    ensures Flatten(p, s[..i + 1]) == Flatten(p, s[..i]) + Span(p, s[i])
    ensures Flatten(p, s) == Flatten(p, s[..i]) + Span(p, s[i]) + Flatten(p, s[i + 1..])
    ensures Flatten(p, s) == Flatten(p, s[..i]) + Flatten(p, s[i..])
  {
    assert s[..i + 1] == s[..i] + [s[i]] && s == s[..i + 1] + s[i + 1..] && s == s[..i] + s[i..];
    FlattenConcat(p, s[..i], [s[i]]);
    FlattenOne(p, s[i]);
    FlattenConcat(p, s[..i + 1], s[i + 1..]);
    FlattenConcat(p, s[..i], s[i..]);
  }

  /** Cutting a list in the middle of entry `i`. */
  lemma FlattenCut(p: nat, s: seq<Entry>, i: nat, n: nat)
    requires i < |s| && n <= s[i].length
    ensures var len := |Flatten(p, s[..i])| + n;
            && len <= |Flatten(p, s)|
            && Flatten(p, s[..i] + [s[i].(length := n)]) == Flatten(p, s)[..len]
  {
    FlattenAt(p, s, i);
    var e := s[i].(length := n);
    FlattenConcat(p, s[..i], [e]);
    FlattenOne(p, e);
    assert Span(p, e) == Span(p, s[i])[..n];
  }

  // ----- sg_copy and sg_advance -----

  /**
   * `sg_copy`: list `to` becomes the first `len` bytes of list `from`, entry by entry. Returns where `to` now
   * ends, or None for -ENOMEM.
   */
  method SgCopy(sg: array<Entry>, from: nat, fromEnd: nat, to: nat, toEnd: nat, len: nat, ghost p: nat)
    returns (end: Option<nat>)
    requires from < fromEnd <= to < toEnd <= sg.Length && sg[to].length == 0
    modifies sg
    ensures sg[..to] == old(sg[..to])
    ensures len <= |Flatten(p, old(sg[from..fromEnd]))| && toEnd - to >= fromEnd - from ==> end.Some?
    ensures end.Some? ==>
              && to < end.value <= toEnd && len <= |Flatten(p, old(sg[from..fromEnd]))|
              && Flatten(p, sg[to..end.value]) == Flatten(p, old(sg[from..fromEnd]))[..len]
  {
    hide Flatten, Span;
    ghost var list := sg[from..fromEnd];
    FlattenNone(p, list);
    var f, t, left: nat := from, to, len;
    ghost var i: nat := 0;
    while left > sg[f].length
      invariant f == from + i < fromEnd && t == to + i < toEnd
      invariant forall k :: 0 <= k < to ==> sg[k] == old(sg[k])
      invariant (i == 0 ==> sg[to] == old(sg[to])) && (len == 0 ==> i == 0)
      invariant sg[to..t] == list[..i]
      invariant left + |Flatten(p, list[..i])| == len && (len > 0 ==> left > 0)
      decreases fromEnd - f
    {
      assert sg[f] == list[i];
      FlattenAt(p, list, i);
      left := left - sg[f].length;
      sg[t] := sg[f];
      t, f, i := t + 1, f + 1, i + 1;
      if f == fromEnd || t == toEnd {
        assert list[..i] == list || t == toEnd;
        return None;
      }
    }
    assert sg[f] == list[i];
    FlattenCut(p, list, i, left);
    if left > 0 {
      sg[t] := Entry(sg[f].page, sg[f].offset, left);
    } else {
      FlattenOne(p, sg[to]);
      assert sg[to..to + 1] == [sg[to]];
    }
    assert left > 0 ==> sg[to..t + 1] == list[..i] + [list[i].(length := left)];
    end := Some(t + 1);
  }

  /**
   * `sg_advance`: the entry where the list goes on after `consumed` bytes, trimmed to start there; None when
   * nothing is left.
   */
  method SgAdvance(sg: array<Entry>, start: nat, end: nat, consumed: nat, p: nat) returns (at: Option<nat>)
    requires start < end <= sg.Length && p > 0
    modifies sg
    ensures at == None <==> consumed >= |Flatten(p, old(sg[start..end]))|
    ensures forall k :: 0 <= k < start || end <= k < sg.Length ==> sg[k] == old(sg[k])
    ensures at.Some? ==>
              start <= at.value < end && Flatten(p, sg[at.value..end]) == Flatten(p, old(sg[start..end]))[consumed..]
    ensures at == None ==> sg[..] == old(sg[..])
  {
    hide Flatten, Span;
    ghost var list := sg[start..end];
    FlattenNone(p, list);
    var i, left: nat := start, consumed;
    while left >= sg[i].length
      invariant start <= i < end && forall j :: 0 <= j < sg.Length ==> sg[j] == old(sg[j])
      invariant left + |Flatten(p, list[..i - start])| == consumed
      decreases end - i
    {
      FlattenAt(p, list, i - start);
      assert sg[i] == list[i - start];
      left := left - sg[i].length;
      i := i + 1;
      if i == end {
        assert list[..i - start] == list;
        return None;
      }
    }
    ghost var k := i - start;
    assert sg[i] == list[k];
    sg[i] := Entry(sg[i].page, sg[i].offset + left, sg[i].length - left);
    if sg[i].offset >= p {
      sg[i] := Entry(sg[i].page + sg[i].offset / p, sg[i].offset % p, sg[i].length);
    }
    SpanAdvanced(p, list[k], left, sg[i]);
    FlattenRest(p, list, k, left, sg[i]);
    assert sg[i..end] == [sg[i]] + list[k + 1..];
    at := Some(i);
  }

  lemma FlattenRest(p: nat, s: seq<Entry>, i: nat, n: nat, e: Entry)
    requires i < |s| && n <= s[i].length && Span(p, e) == Span(p, s[i])[n..]
    ensures var len := |Flatten(p, s[..i])| + n;
            len <= |Flatten(p, s)| && Flatten(p, [e] + s[i + 1..]) == Flatten(p, s)[len..]
    ensures n < s[i].length ==> |Flatten(p, s[..i])| + n < |Flatten(p, s)|
  {
    FlattenAt(p, s, i);
    FlattenConcat(p, [e], s[i + 1..]);
    FlattenOne(p, e);
  }

  /** Moving into the next pages is only another way to write the same addresses. */
  lemma SpanAdvanced(p: nat, e: Entry, n: nat, r: Entry)
    requires p > 0 && n <= e.length && r.length == e.length - n
    requires var o := e.offset + n;
             (o < p && r.page == e.page && r.offset == o) || (o >= p && r.page == e.page + o / p && r.offset == o % p)
    ensures Span(p, r) == Span(p, e)[n..]
  {
    var o := e.offset + n;
    if o >= p {
      assert (e.page + o / p) * p == e.page * p + o / p * p;
    }
    assert r.page * p + r.offset == e.page * p + e.offset + n;
  }
}
