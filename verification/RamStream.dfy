/**
 * Guest RAM as migration sees it: named blocks of pages, and the records in which the sender
 * prints them on the stream.
 */
module RamStream {
  import opened Wire

  /** `TARGET_PAGE_BITS` is 12. */
  const PAGE_BITS := 12
  const PAGE := 4096

  type Page = p: seq<Byte> | |p| == PAGE witness seq(PAGE, _ => 0)

  /** A RAM block: its name, its length in pages, and where it starts in the RAM address space. */
  datatype Block = Block(id: seq<Byte>, pages: nat, base: nat)

  /** A page is named by its block's name and its index in the block. */
  datatype PageKey = PageKey(id: seq<Byte>, i: nat)

  const FLAG_COMPRESS := 0x02
  const FLAG_MEM_SIZE := 0x04
  const FLAG_PAGE := 0x08
  const FLAG_EOS := 0x10
  const FLAG_CONTINUE := 0x20
  const FLAG_XBZRLE := 0x40
  const ENCODING_FLAG_XBZRLE := 0x01

  /** The pages of all blocks from block `b` on. */
  function PagesFrom(blocks: seq<Block>, b: nat): (n: nat)
    requires b <= |blocks|
    decreases |blocks| - b
  {
    if b == |blocks| then 0 else blocks[b].pages + PagesFrom(blocks, b + 1)
  }

  function TotalPages(blocks: seq<Block>): (n: nat) { PagesFrom(blocks, 0) }

  /** A block name fits its length byte and has no terminator inside. */
  predicate ValidId(id: seq<Byte>) { |id| < 256 && 0 !in id }

  /** Two blocks with different names and disjoint page ranges. */
  predicate Apart(a: Block, b: Block) {
    && a.id != b.id
    && (a.base + a.pages * PAGE <= b.base || b.base + b.pages * PAGE <= a.base)
  }

  predicate ValidBlock(b: Block) {
    b.pages > 0 && ValidId(b.id) && b.base % PAGE == 0
  }

  /** The block list a machine migrates: nonempty blocks, unique names, disjoint page ranges. */
  ghost predicate ValidBlocks(blocks: seq<Block>) {
    && |blocks| > 0
    && (forall b :: 0 <= b < |blocks| ==> ValidBlock(blocks[b]))
    && (forall b, c {:trigger Apart(blocks[b], blocks[c])} :: 0 <= b < c < |blocks| ==> Apart(blocks[b], blocks[c]))
    && TotalPages(blocks) * PAGE < Pow256(8)
  }

  /** A position in the block list. */
  datatype Pos = Pos(b: nat, i: nat)

  ghost predicate InBlocks(blocks: seq<Block>, p: Pos) {
    p.b < |blocks| && p.i < blocks[p.b].pages
  }

  function KeyOf(blocks: seq<Block>, p: Pos): (k: PageKey)
    requires InBlocks(blocks, p)
  {
    PageKey(blocks[p.b].id, p.i)
  }

  /** The `f`-th page counting from block `b`. */
  ghost function Unflat(blocks: seq<Block>, b: nat, f: nat): (p: Pos)
    requires b <= |blocks| && f < PagesFrom(blocks, b)
    ensures InBlocks(blocks, p) && p.b >= b
    decreases |blocks| - b
  {
    if f < blocks[b].pages then Pos(b, f) else Unflat(blocks, b + 1, f - blocks[b].pages)
  }

  /** The number of pages before position `p`, counting from block `b`. */
  ghost function Flat(blocks: seq<Block>, b: nat, p: Pos): (f: nat)
    requires b <= p.b && InBlocks(blocks, p)
    ensures f < PagesFrom(blocks, b)
    decreases p.b - b
  {
    if b == p.b then p.i else blocks[b].pages + Flat(blocks, b + 1, p)
  }

  lemma {:induction false} FlatUnflat(blocks: seq<Block>, b: nat, f: nat)
    requires b <= |blocks| && f < PagesFrom(blocks, b)
    ensures Flat(blocks, b, Unflat(blocks, b, f)) == f
    decreases |blocks| - b
  {
    if f < blocks[b].pages {
    } else {
      FlatUnflat(blocks, b + 1, f - blocks[b].pages);
    }
  }

  lemma {:induction false} UnflatFlat(blocks: seq<Block>, b: nat, p: Pos)
    requires b <= p.b && InBlocks(blocks, p)
    ensures Unflat(blocks, b, Flat(blocks, b, p)) == p
    decreases p.b - b
  {
    if b == p.b {
    } else {
      UnflatFlat(blocks, b + 1, p);
    }
  }

  /** The step of the scan: the next page of the block, the next block, or the first block again. */
  function Advance(blocks: seq<Block>, p: Pos): (q: Pos) {
    if p.b < |blocks| && p.i + 1 >= blocks[p.b].pages then Pos(if p.b + 1 < |blocks| then p.b + 1 else 0, 0)
    else Pos(p.b, p.i + 1)
  }

  lemma {:induction false} AdvanceFlat(blocks: seq<Block>, b: nat, p: Pos)
    requires b <= p.b && InBlocks(blocks, p)
    requires forall c :: 0 <= c < |blocks| ==> blocks[c].pages > 0
    ensures Flat(blocks, b, p) + 1 == PagesFrom(blocks, b) ==> Advance(blocks, p) == Pos(0, 0)
    ensures Flat(blocks, b, p) + 1 < PagesFrom(blocks, b)
            ==> var q := Advance(blocks, p);
                q.b >= b && InBlocks(blocks, q) && Flat(blocks, b, q) == Flat(blocks, b, p) + 1
    decreases p.b - b
  {
    if b < p.b {
      AdvanceFlat(blocks, b + 1, p);
    } else if b + 1 < |blocks| {
      assert PagesFrom(blocks, b + 1) >= blocks[b + 1].pages;
      assert Flat(blocks, b + 1, Pos(b + 1, 0)) == 0;
    } else {
      assert PagesFrom(blocks, b + 1) == 0;
    }
  }

  /** Whether every byte of the page equals its first byte. */
  predicate IsDup(page: Page) {
    forall k :: 0 <= k < PAGE ==> page[k] == page[0]
  }

  function Splat(ch: Byte): (p: Page)
    ensures IsDup(p) && p[0] == ch
  {
    seq(PAGE, _ => ch)
  }

  /** What a page record carries. */
  datatype Body = Dup(ch: Byte) | Raw(data: Page) | Delta(bytes: seq<Byte>)

  /** What the sender prints: the block list, a page record, or the end of a section. */
  datatype Item = BlockList | PageItem(b: nat, i: nat, cont: bool, body: Body) | Eos

  predicate ValidItem(blocks: seq<Block>, it: Item) {
    it.PageItem? ==>
      && it.b < |blocks| && it.i < blocks[it.b].pages
      && (it.body.Delta? ==> 0 < |it.body.bytes| <= PAGE)
  }

  function BodyFlag(body: Body): nat {
    match body
    case Dup(_) => FLAG_COMPRESS
    case Raw(_) => FLAG_PAGE
    case Delta(_) => FLAG_XBZRLE
  }

  function PrintBody(body: Body): seq<Byte> {
    match body
    case Dup(ch) => [ch]
    case Raw(data) => data
    case Delta(bytes) => [ENCODING_FLAG_XBZRLE] + PutBe(|bytes|, 2) + bytes
  }

  /** A length byte and the name. */
  function PrintId(id: seq<Byte>): (s: seq<Byte>)
    requires ValidId(id)
    ensures |s| == 1 + |id|
  {
    [|id|] + id
  }

  /** The header of a page record: `offset | cont | flag`, then the name unless continued. */
  function PrintHeader(id: seq<Byte>, offset: nat, cont: bool, flag: nat): seq<Byte>
    requires ValidId(id)
  {
    var c := if cont then FLAG_CONTINUE else 0;
    PutBe(BitOr(BitOr(offset, c), flag), 8) + (if cont then [] else PrintId(id))
  }

  function PrintBlocks(blocks: seq<Block>, b: nat): seq<Byte>
    requires b <= |blocks| && forall c :: 0 <= c < |blocks| ==> ValidId(blocks[c].id)
    decreases |blocks| - b
  {
    if b == |blocks| then []
    else PrintId(blocks[b].id) + PutBe(blocks[b].pages * PAGE, 8) + PrintBlocks(blocks, b + 1)
  }

  function PrintItem(blocks: seq<Block>, it: Item): seq<Byte>
    requires (forall c :: 0 <= c < |blocks| ==> ValidId(blocks[c].id)) && ValidItem(blocks, it)
  {
    match it
    case BlockList => PutBe(BitOr(TotalPages(blocks) * PAGE, FLAG_MEM_SIZE), 8) + PrintBlocks(blocks, 0)
    case PageItem(b, i, cont, body) => PrintHeader(blocks[b].id, i * PAGE, cont, BodyFlag(body)) + PrintBody(body)
    case Eos => PutBe(FLAG_EOS, 8)
  }

  ghost predicate ValidItems(blocks: seq<Block>, items: seq<Item>) {
    forall k :: 0 <= k < |items| ==> ValidItem(blocks, items[k])
  }

  ghost function Print(blocks: seq<Block>, items: seq<Item>): seq<Byte>
    requires (forall c :: 0 <= c < |blocks| ==> ValidId(blocks[c].id)) && ValidItems(blocks, items)
  {
    if items == [] then []
    else Print(blocks, items[..|items| - 1]) + PrintItem(blocks, items[|items| - 1])
  }

  lemma PrintAppend(blocks: seq<Block>, items: seq<Item>, it: Item)
    requires (forall c :: 0 <= c < |blocks| ==> ValidId(blocks[c].id))
    requires ValidItems(blocks, items) && ValidItem(blocks, it)
    ensures ValidItems(blocks, items + [it])
    ensures Print(blocks, items + [it]) == Print(blocks, items) + PrintItem(blocks, it)
  {
    assert (items + [it])[..|items|] == items;
  }

  lemma NothingPrinted(blocks: seq<Block>)
    requires forall c :: 0 <= c < |blocks| ==> ValidId(blocks[c].id)
    ensures Print(blocks, []) == []
  {
  }

  lemma IdsValid(blocks: seq<Block>)
    requires ValidBlocks(blocks)
    ensures forall c :: 0 <= c < |blocks| ==> ValidId(blocks[c].id)
  {
    assert forall c :: 0 <= c < |blocks| ==> ValidBlock(blocks[c]);
  }
}
