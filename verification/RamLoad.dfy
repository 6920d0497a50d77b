/** The receiving side of RAM migration. */
module RamLoad {
  import opened Wire
  import opened RamStream
  import Xbzrle

  /** The destination: its own block list, its memory, and the block of the last named record. */
  datatype Receiver = Receiver(blocks: seq<Block>, xbzrle: bool, mem: map<PageKey, Page>, cur: Option<nat>)

  /** A C string: the bytes before the first terminator. */
  function CString(s: seq<Byte>, i: nat := 0): (r: seq<Byte>)
    requires i <= |s|
    decreases |s| - i
  {
    if i == |s| || s[i] == 0 then s[..i] else CString(s, i + 1)
  }

  lemma {:induction false} CStringWhole(s: seq<Byte>, i: nat)
    requires i <= |s| && 0 !in s
    ensures CString(s, i) == s
    decreases |s| - i
  {
    if i == |s| {
    } else {
      CStringWhole(s, i + 1);
    }
  }

  /** The first block with the given name, searching from `b` on. */
  function FindBlock(blocks: seq<Block>, id: seq<Byte>, b: nat): (r: Option<nat>)
    requires b <= |blocks|
    ensures r.Some? ==> r.value < |blocks| && blocks[r.value].id == id
    ensures r.None? ==> forall c :: b <= c < |blocks| ==> blocks[c].id != id
    decreases |blocks| - b
  {
    if b == |blocks| then None
    else if blocks[b].id == id then Some(b)
    else FindBlock(blocks, id, b + 1)
  }

  /** A big-endian field of `n` bytes at `i`. */
  function Field(s: seq<Byte>, i: nat, n: nat): (v: nat)
    requires i + n <= |s|
    ensures v < Pow256(n)
  {
    GetBe(s[i..i + n])
  }

  /** A block name at `i` and the position after it. */
  datatype NameRead = NameRead(id: seq<Byte>, next: nat)

  function ReadName(s: seq<Byte>, i: nat): (r: Option<NameRead>)
    ensures r.Some? ==> i < r.value.next <= |s|
  {
    if i >= |s| || i + 1 + s[i] > |s| then None
    else Some(NameRead(CString(s[i + 1..i + 1 + s[i]]), i + 1 + s[i]))
  }

  /** Reads announced blocks until `total` bytes are accounted for; the position after them. */
  function LoadBlocks(blocks: seq<Block>, s: seq<Byte>, i: nat, total: nat): (r: Option<nat>)
    requires i <= |s| && total < Pow256(8)
    ensures r.Some? ==> i <= r.value <= |s|
    decreases |s| - i
  {
    if total == 0 then Some(i)
    else
      match ReadName(s, i)
      case None => None
      case Some(n) =>
        if n.next + 8 > |s| then None
        else
          var length := Field(s, n.next, 8);
          match FindBlock(blocks, n.id, 0)
          case None => None
          case Some(b) =>
            if blocks[b].pages * PAGE != length then None
            else
              // unsigned subtraction
              LoadBlocks(blocks, s, n.next + 8, if length <= total then total - length else total + Pow256(8) - length)
  }

  /** From `i` to `j` the stream announces blocks `found` of the destination, each by its name and its length. */
  ghost predicate Announces(blocks: seq<Block>, s: seq<Byte>, i: nat, j: nat, found: seq<nat>)
    decreases |found|
  {
    if found == [] then i == j
    else
      && i + 9 <= |s| && i + 9 + s[i] <= |s| && found[0] < |blocks|
      && CString(s[i + 1..i + 1 + s[i]]) == blocks[found[0]].id
      && GetBe(s[i + 1 + s[i]..i + 9 + s[i]]) == blocks[found[0]].pages * PAGE
      && Announces(blocks, s, i + 9 + s[i], j, found[1..])
  }

  /** A block list is accepted only if the destination has every block announced, with the length announced. */
  lemma {:induction false} BlocksAccepted(blocks: seq<Block>, s: seq<Byte>, i: nat, total: nat)
    returns (found: seq<nat>)
    requires i <= |s| && total < Pow256(8)
    ensures LoadBlocks(blocks, s, i, total).Some? ==>
              Announces(blocks, s, i, LoadBlocks(blocks, s, i, total).value, found)
    decreases |s| - i
  {
    hide CString, Pow256, LoadBlocks;
    found := [];
    if LoadBlocks(blocks, s, i, total).None? {
    } else {
      var b, next, left := BlockAccepted(blocks, s, i, total);
      if total > 0 {
        var rest := BlocksAccepted(blocks, s, next, left);
        found := [b] + rest;
        assert found[1..] == rest;
      }
    }
  }

  /** One block of it. */
  lemma BlockAccepted(blocks: seq<Block>, s: seq<Byte>, i: nat, total: nat) returns (b: nat, next: nat, left: nat)
    requires i <= |s| && total < Pow256(8) && LoadBlocks(blocks, s, i, total).Some?
    ensures if total == 0 then LoadBlocks(blocks, s, i, total) == Some(i)
            else
              && i + 9 <= |s| && i + 9 + s[i] <= |s| && b < |blocks| && next == i + 9 + s[i] && left < Pow256(8)
              && CString(s[i + 1..i + 1 + s[i]]) == blocks[b].id
              && GetBe(s[i + 1 + s[i]..i + 9 + s[i]]) == blocks[b].pages * PAGE
              && LoadBlocks(blocks, s, i, total) == LoadBlocks(blocks, s, next, left)
  {
    hide CString, Pow256, GetBe;
    b, next, left := 0, 0, 0;
    if total > 0 {
      var n := ReadName(s, i).value;
      var length := Field(s, n.next, 8);
      b, next := FindBlock(blocks, n.id, 0).value, n.next + 8;
      left := if length <= total then total - length else total + Pow256(8) - length;
    }
  }

  /** The block a record belongs to and the position of its payload. */
  datatype Host = Host(b: nat, next: nat)

  function HostFromStream(r: Receiver, s: seq<Byte>, i: nat, flags: nat): (h: Option<Host>)
    requires i <= |s|
    ensures h.Some? ==> i <= h.value.next <= |s|
    ensures h.Some? ==> h.value.b < |r.blocks| || r.cur == Some(h.value.b)
  {
    if HasFlag(flags, FLAG_CONTINUE) then
      match r.cur
      case None => None
      case Some(b) => Some(Host(b, i))
    else
      match ReadName(s, i)
      case None => None
      case Some(n) =>
        match FindBlock(r.blocks, n.id, 0)
        case None => None
        case Some(b) => Some(Host(b, n.next))
  }

  datatype Loaded = Loaded(r: Receiver, next: nat)

  /** The payload of a page record at `i`, given its flags and the page it replaces. */
  datatype Payload = Payload(page: Page, next: nat)

  function ReadPayload(xbzrle: bool, s: seq<Byte>, i: nat, flags: nat, held: Page): (r: Option<Payload>)
    requires i <= |s|
    ensures r.Some? ==> i <= r.value.next <= |s|
  {
    if HasFlag(flags, FLAG_COMPRESS) then
      if i + 1 > |s| then None else Some(Payload(Splat(s[i]), i + 1))
    else if HasFlag(flags, FLAG_PAGE) then
      if i + PAGE > |s| then None else Some(Payload(s[i..i + PAGE], i + PAGE))
    else if i + 3 > |s| || !xbzrle then None
    else
      var len := Field(s, i + 1, 2);
      if s[i] != ENCODING_FLAG_XBZRLE || len > PAGE || i + 3 + len > |s| then None
      else
        match Xbzrle.Decode(s[i + 3..i + 3 + len], held)
        case None => None
        case Some(page) => Some(Payload(page, i + 3 + len))
  }

  /** Loads one record whose header flags are `flags` and whose page is at `offset` in its block. */
  function LoadPage(r: Receiver, s: seq<Byte>, i: nat, flags: nat, offset: nat): (l: Option<Loaded>)
    requires i <= |s|
    ensures l.Some? ==> i <= l.value.next <= |s|
  {
    match HostFromStream(r, s, i, flags)
    case None => None
    case Some(h) =>
      if h.b >= |r.blocks| then None
      else
        var key := PageKey(r.blocks[h.b].id, offset / PAGE);
        if key !in r.mem then None
        else
          match ReadPayload(r.xbzrle, s, h.next, flags, r.mem[key])
          case None => None
          case Some(p) => Some(Loaded(r.(mem := r.mem[key := p.page], cur := Some(h.b)), p.next))
  }

  /**
   * A page record is accepted only if it continues a block or names one the destination has, has a page there, and its
   * payload is complete; a delta moreover needs XBZRLE, its own marker, a length within a page and to be well-formed.
   * It then changes that page and no other.
   */
  lemma PageAccepted(r: Receiver, s: seq<Byte>, i: nat, flags: nat, offset: nat)
    requires i <= |s| && LoadPage(r, s, i, flags, offset).Some?
    ensures var l := LoadPage(r, s, i, flags, offset).value;
            && l.r.blocks == r.blocks && l.r.xbzrle == r.xbzrle && l.r.cur.Some? && l.r.cur.value < |r.blocks|
            && var b := l.r.cur.value;
               var key := PageKey(r.blocks[b].id, offset / PAGE);
               && (if HasFlag(flags, 0x20) then r.cur == Some(b)
                   else i < |s| && i + 1 + s[i] <= |s| && CString(s[i + 1..i + 1 + s[i]]) == r.blocks[b].id)
               && key in r.mem && l.r.mem == r.mem[key := l.r.mem[key]]
               && var at := if HasFlag(flags, 0x20) then i else i + 1 + s[i];
                  if HasFlag(flags, 0x02) then
                    l.next == at + 1 <= |s| && l.r.mem[key] == seq(PAGE, _ => s[at])
                  else if HasFlag(flags, 0x08) then
                    l.next == at + PAGE <= |s| && l.r.mem[key] == s[at..at + PAGE]
                  else
                    && r.xbzrle && at + 3 <= |s| && s[at] == 0x01
                    && var len := GetBe(s[at + 1..at + 3]);
                       && len <= PAGE && l.next == at + 3 + len <= |s|
                       && Xbzrle.Decode(s[at + 3..at + 3 + len], r.mem[key]) == Some(l.r.mem[key])
  {
    hide CString, Xbzrle.Decode, HasFlag, FindBlock;
  }

  /** One turn of the load loop, given its flag word and address. */
  function LoadRecord(r: Receiver, s: seq<Byte>, i: nat, flags: nat, addr: nat): (l: Option<Loaded>)
    requires i <= |s| && addr < Pow256(8)
    ensures l.Some? ==> i <= l.value.next <= |s|
  {
    var after := if HasFlag(flags, FLAG_MEM_SIZE) then LoadBlocks(r.blocks, s, i, addr) else Some(i);
    match after
    case None => None
    case Some(j) =>
      if HasFlag(flags, FLAG_COMPRESS) || HasFlag(flags, FLAG_PAGE) || HasFlag(flags, FLAG_XBZRLE) then
        LoadPage(r, s, j, flags, addr)
      else Some(Loaded(r, j))
  }

  /** Loads one section: records up to and including the end marker. None stands for every error return. */
  function Load(r: Receiver, s: seq<Byte>, i: nat): (l: Option<Loaded>)
    requires i <= |s|
    ensures l.Some? ==> i < l.value.next <= |s|
    decreases |s| - i
  {
    if i + 8 > |s| then None
    else
      var word := Field(s, i, 8);
      var flags := word % PAGE;
      match LoadRecord(r, s, i + 8, flags, word - flags)
      case None => None
      case Some(l) => if HasFlag(flags, FLAG_EOS) then Some(l) else Load(l.r, s, l.next)
  }

  /** The destination has every block of the sender, with the same length, under a unique name. */
  ghost predicate SameBlocks(blocks: seq<Block>, r: Receiver) {
    && (forall b :: 0 <= b < |blocks| ==>
          var d := FindBlock(r.blocks, blocks[b].id, 0);
          d.Some? && r.blocks[d.value].pages == blocks[b].pages)
    && (forall p :: InBlocks(blocks, p) ==> KeyOf(blocks, p) in r.mem)
  }

  /** What a printed item means to a receiver that holds `held` for its page. */
  function NewPage(body: Body, held: Page): (p: Option<Page>) {
    match body
    case Dup(ch) => Some(Splat(ch))
    case Raw(data) => Some(data)
    case Delta(bytes) => Xbzrle.Decode(bytes, held)
  }

  ghost predicate Acceptable(blocks: seq<Block>, r: Receiver, it: Item)
    requires SameBlocks(blocks, r) && ValidItem(blocks, it)
  {
    it.PageItem? ==>
      && NewPage(it.body, r.mem[KeyOf(blocks, Pos(it.b, it.i))]).Some?
      && (it.body.Delta? ==> r.xbzrle)
      && (it.cont ==> r.cur == FindBlock(r.blocks, blocks[it.b].id, 0))
  }

  ghost function ApplyItem(blocks: seq<Block>, r: Receiver, it: Item): (r': Receiver)
    requires SameBlocks(blocks, r) && ValidItem(blocks, it) && Acceptable(blocks, r, it)
    ensures SameBlocks(blocks, r') && r'.blocks == r.blocks
  {
    if !it.PageItem? then r
    else
      var key := KeyOf(blocks, Pos(it.b, it.i));
      r.(mem := r.mem[key := NewPage(it.body, r.mem[key]).value], cur := FindBlock(r.blocks, blocks[it.b].id, 0))
  }

  /** A field is read back as it was printed. */
  lemma FieldRoundTrip(s: seq<Byte>, i: nat, v: nat, n: nat)
    requires v < Pow256(n) && At(s, i, PutBe(v, n))
    ensures Field(s, i, n) == v
  {
    AtSlice(s, i, PutBe(v, n));
    BeRoundTrip(v, n);
  }

  /** A name is read back as it was printed. */
  lemma NameRoundTrip(s: seq<Byte>, i: nat, id: seq<Byte>)
    requires ValidId(id) && At(s, i, PrintId(id))
    ensures ReadName(s, i) == Some(NameRead(id, i + 1 + |id|))
  {
    AtParts(s, i, [|id|], id);
    assert s[i + 0] == [|id|][0];
    AtSlice(s, i + 1, id);
    CStringWhole(id, 0);
  }

  lemma {:induction false} PagesBound(blocks: seq<Block>, b: nat, c: nat)
    requires b <= c < |blocks|
    ensures blocks[c].pages <= PagesFrom(blocks, b)
    decreases c - b
  {
    if b == c {
    } else {
      PagesBound(blocks, b + 1, c);
    }
  }

  /** The announced block list is read to its end, exactly when the announced total is used up. */
  lemma {:induction false} BlocksRoundTrip(blocks: seq<Block>, r: Receiver, s: seq<Byte>, i: nat, b: nat)
    requires ValidBlocks(blocks) && SameBlocks(blocks, r) && b <= |blocks|
    requires At(s, i, PrintBlocks(blocks, b))
    requires PagesFrom(blocks, b) * PAGE < Pow256(8)
    ensures LoadBlocks(r.blocks, s, i, PagesFrom(blocks, b) * PAGE) == Some(i + |PrintBlocks(blocks, b)|)
    decreases |blocks| - b
  {
    hide PutBe, GetBe, Field, ReadName, FindBlock, ValidId;
    if b == |blocks| {
    } else {
      var id, len := blocks[b].id, blocks[b].pages * PAGE;
      assert ValidBlock(blocks[b]);
      AtParts(s, i, PrintId(id) + PutBe(len, 8), PrintBlocks(blocks, b + 1));
      AtParts(s, i, PrintId(id), PutBe(len, 8));
      NameRoundTrip(s, i, id);
      FieldRoundTrip(s, i + 1 + |id|, len, 8);
      BlocksRoundTrip(blocks, r, s, i + 1 + |id| + 8, b + 1);
    }
  }

  /** The header word of a page record: the address and the flags separate again. */
  lemma HeaderRoundTrip(s: seq<Byte>, i: nat, id: seq<Byte>, page: nat, cont: bool, body: Body)
    requires ValidId(id) && (page + 1) * PAGE < Pow256(8)
    requires At(s, i, PrintHeader(id, page * PAGE, cont, BodyFlag(body)))
    ensures var word := Field(s, i, 8);
            && word % PAGE == (if cont then FLAG_CONTINUE else 0) + BodyFlag(body)
            && word - word % PAGE == page * PAGE
    ensures !cont ==> At(s, i + 8, PrintId(id))
  {
    hide PutBe, GetBe, Field, BitOr, PrintId, At;
    var c := if cont then FLAG_CONTINUE else 0;
    var word := BitOr(BitOr(page * PAGE, c), BodyFlag(body));
    SplitWord(page, c + BodyFlag(body));
    OrHeader(page, cont, BodyFlag(body));
    AtParts(s, i, PutBe(word, 8), if cont then [] else PrintId(id));
    FieldRoundTrip(s, i, word, 8);
    assert Field(s, i, 8) == page * PAGE + (c + BodyFlag(body));
  }

  lemma SplitWord(page: nat, flags: nat)
    requires flags < PAGE
    ensures (page * PAGE + flags) % PAGE == flags
  {
  }

  /** The three fields of a header word use different bits, so or-ing them is adding them. */
  lemma OrHeader(page: nat, cont: bool, flag: nat)
    requires flag == FLAG_COMPRESS || flag == FLAG_PAGE || flag == FLAG_XBZRLE
    ensures var c := if cont then FLAG_CONTINUE else 0;
            BitOr(BitOr(page * PAGE, c), flag) == page * PAGE + c + flag
  {
    var c := if cont then FLAG_CONTINUE else 0;
    OrAssociative(page * PAGE, c, flag);
    assert BitOr(0x20, 0x02) == 0x22 && BitOr(0x20, 0x08) == 0x28 && BitOr(0x20, 0x40) == 0x60;
    assert BitOr(c, flag) == c + flag;
    PageIsPow2();
    OrKeepsFieldsApart(page, c + flag, PAGE_BITS);
  }

  lemma PageIsPow2()
    ensures Pow2(PAGE_BITS) == PAGE
  {
    assert Pow2(6) == 64;
  }

  /** A small number in eight bytes. */
  lemma SmallBe(v: nat)
    requires v < 0x100_0000
    ensures PutBe(v, 8) == [0, 0, 0, 0, 0, v / 0x1_0000, v / 0x100 % 0x100, v % 0x100]
  {
    assert PutBe(0, 1) == [0] && PutBe(0, 2) == [0, 0] && PutBe(0, 3) == [0, 0, 0];
    assert PutBe(0, 4) == [0, 0, 0, 0] && PutBe(0, 5) == [0, 0, 0, 0, 0];
    assert PutBe(v / 0x1_0000, 6) == [0, 0, 0, 0, 0, v / 0x1_0000];
    assert PutBe(v / 0x100, 7) == PutBe(v / 0x1_0000, 6) + [v / 0x100 % 0x100];
  }

  /** The bytes that announce a block "ram" of one page, and an end marker. */
  lemma ListBytes()
    ensures var blocks := [Block([114, 97, 109], 1, 0)];
            && PrintItem(blocks, BlockList)
               == [0, 0, 0, 0, 0, 0, 0x10, 0x04, 3, 114, 97, 109, 0, 0, 0, 0, 0, 0, 0x10, 0x00]
            && PrintItem(blocks, Eos) == [0, 0, 0, 0, 0, 0, 0, 0x10]
  {
    hide BitOr, PutBe, Pow2;
    var blocks := [Block([114, 97, 109], 1, 0)];
    OrTotal();
    SmallBe(0x1004);
    SmallBe(0x1000);
    SmallBe(0x10);
    assert PagesFrom(blocks, 1) == 0 && TotalPages(blocks) == 1;
    assert PrintBlocks(blocks, 1) == [];
    assert PrintBlocks(blocks, 0) == [3, 114, 97, 109] + PutBe(0x1000, 8);
  }

  lemma OrTotal()
    ensures BitOr(0x1000, 0x04) == 0x1004
  {
    hide BitOr;
    PageIsPow2();
    OrKeepsFieldsApart(1, 0x04, PAGE_BITS);
  }

  /** Its page as a duplicate page of sevens and as a delta, and page 0x123 of another block as it is. */
  lemma RecordBytes(page: Page)
    ensures var blocks := [Block([114, 97, 109], 1, 0)];
            && PrintItem(blocks, PageItem(0, 0, false, Dup(7))) == [0, 0, 0, 0, 0, 0, 0, 0x02, 3, 114, 97, 109, 7]
            && PrintItem(blocks, PageItem(0, 0, true, Delta([5, 1, 9])))
               == [0, 0, 0, 0, 0, 0, 0, 0x60, 0x01, 0, 3, 5, 1, 9]
            && PrintHeader([114], 0x12_3000, true, BodyFlag(Raw(page))) == [0, 0, 0, 0, 0, 0x12, 0x30, 0x28]
            && PrintBody(Raw(page)) == page
  {
    hide BitOr, PutBe;
    OrHeader(0, false, 0x02);
    OrHeader(0, true, 0x40);
    OrHeader(0x123, true, 0x08);
    SmallBe(0x02);
    SmallBe(0x60);
    SmallBe(0x12_3028);
    TwoBe(3);
  }

  lemma TwoBe(v: nat)
    requires v < 0x1_0000
    ensures PutBe(v, 2) == [v / 0x100, v % 0x100]
  {
    assert PutBe(v / 0x100, 1) == [v / 0x100];
  }

  /** A payload is read back as it was printed. */
  lemma PayloadRoundTrip(r: Receiver, s: seq<Byte>, i: nat, body: Body, cont: bool, held: Page)
    requires At(s, i, PrintBody(body))
    requires body.Delta? ==> r.xbzrle && 0 < |body.bytes| <= PAGE
    requires NewPage(body, held).Some?
    ensures var flags := (if cont then FLAG_CONTINUE else 0) + BodyFlag(body);
            ReadPayload(r.xbzrle, s, i, flags, held)
            == Some(Payload(NewPage(body, held).value, i + |PrintBody(body)|))
  {
    hide PutBe, GetBe, Xbzrle.Decode, Field;
    match body
    case Dup(ch) =>
      assert s[i + 0] == [ch][0];
    case Raw(data) =>
      AtSlice(s, i, data);
    case Delta(bytes) =>
      var tag := [ENCODING_FLAG_XBZRLE];
      AtParts(s, i, tag + PutBe(|bytes|, 2), bytes);
      AtParts(s, i, tag, PutBe(|bytes|, 2));
      assert s[i + 0] == tag[0];
      assert Pow256(2) == 65536;
      FieldRoundTrip(s, i + 1, |bytes|, 2);
      AtSlice(s, i + 3, bytes);
  }

  /** One printed page record is loaded as that record. */
  lemma PageRoundTrip(blocks: seq<Block>, r: Receiver, it: Item, s: seq<Byte>, i: nat)
    requires ValidBlocks(blocks) && SameBlocks(blocks, r) && ValidItem(blocks, it) && it.PageItem?
    requires Acceptable(blocks, r, it) && At(s, i, PrintItem(blocks, it))
    ensures i + 8 <= |s|
    ensures var word := Field(s, i, 8);
            var flags := word % PAGE;
            && flags == (if it.cont then FLAG_CONTINUE else 0) + BodyFlag(it.body)
            && LoadPage(r, s, i + 8, flags, word - flags)
               == Some(Loaded(ApplyItem(blocks, r, it), i + |PrintItem(blocks, it)|))
  {
    hide PutBe, GetBe, Field, Xbzrle.Decode, ReadPayload, ReadName, FindBlock, At, BitOr, PrintId, PrintBody, NewPage;
    var id := blocks[it.b].id;
    assert ValidBlock(blocks[it.b]);
    PagesBound(blocks, 0, it.b);
    var head := PrintHeader(id, it.i * PAGE, it.cont, BodyFlag(it.body));
    AtParts(s, i, head, PrintBody(it.body));
    HeaderRoundTrip(s, i, id, it.i, it.cont, it.body);
    var held := r.mem[KeyOf(blocks, Pos(it.b, it.i))];
    PayloadRoundTrip(r, s, i + |head|, it.body, it.cont, held);
    if !it.cont {
      NameRoundTrip(s, i + 8, id);
    }
  }

  /** The announced block list is loaded as such. */
  lemma BlockListRoundTrip(blocks: seq<Block>, r: Receiver, s: seq<Byte>, i: nat)
    requires ValidBlocks(blocks) && SameBlocks(blocks, r)
    requires At(s, i, PrintItem(blocks, BlockList))
    ensures i + 8 <= |s|
    ensures var word := Field(s, i, 8);
            && word % PAGE == FLAG_MEM_SIZE
            && LoadBlocks(r.blocks, s, i + 8, word - word % PAGE) == Some(i + |PrintItem(blocks, BlockList)|)
  {
    hide PutBe, GetBe, Field, At, BitOr, PrintBlocks, LoadBlocks, SameBlocks, PagesFrom;
    var total := TotalPages(blocks);
    var word := BitOr(total * PAGE, FLAG_MEM_SIZE);
    AtParts(s, i, PutBe(word, 8), PrintBlocks(blocks, 0));
    AtBounds(s, i, PutBe(word, 8));
    PageIsPow2();
    OrKeepsFieldsApart(total, FLAG_MEM_SIZE, PAGE_BITS);
    SplitWord(total, FLAG_MEM_SIZE);
    TotalBound(blocks);
    FieldRoundTrip(s, i, word, 8);
    BlocksRoundTrip(blocks, r, s, i + 8, 0);
  }

  lemma PageFlags(cont: bool, body: Body)
    ensures var flags := (if cont then FLAG_CONTINUE else 0) + BodyFlag(body);
            && !HasFlag(flags, FLAG_MEM_SIZE) && !HasFlag(flags, FLAG_EOS)
            && (HasFlag(flags, FLAG_COMPRESS) || HasFlag(flags, FLAG_PAGE) || HasFlag(flags, FLAG_XBZRLE))
  {
  }

  lemma ControlFlags()
    ensures forall w | w == FLAG_MEM_SIZE || w == FLAG_EOS ::
              && !HasFlag(w, FLAG_COMPRESS) && !HasFlag(w, FLAG_PAGE) && !HasFlag(w, FLAG_XBZRLE)
              && (HasFlag(w, FLAG_MEM_SIZE) <==> w == FLAG_MEM_SIZE)
              && (HasFlag(w, FLAG_EOS) <==> w == FLAG_EOS)
  {
  }

  /** One turn of the load loop at `i` takes `r` to `r'`, ends at `next`, and may end the section. */
  ghost predicate TurnLoads(r: Receiver, s: seq<Byte>, i: nat, r': Receiver, next: nat, last: bool) {
    && i + 8 <= |s|
    && var word := Field(s, i, 8);
       var flags := word % PAGE;
       && LoadRecord(r, s, i + 8, flags, word - flags) == Some(Loaded(r', next))
       && (HasFlag(flags, FLAG_EOS) <==> last)
  }

  /** One printed item is loaded as that item, and only the end marker ends the section. */
  lemma ItemRoundTrip(blocks: seq<Block>, r: Receiver, it: Item, s: seq<Byte>, i: nat)
    requires ValidBlocks(blocks) && SameBlocks(blocks, r) && ValidItem(blocks, it)
    requires Acceptable(blocks, r, it) && At(s, i, PrintItem(blocks, it))
    ensures TurnLoads(r, s, i, ApplyItem(blocks, r, it), i + |PrintItem(blocks, it)|, it.Eos?)
  {
    hide PutBe, GetBe, Field, LoadPage, At, BitOr, PrintHeader, PrintBody, PrintBlocks, Acceptable, LoadBlocks,
      HasFlag, SameBlocks, ValidBlocks;
    ControlFlags();
    match it
    case PageItem(_, _, cont, body) =>
      PageFlags(cont, body);
      PageRoundTrip(blocks, r, it, s, i);
    case Eos =>
      assert Pow256(8) > FLAG_EOS by { assert Pow256(1) == 256; }
      AtBounds(s, i, PutBe(FLAG_EOS, 8));
      FieldRoundTrip(s, i, FLAG_EOS, 8);
    case BlockList =>
      BlockListRoundTrip(blocks, r, s, i);
  }

  lemma AtBounds(s: seq<Byte>, i: nat, w: seq<Byte>)
    requires At(s, i, w)
    ensures i + |w| <= |s|
  {
  }

  lemma TotalBound(blocks: seq<Block>)
    requires ValidBlocks(blocks)
    ensures TotalPages(blocks) * PAGE + FLAG_MEM_SIZE < Pow256(8)
  {
    assert Pow256(8) == 256 * 256 * Pow256(6);
  }

  /** The effect of a list of items on the receiver, or None if one of them cannot be taken. */
  ghost function ApplyItems(blocks: seq<Block>, r: Receiver, items: seq<Item>): (r': Option<Receiver>)
    requires SameBlocks(blocks, r) && ValidItems(blocks, items)
    ensures r'.Some? ==> SameBlocks(blocks, r'.value) && r'.value.blocks == r.blocks && r'.value.xbzrle == r.xbzrle
  {
    if items == [] then Some(r)
    else
      var it := items[|items| - 1];
      match ApplyItems(blocks, r, items[..|items| - 1])
      case None => None
      case Some(r1) => if Acceptable(blocks, r1, it) then Some(ApplyItem(blocks, r1, it)) else None
  }

  /** Loads section after section until the stream is used up. */
  ghost function LoadAll(r: Receiver, s: seq<Byte>, i: nat): (l: Option<Receiver>)
    requires i <= |s|
    decreases |s| - i
  {
    if i == |s| then Some(r)
    else
      match Load(r, s, i)
      case None => None
      case Some(l) => LoadAll(l.r, s, l.next)
  }

  ghost function Prefix(blocks: seq<Block>, items: seq<Item>, k: nat): (s: seq<Byte>)
    requires ValidBlocks(blocks) && ValidItems(blocks, items) && k <= |items|
  {
    IdsValid(blocks);
    Print(blocks, items[..k])
  }

  /** Item `k` stands in the stream right after the items before it. */
  lemma {:induction false} ItemAt(blocks: seq<Block>, items: seq<Item>, k: nat, n: nat)
    requires ValidBlocks(blocks) && ValidItems(blocks, items) && k < n <= |items|
    ensures IdsOk(blocks)
    ensures Prefix(blocks, items, k + 1) == Prefix(blocks, items, k) + PrintItem(blocks, items[k])
    ensures At(Prefix(blocks, items, n), |Prefix(blocks, items, k)|, PrintItem(blocks, items[k]))
    decreases n
  {
    hide PrintItem;
    IdsValid(blocks);
    assert items[..k + 1][..k] == items[..k];
    if n == k + 1 {
    } else {
      ItemAt(blocks, items, k, n - 1);
      assert items[..n][..n - 1] == items[..n - 1];
    }
  }

  ghost predicate IdsOk(blocks: seq<Block>) {
    forall c :: 0 <= c < |blocks| ==> ValidId(blocks[c].id)
  }

  ghost function EndOfSection(items: seq<Item>, k: nat): (j: nat)
    requires k < |items| && items[|items| - 1].Eos?
    ensures k <= j < |items| && items[j].Eos?
    decreases |items| - k
  {
    if items[k].Eos? then k else EndOfSection(items, k + 1)
  }

  /** The receiver after the first `k` items. */
  ghost function After(blocks: seq<Block>, r: Receiver, items: seq<Item>, k: nat): (r': Receiver)
    requires SameBlocks(blocks, r) && ValidItems(blocks, items) && k <= |items|
    requires ApplyItems(blocks, r, items).Some?
    ensures SameBlocks(blocks, r')
    ensures ApplyItems(blocks, r, items[..k]) == Some(r')
  {
    AppliedPrefix(blocks, r, items, k);
    ApplyItems(blocks, r, items[..k]).value
  }

  lemma {:induction false} AppliedPrefix(blocks: seq<Block>, r: Receiver, items: seq<Item>, k: nat)
    requires SameBlocks(blocks, r) && ValidItems(blocks, items) && k <= |items|
    requires ApplyItems(blocks, r, items).Some?
    ensures ApplyItems(blocks, r, items[..k]).Some?
    decreases |items|
  {
    if k == |items| {
      assert items[..k] == items;
    } else {
      AppliedPrefix(blocks, r, items[..|items| - 1], k);
      assert items[..|items| - 1][..k] == items[..k];
    }
  }

  /** Loading from item `k` on reaches the end marker of its section with every item applied. */
  lemma {:induction false} SectionRoundTrip(blocks: seq<Block>, r: Receiver, items: seq<Item>, k: nat)
    requires ValidBlocks(blocks) && SameBlocks(blocks, r) && ValidItems(blocks, items)
    requires ApplyItems(blocks, r, items).Some?
    requires k < |items| && items[|items| - 1].Eos?
    ensures var s := Prefix(blocks, items, |items|);
            var from, j := |Prefix(blocks, items, k)|, EndOfSection(items, k) + 1;
            && from <= |s|
            && Load(After(blocks, r, items, k), s, from)
               == Some(Loaded(After(blocks, r, items, j), |Prefix(blocks, items, j)|))
    decreases |items| - k
  {
    hide ApplyItem, Prefix, LoadRecord, Field, PrintItem, At, SameBlocks, Acceptable, ValidBlocks;
    var s := Prefix(blocks, items, |items|);
    var from := |Prefix(blocks, items, k)|;
    ItemAt(blocks, items, k, |items|);
    AtBounds(s, from, PrintItem(blocks, items[k]));
    var rk, rk' := After(blocks, r, items, k), After(blocks, r, items, k + 1);
    assert items[..k + 1][..k] == items[..k];
    assert Acceptable(blocks, rk, items[k]) && rk' == ApplyItem(blocks, rk, items[k]);
    ItemRoundTrip(blocks, rk, items[k], s, from);
    if items[k].Eos? {
    } else {
      SectionRoundTrip(blocks, r, items, k + 1);
    }
  }

  /**
   * The whole stream is parsed back to exactly the records printed: loading it, section by section,
   * leaves the receiver as applying the records does.
   */
  lemma {:induction false} StreamRoundTrip(blocks: seq<Block>, r: Receiver, items: seq<Item>, k: nat)
    requires ValidBlocks(blocks) && SameBlocks(blocks, r) && ValidItems(blocks, items)
    requires ApplyItems(blocks, r, items).Some?
    requires k <= |items| && (items == [] || items[|items| - 1].Eos?)
    ensures var s := Prefix(blocks, items, |items|);
            var from := |Prefix(blocks, items, k)|;
            && from <= |s|
            && LoadAll(After(blocks, r, items, k), s, from) == Some(After(blocks, r, items, |items|))
    decreases |items| - k
  {
    hide Prefix, Load, SameBlocks, After, ValidBlocks, ApplyItems;
    if k == |items| {
    } else {
      var s, from := Prefix(blocks, items, |items|), |Prefix(blocks, items, k)|;
      SectionRoundTrip(blocks, r, items, k);
      StreamRoundTrip(blocks, r, items, EndOfSection(items, k) + 1);
      assert from < |s|;
    }
  }

  /** The receiver as a running program. */
  class RamLoader {
    const blocks: seq<Block>
    const xbzrle: bool
    var mem: map<PageKey, Page>
    var cur: Option<nat>

    ghost function State(): (r: Receiver)
      reads this
    {
      Receiver(blocks, xbzrle, mem, cur)
    }

    method Lookup(id: seq<Byte>) returns (b: Option<nat>)
      ensures b == FindBlock(blocks, id, 0)
    {
      for c := 0 to |blocks|
        invariant FindBlock(blocks, id, 0) == FindBlock(blocks, id, c)
      {
        if blocks[c].id == id {
          return Some(c);
        }
      }
      return None;
    }

    /** Checks the announced block list against the receiver's own. */
    method SyncBlocks(f: seq<Byte>, start: nat, announced: nat) returns (next: Option<nat>)
      requires start <= |f| && announced < Pow256(8)
      ensures next == LoadBlocks(blocks, f, start, announced)
    {
      var i: nat, total: nat := start, announced;
      while total != 0
        invariant i <= |f| && total < Pow256(8)
        invariant LoadBlocks(blocks, f, start, announced) == LoadBlocks(blocks, f, i, total)
        decreases |f| - i
      {
        hide ReadName, FindBlock, Field;
        var n := ReadName(f, i);
        if n.None? || n.value.next + 8 > |f| {
          return None;
        }
        var length := Field(f, n.value.next, 8);
        var b := Lookup(n.value.id);
        if b.None? || blocks[b.value].pages * PAGE != length {
          return None;
        }
        total := if length <= total then total - length else total + Pow256(8) - length;
        i := n.value.next + 8;
      }
      return Some(i);
    }

    /** Finds the page of a record and stores its new contents. */
    method StorePage(f: seq<Byte>, i: nat, flags: nat, offset: nat) returns (next: Option<nat>)
      requires i <= |f|
      modifies this
      ensures var l := LoadPage(old(State()), f, i, flags, offset);
              if l.None? then next.None? else next == Some(l.value.next) && State() == l.value.r
    {
      hide ReadName, FindBlock, Field, Xbzrle.Decode;
      var b, at := cur, i;
      if HasFlag(flags, FLAG_CONTINUE) {
        if b.None? {
          return None;
        }
      } else {
        var n := ReadName(f, i);
        if n.None? {
          return None;
        }
        b := Lookup(n.value.id);
        at := n.value.next;
        if b.None? {
          return None;
        }
      }
      if b.value >= |blocks| {
        return None;
      }
      var key := PageKey(blocks[b.value].id, offset / PAGE);
      if key !in mem {
        return None;
      }
      var page := ReadPayload(xbzrle, f, at, flags, mem[key]);
      if page.None? {
        return None;
      }
      mem, cur := mem[key := page.value.page], b;
      return Some(page.value.next);
    }

    /** Loads one section of the stream `f` from `start` on; None is any error return. */
    method LoadSection(f: seq<Byte>, start: nat, version: int) returns (end: Option<nat>)
      requires start <= |f|
      modifies this
      ensures version != 4 ==> end.None? && State() == old(State())
      ensures var l := Load(old(State()), f, start);
              if version != 4 || l.None? then end.None? else end == Some(l.value.next) && State() == l.value.r
    {
      hide LoadPage, LoadBlocks, Field, HasFlag, Pow256;
      if version != 4 {
        return None;
      }
      var i: nat, eos := start, false;
      while !eos
        invariant i <= |f|
        invariant Load(old(State()), f, start) == if eos then Some(Loaded(State(), i)) else Load(State(), f, i)
        decreases !eos, |f| - i
      {
        if i + 8 > |f| {
          return None;
        }
        var word := Field(f, i, 8);
        var flags := word % PAGE;
        var addr := word - flags;
        i := i + 8;
        if HasFlag(flags, FLAG_MEM_SIZE) {
          var next := SyncBlocks(f, i, addr);
          if next.None? {
            return None;
          }
          i := next.value;
        }
        if HasFlag(flags, FLAG_COMPRESS) || HasFlag(flags, FLAG_PAGE) || HasFlag(flags, FLAG_XBZRLE) {
          var next := StorePage(f, i, flags, addr);
          if next.None? {
            return None;
          }
          i := next.value;
        }
        eos := HasFlag(flags, FLAG_EOS);
      }
      return Some(i);
    }
  }
}
