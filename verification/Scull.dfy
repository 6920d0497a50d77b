/**
 * The bare scull device: a linked list of quantum sets, each an array of pointers to quanta of bytes.
 *
 * Kernel memory is a map from addresses to blocks; `kmalloc` adds one, `kfree` takes one away, and either
 * pointer may be null. Each operation runs under the device semaphore, so operations follow one another.
 */
module Scull {
  import opened Arith
  import opened Memory
  import opened Wire

  type Addr = nat

  datatype Block =
    | Qset(data: Option<Addr>, next: Option<Addr>)   // struct scull_qset
    | Pointers(at: seq<Option<Addr>>)                // its array of quantum pointers
    | Quantum(bytes: seq<Byte>)

  /** What a block is for: list item `i`, its pointer array, or quantum `j` of it. */
  datatype Role = Item(i: nat) | Array(i: nat) | Piece(i: nat, j: nat)

  /**
   * The device's storage: memory, list, geometry; `items` are the list items in order, `role` says what each block is.
   */
  datatype Store = Store(
    heap: map<Addr, Block>, first: Option<Addr>, quantum: nat, qset: nat, items: seq<Addr>, role: map<Addr, Role>)

  function Hop(items: seq<Addr>, i: nat): Option<Addr> {
    if i < |items| then Some(items[i]) else None
  }

  ghost predicate QuantumOk(s: Store, i: nat, j: nat, a: Addr) {
    a in s.role && s.role[a] == Piece(i, j) && a in s.heap && s.heap[a].Quantum? && |s.heap[a].bytes| == s.quantum
  }

  ghost predicate PointersOk(s: Store, i: nat, a: Addr) {
    && a in s.role && s.role[a] == Array(i) && a in s.heap && s.heap[a].Pointers? && |s.heap[a].at| == s.qset
    && forall j :: 0 <= j < s.qset && s.heap[a].at[j].Some? ==> QuantumOk(s, i, j, s.heap[a].at[j].value)
  }

  ghost predicate ItemOk(s: Store, i: nat) {
    i < |s.items| ==>
      var a := s.items[i];
      && a in s.role && s.role[a] == Item(i) && a in s.heap && s.heap[a].Qset? && s.heap[a].next == Hop(s.items, i + 1)
      && (s.heap[a].data.Some? ==> PointersOk(s, i, s.heap[a].data.value))
  }

  /** The array of item `i`. */
  ghost function ArrayOf(s: Store, i: nat): Option<Addr> {
    if i < |s.items| && s.items[i] in s.heap && s.heap[s.items[i]].Qset? then s.heap[s.items[i]].data else None
  }

  /** The quantum `j` of item `i`. */
  ghost function PieceOf(s: Store, i: nat, j: nat): Option<Addr> {
    var a := ArrayOf(s, i);
    if a.Some? && a.value in s.heap && s.heap[a.value].Pointers? && j < |s.heap[a.value].at| then s.heap[a.value].at[j]
    else None
  }

  /** A block with a role is linked where the role says. */
  ghost predicate RoleOk(s: Store, a: Addr) {
    a in s.role ==>
      a in s.heap &&
      match s.role[a]
      case Item(i) => Hop(s.items, i) == Some(a)
      case Array(i) => ArrayOf(s, i) == Some(a)
      case Piece(i, j) => PieceOf(s, i, j) == Some(a)
  }

  ghost predicate StoreOk(s: Store) {
    && s.quantum > 0 && s.qset > 0 && s.first == Hop(s.items, 0)
    && (forall i :: ItemOk(s, i))
    && (forall a :: RoleOk(s, a))
  }

  // ----- changes to the store -----

  /** Links a new, empty item at the end. */
  ghost function AddItem(s: Store, a: Addr): Store {
    var heap := if s.items == [] then s.heap
                else
                  var last := s.items[|s.items| - 1];
                  if last in s.heap && s.heap[last].Qset? then s.heap[last := s.heap[last].(next := Some(a))]
                  else s.heap;
    s.(heap := heap[a := Qset(None, None)], items := s.items + [a], role := s.role[a := Item(|s.items|)],
       first := if s.items == [] then Some(a) else s.first)
  }

  lemma AddItemOk(s: Store, a: Addr)
    requires StoreOk(s) && a !in s.heap
    ensures StoreOk(AddItem(s, a))
  {
    var s' := AddItem(s, a);
    assert RoleOk(s, a);
    if s.items != [] { assert ItemOk(s, |s.items| - 1); }
    forall i: nat ensures ItemOk(s', i) {
      assert ItemOk(s, i);
    }
    forall b ensures RoleOk(s', b) {
      assert RoleOk(s, b);
    }
  }

  /** Gives item `i` an array of null pointers. */
  ghost function AddArray(s: Store, i: nat, a: Addr): Store
    requires i < |s.items|
  {
    s.(heap := s.heap[s.items[i] := Qset(Some(a), Hop(s.items, i + 1))][a := Pointers(seq(s.qset, _ => None))],
       role := s.role[a := Array(i)])
  }

  lemma AddArrayOk(s: Store, i: nat, a: Addr)
    requires StoreOk(s) && a !in s.heap && i < |s.items| && ArrayOf(s, i) == None
    ensures StoreOk(AddArray(s, i, a))
    ensures ArrayOf(AddArray(s, i, a), i) == Some(a)
  {
    var s' := AddArray(s, i, a);
    assert RoleOk(s, a) && ItemOk(s, i);
    forall k: nat ensures ItemOk(s', k) {
      assert ItemOk(s, k);
    }
    forall b ensures RoleOk(s', b) {
      assert RoleOk(s, b);
    }
  }

  /** Gives it quantum `j` with whatever bytes the new block holds. */
  ghost function AddPiece(s: Store, i: nat, j: nat, a: Addr, junk: seq<Byte>): Store
    requires StoreOk(s) && ArrayOf(s, i).Some? && j < s.qset
  {
    assert ItemOk(s, i);
    var p := ArrayOf(s, i).value;
    s.(heap := s.heap[p := Pointers(s.heap[p].at[j := Some(a)])][a := Quantum(junk)], role := s.role[a := Piece(i, j)])
  }

  lemma AddPieceOk(s: Store, i: nat, j: nat, a: Addr, junk: seq<Byte>)
    requires StoreOk(s) && ArrayOf(s, i).Some? && j < s.qset && PieceOf(s, i, j) == None
    requires a !in s.heap && |junk| == s.quantum
    ensures StoreOk(AddPiece(s, i, j, a, junk))
    ensures PieceOf(AddPiece(s, i, j, a, junk), i, j) == Some(a)
  {
    var s' := AddPiece(s, i, j, a, junk);
    assert RoleOk(s, a) && ItemOk(s, i);
    forall k: nat ensures ItemOk(s', k) {
      assert ItemOk(s, k);
    }
    forall b ensures RoleOk(s', b) {
      assert RoleOk(s, b);
      if b in s.role && s.role[b].Piece? { assert ItemOk(s, s.role[b].i); }
    }
  }

  /** Overwrites the bytes of a quantum. */
  ghost function SetBytes(s: Store, a: Addr, bytes: seq<Byte>): Store {
    s.(heap := s.heap[a := Quantum(bytes)])
  }

  lemma SetBytesOk(s: Store, i: nat, j: nat, bytes: seq<Byte>)
    requires StoreOk(s) && PieceOf(s, i, j).Some? && |bytes| == s.quantum
    ensures StoreOk(SetBytes(s, PieceOf(s, i, j).value, bytes))
    ensures forall k, m :: PieceOf(SetBytes(s, PieceOf(s, i, j).value, bytes), k, m) == PieceOf(s, k, m)
    ensures var a := PieceOf(s, i, j).value;
            a in s.role && a in s.heap && s.heap[a].Quantum? && |s.heap[a].bytes| == s.quantum
  {
    var a := PieceOf(s, i, j).value;
    var s' := SetBytes(s, a, bytes);
    assert ItemOk(s, i);
    forall k: nat ensures ItemOk(s', k) {
      assert ItemOk(s, k);
    }
    forall k: nat, m: nat ensures PieceOf(s', k, m) == PieceOf(s, k, m) {
      assert ItemOk(s, k);
    }
    forall b ensures RoleOk(s', b) {
      assert RoleOk(s, b);
      if b in s.role && !s.role[b].Item? { assert ItemOk(s, s.role[b].i); }
    }
  }

  // ----- what the store holds -----

  datatype Place = Place(item: nat, s: nat, q: nat)

  /** List item, index in its array and offset in the quantum of byte `p`. */
  function PlaceOf(quantum: nat, qset: nat, p: nat): (r: Place)
    requires quantum > 0 && qset > 0
    ensures r.q < quantum && r.s < qset && p == (r.item * qset + r.s) * quantum + r.q
  {
    PlaceBounds(quantum, qset, p);
    var itemsize := quantum * qset;
    Place(p / itemsize, p % itemsize / quantum, p % itemsize % quantum)
  }

  lemma PlaceBounds(quantum: nat, qset: nat, p: nat)
    requires quantum > 0 && qset > 0
    ensures quantum * qset > 0
    ensures var itemsize := quantum * qset;
            var rest := p % itemsize;
            rest / quantum < qset && p == (p / itemsize * qset + rest / quantum) * quantum + rest % quantum
  {
    Monotone(1, qset, quantum);
    var itemsize := quantum * qset;
    var item, rest := p / itemsize, p % itemsize;
    var k := rest / quantum;
    assert rest == k * quantum + rest % quantum;
    if k >= qset {
      Monotone(qset, k, quantum);
    }
    assert item * itemsize == item * qset * quantum;
    assert (item * qset + k) * quantum == item * qset * quantum + k * quantum;
  }

  /** Bytes of one quantum are consecutive. */
  lemma PlaceWithin(quantum: nat, qset: nat, p: nat, k: nat)
    requires quantum > 0 && qset > 0 && PlaceOf(quantum, qset, p).q + k < quantum
    ensures var r := PlaceOf(quantum, qset, p); PlaceOf(quantum, qset, p + k) == Place(r.item, r.s, r.q + k)
  {
    var r, t := PlaceOf(quantum, qset, p), PlaceOf(quantum, qset, p + k);
    var m := r.item * qset + r.s;
    Quotient(p + k, quantum, m, r.q + k);
    Quotient(p + k, quantum, t.item * qset + t.s, t.q);
    Quotient(m, qset, r.item, r.s);
    Quotient(m, qset, t.item, t.s);
  }

  /** The byte at a place. */
  ghost function Seen(quantum: nat, qset: nat, p: Place): nat {
    (p.item * qset + p.s) * quantum + p.q
  }

  /** A place in range is the place of one position, the one seen there. */
  lemma SeenPlace(quantum: nat, qset: nat, p: Place)
    requires p.s < qset && p.q < quantum
    ensures PlaceOf(quantum, qset, Seen(quantum, qset, p)) == p
  {
    var t := PlaceOf(quantum, qset, Seen(quantum, qset, p));
    var m, n := p.item * qset + p.s, t.item * qset + t.s;
    Quotient(m * quantum + p.q, quantum, m, p.q);
    Quotient(m * quantum + p.q, quantum, n, t.q);
    Quotient(m, qset, p.item, p.s);
    Quotient(m, qset, t.item, t.s);
  }

  /** A read by a sampled geometry starts at the byte asked for exactly when both geometries give it the same place. */
  lemma SampleIsRightIff(quantum: nat, qset: nat, quantum': nat, qset': nat, pos: nat)
    requires quantum > 0 && qset > 0 && quantum' > 0 && qset' > 0
    requires var p := PlaceOf(quantum', qset', pos); p.s < qset && p.q < quantum
    ensures var p := PlaceOf(quantum', qset', pos); Seen(quantum, qset, p) == pos <==> p == PlaceOf(quantum, qset, pos)
  {
    hide PlaceOf, Seen;
    SeenPlace(quantum, qset, PlaceOf(quantum', qset', pos));
    assert Seen(quantum, qset, PlaceOf(quantum, qset, pos)) == pos by { SeenOfPlace(quantum, qset, pos); }
  }

  lemma SeenOfPlace(quantum: nat, qset: nat, pos: nat)
    requires quantum > 0 && qset > 0
    ensures Seen(quantum, qset, PlaceOf(quantum, qset, pos)) == pos
  {
  }

  /** They do so everywhere only if they are the same geometry. */
  lemma SampleIsAlwaysRightIff(quantum: nat, qset: nat, quantum': nat, qset': nat)
    requires quantum > 0 && qset > 0 && quantum' > 0 && qset' > 0
    ensures (forall pos :: PlaceOf(quantum', qset', pos) == PlaceOf(quantum, qset, pos)) <==>
              quantum' == quantum && qset' == qset
  {
    if forall pos :: PlaceOf(quantum', qset', pos) == PlaceOf(quantum, qset, pos) {
      LastPlaces(quantum, qset);
      LastPlaces(quantum', qset');
    }
  }

  /** The last byte of the first quantum, and of the first item. */
  lemma LastPlaces(quantum: nat, qset: nat)
    requires quantum > 0 && qset > 0
    ensures exists p, q :: PlaceOf(quantum, qset, p).q == quantum - 1 && PlaceOf(quantum, qset, q).s == qset - 1
  {
    SeenPlace(quantum, qset, Place(0, qset - 1, quantum - 1));
    var p := Seen(quantum, qset, Place(0, qset - 1, quantum - 1));
    assert PlaceOf(quantum, qset, p).q == quantum - 1 && PlaceOf(quantum, qset, p).s == qset - 1;
  }

  /**
   * Whether reaching a place by a sampled geometry runs off its array, or makes an array or quantum of another size.
   */
  ghost predicate Misshapes(s: Store, i: nat, j: nat, quantum': nat, qset': nat) {
    if ArrayOf(s, i) == None then qset' != s.qset || quantum' != s.quantum
    else j >= s.qset || (PieceOf(s, i, j) == None && quantum' != s.quantum)
  }

  /** Whether writing `n` bytes there does, or runs off the quantum. */
  ghost predicate Misfits(s: Store, p: Place, n: nat, quantum': nat, qset': nat) {
    Misshapes(s, p.item, p.s, quantum', qset') || (n > 0 && p.q + n > s.quantum)
  }

  lemma SameGeometryFits(s: Store, p: Place, n: nat)
    requires p.s < s.qset && p.q + n <= s.quantum
    ensures !Misfits(s, p, n, s.quantum, s.qset)
  {
  }

  /** Whether reading `n` bytes from a place runs off its array or its quantum. */
  ghost predicate Outside(s: Store, p: Place, n: nat) {
    ArrayOf(s, p.item).Some? && (p.s >= s.qset || (PieceOf(s, p.item, p.s).Some? && p.q + n > s.quantum))
  }

  ghost function ByteAt(s: Store, p: nat): Option<Byte>
    requires StoreOk(s)
  {
    var r := PlaceOf(s.quantum, s.qset, p);
    var a := PieceOf(s, r.item, r.s);
    assert ItemOk(s, r.item);
    if a.Some? then Some(s.heap[a.value].bytes[r.q]) else None
  }

  /** Every byte written is there. */
  ghost predicate Holds(s: Store, written: map<nat, Byte>)
    requires StoreOk(s)
  {
    forall p :: p in written ==> ByteAt(s, p) == Some(written[p])
  }

  /** The same arrays and quanta, at the same addresses. */
  ghost predicate SamePieces(s: Store, s': Store) {
    (forall i: nat :: ArrayOf(s', i) == ArrayOf(s, i)) && SameQuanta(s, s')
  }

  ghost predicate SameQuanta(s: Store, s': Store) {
    forall i: nat, j: nat :: PieceOf(s', i, j) == PieceOf(s, i, j)
  }

  /** Growing the store loses no quantum and touches no block that is not the device's. */
  ghost predicate Grows(s: Store, s': Store) {
    && s.quantum == s'.quantum && s.qset == s'.qset && s.items <= s'.items
    && (forall i, j :: SamePiece(s, s', i, j))
    && Elsewhere(s, s')
  }

  ghost predicate SamePiece(s: Store, s': Store, i: nat, j: nat) {
    PieceOf(s, i, j).Some? ==>
      var a := PieceOf(s, i, j).value;
      PieceOf(s', i, j) == Some(a) && (a in s.heap ==> a in s'.heap && s'.heap[a] == s.heap[a])
  }

  ghost predicate Elsewhere(s: Store, s': Store) {
    forall a :: a in s.heap && a !in s.role ==> a in s'.heap && s'.heap[a] == s.heap[a] && a !in s'.role
  }

  lemma GrowsTwice(s: Store, t: Store, u: Store)
    requires Grows(s, t) && Grows(t, u)
    ensures Grows(s, u)
  {
    forall i, j ensures SamePiece(s, u, i, j) {
      assert SamePiece(s, t, i, j) && SamePiece(t, u, i, j);
    }
  }

  lemma GrowsHolds(s: Store, s': Store, written: map<nat, Byte>)
    requires StoreOk(s) && StoreOk(s') && Grows(s, s') && Holds(s, written)
    ensures Holds(s', written)
  {
    forall p | p in written ensures ByteAt(s', p) == Some(written[p]) {
      assert ByteAt(s, p) == Some(written[p]);
      var r := PlaceOf(s.quantum, s.qset, p);
      assert ItemOk(s, r.item) && SamePiece(s, s', r.item, r.s);
    }
  }

  lemma AddItemGrows(s: Store, a: Addr)
    requires StoreOk(s) && a !in s.heap
    ensures Grows(s, AddItem(s, a)) && SamePieces(s, AddItem(s, a))
  {
    forall i: nat ensures ArrayOf(AddItem(s, a), i) == ArrayOf(s, i) { assert ItemOk(s, i) && RoleOk(s, a); }
    forall i: nat, j: nat ensures PieceOf(AddItem(s, a), i, j) == PieceOf(s, i, j) {
      assert ItemOk(s, i) && RoleOk(s, a);
    }
    assert RoleOk(s, a);
    if s.items != [] { assert ItemOk(s, |s.items| - 1); }
    forall i, j ensures SamePiece(s, AddItem(s, a), i, j) { assert ItemOk(s, i); }
  }

  lemma AddArrayGrows(s: Store, i: nat, a: Addr)
    requires StoreOk(s) && a !in s.heap && i < |s.items| && ArrayOf(s, i) == None
    ensures Grows(s, AddArray(s, i, a)) && SameQuanta(s, AddArray(s, i, a))
  {
    assert RoleOk(s, a) && ItemOk(s, i);
    forall k: nat, j: nat ensures PieceOf(AddArray(s, i, a), k, j) == PieceOf(s, k, j) { assert ItemOk(s, k); }
    forall k, j ensures SamePiece(s, AddArray(s, i, a), k, j) { assert ItemOk(s, k); }
  }

  lemma AddPieceGrows(s: Store, i: nat, j: nat, a: Addr, junk: seq<Byte>)
    requires StoreOk(s) && ArrayOf(s, i).Some? && j < s.qset && PieceOf(s, i, j) == None && a !in s.heap
    ensures Grows(s, AddPiece(s, i, j, a, junk))
  {
    assert RoleOk(s, a) && ItemOk(s, i);
    forall k, m ensures SamePiece(s, AddPiece(s, i, j, a, junk), k, m) { assert ItemOk(s, k); }
  }

  /** Overwriting part of a quantum changes exactly the bytes of that range. */
  lemma SetBytesHolds(s: Store, p: nat, data: seq<Byte>, written: map<nat, Byte>)
    requires StoreOk(s) && Holds(s, written)
    requires var r := PlaceOf(s.quantum, s.qset, p); PieceOf(s, r.item, r.s).Some? && r.q + |data| <= s.quantum
    ensures var r := PlaceOf(s.quantum, s.qset, p);
            var a := PieceOf(s, r.item, r.s).value;
            && a in s.heap && s.heap[a].Quantum? && |s.heap[a].bytes| == s.quantum
            && var s' := SetBytes(s, a, Splice(s.heap[a].bytes, r.q, data));
               StoreOk(s') && Holds(s', Update(written, p, data)) && Elsewhere(s, s')
  {
    hide StoreOk, ByteAt, Splice, PieceOf, PlaceOf, Update;
    var r := PlaceOf(s.quantum, s.qset, p);
    var a := PieceOf(s, r.item, r.s).value;
    SetByteAt(s, p, data, p);
    var s' := SetBytes(s, a, Splice(s.heap[a].bytes, r.q, data));
    forall k | k in Update(written, p, data) ensures ByteAt(s', k) == Some(Update(written, p, data)[k]) {
      SetByteAt(s, p, data, k);
    }
  }

  /** The sparse file after `data` is written at `p`. */
  ghost function Update(written: map<nat, Byte>, p: nat, data: seq<Byte>): (r: map<nat, Byte>)
    decreases |data|
    ensures forall k :: k in r <==> k in written || p <= k < p + |data|
    ensures forall k :: k in r ==> r[k] == if p <= k < p + |data| then data[k - p] else written[k]
  {
    if data == [] then written
    else Update(written, p, data[..|data| - 1])[p + |data| - 1 := data[|data| - 1]]
  }

  lemma SetByteAt(s: Store, p: nat, data: seq<Byte>, k: nat)
    requires StoreOk(s)
    requires var r := PlaceOf(s.quantum, s.qset, p); PieceOf(s, r.item, r.s).Some? && r.q + |data| <= s.quantum
    ensures var r := PlaceOf(s.quantum, s.qset, p);
            var a := PieceOf(s, r.item, r.s).value;
            && a in s.role && a in s.heap && s.heap[a].Quantum? && |s.heap[a].bytes| == s.quantum
            && var s' := SetBytes(s, a, Splice(s.heap[a].bytes, r.q, data));
               StoreOk(s') && ByteAt(s', k) == if p <= k < p + |data| then Some(data[k - p]) else ByteAt(s, k)
  {
    var r, t := PlaceOf(s.quantum, s.qset, p), PlaceOf(s.quantum, s.qset, k);
    var a := PieceOf(s, r.item, r.s).value;
    assert ItemOk(s, r.item) && ItemOk(s, t.item);
    SetBytesOk(s, r.item, r.s, Splice(s.heap[a].bytes, r.q, data));
    if p <= k < p + |data| {
      PlaceWithin(s.quantum, s.qset, p, k - p);
    } else if PieceOf(s, t.item, t.s) == Some(a) {
      assert t.item == r.item && t.s == r.s;
      assert k - p == t.q - r.q;
    }
  }

  // ----- the device -----

  /** All of it, or what there is room for. */
  function Fitting(n: nat, room: nat): (r: nat)
    ensures r <= n && r <= room && (r == n || r == room)
  {
    if n > room then room else n
  }

  function Least(x: nat, y: nat, z: nat): (r: nat)
    ensures r <= x && r <= y && r <= z && (r == x || r == y || r == z)
  {
    if x <= y && x <= z then x else if y <= z then y else z
  }

  /** What fresh memory holds. */
  method Uninitialised(n: nat) returns (s: seq<Byte>)
    ensures |s| == n
  {
    s := [];
    while |s| < n
      invariant |s| <= n
    {
      var b: Byte := *;
      s := s + [b];
    }
  }

  /** How a write ends: with so many bytes, with -ENOMEM, or outside what the model describes. */
  datatype Written = Wrote(n: nat) | NoMemory | Misfit

  class Device {
    var heap: map<Addr, Block>
    var brk: Addr               // addresses from here on are unused
    var first: Option<Addr>
    var quantum: nat
    var qset: nat
    var size: nat
    var globalQuantum: nat      // Scull_quantum, as ioctl last set it
    var globalQset: nat         // Scull_qset
    ghost var items: seq<Addr>
    ghost var role: map<Addr, Role>
    ghost var written: map<nat, Byte>  // the bytes written since the last trim
    ghost var failures: nat            // how often memory has run out

    ghost function Contents(): Store
      reads this
    {
      Store(heap, first, quantum, qset, items, role)
    }

    ghost predicate Valid()
      reads this
    {
      && StoreOk(Contents()) && Holds(Contents(), written)
      && (forall a :: a in heap ==> a < brk)
      && (forall p :: p in written ==> p < size)
      && globalQuantum > 0 && globalQset > 0
    }

    /** A device as set up at load time, in memory that holds other things too. */
    constructor (heap: map<Addr, Block>, brk: Addr, quantum: nat, qset: nat)
      requires quantum > 0 && qset > 0 && forall a :: a in heap ==> a < brk
      ensures Valid() && written == map[] && size == 0
      ensures this.heap == heap && this.quantum == quantum && this.qset == qset
    {
      this.heap, this.brk, this.first, this.size := heap, brk, None, 0;
      this.quantum, this.qset, this.globalQuantum, this.globalQset := quantum, qset, quantum, qset;
      items, role, written, failures := [], map[], map[], 0;
      new;
      EmptyOk(Contents());
    }

    /** SCULL_IOCSQUANTUM and SCULL_IOCSQSET, given values a device can use. */
    method SetGeometry(quantum': nat, qset': nat)
      requires Valid() && quantum' > 0 && qset' > 0
      modifies this`globalQuantum, this`globalQset
      ensures Valid() && Contents() == old(Contents())
      ensures globalQuantum == quantum' && globalQset == qset'
    {
      globalQuantum, globalQset := quantum', qset';
    }

    /** A new block, or null. */
    method Kmalloc(b: Block) returns (a: Option<Addr>)
      requires forall x :: x in heap ==> x < brk
      modifies this`heap, this`brk, this`failures
      ensures forall x :: x in heap ==> x < brk
      ensures failures == old(failures) + if a == None then 1 else 0
      ensures a == None ==> heap == old(heap)
      ensures a.Some? ==> a.value !in old(heap) && heap == old(heap)[a.value := b]
    {
      var lucky: bool := *;
      if lucky {
        a := Some(brk);
        heap, brk := heap[brk := b], brk + 1;
      } else {
        a, failures := None, failures + 1;
      }
    }

    /** Appends an empty item after `last`, or at the head of an empty list. */
    method NewItem(last: Option<Addr>) returns (a: Option<Addr>)
      requires Valid() && last == if items == [] then None else Some(items[|items| - 1])
      modifies this`heap, this`brk, this`first, this`items, this`role, this`failures
      ensures Valid() && Grows(old(Contents()), Contents()) && SamePieces(old(Contents()), Contents())
      ensures failures == old(failures) + if a == None then 1 else 0
      ensures a == None ==> items == old(items)
      ensures a.Some? ==> items == old(items) + [a.value]
    {
      hide Grows, StoreOk, Holds;
      ghost var s := Contents();
      a := Kmalloc(Qset(None, None));
      if a.Some? {
        AddItemOk(s, a.value);
        AddItemGrows(s, a.value);
        GrowsHolds(s, AddItem(s, a.value), written);
        LastItem(s);
        if last == None {
          first := a;
        } else {
          heap := heap[last.value := heap[last.value].(next := a)];
        }
        items, role := items + [a.value], role[a.value := Item(|items|)];
        assert Contents() == AddItem(s, a.value);
      } else {
        GrowsItself(s);
      }
    }

    /** `scull_follow`: the n-th item, the list extended up to it if need be; None if memory ran out on the way. */
    method Follow(n: nat) returns (qs: Option<Addr>)
      requires Valid()
      modifies this`heap, this`brk, this`first, this`items, this`role, this`failures
      ensures Valid() && Grows(old(Contents()), Contents()) && SamePieces(old(Contents()), Contents())
      ensures qs.Some? ==> n < |items| && qs == Some(items[n])
      ensures failures == old(failures) + if qs == None then 1 else 0
      ensures n < |old(items)| ==> qs.Some?
    {
      hide Grows, Holds, ItemOk, RoleOk;
      ghost var s := Contents();
      GrowsItself(s);
      qs := first;
      if qs == None {
        qs := NewItem(None);
        if qs == None {
          return;
        }
      }
      var k := 0;
      while k < n
        invariant Valid() && Grows(s, Contents()) && SamePieces(s, Contents())
        invariant k <= n && k < |items| && qs == Some(items[k]) && |old(items)| <= |items| && failures == old(failures)
      {
        ghost var mid := Contents();
        NextItem(mid, k);
        var next := heap[qs.value].next;
        if next == None {
          next := NewItem(qs);
          GrowsTwice(s, mid, Contents());
          if next == None {
            return None;
          }
        }
        qs, k := next, k + 1;
      }
    }

    /**
     * `scull_read`, once it holds the semaphore, by a geometry sampled before. It goes up to the end of the quantum,
     * of the file and of the request, and reads nothing from a hole; None is a read outside the array or the quantum.
     */
    method ReadSampled(quantum': nat, qset': nat, pos: nat, count: nat) returns (r: Option<seq<Byte>>)
      requires Valid() && quantum' > 0 && qset' > 0
      modifies this`heap, this`brk, this`first, this`items, this`role, this`failures
      ensures Valid() && Grows(old(Contents()), Contents())
      ensures r == None <==>
                && pos < size
                && Outside(old(Contents()), PlaceOf(quantum', qset', pos), ToRead(quantum', qset', pos, count))
      ensures r.Some? ==>
                var p := PlaceOf(quantum', qset', pos);
                |r.value| == if pos < size && PieceOf(old(Contents()), p.item, p.s).Some?
                             then ToRead(quantum', qset', pos, count) else 0
      ensures r.Some? ==>
                var seen := Seen(quantum, qset, PlaceOf(quantum', qset', pos));
                forall k :: 0 <= k < |r.value| && seen + k in written ==> r.value[k] == written[seen + k]
    {
      hide Grows, Holds, ItemOk, RoleOk, Seen;
      ghost var was := Contents();
      GrowsItself(was);
      var itemsize := quantum' * qset';
      if pos >= size {
        return Some([]);
      }
      var n := if pos + count > size then size - pos else count;
      PlaceBounds(quantum', qset', pos);
      var item, rest := pos / itemsize, pos % itemsize;
      var sPos, qPos := rest / quantum', rest % quantum';
      assert PlaceOf(quantum', qset', pos) == Place(item, sPos, qPos);
      var dptr := Follow(item);
      if dptr == None {
        return Some([]);
      }
      ItemPieces(Contents(), item, 0);
      var data := heap[dptr.value].data;
      if data == None {
        return Some([]);
      }
      if sPos >= qset {
        return None;
      }
      ItemPieces(Contents(), item, sPos);
      if heap[data.value].at[sPos] == None {
        return Some([]);
      }
      if n > quantum' - qPos {
        n := quantum' - qPos;
      }
      if qPos + n > quantum {
        return None;
      }
      var piece := heap[data.value].at[sPos].value;
      var bytes := heap[piece].bytes[qPos..qPos + n];
      ghost var seen := Seen(quantum, qset, Place(item, sPos, qPos));
      forall k | 0 <= k < |bytes| && seen + k in written ensures bytes[k] == written[seen + k] {
        SeenPlace(quantum, qset, Place(item, sPos, qPos));
        WrittenByte(Contents(), written, seen, k);
      }
      r := Some(bytes);
    }

    /** How much is asked for of the bytes from `pos` on. */
    ghost function ToRead(quantum': nat, qset': nat, pos: nat, count: nat): nat
      requires quantum' > 0 && qset' > 0 && pos < size
      reads this
    {
      Least(count, size - pos, quantum' - PlaceOf(quantum', qset', pos).q)
    }

    /** `scull_read` undisturbed: the geometry sampled is still the device's. */
    method Read(pos: nat, count: nat) returns (r: seq<Byte>)
      requires Valid()
      modifies this`heap, this`brk, this`first, this`items, this`role, this`failures
      ensures Valid() && Grows(old(Contents()), Contents())
      ensures var p := PlaceOf(quantum, qset, pos);
              |r| == if pos < size && PieceOf(old(Contents()), p.item, p.s).Some?
                     then Least(count, size - pos, quantum - p.q) else 0
      ensures forall k :: 0 <= k < |r| && pos + k in written ==> r[k] == written[pos + k]
      ensures pos in written && count > 0 ==> |r| > 0
    {
      hide Grows, Holds, ItemOk, RoleOk, PieceOf, ArrayOf;
      WrittenIsThere(Contents(), written, pos);
      var bytes := ReadSampled(quantum, qset, pos, count);
      r := bytes.value;
    }

    /**
     * `scull_write`, once it holds the semaphore, by a geometry sampled before. It writes up to the end of the quantum;
     * -ENOMEM writes nothing.
     */
    method WriteSampled(quantum': nat, qset': nat, pos: nat, data: seq<Byte>) returns (r: Written)
      requires Valid() && quantum' > 0 && qset' > 0
      modifies this
      ensures Valid() && Elsewhere(old(Contents()), Contents())
      ensures quantum == old(quantum) && qset == old(qset)
      ensures globalQuantum == old(globalQuantum) && globalQset == old(globalQset)
      ensures failures == old(failures) + if r == NoMemory then 1 else 0
      ensures var p := PlaceOf(quantum', qset', pos);
              && (PieceOf(old(Contents()), p.item, p.s).Some? ==> r != NoMemory)
              && (r != NoMemory ==>
                    (r == Misfit <==> Misfits(old(Contents()), p, Fitting(|data|, quantum' - p.q), quantum', qset')))
      ensures !r.Wrote? ==> written == old(written) && size == old(size)
      ensures r.Wrote? ==>
                var p := PlaceOf(quantum', qset', pos);
                && r.n == Fitting(|data|, quantum' - p.q)
                && size == (if old(size) < pos + r.n then pos + r.n else old(size))
                && written == UpTo(Update(old(written), Seen(quantum, qset, p), data[..r.n]), size)
    {
      hide Grows, Holds, ItemOk, RoleOk, PieceOf, ArrayOf, Update, Splice, Seen, Misshapes;
      ghost var s := Contents();
      PlaceBounds(quantum', qset', pos);
      var itemsize := quantum' * qset';
      var item, rest := pos / itemsize, pos % itemsize;
      var sPos, qPos := rest / quantum', rest % quantum';
      assert PlaceOf(quantum', qset', pos) == Place(item, sPos, qPos);
      var piece, misfit := ReserveSampled(quantum', qset', item, sPos);
      GrowsElsewhere(s, Contents());
      if misfit {
        return Misfit;
      }
      if piece == None {
        return NoMemory;
      }
      var count := if |data| > quantum' - qPos then quantum' - qPos else |data|;
      if count > 0 && qPos + count > quantum {
        return Misfit;
      }
      if count > 0 {
        StoreBytes(item, sPos, qPos, piece.value, data[..count]);
      } else {
        NothingToUpdate(written, Seen(quantum, qset, Place(item, sPos, qPos)), data[..0]);
      }
      if size < pos + count {
        size := pos + count;
      }
      ghost var all := written;
      written := UpTo(written, size);
      HoldsPart(Contents(), all, size);
      r := Wrote(count);
    }

    /** The copy into the quantum. */
    method StoreBytes(ghost i: nat, ghost j: nat, q: nat, piece: Addr, data: seq<Byte>)
      requires StoreOk(Contents()) && Holds(Contents(), written) && (forall a :: a in heap ==> a < brk)
      requires j < qset && data != [] && q + |data| <= quantum && PieceOf(Contents(), i, j) == Some(piece)
      modifies this`heap, this`written
      ensures StoreOk(Contents()) && Holds(Contents(), written) && (forall a :: a in heap ==> a < brk)
      ensures Elsewhere(old(Contents()), Contents())
      ensures written == Update(old(written), Seen(quantum, qset, Place(i, j, q)), data)
    {
      hide Grows, Holds, ItemOk, RoleOk, PieceOf, Update, Splice, Seen, PlaceOf;
      ghost var s := Contents();
      ghost var pos := Seen(quantum, qset, Place(i, j, q));
      SeenPlace(quantum, qset, Place(i, j, q));
      SetBytesHolds(s, pos, data, written);
      var bytes := heap[piece].bytes;
      heap := heap[piece := Quantum(Splice(bytes, q, data))];
      assert Contents() == SetBytes(s, piece, Splice(bytes, q, data));
      written := Update(written, pos, data);
    }

    /** `scull_write` undisturbed: the geometry sampled is still the device's. None is -ENOMEM, which writes nothing. */
    method Write(pos: nat, data: seq<Byte>) returns (n: Option<nat>)
      requires Valid()
      modifies this
      ensures Valid() && Elsewhere(old(Contents()), Contents())
      ensures quantum == old(quantum) && qset == old(qset)
      ensures globalQuantum == old(globalQuantum) && globalQset == old(globalQset)
      ensures failures == old(failures) + if n == None then 1 else 0
      ensures pos in old(written) ==> n.Some?
      ensures n == None ==> written == old(written) && size == old(size)
      ensures n.Some? ==>
                && n.value == Fitting(|data|, quantum - PlaceOf(quantum, qset, pos).q)
                && written == Update(old(written), pos, data[..n.value])
                && size == (if old(size) < pos + n.value then pos + n.value else old(size))
    {
      hide Holds, ItemOk, RoleOk, PieceOf, ArrayOf, Misfits, Seen, PlaceOf;
      ghost var p := PlaceOf(quantum, qset, pos);
      WrittenIsThere(Contents(), written, pos);
      SeenOfPlace(quantum, qset, pos);
      SameGeometryFits(Contents(), p, Fitting(|data|, quantum - p.q));
      var r := WriteSampled(quantum, qset, pos, data);
      n := if r.Wrote? then Some(r.n) else None;
    }

    /** The quantum `j` of item `i` by a sampled geometry, with everything on the way to it. */
    method ReserveSampled(quantum': nat, qset': nat, i: nat, j: nat) returns (piece: Option<Addr>, misfit: bool)
      requires Valid() && quantum' > 0 && j < qset'
      modifies this`heap, this`brk, this`first, this`items, this`role, this`failures
      ensures Valid() && Grows(old(Contents()), Contents())
      ensures piece.Some? ==> j < qset && PieceOf(Contents(), i, j) == piece
      ensures failures == old(failures) + if piece == None && !misfit then 1 else 0
      ensures piece.Some? ==> !misfit
      ensures misfit || piece.Some? ==> (misfit <==> Misshapes(old(Contents()), i, j, quantum', qset'))
      ensures PieceOf(old(Contents()), i, j).Some? ==> misfit || piece.Some?
    {
      hide Grows, Holds, StoreOk, PieceOf, ArrayOf;
      ghost var s := Contents();
      PieceHasItem(s, i, j);
      misfit := false;
      var dptr := Follow(i);
      if dptr == None {
        return None, false;
      }
      ghost var s1 := Contents();
      ItemArray(s1, i);
      if (heap[dptr.value].data == None && qset' != qset) || (heap[dptr.value].data != None && j >= qset) {
        return None, true;
      }
      var data := ReserveArray(i, dptr.value);
      ghost var s2 := Contents();
      GrowsTwice(s, s1, s2);
      if data == None {
        return None, false;
      }
      ItemPieces(s2, i, j);
      if heap[data.value].at[j] == None && quantum' != quantum {
        return None, true;
      }
      piece := ReservePiece(i, j, data.value);
      GrowsTwice(s, s2, Contents());
    }

    /** The pointer array of item `i`, allocated if missing. */
    method ReserveArray(i: nat, dptr: Addr) returns (data: Option<Addr>)
      requires Valid() && i < |items| && items[i] == dptr
      modifies this`heap, this`brk, this`role, this`failures
      ensures Valid() && Grows(old(Contents()), Contents()) && SameQuanta(old(Contents()), Contents())
      ensures data.Some? ==> ArrayOf(Contents(), i) == data
      ensures failures == old(failures) + if data == None then 1 else 0
      ensures ArrayOf(old(Contents()), i).Some? ==> data.Some?
    {
      hide Grows, Holds, ItemOk, RoleOk;
      ghost var s := Contents();
      ItemPieces(s, i, 0);
      GrowsItself(s);
      data := heap[dptr].data;
      if data == None {
        data := Kmalloc(Pointers(seq(qset, _ => None)));
        if data == None {
          return;
        }
        AddArrayOk(s, i, data.value);
        AddArrayGrows(s, i, data.value);
        GrowsHolds(s, AddArray(s, i, data.value), written);
        heap := heap[dptr := heap[dptr].(data := data)];
        role := role[data.value := Array(i)];
        assert Contents() == AddArray(s, i, data.value);
      }
    }

    /** Quantum `j` of that array, allocated if missing. */
    method ReservePiece(i: nat, j: nat, data: Addr) returns (piece: Option<Addr>)
      requires Valid() && i < |items| && j < qset && ArrayOf(Contents(), i) == Some(data)
      modifies this`heap, this`brk, this`role, this`failures
      ensures Valid() && Grows(old(Contents()), Contents())
      ensures piece.Some? ==> PieceOf(Contents(), i, j) == piece
      ensures failures == old(failures) + if piece == None then 1 else 0
      ensures PieceOf(old(Contents()), i, j).Some? ==> piece.Some?
    {
      hide Grows, Holds, ItemOk, RoleOk;
      ghost var s := Contents();
      ItemPieces(s, i, j);
      GrowsItself(s);
      piece := heap[data].at[j];
      if piece == None {
        var block := Uninitialised(quantum);
        piece := Kmalloc(Quantum(block));
        if piece == None {
          return;
        }
        AddPieceOk(s, i, j, piece.value, block);
        AddPieceGrows(s, i, j, piece.value, block);
        GrowsHolds(s, AddPiece(s, i, j, piece.value, block), written);
        heap := heap[data := Pointers(heap[data].at[j := piece])];
        role := role[piece.value := Piece(i, j)];
        assert Contents() == AddPiece(s, i, j, piece.value, block);
      }
    }

    /** What a write accepted is what a read at the same place gives back. */
    method WriteThenRead(pos: nat, data: seq<Byte>) returns (n: Option<nat>, r: seq<Byte>)
      requires Valid()
      modifies this
      ensures Valid()
      ensures pos in old(written) ==> n.Some?
      ensures n.Some? ==> n.value <= |data| && r == data[..n.value] && (data != [] ==> n.value > 0)
    {
      hide Grows, Holds, StoreOk, SamePieces;
      r := [];
      n := Write(pos, data);
      if n.Some? {
        if n.value > 0 {
          assert pos in written;
          WrittenIsThere(Contents(), written, pos);
        }
        r := Read(pos, n.value);
        if n.value > 0 {
          assert r == data[..n.value];
        }
      }
    }

    /** `kfree`: null is fine, a block that is gone is not. */
    method Kfree(a: Option<Addr>)
      requires a.Some? ==> a.value in heap
      modifies this`heap
      ensures heap == if a.Some? then old(heap) - {a.value} else old(heap)
    {
      if a.Some? {
        heap := heap - {a.value};
      }
    }

    /** Frees item `k` with its array and quanta. */
    method FreeItem(ghost s: Store, ghost k: nat, dptr: Addr, n: nat) returns (next: Option<Addr>)
      requires StoreOk(s) && k < |s.items| && dptr == s.items[k] && n == s.qset && heap == Left(s, k, 0)
      modifies this`heap
      ensures heap == Left(s, k + 1, 0) && next == Hop(s.items, k + 1)
    {
      hide ItemOk, RoleOk;
      ItemPieces(s, k, 0);
      LeftItem(s, k, 0);
      var data := heap[dptr].data;
      if data != None {
        var i := 0;
        while i < n
          invariant i <= n && heap == Left(s, k, i)
        {
          LeftPiece(s, k, i);
          Kfree(heap[data.value].at[i]);
          i := i + 1;
        }
        LeftArray(s, k);
        Kfree(data);
        LeftItem(s, k, n + 1);
        heap := heap[dptr := heap[dptr].(data := None)];
      } else {
        NoArray(s, k);
      }
      next := heap[dptr].next;
      Kfree(Some(dptr));
      LeftNext(s, k);
    }

    /** `scull_trim`: frees every block of the device once, by the device's own geometry, and adopts the global one. */
    method Trim()
      requires Valid()
      modifies this
      ensures Valid() && Contents().items == [] && role == map[] && written == map[] && size == 0
      ensures quantum == globalQuantum == old(globalQuantum) && qset == globalQset == old(globalQset)
      ensures heap == map a | a in old(heap) && a !in old(role) :: old(heap)[a]
    {
      hide ItemOk, RoleOk, Holds;
      ghost var s := Contents();
      var n := qset;
      var dptr := first;
      ghost var k: nat := 0;
      LeftAll(s);
      while dptr != None
        invariant k <= |s.items| && dptr == Hop(s.items, k) && heap == Left(s, k, 0)
        invariant globalQuantum == old(globalQuantum) && globalQset == old(globalQset) && brk == old(brk)
        decreases |s.items| - k
      {
        dptr := FreeItem(s, k, dptr.value, n);
        k := k + 1;
      }
      LeftNothing(s);
      size, quantum, qset, first := 0, globalQuantum, globalQset, None;
      items, role, written := [], map[], map[];
      EmptyOk(Contents());
    }
  }

  /** Whether a block with role `r` is gone once items before `k` are freed and `j` steps of item `k` are done. */
  ghost predicate Gone(s: Store, r: Role, k: nat, j: nat) {
    r.i < k || (r.i == k && match r
                            case Item(_) => false
                            case Array(_) => j > s.qset
                            case Piece(_, m) => m < j)
  }

  /** The memory then. */
  ghost function Left(s: Store, k: nat, j: nat): map<Addr, Block> {
    map a | a in s.heap && !(a in s.role && Gone(s, s.role[a], k, j)) :: s.heap[a]
  }

  lemma LeftPiece(s: Store, k: nat, j: nat)
    requires StoreOk(s) && k < |s.items| && j < s.qset && ArrayOf(s, k).Some?
    ensures var a, p := ArrayOf(s, k).value, PieceOf(s, k, j);
            && a in Left(s, k, j) && a in s.heap && Left(s, k, j)[a] == s.heap[a] && s.heap[a].Pointers?
            && |s.heap[a].at| == s.qset && s.heap[a].at[j] == p
            && (p.Some? ==> p.value in Left(s, k, j) && Left(s, k, j + 1) == Left(s, k, j) - {p.value})
            && (p == None ==> Left(s, k, j + 1) == Left(s, k, j))
  {
    assert ItemOk(s, k);
    forall a | a in s.role && s.role[a] == Piece(k, j) ensures PieceOf(s, k, j) == Some(a) { assert RoleOk(s, a); }
  }

  lemma LeftArray(s: Store, k: nat)
    requires StoreOk(s) && k < |s.items| && ArrayOf(s, k).Some?
    ensures var a := ArrayOf(s, k).value;
            a in Left(s, k, s.qset) && Left(s, k, s.qset + 1) == Left(s, k, s.qset) - {a}
  {
    assert ItemOk(s, k);
    forall a | a in s.role && s.role[a] == Array(k) ensures ArrayOf(s, k) == Some(a) { assert RoleOk(s, a); }
    forall a | a in s.role && s.role[a].Piece? && s.role[a].i == k ensures s.role[a].j < s.qset { assert RoleOk(s, a); }
  }

  lemma NoArray(s: Store, k: nat)
    requires StoreOk(s) && k < |s.items| && ArrayOf(s, k) == None
    ensures Left(s, k, 0) == Left(s, k, s.qset + 1)
  {
    forall a | a in s.role && s.role[a].i == k ensures s.role[a].Item? { assert RoleOk(s, a); }
  }

  lemma LeftItem(s: Store, k: nat, j: nat)
    requires StoreOk(s) && k < |s.items|
    ensures var a := s.items[k]; a in Left(s, k, j) && a in s.heap && Left(s, k, j)[a] == s.heap[a]
  {
    assert ItemOk(s, k);
  }

  lemma LeftNext(s: Store, k: nat)
    requires StoreOk(s) && k < |s.items|
    ensures Left(s, k + 1, 0) == Left(s, k, s.qset + 1) - {s.items[k]}
  {
    assert ItemOk(s, k);
    forall a | a in s.role && s.role[a].i == k ensures a == s.items[k] || Gone(s, s.role[a], k, s.qset + 1) {
      assert RoleOk(s, a);
    }
  }

  lemma LeftAll(s: Store)
    ensures Left(s, 0, 0) == s.heap
  {
  }

  lemma LeftNothing(s: Store)
    requires StoreOk(s)
    ensures Left(s, |s.items|, 0) == map a | a in s.heap && a !in s.role :: s.heap[a]
  {
    forall a | a in s.role ensures s.role[a].i < |s.items| { assert RoleOk(s, a); }
  }

  lemma EmptyOk(s: Store)
    requires s.quantum > 0 && s.qset > 0 && s.first == None && s.items == [] && s.role == map[]
    ensures StoreOk(s) && Holds(s, map[])
  {
  }

  /** The pointers met on the way to a quantum. */
  lemma ItemPieces(s: Store, i: nat, j: nat)
    requires StoreOk(s) && i < |s.items| && j < s.qset
    ensures s.items[i] in s.heap && s.heap[s.items[i]].Qset? && s.heap[s.items[i]].next == Hop(s.items, i + 1)
    ensures ArrayOf(s, i) == s.heap[s.items[i]].data
    ensures ArrayOf(s, i) == None ==> PieceOf(s, i, j) == None
    ensures ArrayOf(s, i).Some? ==>
              var a := ArrayOf(s, i).value;
              a in s.heap && s.heap[a].Pointers? && |s.heap[a].at| == s.qset && PieceOf(s, i, j) == s.heap[a].at[j]
    ensures PieceOf(s, i, j).Some? ==>
              var a := PieceOf(s, i, j).value;
              a in s.heap && s.heap[a].Quantum? && |s.heap[a].bytes| == s.quantum
  {
    assert ItemOk(s, i);
  }

  lemma NextItem(s: Store, i: nat)
    requires StoreOk(s) && i < |s.items|
    ensures s.items[i] in s.heap && s.heap[s.items[i]].Qset? && s.heap[s.items[i]].next == Hop(s.items, i + 1)
  {
    assert ItemOk(s, i);
  }

  lemma WrittenIsThere(s: Store, written: map<nat, Byte>, p: nat)
    requires StoreOk(s) && Holds(s, written)
    ensures p in written ==> var r := PlaceOf(s.quantum, s.qset, p); r.item < |s.items| && PieceOf(s, r.item, r.s).Some?
  {
    if p in written { assert ByteAt(s, p).Some?; }
  }

  /** Byte `k` of the quantum from `p` on. */
  lemma WrittenByte(s: Store, written: map<nat, Byte>, p: nat, k: nat)
    requires StoreOk(s) && Holds(s, written) && p + k in written
    requires var r := PlaceOf(s.quantum, s.qset, p);
             r.q + k < s.quantum && r.item < |s.items| && PieceOf(s, r.item, r.s).Some?
    ensures var r := PlaceOf(s.quantum, s.qset, p);
            var a := PieceOf(s, r.item, r.s).value;
            && a in s.heap && s.heap[a].Quantum? && |s.heap[a].bytes| == s.quantum
            && s.heap[a].bytes[r.q + k] == written[p + k]
  {
    var r := PlaceOf(s.quantum, s.qset, p);
    ItemPieces(s, r.item, r.s);
    PlaceWithin(s.quantum, s.qset, p, k);
    assert ByteAt(s, p + k) == Some(written[p + k]);
  }

  lemma ItemArray(s: Store, i: nat)
    requires StoreOk(s) && i < |s.items|
    ensures s.items[i] in s.heap && s.heap[s.items[i]].Qset? && ArrayOf(s, i) == s.heap[s.items[i]].data
  {
    assert ItemOk(s, i);
  }

  /** What of a file lies before `size`. */
  ghost function UpTo(written: map<nat, Byte>, size: nat): map<nat, Byte> {
    map k | k in written && k < size :: written[k]
  }

  lemma HoldsPart(s: Store, written: map<nat, Byte>, size: nat)
    requires StoreOk(s) && Holds(s, written)
    ensures Holds(s, UpTo(written, size)) && forall p :: p in UpTo(written, size) ==> p < size
  {
  }

  lemma NothingToUpdate(written: map<nat, Byte>, p: nat, data: seq<Byte>)
    requires data == []
    ensures Update(written, p, data) == written
  {
  }

  /** A quantum has an array, and that an item. */
  lemma PieceHasItem(s: Store, i: nat, j: nat)
    ensures PieceOf(s, i, j).Some? ==> ArrayOf(s, i).Some?
    ensures ArrayOf(s, i).Some? ==> i < |s.items|
  {
  }

  lemma GrowsElsewhere(s: Store, s': Store)
    requires Grows(s, s')
    ensures Elsewhere(s, s') && s.quantum == s'.quantum && s.qset == s'.qset
  {
  }

  lemma LastItem(s: Store)
    requires StoreOk(s)
    ensures s.items == [] || (s.items[|s.items| - 1] in s.heap && s.heap[s.items[|s.items| - 1]].Qset?)
  {
    if s.items != [] { assert ItemOk(s, |s.items| - 1); }
  }

  lemma GrowsItself(s: Store)
    ensures Grows(s, s)
  {
  }
}
