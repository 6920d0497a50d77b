/**
 * The two ways `crypto_run` serves a request: page by page through a kernel buffer, or in one go on the
 * mapped user pages. Both are proved to compute `OneShot`, unless a chunk overwrites what a later one reads.
 *
 * User memory is an array; `src` and `dst` are positions in it. The state of a cipher or hash context
 * is a number that stands for it; the operations of an `Engine` advance it.
 */
module CryptoRun {
  import opened Arith
  import opened Memory
  import opened Wire

  type Context = nat

  /** The CryptoAPI operations of a session: which contexts it has, and how they advance. */
  datatype Engine = Engine(
    hasCipher: bool, blocksize: nat,
    enc: (Context, Bytes) -> (Bytes, Context), dec: (Context, Bytes) -> (Bytes, Context),
    setIv: (Context, Bytes) -> Context, getIv: Context -> Bytes,
    hasHash: bool, absorb: (Context, Bytes) -> Context, reset: Context, digest: Context -> Bytes)
  {
    function Crypt(decrypt: bool, c: Context, s: Bytes): (Bytes, Context) {
      if decrypt then dec(c, s) else enc(c, s)
    }
  }

  /** Streaming: on whole blocks a cipher works piece by piece, and a hash does on any bytes. */
  ghost predicate Lawful(e: Engine) {
    && e.blocksize > 0
    && (forall d, c, s :: |e.Crypt(d, c, s).0| == |s|)
    && (forall d, c :: e.Crypt(d, c, []).1 == c)
    && (forall h :: e.absorb(h, []) == h)
    && (forall d, c, s, t :: CipherStreams(e, d, c, s, t))
    && (forall h, s, t :: HashStreams(e, h, s, t))
  }

  ghost predicate CipherStreams(e: Engine, d: bool, c: Context, s: Bytes, t: Bytes)
    requires e.blocksize > 0
  {
    |s| % e.blocksize == 0 && |t| % e.blocksize == 0 ==>
      var (x, c1) := e.Crypt(d, c, s);
      var (y, c2) := e.Crypt(d, c1, t);
      e.Crypt(d, c, s + t) == (x + y, c2)
  }

  ghost predicate HashStreams(e: Engine, h: Context, s: Bytes, t: Bytes) {
    e.absorb(h, s + t) == e.absorb(e.absorb(h, s), t)
  }

  // ----- specification -----

  datatype Contexts = Contexts(mem: Bytes, cipher: Context, hash: Context)

  predicate InRange(size: nat, src: nat, dst: nat, n: nat) {
    src + n <= size && dst + n <= size
  }

  /** Writing forward at `dst` leaves alone what is still to be read at `src`. */
  predicate ReadsAhead(e: Engine, src: nat, dst: nat, n: nat) {
    !e.hasCipher || dst <= src || src + n <= dst
  }

  /**
   * Bytes `src..src + n` through the session at once: the hash covers the plaintext side, and `dst` receives
   * the cipher's output. A session without a cipher leaves memory alone.
   */
  ghost function OneShot(e: Engine, decrypt: bool, st: Contexts, src: nat, dst: nat, n: nat): (r: Contexts)
    requires InRange(|st.mem|, src, dst, n) && Lawful(e)
    ensures |r.mem| == |st.mem|
  {
    var data := st.mem[src..src + n];
    var (out, c) := if e.hasCipher then e.Crypt(decrypt, st.cipher, data) else (data, st.cipher);
    Contexts(if e.hasCipher then Splice(st.mem, dst, out) else st.mem, c,
             if e.hasHash then e.absorb(st.hash, if decrypt then out else data) else st.hash)
  }

  /** Serving `a` bytes and then the next `b` is serving `a + b` at once, on whole blocks. */
  lemma OneShotSplits(e: Engine, decrypt: bool, st: Contexts, src: nat, dst: nat, a: nat, b: nat)
    requires Lawful(e) && InRange(|st.mem|, src, dst, a + b) && ReadsAhead(e, src, dst, a + b)
    requires e.hasCipher ==> a % e.blocksize == 0 && b % e.blocksize == 0
    ensures OneShot(e, decrypt, OneShot(e, decrypt, st, src, dst, a), src + a, dst + a, b)
         == OneShot(e, decrypt, st, src, dst, a + b)
  {
    hide Lawful, Splice;
    var s, t := st.mem[src..src + a], st.mem[src + a..src + a + b];
    assert st.mem[src..src + a + b] == s + t;
    UseLaws(e, decrypt, st.cipher, st.hash, s, t);
    if e.hasCipher {
      var (x, c1) := e.Crypt(decrypt, st.cipher, s);
      var (y, c2) := e.Crypt(decrypt, c1, t);
      SpliceElsewhere(st.mem, dst, x, src + a, src + a + b);
      SpliceTwice(st.mem, dst, x, y);
    }
  }

  lemma UseLaws(e: Engine, decrypt: bool, c: Context, h: Context, s: Bytes, t: Bytes)
    requires Lawful(e)
    ensures HashStreams(e, h, s, t) && CipherStreams(e, decrypt, c, s, t)
    ensures var (x, c1) := e.Crypt(decrypt, c, s);
            var (y, c2) := e.Crypt(decrypt, c1, t);
            |x| == |s| && |y| == |t| && HashStreams(e, h, x, y)
  {
  }

  lemma CryptLength(e: Engine, decrypt: bool, c: Context, s: Bytes)
    requires Lawful(e)
    ensures |e.Crypt(decrypt, c, s).0| == |s|
  {
  }

  /** Working on a copy of the source bytes and copying the result back is working on memory. */
  lemma ChunkIsOneShot(e: Engine, decrypt: bool, st: Contexts, page: Contexts, src: nat, dst: nat, n: nat)
    requires Lawful(e) && InRange(|st.mem|, src, dst, n) && n <= |page.mem| && page.mem[0..n] == st.mem[src..src + n]
    requires page.cipher == st.cipher && page.hash == st.hash
    ensures var r := OneShot(e, decrypt, page, 0, 0, n);
            && |r.mem| == |page.mem|
            && OneShot(e, decrypt, st, src, dst, n)
                 == Contexts(if e.hasCipher then Splice(st.mem, dst, r.mem[..n]) else st.mem, r.cipher, r.hash)
  {
    hide Lawful, Splice;
    CryptLength(e, decrypt, st.cipher, page.mem[0..n]);
    if e.hasCipher {
      var out := e.Crypt(decrypt, st.cipher, page.mem[0..n]).0;
      SpliceAt(page.mem, 0, out);
      var r := OneShot(e, decrypt, page, 0, 0, n);
      assert r.mem[..n] == r.mem[0..n] == out;
    }
  }

  /** The same bytes page by page, each piece read after those before it are written. */
  ghost function Chunks(e: Engine, decrypt: bool, st: Contexts, src: nat, dst: nat, len: nat, page: nat): (r: Contexts)
    requires InRange(|st.mem|, src, dst, len) && Lawful(e) && page > 0
    ensures |r.mem| == |st.mem|
    decreases len
  {
    if len == 0 then st
    else
      var n := if len > page then page else len;
      Chunks(e, decrypt, OneShot(e, decrypt, st, src, dst, n), src + n, dst + n, len - n, page)
  }

  /** They come to the same when a single piece is enough or no piece overwrites what a later one reads. */
  lemma {:induction false} ChunksAreOneShot(e: Engine, decrypt: bool, st: Contexts, src: nat, dst: nat, len: nat,
                                            page: nat)
    requires Lawful(e) && InRange(|st.mem|, src, dst, len) && page > 0
    requires e.hasCipher ==> len % e.blocksize == 0 && page % e.blocksize == 0
    requires len <= page || ReadsAhead(e, src, dst, len)
    ensures Chunks(e, decrypt, st, src, dst, len, page) == OneShot(e, decrypt, st, src, dst, len)
    decreases len
  {
    hide OneShot, Lawful;
    if len <= page {
      if len == 0 { OneShotOfNothing(e, decrypt, st, src, dst); }
    } else {
      if e.hasCipher {
        RestOfChunks(e, len, page);
      }
      ChunksAreOneShot(e, decrypt, OneShot(e, decrypt, st, src, dst, page), src + page, dst + page, len - page, page);
      OneShotSplits(e, decrypt, st, src, dst, page, len - page);
    }
  }

  lemma RestOfChunks(e: Engine, len: nat, page: nat)
    requires Lawful(e) && page <= len && len % e.blocksize == 0 && page % e.blocksize == 0
    ensures (len - page) % e.blocksize == 0
  {
    SumOfMultiples(len, page, e.blocksize);
  }

  /** A bytewise cipher that never writes a zero and tells zeros from the rest. */
  function Stain(s: Bytes): Bytes {
    seq(|s|, i requires 0 <= i < |s| => if s[i] == 0 then 1 else 2)
  }

  function Stainer(): Engine {
    Engine(true, 1, (c, s) => (Stain(s), c), (c, s) => (s, c), (c, iv) => c, c => [], false, (h, s) => h, 0, h => [])
  }

  lemma StainerIsLawful()
    ensures Lawful(Stainer())
  {
    assert forall s, t :: Stain(s + t) == Stain(s) + Stain(t);
  }

  /** What one piece leaves at each place. */
  lemma StainedAt(st: Contexts, src: nat, dst: nat, n: nat, p: nat)
    requires InRange(|st.mem|, src, dst, n) && p < |st.mem| && Lawful(Stainer())
    ensures var m := OneShot(Stainer(), false, st, src, dst, n).mem;
            m[p] == if dst <= p < dst + n then (if st.mem[src + (p - dst)] == 0 then 1 else 2) else st.mem[p]
  {
    hide Lawful;
  }

  /** Pieces leave alone what lies before them. */
  lemma {:induction false} StainsAfter(st: Contexts, src: nat, dst: nat, len: nat, page: nat, p: nat)
    requires InRange(|st.mem|, src, dst, len) && page > 0 && p < dst && p < |st.mem| && Lawful(Stainer())
    ensures Chunks(Stainer(), false, st, src, dst, len, page).mem[p] == st.mem[p]
    decreases len
  {
    hide Lawful, OneShot;
    if len == 0 {
    } else {
      var n := if len > page then page else len;
      StainedAt(st, src, dst, n, p);
      StainsAfter(OneShot(Stainer(), false, st, src, dst, n), src + n, dst + n, len - n, page, p);
    }
  }

  /** A place whose source is stained before its piece is served ends as a two. */
  lemma {:induction false} StainedTwice(st: Contexts, src: nat, dst: nat, len: nat, page: nat, k: nat)
    requires InRange(|st.mem|, src, dst, len) && page > 0 && k < len && Lawful(Stainer()) && st.mem[src + k] != 0
    ensures Chunks(Stainer(), false, st, src, dst, len, page).mem[dst + k] == 2
    decreases len
  {
    hide Lawful, OneShot;
    var n := if len > page then page else len;
    var st1 := OneShot(Stainer(), false, st, src, dst, n);
    StainedAt(st, src, dst, n, dst + k);
    StainedAt(st, src, dst, n, src + k);
    if k < n {
      StainsAfter(st1, src + n, dst + n, len - n, page, dst + k);
    } else {
      StainedTwice(st1, src + n, dst + n, len - n, page, k - n);
    }
  }

  /** On zeroed memory the chunked path leaves a two where the one-shot path leaves a one. */
  lemma OverlapDiffers(src: nat, dst: nat, len: nat, page: nat) returns (st: Contexts)
    requires 0 < page < len && src < dst < src + len
    ensures Lawful(Stainer()) && InRange(|st.mem|, src, dst, len)
    ensures Chunks(Stainer(), false, st, src, dst, len, page) != OneShot(Stainer(), false, st, src, dst, len)
  {
    hide OneShot, Lawful;
    StainerIsLawful();
    st := Contexts(seq(dst + len, _ => 0), 0, 0);
    var gap := dst - src;
    var k := if gap > page then gap else page;
    var st1 := OneShot(Stainer(), false, st, src, dst, page);
    StainedAt(st, src, dst, page, src + k);
    StainedTwice(st1, src + page, dst + page, len - page, page, k - page);
    StainedAt(st, src, dst, len, dst + k);
  }

  /** Whether, for every session, direction and memory, serving page by page is serving at once. */
  ghost predicate ChunkingIsInvisible(src: nat, dst: nat, len: nat, page: nat)
    requires page > 0
  {
    forall e, decrypt, st :: Servable(e, st, src, dst, len, page) ==>
      Chunks(e, decrypt, st, src, dst, len, page) == OneShot(e, decrypt, st, src, dst, len)
  }

  ghost predicate Servable(e: Engine, st: Contexts, src: nat, dst: nat, len: nat, page: nat) {
    && Lawful(e) && InRange(|st.mem|, src, dst, len)
    && (e.hasCipher ==> len % e.blocksize == 0 && page % e.blocksize == 0)
  }

  /**
   * It is so exactly when one page is enough or the destination does not begin within the source, ahead of its start.
   */
  lemma ChunkingIsInvisibleIff(src: nat, dst: nat, len: nat, page: nat)
    requires page > 0
    ensures ChunkingIsInvisible(src, dst, len, page) <==> len <= page || dst <= src || src + len <= dst
  {
    hide OneShot, Lawful, Chunks;
    if len <= page || dst <= src || src + len <= dst {
      forall e, decrypt, st | Servable(e, st, src, dst, len, page)
        ensures Chunks(e, decrypt, st, src, dst, len, page) == OneShot(e, decrypt, st, src, dst, len)
      {
        ChunksAreOneShot(e, decrypt, st, src, dst, len, page);
      }
    } else {
      var st := OverlapDiffers(src, dst, len, page);
      assert Servable(Stainer(), st, src, dst, len, page);
    }
  }

  lemma OneShotOfNothing(e: Engine, decrypt: bool, st: Contexts, src: nat, dst: nat)
    requires Lawful(e) && InRange(|st.mem|, src, dst, 0)
    ensures OneShot(e, decrypt, st, src, dst, 0) == st
  {
    assert st.mem[src..src] == [];
    assert e.Crypt(decrypt, st.cipher, []).0 == [];
    assert Splice(st.mem, dst, []) == st.mem;
  }

  /** What the one-shot call on mapped pages computes: it hashes the bytes found at `dst` after decrypting. */
  ghost function Mapped(e: Engine, decrypt: bool, st: Contexts, src: nat, dst: nat, n: nat): Contexts
    requires InRange(|st.mem|, src, dst, n) && Lawful(e)
  {
    var r := OneShot(e, decrypt, st, src, dst, n);
    if decrypt && e.hasHash then r.(hash := e.absorb(st.hash, r.mem[dst..dst + n])) else r
  }

  /** The two paths agree whenever there is a cipher, no hash, or an encryption. */
  predicate PathsAgree(e: Engine, decrypt: bool) {
    e.hasCipher || !e.hasHash || !decrypt
  }

  lemma MappedIsOneShot(e: Engine, decrypt: bool, st: Contexts, src: nat, dst: nat, n: nat)
    requires InRange(|st.mem|, src, dst, n) && Lawful(e)
    requires PathsAgree(e, decrypt) || st.mem[src..src + n] == st.mem[dst..dst + n]
    ensures Mapped(e, decrypt, st, src, dst, n) == OneShot(e, decrypt, st, src, dst, n)
  {
    var r := OneShot(e, decrypt, st, src, dst, n);
    if e.hasCipher {
      assert r.mem[dst..dst + n] == e.Crypt(decrypt, st.cipher, st.mem[src..src + n]).0;
    }
  }

  /** A hash that separates inputs of one length. */
  ghost predicate Injective(e: Engine) {
    forall h, s, t :: |s| == |t| && e.absorb(h, s) == e.absorb(h, t) ==> s == t
  }

  /**
   * With such a hash they agree in no other case: a hash-only session asked to decrypt hashes `dst` instead of `src`.
   */
  lemma MappedIsOneShotIff(e: Engine, decrypt: bool, st: Contexts, src: nat, dst: nat, n: nat)
    requires InRange(|st.mem|, src, dst, n) && Lawful(e) && Injective(e)
    ensures Mapped(e, decrypt, st, src, dst, n) == OneShot(e, decrypt, st, src, dst, n) <==>
            PathsAgree(e, decrypt) || st.mem[src..src + n] == st.mem[dst..dst + n]
  {
    var s, t := st.mem[src..src + n], st.mem[dst..dst + n];
    if PathsAgree(e, decrypt) || s == t {
      MappedIsOneShot(e, decrypt, st, src, dst, n);
    } else {
      assert e.absorb(st.hash, s) != e.absorb(st.hash, t);
    }
  }

  /** A hash that reads its input as digits of a number. */
  function Digits(h: nat, s: Bytes): nat
    decreases |s|
  {
    if s == [] then h else Digits(h, s[..|s| - 1]) * 256 + s[|s| - 1]
  }

  lemma {:induction false} DigitsStream(h: nat, s: Bytes, t: Bytes)
    ensures Digits(h, s + t) == Digits(Digits(h, s), t)
    decreases |t|
  {
    if t == [] {
      assert s + t == s;
    } else {
      assert (s + t)[..|s + t| - 1] == s + t[..|t| - 1];
      DigitsStream(h, s, t[..|t| - 1]);
    }
  }

  lemma {:induction false} DigitsInjective(h: nat, s: Bytes, t: Bytes)
    requires |s| == |t| && Digits(h, s) == Digits(h, t)
    ensures s == t
    decreases |s|
  {
    if s == [] {
    } else {
      DigitsInjective(h, s[..|s| - 1], t[..|t| - 1]);
      assert s == s[..|s| - 1] + [s[|s| - 1]] && t == t[..|t| - 1] + [t[|t| - 1]];
    }
  }

  /** A hash-only session under which decryption on mapped pages and by chunks end in different hash states. */
  lemma HashOnlyDecryptDiffers() returns (e: Engine, st: Contexts)
    ensures Lawful(e) && Injective(e) && !e.hasCipher && InRange(|st.mem|, 0, 1, 1)
    ensures Mapped(e, true, st, 0, 1, 1) != OneShot(e, true, st, 0, 1, 1)
  {
    e := Engine(false, 1, (c, s) => (s, c), (c, s) => (s, c), (c, iv) => c, c => [], true, Digits, 0, h => []);
    forall h, s, t ensures HashStreams(e, h, s, t) { DigitsStream(h, s, t); }
    forall h, s, t | |s| == |t| && e.absorb(h, s) == e.absorb(h, t) ensures s == t { DigitsInjective(h, s, t); }
    st := Contexts([0, 1], 0, 0);
    assert st.mem[0..1] == [0] && st.mem[1..2] == [1];
    MappedIsOneShotIff(e, true, st, 0, 1, 1);
  }

  /** What `OneShot` leaves: the cipher's output at `dst` and nowhere else, and the plaintext side hashed. */
  lemma OneShotEffect(e: Engine, decrypt: bool, st: Contexts, src: nat, dst: nat, n: nat)
    requires InRange(|st.mem|, src, dst, n) && Lawful(e)
    ensures var r, data := OneShot(e, decrypt, st, src, dst, n), st.mem[src..src + n];
            && r.mem[..dst] == st.mem[..dst] && r.mem[dst + n..] == st.mem[dst + n..]
            && (e.hasCipher && !decrypt ==> (r.mem[dst..dst + n], r.cipher) == e.enc(st.cipher, data))
            && (e.hasCipher && decrypt ==> (r.mem[dst..dst + n], r.cipher) == e.dec(st.cipher, data))
            && (!e.hasCipher ==> r.mem == st.mem && r.cipher == st.cipher)
            && (!e.hasHash ==> r.hash == st.hash)
            && (e.hasHash && !decrypt ==> r.hash == e.absorb(st.hash, data))
            && (e.hasHash && decrypt ==> r.hash == e.absorb(st.hash, if e.hasCipher then r.mem[dst..dst + n] else data))
  {
    hide Lawful, Splice;
    var data := st.mem[src..src + n];
    if e.hasCipher {
      var out := e.Crypt(decrypt, st.cipher, data).0;
      CryptLength(e, decrypt, st.cipher, data);
      SpliceAt(st.mem, dst, out);
      SpliceElsewhere(st.mem, dst, out, 0, dst);
      SpliceElsewhere(st.mem, dst, out, dst + n, |st.mem|);
      var m := Splice(st.mem, dst, out);
      assert m[0..dst] == m[..dst] && st.mem[0..dst] == st.mem[..dst];
      assert m[dst + n..|st.mem|] == m[dst + n..] && st.mem[dst + n..|st.mem|] == st.mem[dst + n..];
    }
  }

  /**
   * Encrypting and decrypting back hash the same bytes: from the same hash state both ends get the same digest. `c` is
   * the context that encrypted and `c'` one that decrypts what it produces.
   */
  lemma BothEndsHashTheSame(e: Engine, st: Contexts, c': Context, src: nat, mid: nat, dst: nat, n: nat)
    requires Lawful(e) && e.hasCipher && InRange(|st.mem|, src, mid, n) && dst + n <= |st.mem|
    requires e.dec(c', e.enc(st.cipher, st.mem[src..src + n]).0).0 == st.mem[src..src + n]
    ensures var sent := OneShot(e, false, st, src, mid, n);
            var got := OneShot(e, true, sent.(cipher := c', hash := st.hash), mid, dst, n);
            got.hash == sent.hash && got.mem[dst..dst + n] == st.mem[src..src + n]
  {
    hide OneShot, Lawful;
    OneShotEffect(e, false, st, src, mid, n);
    var sent := OneShot(e, false, st, src, mid, n);
    OneShotEffect(e, true, sent.(cipher := c', hash := st.hash), mid, dst, n);
  }

  // ----- a whole request -----

  /** COP_FLAG_RESET, FINAL, UPDATE, NO_ZC, and whether any other bit is set. */
  datatype Flags = Flags(reset: bool, final: bool, update: bool, noZc: bool, other: bool) {
    predicate Zero() { !reset && !final && !update && !noZc && !other }
  }

  /** Hash reset and IV, before any data. */
  ghost function Setup(e: Engine, flags: Flags, iv: Bytes, st: Contexts): Contexts {
    st.(hash := if e.hasHash && (flags.Zero() || flags.reset) then e.reset else st.hash,
        cipher := if e.hasCipher then e.setIv(st.cipher, iv) else st.cipher)
  }

  /** A request starts from its own IV, and from a fresh hash exactly when the flags are zero or ask for it. */
  lemma SetupEffect(e: Engine, flags: Flags, iv: Bytes, st: Contexts)
    ensures var r := Setup(e, flags, iv, st);
            var anew := flags.reset || !(flags.final || flags.update || flags.noZc || flags.other);
            && r.mem == st.mem
            && (e.hasCipher ==> r.cipher == e.setIv(st.cipher, iv)) && (!e.hasCipher ==> r.cipher == st.cipher)
            && (e.hasHash ==> r.hash == if anew then e.reset else st.hash)
            && (!e.hasHash ==> r.hash == st.hash)
  {
  }

  /** The state after an accepted request; `mapped` says whether the user pages could be mapped. */
  ghost function Served(e: Engine, decrypt: bool, flags: Flags, iv: Bytes, st: Contexts,
                        src: nat, dst: nat, len: nat, page: nat, mapped: bool): Contexts
    requires InRange(|st.mem|, src, dst, len) && Lawful(e) && page > 0
  {
    var st1 := Setup(e, flags, iv, st);
    if len == 0 then st1
    else if flags.noZc || !mapped then Chunks(e, decrypt, st1, src, dst, len, page)
    else Mapped(e, decrypt, st1, src, dst, len)
  }

  /**
   * The requests for which both paths compute the same: no piece overwrites a later one, and the right bytes are
   * hashed.
   */
  ghost predicate EitherPath(e: Engine, decrypt: bool, src: nat, dst: nat, len: nat, page: nat)
    requires Lawful(e) && page > 0
  {
    && (PathsAgree(e, decrypt) || src == dst) && (len <= page || ReadsAhead(e, src, dst, len))
    && (e.hasCipher ==> len % e.blocksize == 0 && page % e.blocksize == 0)
  }

  /** Whether the pages could be mapped does not show in the result. */
  lemma MappingIsInvisible(e: Engine, decrypt: bool, flags: Flags, iv: Bytes, st: Contexts,
                           src: nat, dst: nat, len: nat, page: nat)
    requires InRange(|st.mem|, src, dst, len) && Lawful(e) && page > 0 && EitherPath(e, decrypt, src, dst, len, page)
    ensures Served(e, decrypt, flags, iv, st, src, dst, len, page, true)
         == Served(e, decrypt, flags, iv, st, src, dst, len, page, false)
  {
    hide OneShot, Mapped, Lawful, Chunks;
    ChunksAreOneShot(e, decrypt, Setup(e, flags, iv, st), src, dst, len, page);
    MappedIsOneShot(e, decrypt, Setup(e, flags, iv, st), src, dst, len);
  }

  /** Such a request spelled out: its IV, its bytes through the cipher to `dst`, the plaintext side through the hash. */
  lemma ServedEffect(e: Engine, decrypt: bool, flags: Flags, iv: Bytes, st: Contexts,
                     src: nat, dst: nat, len: nat, page: nat, mapped: bool)
    requires InRange(|st.mem|, src, dst, len) && Lawful(e) && page > 0 && EitherPath(e, decrypt, src, dst, len, page)
    ensures var r, data := Served(e, decrypt, flags, iv, st, src, dst, len, page, mapped), st.mem[src..src + len];
            var anew := flags.reset || !(flags.final || flags.update || flags.noZc || flags.other);
            var start := if anew then e.reset else st.hash;
            && |r.mem| == |st.mem| && r.mem[..dst] == st.mem[..dst] && r.mem[dst + len..] == st.mem[dst + len..]
            && (e.hasCipher && len > 0 && !decrypt ==>
                  (r.mem[dst..dst + len], r.cipher) == e.enc(e.setIv(st.cipher, iv), data))
            && (e.hasCipher && len > 0 && decrypt ==>
                  (r.mem[dst..dst + len], r.cipher) == e.dec(e.setIv(st.cipher, iv), data))
            && (e.hasHash && len > 0 ==>
                  r.hash == e.absorb(start, if decrypt && e.hasCipher then r.mem[dst..dst + len] else data))
            && (len == 0 ==>
                  && r.mem == st.mem
                  && r.cipher == (if e.hasCipher then e.setIv(st.cipher, iv) else st.cipher)
                  && r.hash == if e.hasHash then start else st.hash)
  {
    hide OneShot, Mapped, Lawful, Chunks, Setup;
    var st1 := Setup(e, flags, iv, st);
    SetupEffect(e, flags, iv, st);
    ChunksAreOneShot(e, decrypt, st1, src, dst, len, page);
    MappedIsOneShot(e, decrypt, st1, src, dst, len);
    OneShotEffect(e, decrypt, st1, src, dst, len);
  }

  /** Nor does COP_FLAG_NO_ZC, as long as it is not the one bit that keeps a flag word from being zero. */
  lemma NoZcIsInvisible(e: Engine, decrypt: bool, flags: Flags, iv: Bytes, st: Contexts,
                        src: nat, dst: nat, len: nat, page: nat, mapped: bool)
    requires InRange(|st.mem|, src, dst, len) && Lawful(e) && page > 0 && EitherPath(e, decrypt, src, dst, len, page)
    requires !flags.Zero() && !flags.noZc
    ensures Served(e, decrypt, flags.(noZc := true), iv, st, src, dst, len, page, mapped)
         == Served(e, decrypt, flags, iv, st, src, dst, len, page, mapped)
  {
    hide OneShot, Mapped, Lawful, Chunks;
    ChunksAreOneShot(e, decrypt, Setup(e, flags, iv, st), src, dst, len, page);
    MappedIsOneShot(e, decrypt, Setup(e, flags, iv, st), src, dst, len);
  }

  /** On a zero flag word it also suppresses the hash reset, which shows exactly when there was something to reset. */
  lemma NoZcKeepsHash(e: Engine, iv: Bytes, st: Contexts)
    ensures var zero := Flags(false, false, false, false, false);
            Setup(e, zero.(noZc := true), iv, st) == Setup(e, zero, iv, st) <==> !e.hasHash || st.hash == e.reset
  {
  }

  // ----- the code -----

  predicate Multiple(x: nat, b: nat) {
    b > 0 && x % b == 0
  }

  lemma FirstChunk(e: Engine, len: nat)
    requires Lawful(e) && (e.hasCipher ==> len % e.blocksize == 0)
    ensures e.blocksize > 0 && Multiple(0, e.blocksize) && (e.hasCipher ==> Multiple(len, e.blocksize))
  {
  }

  lemma NextChunk(b: nat, page: nat, len: nat, done: nat, nbytes: nat, n: nat)
    requires b > 0 && page % b == 0 && len % b == 0 && Multiple(done, b) && Multiple(nbytes, b)
    requires n == nbytes || (n == page && n <= nbytes)
    ensures n % b == 0 && done % b == 0 && Multiple(done + n, b) && Multiple(nbytes - n, b)
  {
    SumOfMultiples(done, n, b);
    SumOfMultiples(nbytes, n, b);
  }

  datatype Code = Ok | Invalid

  class Device {
    const e: Engine
    var cipher: Context
    var hash: Context

    constructor (e: Engine, cipher: Context, hash: Context)
      ensures this.e == e && this.cipher == cipher && this.hash == hash
    {
      this.e, this.cipher, this.hash := e, cipher, hash;
    }

    ghost function State(mem: array<Byte>): Contexts
      reads this, mem
    {
      Contexts(mem[..], cipher, hash)
    }

    /** Hash before encryption and after decryption, on two stretches of one buffer. */
    method HashAndCrypt(decrypt: bool, a: array<Byte>, src: nat, dst: nat, n: nat) returns (ret: Code)
      requires Lawful(e) && InRange(a.Length, src, dst, n)
      modifies this, a
      ensures ret == Invalid <==> e.hasCipher && n % e.blocksize != 0
      ensures ret == Ok ==> State(a) == Mapped(e, decrypt, old(State(a)), src, dst, n)
      ensures ret == Ok ==>
                hash == if !e.hasHash then old(hash)
                        else e.absorb(old(hash), if decrypt then a[dst..dst + n] else old(a[src..src + n]))
      ensures ret == Ok && !e.hasCipher ==> a[..] == old(a[..]) && cipher == old(cipher)
      ensures ret == Ok && e.hasCipher ==>
                && (a[dst..dst + n], cipher)
                   == (if decrypt then e.dec(old(cipher), old(a[src..src + n]))
                       else e.enc(old(cipher), old(a[src..src + n])))
                && a[..dst] == old(a[..dst]) && a[dst + n..] == old(a[dst + n..])
      ensures ret == Invalid ==>
                && a[..] == old(a[..]) && cipher == old(cipher)
                && hash == if e.hasHash && !decrypt then e.absorb(old(hash), old(a[src..src + n])) else old(hash)
    {
      ret := Ok;
      if !decrypt {
        if e.hasHash {
          hash := e.absorb(hash, a[src..src + n]);
        }
        if e.hasCipher {
          ret := Cipher(decrypt, a, src, dst, n);
        }
      } else {
        if e.hasCipher {
          ret := Cipher(decrypt, a, src, dst, n);
          if ret != Ok {
            return;
          }
        }
        if e.hasHash {
          hash := e.absorb(hash, a[dst..dst + n]);
        }
      }
    }

    method Cipher(decrypt: bool, a: array<Byte>, src: nat, dst: nat, n: nat) returns (ret: Code)
      requires Lawful(e) && InRange(a.Length, src, dst, n)
      modifies this`cipher, a
      ensures ret == if n % e.blocksize == 0 then Ok else Invalid
      ensures ret == Ok ==>
                var (out, c) := e.Crypt(decrypt, old(cipher), old(a[src..src + n]));
                a[..] == Splice(old(a[..]), dst, out) && cipher == c
      ensures ret != Ok ==> a[..] == old(a[..]) && cipher == old(cipher)
    {
      if n % e.blocksize != 0 {
        return Invalid;
      }
      var (out, c) := e.Crypt(decrypt, cipher, a[src..src + n]);
      cipher := c;
      Store(a, dst, out);
      return Ok;
    }

    /** One chunk: copied into the page buffer, processed there in place, and copied out. */
    method RunChunk(decrypt: bool, mem: array<Byte>, data: array<Byte>, src: nat, dst: nat, n: nat) returns (ret: Code)
      requires Lawful(e) && InRange(mem.Length, src, dst, n) && n <= data.Length && data != mem
      requires e.hasCipher ==> n % e.blocksize == 0
      modifies this, mem, data
      ensures ret == Ok && State(mem) == OneShot(e, decrypt, old(State(mem)), src, dst, n)
    {
      hide Lawful, OneShot, Mapped, Splice;
      ghost var st := State(mem);
      var chunk := mem[src..src + n];
      Store(data, 0, chunk);
      ghost var page := State(data);
      SpliceAt(old(data[..]), 0, chunk);
      ret := HashAndCrypt(decrypt, data, 0, 0, n);
      MappedIsOneShot(e, decrypt, page, 0, 0, n);
      ChunkIsOneShot(e, decrypt, st, page, src, dst, n);
      if e.hasCipher {
        Store(mem, dst, data[..n]);
      }
    }

    /** The chunked path: page by page. */
    method RunStd(decrypt: bool, mem: array<Byte>, src: nat, dst: nat, len: nat, page: nat) returns (ret: Code)
      requires Lawful(e) && InRange(mem.Length, src, dst, len)
      requires page > 0 && page % e.blocksize == 0 && (e.hasCipher ==> len % e.blocksize == 0)
      modifies this, mem
      ensures ret == Ok && State(mem) == Chunks(e, decrypt, old(State(mem)), src, dst, len, page)
      ensures len <= page || ReadsAhead(e, src, dst, len) ==>
                State(mem) == OneShot(e, decrypt, old(State(mem)), src, dst, len)
    {
      hide Lawful, OneShot, Splice, Multiple;
      FirstChunk(e, len);
      var data := new Byte[page];
      var bufsize := if page < len then page else len;
      var nbytes: nat := len;
      var s, d := src, dst;
      ghost var st := State(mem);
      ghost var done: nat := 0;
      ret := Ok;
      if len <= page || ReadsAhead(e, src, dst, len) {
        ChunksAreOneShot(e, decrypt, st, src, dst, len, page);
      }
      while nbytes > 0
        invariant done + nbytes == len && s == src + done && d == dst + done
        invariant e.hasCipher ==> Multiple(done, e.blocksize) && Multiple(nbytes, e.blocksize)
        invariant ret == Ok
        invariant Chunks(e, decrypt, State(mem), s, d, nbytes, page) == Chunks(e, decrypt, st, src, dst, len, page)
      {
        var n := if nbytes > bufsize then bufsize else nbytes;
        if e.hasCipher {
          NextChunk(e.blocksize, page, len, done, nbytes, n);
        }
        ret := RunChunk(decrypt, mem, data, s, d, n);
        d, nbytes, s := d + n, nbytes - n, s + n;
        done := done + n;
      }
    }

    /** The zero-copy path, falling back to the chunked one when the pages cannot be mapped. */
    method RunZc(decrypt: bool, mem: array<Byte>, src: nat, dst: nat, len: nat, page: nat, mapped: bool)
      returns (ret: Code)
      requires Lawful(e) && InRange(mem.Length, src, dst, len)
      requires page > 0 && page % e.blocksize == 0 && (e.hasCipher ==> len % e.blocksize == 0)
      modifies this, mem
      ensures ret == Ok
      ensures State(mem) == (if mapped then Mapped(e, decrypt, old(State(mem)), src, dst, len)
                             else Chunks(e, decrypt, old(State(mem)), src, dst, len, page))
      ensures EitherPath(e, decrypt, src, dst, len, page) ==>
                State(mem) == OneShot(e, decrypt, old(State(mem)), src, dst, len)
    {
      hide OneShot, Mapped, Chunks;
      if PathsAgree(e, decrypt) || src == dst {
        MappedIsOneShot(e, decrypt, State(mem), src, dst, len);
      }
      if !mapped {
        ret := RunStd(decrypt, mem, src, dst, len, page);
      } else {
        ret := HashAndCrypt(decrypt, mem, src, dst, len);
      }
    }

    /** `crypto_run` on a session already looked up and locked. */
    method Run(decrypt: bool, flags: Flags, iv: Bytes, mem: array<Byte>, src: nat, dst: nat, len: nat, page: nat,
               mapped: bool)
      returns (ret: Code, newIv: Bytes, digest: Option<Bytes>)
      requires Lawful(e) && InRange(mem.Length, src, dst, len)
      requires page > 0 && page % e.blocksize == 0
      modifies this, mem
      ensures ret == Invalid <==> e.hasCipher && len % e.blocksize != 0
      ensures ret == Invalid ==>
                && mem[..] == old(mem[..]) && cipher == old(cipher) && newIv == iv && digest == None
                && hash == if e.hasHash && (flags.Zero() || flags.reset) then e.reset else old(hash)
      ensures ret == Ok ==> State(mem) == Served(e, decrypt, flags, iv, old(State(mem)), src, dst, len, page, mapped)
      ensures ret == Ok ==> newIv == if e.hasCipher then e.getIv(cipher) else iv
      ensures ret == Ok ==>
                digest == if e.hasHash && (flags.final || !flags.update || len == 0) then Some(e.digest(hash)) else None
    {
      hide OneShot, Mapped, Chunks;
      ghost var st := State(mem);
      ret, newIv, digest := Ok, iv, None;
      if e.hasHash && (flags.Zero() || flags.reset) {
        hash := e.reset;
      }
      if e.hasCipher {
        if len % e.blocksize != 0 {
          return Invalid, iv, None;
        }
        cipher := e.setIv(cipher, iv);
      }
      assert State(mem) == Setup(e, flags, iv, st);
      if len != 0 {
        if flags.noZc {
          ret := RunStd(decrypt, mem, src, dst, len, page);
        } else {
          ret := RunZc(decrypt, mem, src, dst, len, page, mapped);
        }
      }
      if e.hasCipher {
        newIv := e.getIv(cipher);
      }
      if e.hasHash && (flags.final || !flags.update || len == 0) {
        digest := Some(e.digest(hash));
      }
    }
  }
}
