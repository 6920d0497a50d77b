/**
 * SRTP record protection of cryptodev: the payload is encrypted in place inside the authenticated buffer, then
 * the whole buffer is authenticated (encrypt then authenticate, section 3.3 of RFC 3711).
 */
module Srtp {
  import opened Memory
  import opened Scatter
  import opened Tls
  import opened Wire
  import opened ZeroCopy

  const MAX_AUTH_DIFF := 256  // MAX_SRTP_AUTH_DATA_DIFF

  /**
   * `get_userbuf_srtp`: maps the authenticated buffer and makes, behind it, a second list that starts at the
   * payload. Returns where that list starts and ends, or None for an error.
   */
  method MapRecord(z: ZeroCopy.Session, frame: nat -> nat, auth: nat, authLen: nat, src: nat, dstLen: nat,
                   pagesOk: bool, sgOk: bool, pinOk: bool) returns (dst: Option<(nat, nat)>)
    requires z.Valid() && auth > 0
    modifies z, z.pages, z.sg
    ensures z.Valid()
    ensures dst.Some? <==>
              && dstLen > 0 && authLen > 0 && auth <= src <= auth + MAX_AUTH_DIFF && src < auth + authLen
              && pagesOk && sgOk && pinOk
    ensures dst.Some? ==>
              && z.usedPages == PageCount(z.p, auth, authLen) <= dst.value.0 < dst.value.1 <= z.sg.Length
              && z.usedPages <= z.arraySize
              && Flatten(z.p, z.sg[..z.usedPages]) == UserSpan(frame, z.p, auth, authLen)
              && Flatten(z.p, z.sg[dst.value.0..dst.value.1]) == UserSpan(frame, z.p, auth, authLen)[src - auth..]
    ensures dst.Some? ==>
              && z.usedPages <= z.pages.Length && PagesOf(z.pages[..z.usedPages], frame, z.p, auth)
              && z.pinned == old(z.pinned) + z.pages[..z.usedPages] && z.released == old(z.released)
    ensures dst == None ==>
              exists now: seq<nat> :: z.pinned == old(z.pinned) + now && z.released == old(z.released) + now
  {
    hide Flatten, UserSpan, PageCount, Frames, Span;
    assert z.pinned == old(z.pinned) + [] && z.released == old(z.released) + [];
    if dstLen == 0 || authLen == 0 {
      return None;
    }
    var diff := src - auth;
    if diff > MAX_AUTH_DIFF || diff < 0 {
      return None;
    }
    var count := PageCount(z.p, auth, authLen);
    SomePages(z.p, auth, authLen);
    var rc := z.AdjustArray(count * 2, pagesOk, sgOk);
    if !rc {
      return None;
    }
    dst := MapLists(z, frame, auth, authLen, count, diff, pinOk);
  }

  /** Both lists, given room for twice the pages; what was pinned is given back if the second one is empty. */
  method MapLists(z: ZeroCopy.Session, frame: nat -> nat, auth: nat, authLen: nat, count: nat, diff: nat, pinOk: bool)
    returns (dst: Option<(nat, nat)>)
    requires z.Valid() && auth > 0 && authLen > 0 && 0 < count == PageCount(z.p, auth, authLen)
    requires 2 * count <= z.arraySize
    modifies z`pinned, z`released, z`usedPages, z`readonlyPages, z.pages, z.sg
    ensures dst.Some? <==> pinOk && diff < authLen
    ensures dst.Some? ==>
              && z.usedPages == count <= dst.value.0 < dst.value.1 <= z.sg.Length
              && Flatten(z.p, z.sg[..count]) == UserSpan(frame, z.p, auth, authLen)
              && Flatten(z.p, z.sg[dst.value.0..dst.value.1]) == UserSpan(frame, z.p, auth, authLen)[diff..]
    ensures dst.Some? ==>
              && PagesOf(z.pages[..count], frame, z.p, auth)
              && z.pinned == old(z.pinned) + z.pages[..count] && z.released == old(z.released)
    ensures dst == None ==>
              exists now: seq<nat> :: z.pinned == old(z.pinned) + now && z.released == old(z.released) + now
  {
    hide Flatten, UserSpan, PageCount, Frames, Span;
    var ok, n := z.MapBuffer(frame, auth, authLen, count, 0, pinOk);
    if !ok {
      assert z.pinned == old(z.pinned) + [] && z.released == old(z.released) + [];
      return None;
    }
    ghost var list, now := z.sg[..count], z.pages[..count];
    assert z.sg[0..0 + count] == list && z.pages[0..0 + count] == now;
    z.usedPages, z.readonlyPages := count, 0;
    z.InitTable(count, count);
    assert z.sg[..count] == list;
    dst := SecondList(z.sg, count, authLen, diff, z.p);
    if dst == None {
      z.Release();
      assert z.pinned == old(z.pinned) + now && z.released == old(z.released) + now;
    }
  }

  /** A copy of the list in the first `count` entries, made behind it and advanced by `diff` bytes. */
  method SecondList(sg: array<Entry>, count: nat, len: nat, diff: nat, p: nat) returns (dst: Option<(nat, nat)>)
    requires p > 0 && 0 < count && 2 * count <= sg.Length && sg[count].length == 0
    requires len == |Flatten(p, sg[..count])|
    modifies sg
    ensures dst == None <==> diff >= len
    ensures sg[..count] == old(sg[..count])
    ensures dst.Some? ==>
              && count <= dst.value.0 < dst.value.1 <= sg.Length
              && Flatten(p, sg[dst.value.0..dst.value.1]) == Flatten(p, old(sg[..count]))[diff..]
  {
    hide Flatten, Span;
    ghost var list := sg[..count];
    assert sg[0..count] == list;
    var end := SgCopy(sg, 0, count, count, 2 * count, len, p);
    ghost var all := Flatten(p, list);
    assert all[..len] == all;
    var at := SgAdvance(sg, count, end.value, diff, p);
    if at == None {
      return None;
    }
    dst := Some((at.value, end.value));
  }

  lemma SomePages(p: nat, addr: nat, len: nat)
    requires p > 0 && len > 0
    ensures PageCount(p, addr, len) > 0
  {
  }

  // ----- memory behind the lists -----

  type Ram = map<nat, Byte>

  ghost predicate Present(mem: Ram, at: seq<nat>) {
    forall i :: 0 <= i < |at| ==> at[i] in mem
  }

  ghost predicate Distinct(at: seq<nat>) {
    forall i, j {:trigger at[i], at[j]} :: 0 <= i < j < |at| ==> at[i] != at[j]
  }

  /** The bytes at the addresses of a list. */
  function Gather(mem: Ram, at: seq<nat>): (r: Bytes)
    requires Present(mem, at)
    ensures |r| == |at| && forall i :: 0 <= i < |at| ==> r[i] == mem[at[i]]
  {
    if at == [] then [] else Gather(mem, at[..|at| - 1]) + [mem[at[|at| - 1]]]
  }

  /** Memory with `s` stored along a list. */
  function Put(mem: Ram, at: seq<nat>, s: Bytes): (r: Ram)
    requires |at| == |s|
    decreases |at|
  {
    if at == [] then mem else Put(mem, at[..|at| - 1], s[..|s| - 1])[at[|at| - 1] := s[|s| - 1]]
  }

  lemma {:induction false} PutGets(mem: Ram, at: seq<nat>, s: Bytes)
    requires |at| == |s| && Present(mem, at) && Distinct(at)
    ensures Put(mem, at, s).Keys == mem.Keys
    ensures forall i :: 0 <= i < |at| ==> at[i] in Put(mem, at, s) && Put(mem, at, s)[at[i]] == s[i]
    ensures forall a :: a in mem && a !in at ==> Put(mem, at, s)[a] == mem[a]
    decreases |at|
  {
    if at == [] {
    } else {
      var n := |at| - 1;
      var mid, r := Put(mem, at[..n], s[..n]), Put(mem, at, s);
      PutGets(mem, at[..n], s[..n]);
      assert r == mid[at[n] := s[n]];
      forall i | 0 <= i < |at| ensures at[i] in r && r[at[i]] == s[i] {
        if i < n {
          assert at[..n][i] == at[i] && at[i] != at[n];
        }
      }
      forall a | a in mem && a !in at ensures r[a] == mem[a] {
        assert at[n] in at && a !in at[..n];
      }
      assert at[n] in mem;
    }
  }

  /** Storing what was there gives the old memory back, whatever was stored in between. */
  lemma PutBack(mem: Ram, at: seq<nat>, s: Bytes)
    requires |at| == |s| && Present(mem, at) && Distinct(at)
    ensures Present(Put(mem, at, s), at) && Gather(Put(mem, at, s), at) == s
    ensures Put(Put(mem, at, s), at, Gather(mem, at)) == mem
  {
    PutGets(mem, at, s);
    var mid := Put(mem, at, s);
    PutGets(mid, at, Gather(mem, at));
    var end := Put(mid, at, Gather(mem, at));
    forall a | a in mem ensures end[a] == mem[a] {
      if a in at {
        var i :| 0 <= i < |at| && at[i] == a;
      }
    }
  }

  /** Storing along a stretch of a list changes nothing off the list. */
  lemma PutOnly(mem: Ram, auth: seq<nat>, i: nat, s: Bytes)
    requires Present(mem, auth) && Distinct(auth) && i + |s| <= |auth|
    ensures var mem' := Put(mem, auth[i..i + |s|], s);
            mem'.Keys == mem.Keys && forall a :: a in mem && a !in auth ==> mem'[a] == mem[a]
  {
    hide Put;
    PartDistinct(auth, i, i + |s|);
    PutGets(mem, auth[i..i + |s|], s);
  }

  /** Storing along a stretch of a list changes just that stretch of what the list reads. */
  lemma PutWithin(mem: Ram, auth: seq<nat>, i: nat, s: Bytes)
    requires Present(mem, auth) && Distinct(auth) && i + |s| <= |auth|
    ensures var at := auth[i..i + |s|];
            var mem' := Put(mem, at, s);
            Present(mem', auth) && Gather(mem', auth) == Gather(mem, auth)[..i] + s + Gather(mem, auth)[i + |s|..]
  {
    hide Put, Gather, Distinct;
    var at := auth[i..i + |s|];
    PartDistinct(auth, i, i + |s|);
    PutGets(mem, at, s);
    var mem' := Put(mem, at, s);
    forall k: nat | k < |auth|
      ensures auth[k] in mem' && mem'[auth[k]] == if i <= k < i + |s| then s[k - i] else mem[auth[k]]
    {
      if i <= k < i + |s| {
        assert auth[k] == at[k - i];
      }
    }
    var g, g' := Gather(mem, auth), Gather(mem', auth);
    assert g' == g[..i] + s + g[i + |s|..];
  }

  /** A stretch of a list has none of the addresses outside it. */
  lemma PartDistinct(at: seq<nat>, i: nat, j: nat)
    requires Distinct(at) && i <= j <= |at|
    ensures Distinct(at[i..j]) && forall k :: 0 <= k < i || j <= k < |at| ==> at[k] !in at[i..j]
  {
  }

  // ----- the transformation -----

  /** A stream cipher, as `__crypto_auth_run_zc` demands. */
  ghost predicate Streams(ses: Tls.Session) {
    Lawful(ses) && ses.blocksize == 1
  }

  lemma StreamLaws(ses: Tls.Session, iv: Bytes, s: Bytes)
    requires Streams(ses)
    ensures |ses.enc(iv, s)| == |s| && ses.dec(iv, ses.enc(iv, s)) == s && |ses.dec(iv, s)| == |s|
  {
    assert Whole(ses, s);
  }

  class Engine {
    var mem: Ram

    constructor (mem: Ram)
      ensures this.mem == mem
    {
      this.mem := mem;
    }

    /** COP_ENCRYPT on `len` payload bytes along `dst`: ciphertext in place, then the tag over all of `auth`. */
    method Encrypt(ses: Tls.Session, iv: Bytes, stack: Bytes, auth: seq<nat>, dst: seq<nat>, len: nat, tagLen: nat)
      returns (tag: Bytes)
      requires Streams(ses) && StackOk(stack, tagLen)
      requires Present(mem, auth) && Present(mem, dst) && Distinct(dst) && len <= |dst|
      modifies this
      ensures var text := Gather(old(mem), dst[..len]);
              && |ses.enc(iv, text)| == len
              && mem == if ses.hasCipher then Put(old(mem), dst[..len], ses.enc(iv, text)) else old(mem)
      ensures Present(mem, auth)
      ensures tag == if ses.hasMac then HashOutput(ses, stack, Gather(mem, auth))[..tagLen] else []
    {
      hide HashOutput;
      tag := [];
      var text := Gather(mem, dst[..len]);
      StreamLaws(ses, iv, text);
      if ses.hasCipher {
        PutGets(mem, dst[..len], ses.enc(iv, text));
        mem := Put(mem, dst[..len], ses.enc(iv, text));
      }
      assert forall i :: 0 <= i < |auth| ==> auth[i] in mem.Keys;
      if ses.hasMac {
        var hashOutput := HashOutput(ses, stack, Gather(mem, auth));
        tag := hashOutput[..tagLen];
      }
    }

    /** COP_DECRYPT: the tag is checked before anything is decrypted. */
    method Decrypt(ses: Tls.Session, iv: Bytes, stack: Bytes, auth: seq<nat>, dst: seq<nat>, len: nat, tag: Bytes)
      returns (ret: Code)
      requires Streams(ses) && |stack| >= MAX_RESULT
      requires Present(mem, auth) && Present(mem, dst) && Distinct(dst) && len <= |dst|
      modifies this
      ensures ses.hasMac ==>
                (ret == Invalid <==> |tag| > MAX_RESULT || |tag| > len)
                && (ret == Ok <==>
                      && |tag| <= MAX_RESULT && |tag| <= len
                      && tag == HashOutput(ses, stack, Gather(old(mem), auth))[..|tag|])
      ensures !ses.hasMac ==> ret == Ok
      ensures ret != CipherError
      ensures ret != Ok ==> mem == old(mem)
      ensures ret == Ok ==>
                var text := Gather(old(mem), dst[..len]);
                && |ses.dec(iv, text)| == len
                && mem == if ses.hasCipher then Put(old(mem), dst[..len], ses.dec(iv, text)) else old(mem)
    {
      hide HashOutput;
      if ses.hasMac {
        if |tag| > MAX_RESULT || |tag| > len {
          return Invalid;
        }
        var hashOutput := HashOutput(ses, stack, Gather(mem, auth));
        if tag != hashOutput[..|tag|] {
          return BadMessage;
        }
      }
      var text := Gather(mem, dst[..len]);
      StreamLaws(ses, iv, text);
      if ses.hasCipher {
        mem := Put(mem, dst[..len], ses.dec(iv, text));
      }
      ret := Ok;
    }

    /**
     * The tag covers header, ciphertext and whatever follows it. Decryption puts the old bytes back exactly when the
     * payload is at least as long as the tag, the tag fits the digest buffer, and its bytes past the digest, if any,
     * are the same on both stacks.
     */
    method RoundTrip(ses: Tls.Session, iv: Bytes, stack: Bytes, stack': Bytes, auth: seq<nat>, dst: seq<nat>,
                     ghost diff: nat, len: nat, tagLen: nat)
      returns (tag: Bytes, ret: Code)
      requires Streams(ses) && StackOk(stack, tagLen) && StackOk(stack', tagLen)
      requires Present(mem, auth) && Distinct(auth) && diff + len <= |auth| && dst == auth[diff..]
      modifies this
      ensures var covered := Covered(ses, iv, Gather(old(mem), auth), diff, len);
              && |ses.mac(covered)| <= |stack|
              && (ses.hasMac ==> tag == HashOutput(ses, stack, covered)[..tagLen])
              && (ses.hasMac && tagLen <= ses.digest ==>
                   |ses.mac(covered)| == ses.digest && tag == ses.mac(covered)[..tagLen])
      ensures ret == Ok <==>
                !ses.hasMac || (tagLen <= len && tagLen <= MAX_RESULT && SameTail(ses, stack, stack', tagLen))
      ensures ret == Ok ==> mem == old(mem)
      ensures ret != Ok ==> StillEncrypted(ses, iv, old(mem), mem, auth, diff, len)
      ensures ret != Ok ==> ret == if tagLen > len || tagLen > MAX_RESULT then Invalid else BadMessage
    {
      hide HashOutput, Streams, Lawful, Put, Gather, Distinct, Present, SameTail;
      ghost var was, before := Gather(mem, auth), mem;
      Payload(mem, auth, diff, len);
      ghost var at, text := auth[diff..diff + len], was[diff..diff + len];
      StreamLaws(ses, iv, text);
      tag := Encrypt(ses, iv, stack, auth, dst, len, tagLen);
      ghost var cipher := if ses.hasCipher then ses.enc(iv, text) else text;
      PutWithin(before, auth, diff, cipher);
      PutBack(before, at, cipher);
      PutOnly(before, auth, diff, cipher);
      ghost var covered := Gather(mem, auth);
      MacLength(ses, covered);
      TagsAgreeIff(ses, stack, stack', covered, tagLen);
      PresentPart(mem, auth, diff);
      ret := Decrypt(ses, iv, stack', auth, dst, len, tag);
    }
  }

  /** What the tag is computed over: the payload of `was` replaced by its ciphertext. */
  ghost function Covered(ses: Tls.Session, iv: Bytes, was: Bytes, diff: nat, len: nat): Bytes
    requires diff + len <= |was|
  {
    var text := was[diff..diff + len];
    was[..diff] + (if ses.hasCipher then ses.enc(iv, text) else text) + was[diff + len..]
  }

  /** Memory as the encryption left it: the record has the ciphertext, and nothing else has changed. */
  ghost predicate StillEncrypted(ses: Tls.Session, iv: Bytes, was: Ram, now: Ram, auth: seq<nat>, diff: nat, len: nat)
    requires Present(was, auth) && diff + len <= |auth|
  {
    && now.Keys == was.Keys && (forall a :: a in was && a !in auth ==> now[a] == was[a])
    && Present(now, auth) && Gather(now, auth) == Covered(ses, iv, Gather(was, auth), diff, len)
  }

  lemma MacLength(ses: Tls.Session, m: Bytes)
    requires Streams(ses)
    ensures |ses.mac(m)| == ses.digest <= MAX_RESULT
  {
  }

  lemma Differ(s: Bytes, t: Bytes, i: nat, j: nat)
    requires i < j <= |s| && j <= |t| && s[i] != t[i]
    ensures s[i..j] != t[i..j]
  {
    assert s[i..j][0] != t[i..j][0];
  }

  /** A round trip that fails: the tag reaches past the digest, where the two stacks differ. */
  method TagBeyondDigestFails() returns (ret: Code)
    ensures ret == BadMessage
  {
    var ses := Session(true, m => seq(20, _ => 7), 20, true, 1, (iv, s) => s, (iv, s) => s);
    var stack, stack' := seq(64, _ => 0), seq(64, _ => 1);
    Differ(stack, stack', 20, 32);
    var auth := seq(40, i requires 0 <= i => i);
    assert auth[0..] == auth;
    var e := new Engine(map a | a in auth :: 0);
    var tag;
    tag, ret := e.RoundTrip(ses, [], stack, stack', auth, auth, 0, 40, 32);
  }

  /**
   * A record of user memory from mapping to decryption: the two lists name the authenticated bytes and the payload
   * inside them, and with distinct frames the round trip holds along them.
   */
  method RecordRoundTrip(z: ZeroCopy.Session, e: Engine, frame: nat -> nat, auth: nat, authLen: nat, src: nat, len: nat,
                         ses: Tls.Session, iv: Bytes, stack: Bytes, stack': Bytes, tagLen: nat)
    returns (tag: Bytes, ret: Option<Code>)
    requires z.Valid() && auth > 0 && Streams(ses) && StackOk(stack, tagLen) && StackOk(stack', tagLen)
    requires Injective(frame) && Present(e.mem, UserSpan(frame, z.p, auth, authLen))
    requires auth <= src && src + len <= auth + authLen
    modifies z, z.pages, z.sg, e
    ensures ret.Some? <==> 0 < len && src <= auth + MAX_AUTH_DIFF
    ensures ret.Some? && ses.hasMac ==>
              var covered := Covered(ses, iv, Gather(old(e.mem), UserSpan(frame, z.p, auth, authLen)), src - auth, len);
              |ses.mac(covered)| <= |stack| && tag == HashOutput(ses, stack, covered)[..tagLen]
    ensures ret == Some(Ok) <==>
              && 0 < len && src <= auth + MAX_AUTH_DIFF
              && (!ses.hasMac || (tagLen <= len && tagLen <= MAX_RESULT && SameTail(ses, stack, stack', tagLen)))
    ensures ret == None || ret == Some(Ok) ==> e.mem == old(e.mem)
    ensures ret.Some? && ret != Some(Ok) ==>
              StillEncrypted(ses, iv, old(e.mem), e.mem, UserSpan(frame, z.p, auth, authLen), src - auth, len)
  {
    hide Flatten, UserSpan, Streams, Gather, HashOutput, SameTail, Covered, StillEncrypted;
    tag := [];
    var dst := MapRecord(z, frame, auth, authLen, src, len, true, true, true);
    if dst == None {
      return tag, None;
    }
    UserSpanDistinct(frame, z.p, auth, authLen);
    var header := Flatten(z.p, z.sg[..z.usedPages]);
    var payload := Flatten(z.p, z.sg[dst.value.0..dst.value.1]);
    var code;
    tag, code := e.RoundTrip(ses, iv, stack, stack', header, payload, src - auth, len, tagLen);
    ret := Some(code);
    z.Release();
  }

  /** The payload list is a stretch of the authenticated one. */
  lemma Payload(mem: Ram, auth: seq<nat>, diff: nat, len: nat)
    requires Present(mem, auth) && Distinct(auth) && diff + len <= |auth|
    ensures var at := auth[diff..diff + len];
            && Present(mem, auth[diff..]) && Distinct(auth[diff..]) && auth[diff..][..len] == at
            && Present(mem, at) && Distinct(at) && Gather(mem, at) == Gather(mem, auth)[diff..diff + len]
    ensures var g := Gather(mem, auth); g == g[..diff] + g[diff..diff + len] + g[diff + len..]
  {
  }

  lemma PresentPart(mem: Ram, auth: seq<nat>, diff: nat)
    requires Present(mem, auth) && diff <= |auth|
    ensures Present(mem, auth[diff..])
  {
  }
}
