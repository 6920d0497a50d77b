/**
 * TLS record protection of cryptodev: authenticate, pad and encrypt in place, and the reverse.
 *
 * The user buffer that the scatterlist maps is an array; ciphers and hashes are functions with laws.
 * A hash context is the bytes fed to it so far, so `update` appends and `final` applies the MAC.
 */
module Tls {
  import opened Arith
  import opened Memory
  import opened Wire

  const MAX_RESULT := 64  // AALG_MAX_RESULT_LEN

  datatype Code = Ok | Invalid | BadMessage | CipherError

  /** A session: which contexts are initialised, the MAC under its key, the cipher under its key and a given IV. */
  datatype Session = Session(
    hasMac: bool, mac: Bytes -> Bytes, digest: nat,
    hasCipher: bool, blocksize: nat, enc: (Bytes, Bytes) -> Bytes, dec: (Bytes, Bytes) -> Bytes)

  /** The cipher is a length-preserving bijection on whole blocks and fails on anything else. */
  ghost predicate Lawful(ses: Session) {
    && 1 <= ses.blocksize <= 256 && ses.digest <= MAX_RESULT
    && (forall m :: |ses.mac(m)| == ses.digest)
    && (forall iv, s :: Whole(ses, s) ==> |ses.enc(iv, s)| == |s| && ses.dec(iv, ses.enc(iv, s)) == s)
    && (forall iv, s :: Whole(ses, s) ==> |ses.dec(iv, s)| == |s| && ses.enc(iv, ses.dec(iv, s)) == s)
  }

  ghost predicate Whole(ses: Session, s: Bytes)
    requires ses.blocksize > 0
  {
    |s| % ses.blocksize == 0
  }

  // ----- padding, section 6.2.3.2 of RFC 5246 -----

  /** `p + 1` bytes, each of value `p`. */
  ghost function Padding(p: Byte): (r: Bytes)
    ensures |r| == p + 1 && forall i :: 0 <= i <= p ==> r[i] == p
  {
    seq(p + 1, _ => p)
  }

  /** The length of the padding at the end of `s`, or -1. */
  ghost function PadLength(s: Bytes): int
    requires |s| > 0
  {
    var p := s[|s| - 1];
    if p + 1 <= |s| && forall i :: |s| - p - 1 <= i < |s| - 1 ==> s[i] == p then p + 1 else -1
  }

  lemma PadLengthIff(s: Bytes, n: int)
    requires |s| > 0
    ensures PadLength(s) == n && n != -1 <==>
            exists p: Byte :: n == p + 1 && n <= |s| && s[|s| - n..] == Padding(p)
  {
    var p := s[|s| - 1];
    if PadLength(s) == n && n != -1 {
      assert s[|s| - n..] == Padding(p);
    }
    forall q: Byte | n == q + 1 && n <= |s| && s[|s| - n..] == Padding(q) ensures PadLength(s) == n {
      forall i | |s| - n <= i < |s| ensures s[i] == q { assert s[i] == s[|s| - n..][i - (|s| - n)]; }
    }
  }

  // ----- the record -----

  /** The 64 bytes of `hash_output`, before it is filled, and what memory holds behind them as far as a tag reaches. */
  ghost predicate StackOk(stack: Bytes, tagLen: nat) {
    |stack| >= MAX_RESULT && |stack| >= tagLen
  }

  /** What memory holds from `hash_output` on after `final`: the MAC, then whatever the stack held. */
  function HashOutput(ses: Session, stack: Bytes, m: Bytes): (r: Bytes)
    requires |ses.mac(m)| <= |stack|
    ensures |r| == |stack|
  {
    ses.mac(m) + stack[|ses.mac(m)|..]
  }

  function PadSize(blocksize: nat, len: nat): (n: nat)
    requires blocksize > 0
    ensures 1 <= n <= blocksize && (len + n) % blocksize == 0
  {
    PadSizeAligns(blocksize, len);
    blocksize - len % blocksize
  }

  lemma PadSizeAligns(b: nat, len: nat)
    requires b > 0
    ensures (len + (b - len % b)) % b == 0
  {
    assert len + (b - len % b) == (len / b + 1) * b;
    MultipleOf(len / b + 1, b);
  }

  predicate Pads(ses: Session) {
    ses.hasCipher && ses.blocksize > 1
  }

  /** The tag a record with content `data` carries. */
  ghost function Tag(ses: Session, stack: Bytes, auth: Bytes, data: Bytes, tagLen: nat): Bytes
    requires StackOk(stack, tagLen) && |ses.mac(auth + data)| <= MAX_RESULT
  {
    if ses.hasMac then HashOutput(ses, stack, auth + data)[..tagLen] else []
  }

  /** The plaintext of a record: content, tag, and `pad` bytes of padding. */
  ghost function Record(ses: Session, stack: Bytes, auth: Bytes, data: Bytes, tagLen: nat, pad: nat): Bytes
    requires StackOk(stack, tagLen) && |ses.mac(auth + data)| <= MAX_RESULT && pad <= 256
  {
    data + Tag(ses, stack, auth, data, tagLen) + (if pad == 0 then [] else Padding(pad - 1))
  }

  /**
   * The record byte by byte: the content; the MAC of what is only authenticated followed by the content, cut to the tag
   * length; and padding, every byte of which is one less than its length, up to a whole number of blocks.
   */
  lemma RecordBytes(ses: Session, stack: Bytes, auth: Bytes, data: Bytes, tagLen: nat)
    requires Lawful(ses) && StackOk(stack, tagLen)
    ensures var pad, tag := PadOf(ses, |data|, tagLen), if ses.hasMac then tagLen else 0;
            && pad <= 256
            && var r := Record(ses, stack, auth, data, tagLen, pad);
               && |r| == |data| + tag + pad && r[..|data|] == data
               && (ses.hasMac ==>
                     forall i :: 0 <= i < tagLen && i < ses.digest ==> r[|data| + i] == ses.mac(auth + data)[i])
               && (forall i :: |data| + tag <= i < |r| ==> r[i] == pad - 1)
               && if ses.hasCipher && ses.blocksize > 1 then 1 <= pad <= ses.blocksize && |r| % ses.blocksize == 0
                  else pad == 0
  {
    hide Lawful;
    LawfulSizes(ses, auth + data);
  }

  lemma LawfulSizes(ses: Session, m: Bytes)
    requires Lawful(ses)
    ensures 1 <= ses.blocksize <= 256 && |ses.mac(m)| == ses.digest <= MAX_RESULT
  {
  }

  /** What decryption makes of a plaintext: a code and, on success, the content length. */
  ghost function Open(ses: Session, stack: Bytes, auth: Bytes, plain: Bytes, tagLen: nat): (Code, nat)
    requires Lawful(ses) && |stack| >= MAX_RESULT && (Pads(ses) ==> |plain| > 0)
  {
    var n := if Pads(ses) then PadLength(plain) else 0;
    var len := if n < 0 then |plain| else |plain| - n;
    if !ses.hasMac then (Ok, len)
    else if tagLen > MAX_RESULT || tagLen > len then (Invalid, 0)
    else
      var data := plain[..len - tagLen];
      if n >= 0 && plain[len - tagLen..len] == HashOutput(ses, stack, auth + data)[..tagLen] then (Ok, len - tagLen)
      else (BadMessage, 0)
  }

  /** `plain` is its first `n` bytes, their tag and `pad` bytes of padding, none for a stream cipher. */
  ghost predicate Sealed(ses: Session, stack: Bytes, auth: Bytes, plain: Bytes, tagLen: nat, n: nat, pad: nat)
    requires Lawful(ses) && StackOk(stack, tagLen)
  {
    n <= |plain| && pad <= 256 && (Pads(ses) <==> pad > 0) && plain == Record(ses, stack, auth, plain[..n], tagLen, pad)
  }

  /**
   * With a MAC, a plaintext opens with content length `n` exactly when it is content, the tag of
   * that content and well-formed padding.
   */
  lemma OpenIff(ses: Session, stack: Bytes, auth: Bytes, plain: Bytes, tagLen: nat, n: nat)
    requires Lawful(ses) && ses.hasMac && |stack| >= MAX_RESULT && (Pads(ses) ==> |plain| > 0) && tagLen <= MAX_RESULT
    ensures Open(ses, stack, auth, plain, tagLen) == (Ok, n) <==>
            exists pad :: Sealed(ses, stack, auth, plain, tagLen, n, pad)
  {
    if Open(ses, stack, auth, plain, tagLen) == (Ok, n) {
      OpenOnly(ses, stack, auth, plain, tagLen, n);
    }
    forall pad | Sealed(ses, stack, auth, plain, tagLen, n, pad)
      ensures Open(ses, stack, auth, plain, tagLen) == (Ok, n)
    {
      RecordOpensIff(ses, stack, stack, auth, plain[..n], tagLen, pad);
    }
  }

  /** The other answers: a tag that cannot fit, anything else wrong, and, without a MAC, no check at all. */
  lemma OpenOtherwise(ses: Session, stack: Bytes, auth: Bytes, plain: Bytes, tagLen: nat)
    requires Lawful(ses) && |stack| >= MAX_RESULT && (Pads(ses) ==> |plain| > 0)
    ensures var r := Open(ses, stack, auth, plain, tagLen);
            var pad := if Pads(ses) && PadLength(plain) > 0 then PadLength(plain) else 0;
            && pad <= |plain|
            && (!ses.hasMac ==> r == (Ok, |plain| - pad))
            && (ses.hasMac ==>
                  && (r == (Invalid, 0) <==> tagLen > 64 || tagLen > |plain| - pad)
                  && (r.0 == Ok || r == (Invalid, 0) || r == (BadMessage, 0)))
  {
  }

  lemma OpenOnly(ses: Session, stack: Bytes, auth: Bytes, plain: Bytes, tagLen: nat, n: nat)
    requires Lawful(ses) && ses.hasMac && |stack| >= MAX_RESULT && (Pads(ses) ==> |plain| > 0) && tagLen <= MAX_RESULT
    requires Open(ses, stack, auth, plain, tagLen) == (Ok, n)
    ensures exists pad :: Sealed(ses, stack, auth, plain, tagLen, n, pad)
  {
    var k: nat := if Pads(ses) then PadLength(plain) else 0;
    if Pads(ses) { PadLengthIff(plain, k); }
    var len := |plain| - k;
    assert plain[n..len] == Tag(ses, stack, auth, plain[..n], tagLen);
    assert plain == plain[..n] + plain[n..len] + plain[len..];
    assert k == 0 ==> plain[len..] == [];
    assert Sealed(ses, stack, auth, plain, tagLen, n, k);
  }

  /** Past the digest, a tag is made of stack bytes: two stacks give the same tag exactly when they agree there. */
  predicate SameTail(ses: Session, stack: Bytes, stack': Bytes, tagLen: nat)
    requires |stack| >= tagLen && |stack'| >= tagLen
  {
    tagLen <= ses.digest || stack[ses.digest..tagLen] == stack'[ses.digest..tagLen]
  }

  lemma TagsAgreeIff(ses: Session, stack: Bytes, stack': Bytes, m: Bytes, tagLen: nat)
    requires |ses.mac(m)| == ses.digest <= MAX_RESULT && StackOk(stack, tagLen) && StackOk(stack', tagLen)
    ensures HashOutput(ses, stack, m)[..tagLen] == HashOutput(ses, stack', m)[..tagLen] <==>
              SameTail(ses, stack, stack', tagLen)
    ensures tagLen <= ses.digest ==> HashOutput(ses, stack, m)[..tagLen] == ses.mac(m)[..tagLen]
  {
    var d, x, y := ses.digest, HashOutput(ses, stack, m), HashOutput(ses, stack', m);
    if tagLen <= d {
      assert x[..tagLen] == ses.mac(m)[..tagLen] && y[..tagLen] == ses.mac(m)[..tagLen];
    } else {
      assert x[..tagLen] == ses.mac(m) + stack[d..tagLen] && y[..tagLen] == ses.mac(m) + stack'[d..tagLen];
      assert stack[d..tagLen] == x[..tagLen][d..] && stack'[d..tagLen] == y[..tagLen][d..];
    }
  }

  /** What opening makes of a record protected over another stack. */
  lemma RecordOpensIff(ses: Session, stack: Bytes, stack': Bytes, auth: Bytes, data: Bytes, tagLen: nat, pad: nat)
    requires Lawful(ses) && StackOk(stack, tagLen) && StackOk(stack', tagLen) && pad <= 256 && (Pads(ses) <==> pad > 0)
    ensures Open(ses, stack', auth, Record(ses, stack, auth, data, tagLen, pad), tagLen) ==
            if !ses.hasMac || (tagLen <= MAX_RESULT && SameTail(ses, stack, stack', tagLen)) then (Ok, |data|)
            else if tagLen > MAX_RESULT then (Invalid, 0)
            else (BadMessage, 0)
  {
    var tag := Tag(ses, stack, auth, data, tagLen);
    var plain := Record(ses, stack, auth, data, tagLen, pad);
    var len := |data| + |tag|;
    assert plain[..|data|] == data;
    assert plain[|data|..len] == tag;
    if pad > 0 {
      assert plain[|plain| - pad..] == Padding(pad - 1);
      PadLengthIff(plain, pad);
    }
    TagsAgreeIff(ses, stack, stack', auth + data, tagLen);
  }

  /** A session whose digest is shorter than the tag asked for, and two stacks over which its records do not open. */
  lemma TagBeyondDigestFails() returns (ses: Session, stack: Bytes, stack': Bytes)
    ensures Lawful(ses) && ses.hasMac && ses.digest == 20 && StackOk(stack, 32) && StackOk(stack', 32)
    ensures forall auth, data :: Open(ses, stack', auth, Record(ses, stack, auth, data, 32, 0), 32) == (BadMessage, 0)
  {
    ses := Session(true, m => seq(20, _ => 7), 20, false, 1, (iv, s) => s, (iv, s) => s);
    stack, stack' := seq(64, _ => 0), seq(64, _ => 1);
    assert stack[20..32][0] == 0 && stack'[20..32][0] == 1;
    forall auth, data ensures Open(ses, stack', auth, Record(ses, stack, auth, data, 32, 0), 32) == (BadMessage, 0) {
      RecordOpensIff(ses, stack, stack', auth, data, 32, 0);
    }
  }

  // ----- the code -----

  method PadRecord(buf: array<Byte>, len: nat, blocksize: nat) returns (n: nat)
    requires 1 <= blocksize <= 256 && len + PadSize(blocksize, len) <= buf.Length
    modifies buf
    ensures n == PadSize(blocksize, len)
    ensures buf[..] == old(buf[..len]) + Padding(n - 1) + old(buf[len + n..])
  {
    n := blocksize - len % blocksize;
    var pad := seq(n, _ => n - 1);
    Store(buf, len, pad);
  }

  /** The padding length, or -1 for -EBADMSG. The read of the last byte needs a nonempty record. */
  method VerifyPad(buf: array<Byte>, len: nat) returns (ret: int)
    requires 0 < len <= buf.Length
    ensures ret == PadLength(buf[..len])
  {
    var size := buf[len - 1];
    if size + 1 > len {
      return -1;
    }
    var pad := buf[len - size - 1..len];
    var i := 0;
    while i < size
      invariant i <= size
      invariant forall j :: 0 <= j < i ==> pad[j] == size
    {
      if pad[i] != size {
        assert buf[..len][len - size - 1 + i] != size;
        return -1;
      }
      i := i + 1;
    }
    forall j | len - size - 1 <= j < len - 1 ensures buf[..len][j] == size {
      assert pad[j - (len - size - 1)] == size;
    }
    return size + 1;
  }

  /** In-place cipher call on the first `len` bytes. */
  method Crypt(ses: Session, iv: Bytes, decrypt: bool, buf: array<Byte>, len: nat) returns (ret: Code)
    requires Lawful(ses) && len <= buf.Length
    modifies buf
    ensures ret == if len % ses.blocksize == 0 then Ok else CipherError
    ensures ret == Ok ==>
              buf[..] == (if decrypt then ses.dec(iv, old(buf[..len])) else ses.enc(iv, old(buf[..len])))
                         + old(buf[len..])
    ensures ret != Ok ==> buf[..] == old(buf[..])
  {
    if len % ses.blocksize != 0 {
      return CipherError;
    }
    var src := buf[..len];
    var res := if decrypt then ses.dec(iv, src) else ses.enc(iv, src);
    assert Whole(ses, src);
    Store(buf, 0, res);
    return Ok;
  }

  /** The space `fill_kcaop_from_caop` reserves at the destination. */
  function Reserved(ses: Session, len: nat, tagLen: nat): nat {
    len + ses.blocksize + tagLen
  }

  ghost function PadOf(ses: Session, len: nat, tagLen: nat): nat
    requires ses.blocksize > 0
  {
    if Pads(ses) then PadSize(ses.blocksize, len + if ses.hasMac then tagLen else 0) else 0
  }

  /** The content in the first `len` bytes becomes the record: the tag is appended, then the padding. */
  method Protect(ses: Session, stack: Bytes, auth: Bytes, buf: array<Byte>, len: nat, tagLen: nat) returns (newLen: nat)
    requires Lawful(ses) && StackOk(stack, tagLen) && Reserved(ses, len, tagLen) <= buf.Length
    modifies buf
    ensures len <= newLen <= Reserved(ses, len, tagLen) && (Pads(ses) ==> newLen % ses.blocksize == 0)
    ensures var plain := Record(ses, stack, auth, old(buf[..len]), tagLen, PadOf(ses, len, tagLen));
            newLen == |plain| && buf[..] == plain + old(buf[newLen..])
  {
    newLen := len;
    ghost var data := buf[..len];
    ghost var was := buf[..];
    if ses.hasMac {
      var acc := auth + buf[..newLen];
      var hashOutput := HashOutput(ses, stack, acc);
      Store(buf, newLen, hashOutput[..tagLen]);
      newLen := newLen + tagLen;
    }
    assert buf[..] == data + Tag(ses, stack, auth, data, tagLen) + was[newLen..];
    if ses.hasCipher && ses.blocksize > 1 {
      var n := PadRecord(buf, newLen, ses.blocksize);
      newLen := newLen + n;
    }
  }

  /** COP_ENCRYPT. A tag longer than the digest takes in what the stack holds behind it. */
  method Encrypt(ses: Session, iv: Bytes, stack: Bytes, auth: Bytes, buf: array<Byte>, len: nat, tagLen: nat)
    returns (ret: Code, newLen: nat)
    requires Lawful(ses) && StackOk(stack, tagLen) && Reserved(ses, len, tagLen) <= buf.Length
    modifies buf
    ensures ret == Ok && len <= newLen <= Reserved(ses, len, tagLen)
    ensures ses.hasCipher ==> newLen % ses.blocksize == 0
    ensures var plain := Record(ses, stack, auth, old(buf[..len]), tagLen, PadOf(ses, len, tagLen));
            newLen == |plain| && buf[..] == (if ses.hasCipher then ses.enc(iv, plain) else plain) + old(buf[newLen..])
  {
    hide Record;
    ret := Ok;
    newLen := Protect(ses, stack, auth, buf, len, tagLen);
    ghost var plain := Record(ses, stack, auth, old(buf[..len]), tagLen, PadOf(ses, len, tagLen));
    assert buf[..newLen] == plain && buf[newLen..] == old(buf[newLen..]);
    if ses.hasCipher {
      ret := Crypt(ses, iv, false, buf, newLen);
    }
  }

  /** The checks on a decrypted record: first the padding, then the tag, a bad padding failing only at the end. */
  method CheckRecord(ses: Session, stack: Bytes, auth: Bytes, buf: array<Byte>, len: nat, tagLen: nat)
    returns (ret: Code, newLen: nat)
    requires Lawful(ses) && |stack| >= MAX_RESULT && len <= buf.Length && (Pads(ses) ==> len > 0)
    ensures (ret, newLen) == Open(ses, stack, auth, buf[..len], tagLen)
  {
    var fail := false;
    newLen := len;
    ghost var plain := buf[..len];
    if ses.hasCipher && ses.blocksize > 1 {
      var n := VerifyPad(buf, len);
      if n < 0 {
        fail := true;
      } else {
        newLen := newLen - n;
      }
    }
    if ses.hasMac {
      if tagLen > MAX_RESULT || tagLen > newLen {
        return Invalid, 0;
      }
      var vhash := buf[newLen - tagLen..newLen];
      newLen := newLen - tagLen;
      var acc := auth + buf[..newLen];
      var hashOutput := HashOutput(ses, stack, acc);
      assert buf[..newLen] == plain[..newLen];
      assert forall i :: 0 <= i < tagLen ==> vhash[i] == plain[newLen + i];
      assert vhash == plain[newLen..newLen + tagLen];
      if vhash != hashOutput[..tagLen] || fail {
        return BadMessage, 0;
      }
    }
    ret := Ok;
  }

  /** COP_DECRYPT: decrypts in place, then checks. A record to be unpadded is not empty. */
  method Decrypt(ses: Session, iv: Bytes, stack: Bytes, auth: Bytes, buf: array<Byte>, len: nat, tagLen: nat)
    returns (ret: Code, newLen: nat)
    requires Lawful(ses) && |stack| >= MAX_RESULT && len <= buf.Length && (Pads(ses) ==> len > 0)
    modifies buf
    ensures ret == CipherError <==> ses.hasCipher && len % ses.blocksize != 0
    ensures ret == CipherError ==> buf[..] == old(buf[..])
    ensures ret != CipherError ==>
              var plain := if ses.hasCipher then ses.dec(iv, old(buf[..len])) else old(buf[..len]);
              && |plain| == len && buf[..] == plain + old(buf[len..])
              && (ret, newLen) == Open(ses, stack, auth, plain, tagLen)
  {
    hide Open;
    ghost var was := buf[..len];
    if ses.hasCipher {
      ret := Crypt(ses, iv, true, buf, len);
      if ret != Ok {
        return ret, 0;
      }
      assert Whole(ses, was);
    }
    ghost var plain := if ses.hasCipher then ses.dec(iv, was) else was;
    assert buf[..len] == plain;
    ret, newLen := CheckRecord(ses, stack, auth, buf, len, tagLen);
    NeverCipherError(ses, stack, auth, plain, tagLen);
  }

  lemma NeverCipherError(ses: Session, stack: Bytes, auth: Bytes, plain: Bytes, tagLen: nat)
    requires Lawful(ses) && |stack| >= MAX_RESULT && (Pads(ses) ==> |plain| > 0)
    ensures Open(ses, stack, auth, plain, tagLen).0 != CipherError
  {
  }

  /**
   * Decrypting what was encrypted always gives back the protected record, and succeeds with the length exactly when the
   * tag fits the digest buffer and its bytes past the digest, if any, are the same on both stacks; `sent` is what was
   * there between.
   */
  method RoundTrip(ses: Session, iv: Bytes, stack: Bytes, stack': Bytes, auth: Bytes,
                   buf: array<Byte>, len: nat, tagLen: nat)
    returns (ret: Code, newLen: nat, sent: Bytes)
    requires Lawful(ses) && StackOk(stack, tagLen) && StackOk(stack', tagLen)
    requires Reserved(ses, len, tagLen) <= buf.Length
    modifies buf
    ensures var plain := Record(ses, stack, auth, old(buf[..len]), tagLen, PadOf(ses, len, tagLen));
            && sent == (if ses.hasCipher then ses.enc(iv, plain) else plain) && len <= |plain| <= buf.Length
            && buf[..] == plain + old(buf[|plain|..]) && buf[..len] == old(buf[..len])
    ensures ret == Ok <==> !ses.hasMac || (tagLen <= MAX_RESULT && SameTail(ses, stack, stack', tagLen))
    ensures ret == Ok ==> newLen == len
    ensures ret != Ok ==> ret == if tagLen > MAX_RESULT then Invalid else BadMessage
  {
    hide Open, Record, Tag, HashOutput, SameTail;
    ghost var data := buf[..len];
    var n;
    ret, n := Encrypt(ses, iv, stack, auth, buf, len, tagLen);
    ghost var pad := PadOf(ses, len, tagLen);
    ghost var plain := Record(ses, stack, auth, data, tagLen, pad);
    assert Whole(ses, plain) || !ses.hasCipher;
    sent := buf[..n];
    assert sent == if ses.hasCipher then ses.enc(iv, plain) else plain;
    RecordStarts(ses, stack, auth, data, tagLen, pad);
    RecordOpensIff(ses, stack, stack', auth, data, tagLen, pad);
    ret, newLen := Decrypt(ses, iv, stack', auth, buf, n, tagLen);
  }

  lemma RecordStarts(ses: Session, stack: Bytes, auth: Bytes, data: Bytes, tagLen: nat, pad: nat)
    requires Lawful(ses) && StackOk(stack, tagLen) && pad <= 256
    ensures var r := Record(ses, stack, auth, data, tagLen, pad); |r| >= |data| + pad && r[..|data|] == data
  {
  }
}
