/** Writing a run of bytes into memory. */
module Memory {
  import opened Wire

  type Bytes = seq<Byte>

  /** `m` with `s` written at `at`. */
  function Splice(m: Bytes, at: nat, s: Bytes): (r: Bytes)
    requires at + |s| <= |m|
    ensures |r| == |m|
  {
    m[..at] + s + m[at + |s|..]
  }

  lemma SpliceBytes(m: Bytes, at: nat, s: Bytes)
    requires at + |s| <= |m|
    ensures forall k :: 0 <= k < |m| ==> Splice(m, at, s)[k] == if at <= k < at + |s| then s[k - at] else m[k]
  {
  }

  lemma SpliceAt(m: Bytes, at: nat, s: Bytes)
    requires at + |s| <= |m|
    ensures Splice(m, at, s)[at..at + |s|] == s
  {
  }

  lemma SpliceElsewhere(m: Bytes, at: nat, s: Bytes, i: nat, j: nat)
    requires at + |s| <= |m| && i <= j <= |m| && (at + |s| <= i || j <= at)
    ensures Splice(m, at, s)[i..j] == m[i..j]
  {
  }

  lemma SpliceTwice(m: Bytes, at: nat, s: Bytes, t: Bytes)
    requires at + |s| + |t| <= |m|
    ensures Splice(Splice(m, at, s), at + |s|, t) == Splice(m, at, s + t)
  {
  }

  /** memcpy into a buffer, `copy_to_user`, or `scatterwalk_map_and_copy` outwards. */
  method Store(a: array<Byte>, at: nat, s: Bytes)
    requires at + |s| <= a.Length
    modifies a
    ensures a[..] == Splice(old(a[..]), at, s)
  {
    forall k | 0 <= k < |s| {
      a[at + k] := s[k];
    }
  }
}
