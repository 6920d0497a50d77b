/** Bytes, big-endian integers and flag words: the vocabulary of the migration stream. */
module Wire {
  type Byte = b: int | 0 <= b < 256

  datatype Option<+T> = None | Some(value: T)

  /** `w` stands in `s` at position `i`. */
  ghost predicate At<T(!new)>(s: seq<T>, i: nat, w: seq<T>) {
    i + |w| <= |s| && forall k :: 0 <= k < |w| ==> s[i + k] == w[k]
  }

  lemma AtParts<T(!new)>(s: seq<T>, i: nat, a: seq<T>, b: seq<T>)
    requires At(s, i, a + b)
    ensures At(s, i, a) && At(s, i + |a|, b)
  {
    assert forall k :: 0 <= k < |a| ==> (a + b)[k] == a[k];
    forall k | 0 <= k < |b|
      ensures s[i + |a| + k] == b[k]
    {
      assert (a + b)[|a| + k] == b[k];
    }
  }

  lemma AtSlice<T(!new)>(s: seq<T>, i: nat, w: seq<T>)
    requires At(s, i, w)
    ensures s[i..i + |w|] == w
  {
  }

  /** The values an `n`-byte big-endian field can hold. */
  function Pow256(n: nat): (p: nat)
    ensures p > 0
  {
    if n == 0 then 1 else 256 * Pow256(n - 1)
  }

  /** The `n` bytes of `v`, most significant first. */
  function PutBe(v: nat, n: nat): (s: seq<Byte>)
    ensures |s| == n
    decreases n
  {
    if n == 0 then [] else PutBe(v / 256, n - 1) + [v % 256]
  }

  function GetBe(s: seq<Byte>): (v: nat)
    ensures v < Pow256(|s|)
  {
    if s == [] then 0 else GetBe(s[..|s| - 1]) * 256 + s[|s| - 1]
  }

  lemma {:induction false} BeRoundTrip(v: nat, n: nat)
    requires v < Pow256(n)
    ensures GetBe(PutBe(v, n)) == v
    decreases n
  {
    if n == 0 {
    } else {
      BeRoundTrip(v / 256, n - 1);
      assert PutBe(v, n)[..n - 1] == PutBe(v / 256, n - 1);
    }
  }

  /** Bitwise `or` of two unsigned words. */
  function BitOr(a: nat, b: nat): (r: nat)
    decreases a + b
  {
    if a == 0 then b
    else if b == 0 then a
    else 2 * BitOr(a / 2, b / 2) + (if a % 2 == 1 || b % 2 == 1 then 1 else 0)
  }

  function Pow2(n: nat): (p: nat)
    ensures p > 0
  {
    if n == 0 then 1 else 2 * Pow2(n - 1)
  }

  /** `w & mask` for a mask with one bit set. */
  predicate HasFlag(w: nat, mask: nat)
    requires mask > 0
  {
    w / mask % 2 == 1
  }

  /** A word whose low `n` bits are clear, or-ed with a word below `2^n`, keeps both parts apart. */
  lemma {:induction false} OrKeepsFieldsApart(k: nat, b: nat, n: nat)
    requires b < Pow2(n)
    ensures BitOr(k * Pow2(n), b) == k * Pow2(n) + b
    decreases n
  {
    if n == 0 || k == 0 || b == 0 {
    } else {
      var half := k * Pow2(n - 1);
      assert k * Pow2(n) == 2 * half;
      OrKeepsFieldsApart(k, b / 2, n - 1);
    }
  }

  lemma {:induction false} OrAssociative(a: nat, b: nat, c: nat)
    ensures BitOr(BitOr(a, b), c) == BitOr(a, BitOr(b, c))
    decreases a + b + c
  {
    if a == 0 || b == 0 || c == 0 {
    } else {
      OrAssociative(a / 2, b / 2, c / 2);
    }
  }
}
