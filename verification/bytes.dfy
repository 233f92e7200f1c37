/** Bytes and the big-endian integer conversions of Python's
    `int.from_bytes(_, byteorder='big')` and `int.to_bytes(_, byteorder='big')`,
    plus the clamping behaviour of Python slices. */
module Bytes {
  import opened Results

  /** One octet, as an element of a Python `bytes` object. */
  type Byte = b: int | 0 <= b < 256

  /** 256 to the power k: the number of values k bytes can hold. */
  function Pow256(k: nat): (r: nat)
    ensures r >= 1
  {
    if k == 0 then 1 else 256 * Pow256(k - 1)
  }

  /** The widths the codec uses, spelled out. */
  lemma Pow256Values()
    ensures Pow256(1) == 256
    ensures Pow256(2) == 65536
    ensures Pow256(8) == 0x1_0000_0000_0000_0000
  {
  }

  /** `int.from_bytes(s, byteorder='big')`: the most significant byte first.
      The empty sequence is 0, as in Python. */
  function BE(s: seq<Byte>): (r: nat)
    ensures r < Pow256(|s|)
  {
    BEUpTo(s, |s|)
  }

  /** The big-endian value of the first n bytes of s. Recursing on the count
      rather than on a shorter sequence keeps the solver from building ever
      shorter prefixes of a sequence it already knows. */
  function BEUpTo(s: seq<Byte>, n: nat): (r: nat)
    requires n <= |s|
    ensures r < Pow256(n)
  {
    if n == 0 then 0
    else
      var high := BEUpTo(s, n - 1);
      assert high + 1 <= Pow256(n - 1);
      assert high * 256 + s[n - 1] < (high + 1) * 256;
      high * 256 + s[n - 1]
  }

  /** The value of a prefix depends only on the bytes in it. */
  lemma {:induction false} BEUpToAgree(s: seq<Byte>, t: seq<Byte>, n: nat)
    requires n <= |s| && n <= |t| && s[..n] == t[..n]
    ensures BEUpTo(s, n) == BEUpTo(t, n)
  {
    if n > 0 {
      assert s[n - 1] == s[..n][n - 1] == t[..n][n - 1] == t[n - 1];
      assert s[..n - 1] == s[..n][..n - 1];
      assert t[..n - 1] == t[..n][..n - 1];
      BEUpToAgree(s, t, n - 1);
    }
  }

  /** A non-empty sequence is its leading bytes shifted left by one byte,
      plus its last byte. */
  lemma BESnoc(s: seq<Byte>)
    requires |s| > 0
    ensures BE(s) == BE(s[..|s| - 1]) * 256 + s[|s| - 1]
  {
    var init := s[..|s| - 1];
    assert init[..|init|] == s[..|s| - 1];
    BEUpToAgree(init, s, |s| - 1);
  }

  /** Two bytes are the high byte times 256 plus the low byte. */
  lemma BETwo(s: seq<Byte>)
    requires |s| == 2
    ensures BE(s) == s[0] as int * 256 + s[1]
  {
    assert BEUpTo(s, 1) == s[0];
  }

  /** Dividing by 256 drops one byte of width. */
  lemma DivPow256(n: nat, k: nat)
    requires k > 0 && n < Pow256(k)
    ensures n / 256 < Pow256(k - 1)
  {
  }

  /** `n.to_bytes(k, byteorder='big')` for an n that fits: exactly k bytes
      whose big-endian value is n. */
  function ToBE(n: nat, k: nat): (r: seq<Byte>)
    requires n < Pow256(k)
    ensures |r| == k
    ensures BE(r) == n
  {
    if k == 0 then []
    else
      DivPow256(n, k);
      var r := ToBE(n / 256, k - 1) + [n % 256];
      assert r[..|r| - 1] == ToBE(n / 256, k - 1);
      BESnoc(r);
      r
  }

  /** Re-encoding the value of k bytes in k bytes gives the same bytes back. */
  lemma {:induction false} ToBEOfBE(s: seq<Byte>)
    ensures ToBE(BE(s), |s|) == s
  {
    if |s| > 0 {
      var init := s[..|s| - 1];
      BESnoc(s);
      ToBEOfBE(init);
      assert BE(s) / 256 == BE(init);
      assert BE(s) % 256 == s[|s| - 1];
      assert s == init + [s[|s| - 1]];
    }
  }

  /** The big-endian encoding is injective on sequences of one width. */
  lemma BEInjective(a: seq<Byte>, b: seq<Byte>)
    requires |a| == |b| && BE(a) == BE(b)
    ensures a == b
  {
    ToBEOfBE(a);
    ToBEOfBE(b);
  }

  /** Appending bytes shifts the value left by their width. */
  lemma {:induction false} BEAppend(a: seq<Byte>, b: seq<Byte>)
    ensures BE(a + b) == BE(a) * Pow256(|b|) + BE(b)
  {
    if |b| > 0 {
      var b' := b[..|b| - 1];
      assert (a + b)[..|a + b| - 1] == a + b';
      BEAppend(a, b');
      assert b[..|b| - 1] == b';
      var last := b[|b| - 1];
      BESnoc(a + b);
      BESnoc(b);
      assert BE(a + b) == BE(a + b') * 256 + last;
      assert BE(b) == BE(b') * 256 + last;
      assert Pow256(|b|) == Pow256(|b'|) * 256;
      ShiftByte(BE(a), Pow256(|b'|), BE(b'), last);
    } else {
      assert a + b == a;
    }
  }

  /** Shifting a two-part value left by one byte. */
  lemma ShiftByte(x: nat, p: nat, y: nat, c: nat)
    ensures (x * p + y) * 256 + c == x * (p * 256) + (y * 256 + c)
  {
  }

  /** The leading j bytes of a sequence hold its value divided by
      256^(remaining width): the high-order part. */
  lemma BEPrefix(s: seq<Byte>, j: nat)
    requires j <= |s|
    ensures BE(s[..j]) == BE(s) / Pow256(|s| - j)
  {
    assert s == s[..j] + s[j..];
    BEAppend(s[..j], s[j..]);
    DivExact(BE(s[..j]), Pow256(|s| - j), BE(s[j..]));
  }

  /** (q * d + r) / d == q for 0 <= r < d. */
  lemma DivExact(q: nat, d: nat, r: nat)
    requires r < d
    ensures (q * d + r) / d == q
  {
    var x := q * d + r;
    var z := x / d;
    var m := x % d;
    assert (z - q) * d == r - m;
    if z > q {
      MulAtLeast(z - q, d);
    } else if z < q {
      MulAtLeast(q - z, d);
    }
  }

  /** A positive multiple of d is at least d. */
  lemma MulAtLeast(k: int, d: nat)
    requires k >= 1
    ensures k * d >= d
  {
  }

  /** `n.to_bytes(k, byteorder='big')` on a Python int: OverflowError (None)
      for a negative n or one that does not fit in k bytes. */
  function ToBytes(n: int, k: nat): (r: Option<seq<Byte>>)
    ensures r.Some? <==> 0 <= n < Pow256(k)
    ensures r.Some? ==> |r.value| == k && BE(r.value) == n
  {
    if 0 <= n < Pow256(k) then Some(ToBE(n, k)) else None
  }

  function Min(a: nat, b: nat): nat
  {
    if a <= b then a else b
  }

  /** Python's `s[lo:hi]` for non-negative bounds: both bounds are clamped to
      the length and an inverted range is empty, so it never fails. */
  function PySlice<T>(s: seq<T>, lo: nat, hi: nat): (r: seq<T>)
    ensures |r| == if Min(hi, |s|) <= lo then 0 else Min(hi, |s|) - lo
    ensures lo <= hi <= |s| ==> r == s[lo..hi]
    ensures hi <= lo || |s| <= lo ==> r == []
    ensures lo <= hi && lo <= |s| ==> r == s[lo..Min(hi, |s|)]
  {
    var start := Min(lo, |s|);
    var stop := Min(hi, |s|);
    if stop <= start then [] else s[start..stop]
  }
}
