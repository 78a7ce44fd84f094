/** Remote files as byte sequences: a read past the end sees zeros, a write past
    the end leaves a hole of zeros, a write of nothing changes nothing. */
module ByteFile {
  import opened Divisors

  newtype byte = x: int | 0 <= x < 256

  /** The byte at position `i`, zero beyond the end. */
  function At(f: seq<byte>, i: nat): byte {
    if i < |f| then f[i] else 0
  }

  function Zeros(n: nat): seq<byte> {
    seq(n, _ => 0)
  }

  /** `n` bytes from `off` on, padded with zeros. */
  function Slice(f: seq<byte>, off: nat, n: nat): (r: seq<byte>)
    ensures |r| == n
  {
    seq(n, i requires 0 <= i < n => At(f, off + i))
  }

  /** The file after writing `d` at `off`. */
  function Overlay(f: seq<byte>, off: nat, d: seq<byte>): (r: seq<byte>)
    ensures |r| == if d == [] then |f| else Max(|f|, off + |d|)
    ensures forall i: nat :: At(r, i) == if off <= i < off + |d| then d[i - off] else At(f, i)
  {
    if d == [] then f
    else seq(Max(|f|, off + |d|), i requires 0 <= i < Max(|f|, off + |d|) =>
               if off <= i < off + |d| then d[i - off] else At(f, i))
  }

  /** `d` with the bytes from `at` on replaced by `p`; `p` may run past the end of `d`. */
  function Patch(d: seq<byte>, at: nat, p: seq<byte>): (r: seq<byte>)
    requires at <= |d|
    ensures |r| == Max(|d|, at + |p|)
  {
    d[..at] + p + if at + |p| < |d| then d[at + |p|..] else []
  }

  /** Two files of one length that agree at every position are the same file. */
  lemma SameFile(a: seq<byte>, b: seq<byte>)
    requires |a| == |b|
    requires forall i: nat :: At(a, i) == At(b, i)
    ensures a == b
  {
    forall i | 0 <= i < |a| ensures a[i] == b[i] {
      assert At(a, i) == At(b, i);
    }
  }

  /** A write that starts inside or right behind a pending write can be merged into it. */
  lemma OverlayPatch(f: seq<byte>, off: nat, d: seq<byte>, at: nat, p: seq<byte>)
    requires at <= |d|
    ensures Overlay(Overlay(f, off, d), off + at, p) == Overlay(f, off, Patch(d, at, p))
  {
    SameFile(Overlay(Overlay(f, off, d), off + at, p), Overlay(f, off, Patch(d, at, p)));
  }

  /** Writing the head of a pending block early is absorbed by the block. */
  lemma OverlayHead(f: seq<byte>, off: nat, d: seq<byte>, k: nat)
    requires k <= |d|
    ensures Overlay(Overlay(f, off, d[..k]), off, d) == Overlay(f, off, d)
  {
    SameFile(Overlay(Overlay(f, off, d[..k]), off, d), Overlay(f, off, d));
  }

  /** Writing in two adjoining parts is writing the whole. */
  lemma OverlaySplit(f: seq<byte>, off: nat, d: seq<byte>, k: nat)
    requires k <= |d|
    ensures Overlay(Overlay(f, off, d[..k]), off + k, d[k..]) == Overlay(f, off, d)
  {
    OverlayPatch(f, off, d[..k], k, d[k..]);
    assert Patch(d[..k], k, d[k..]) == d;
  }

  /** Adjoining slices join. */
  lemma SliceJoin(f: seq<byte>, off: nat, m: nat, n: nat)
    ensures Slice(f, off, m) + Slice(f, off + m, n) == Slice(f, off, m + n)
  {
  }

  /** A slice of a slice. */
  lemma SliceSlice(f: seq<byte>, off: nat, n: nat, a: nat, b: nat)
    requires a <= b <= n
    ensures Slice(f, off, n)[a..b] == Slice(f, off + a, b - a)
  {
  }

  /** Reading back a write gives the bytes written. */
  lemma SliceOverlay(f: seq<byte>, off: nat, d: seq<byte>, a: nat, b: nat)
    requires a <= b <= |d|
    ensures Slice(Overlay(f, off, d), off + a, b - a) == d[a..b]
  {
    var s := Slice(Overlay(f, off, d), off + a, b - a);
    forall i | 0 <= i < b - a ensures s[i] == d[a..b][i] {
      assert s[i] == At(Overlay(f, off, d), off + a + i);
    }
  }
}
