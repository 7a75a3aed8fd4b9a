/** The element-relocation primitives the vector is built from: std::copy and
    std::move (forward), std::copy_backward and std::move_backward, and the
    default-assignment loops of Resize. In a value model copying and moving an
    element are the same assignment. */
module StdAlgorithms {

  /** Copies src[lo..hi] to dst[dStart..], front to back. When src and dst are
      the same array the destination may overlap the source only from the
      left (dStart <= lo), as std::move requires. */
  method CopyForward<T>(src: array<T>, lo: nat, hi: nat, dst: array<T>, dStart: nat)
    requires lo <= hi <= src.Length && dStart + (hi - lo) <= dst.Length
    requires src == dst ==> dStart <= lo
    modifies dst
    ensures forall k :: lo <= k < hi ==> dst[dStart + (k - lo)] == old(src[k])
    ensures forall j :: 0 <= j < dst.Length && !(dStart <= j < dStart + (hi - lo)) ==> dst[j] == old(dst[j])
  {
    var i := lo;
    while i < hi
      invariant lo <= i <= hi
      invariant forall k :: lo <= k < i ==> dst[dStart + (k - lo)] == old(src[k])
      invariant forall j :: 0 <= j < dst.Length && !(dStart <= j < dStart + (i - lo)) ==> dst[j] == old(dst[j])
      invariant forall k :: i <= k < hi ==> src[k] == old(src[k])
    {
      dst[dStart + (i - lo)] := src[i];
      i := i + 1;
    }
  }

  /** Copies src[lo..hi] so that it ends just before dst[dEnd], back to front.
      When src and dst are the same array the destination may overlap the
      source only from the right (dEnd >= hi), as std::copy_backward requires. */
  method CopyBackward<T>(src: array<T>, lo: nat, hi: nat, dst: array<T>, dEnd: nat)
    requires lo <= hi <= src.Length && hi - lo <= dEnd <= dst.Length
    requires src == dst ==> hi <= dEnd
    modifies dst
    ensures forall k :: lo <= k < hi ==> dst[dEnd - hi + k] == old(src[k])
    ensures forall j :: 0 <= j < dst.Length && !(dEnd - hi + lo <= j < dEnd) ==> dst[j] == old(dst[j])
  {
    var i := hi;
    while i > lo
      invariant lo <= i <= hi
      invariant forall k :: i <= k < hi ==> dst[dEnd - hi + k] == old(src[k])
      invariant forall j :: 0 <= j < dst.Length && !(dEnd - hi + i <= j < dEnd) ==> dst[j] == old(dst[j])
      invariant forall k :: lo <= k < i ==> src[k] == old(src[k])
    {
      i := i - 1;
      dst[dEnd - hi + i] := src[i];
    }
  }

  /** Assigns v to every slot of a[lo..hi]. */
  method Fill<T>(a: array<T>, lo: nat, hi: nat, v: T)
    requires lo <= hi <= a.Length
    modifies a
    ensures forall k :: lo <= k < hi ==> a[k] == v
    ensures forall j :: 0 <= j < a.Length && !(lo <= j < hi) ==> a[j] == old(a[j])
  {
    var i := lo;
    while i < hi
      invariant lo <= i <= hi
      invariant forall k :: lo <= k < i ==> a[k] == v
      invariant forall j :: 0 <= j < a.Length && !(lo <= j < i) ==> a[j] == old(a[j])
    {
      a[i] := v;
      i := i + 1;
    }
  }
}
