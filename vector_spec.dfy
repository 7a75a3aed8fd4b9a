/** The abstract meaning of the vector's mutations, as functions on the
    sequence of live elements, and the growth policy shared by PushBack and
    Insert. The class in module Vectors is proved against these. */
module VectorSpec {

  /** New capacity chosen when an append or insert finds the buffer full:
      1 for an unallocated vector, otherwise twice the old capacity. */
  function Grow(capacity: nat): (r: nat)
    ensures r >= 1 && r >= 2 * capacity
    ensures capacity == 0 ==> r == 1
    ensures capacity > 0 ==> r == 2 * capacity
  {
    if capacity == 0 then 1 else capacity * 2
  }

  /** Capacity after PushBack or Insert on a vector of the given size and
      capacity: unchanged while there is room, grown when full. */
  function CapacityAfterPush(size: nat, capacity: nat): (r: nat)
    requires size <= capacity
    ensures size + 1 <= r
    ensures size < capacity ==> r == capacity
    ensures size == capacity ==> r == Grow(capacity)
  {
    if size < capacity then capacity else Grow(capacity)
  }

  /** Capacity after Resize(n): unchanged when n is the current size or fits
      strictly below the capacity, otherwise exactly n. */
  function CapacityAfterResize(size: nat, capacity: nat, n: nat): (r: nat)
    requires size <= capacity
    ensures n <= r && capacity <= r
    ensures r == capacity || r == n
  {
    if n == size || n < capacity then capacity else n
  }

  /** The live sequence after inserting v at position p. */
  function Inserted<T>(s: seq<T>, p: nat, v: T): seq<T>
    requires p <= |s|
  {
    s[..p] + [v] + s[p..]
  }

  /** The live sequence after erasing the element at position p. */
  function Erased<T>(s: seq<T>, p: nat): seq<T>
    requires p < |s|
  {
    s[..p] + s[p + 1..]
  }

  /** The live sequence after Resize(n): truncated to n, or padded with the
      default value d up to n. */
  function Resized<T>(s: seq<T>, n: nat, d: T): seq<T>
  {
    if n <= |s| then s[..n] else s + seq(n - |s|, _ => d)
  }

  /** Element-wise reading of Inserted: the prefix stays, v sits at p, the
      suffix moves one slot to the right. */
  lemma InsertedAt<T>(s: seq<T>, p: nat, v: T)
    requires p <= |s|
    ensures |Inserted(s, p, v)| == |s| + 1
    ensures forall k :: 0 <= k < p ==> Inserted(s, p, v)[k] == s[k]
    ensures Inserted(s, p, v)[p] == v
    ensures forall k :: p < k <= |s| ==> Inserted(s, p, v)[k] == s[k - 1]
  {
  }

  /** Element-wise reading of Erased: the prefix stays and the suffix after p
      moves one slot to the left. */
  lemma ErasedAt<T>(s: seq<T>, p: nat)
    requires p < |s|
    ensures |Erased(s, p)| == |s| - 1
    ensures forall k :: 0 <= k < p ==> Erased(s, p)[k] == s[k]
    ensures forall k :: p <= k < |s| - 1 ==> Erased(s, p)[k] == s[k + 1]
  {
  }

  /** Element-wise reading of Resized: length n, the first min(|s|, n)
      elements preserved, the new slots holding d. */
  lemma ResizedAt<T>(s: seq<T>, n: nat, d: T)
    ensures |Resized(s, n, d)| == n
    ensures forall k :: 0 <= k < n && k < |s| ==> Resized(s, n, d)[k] == s[k]
    ensures forall k :: |s| <= k < n ==> Resized(s, n, d)[k] == d
  {
  }

  /** Erasing what was just inserted at the same position restores the
      original sequence. */
  lemma EraseUndoesInsert<T>(s: seq<T>, p: nat, v: T)
    requires p <= |s|
    ensures Erased(Inserted(s, p, v), p) == s
  {
  }

  /** Re-inserting the erased element at its position restores the original
      sequence. */
  lemma InsertUndoesErase<T>(s: seq<T>, p: nat)
    requires p < |s|
    ensures Inserted(Erased(s, p), p, s[p]) == s
  {
  }

  /** Resize(n) twice gives the same elements and capacity as once. */
  lemma ResizeIdempotent<T>(s: seq<T>, capacity: nat, n: nat, d: T)
    requires |s| <= capacity
    ensures Resized(Resized(s, n, d), n, d) == Resized(s, n, d)
    ensures CapacityAfterResize(n, CapacityAfterResize(|s|, capacity, n), n) == CapacityAfterResize(|s|, capacity, n)
  {
  }

  /** Appending is inserting at the end. */
  lemma PushBackIsInsertAtEnd<T>(s: seq<T>, v: T)
    ensures Inserted(s, |s|, v) == s + [v]
  {
  }

  /** Popping the last element is erasing it. */
  lemma PopBackIsEraseAtEnd<T>(s: seq<T>)
    requires |s| > 0
    ensures Erased(s, |s| - 1) == s[..|s| - 1]
  {
  }

  /** c is a power of two (1, 2, 4, ...). */
  ghost predicate IsPowerOfTwo(c: nat)
  {
    c == 1 || (c >= 2 && c % 2 == 0 && IsPowerOfTwo(c / 2))
  }

  /** Capacity of a vector that started empty (capacity 0) after n calls of
      PushBack. */
  ghost function CapacityAfterPushes(n: nat): nat
  {
    if n == 0 then 0 else CapacityAfterPush(n - 1, CapacityAfterPushes(n - 1))
  }

  /** After n >= 1 appends to an empty vector the capacity is the least power
      of two that holds n elements: 1, 2, 4, 4, 8, ... */
  lemma {:induction false} CapacityAfterPushesIsLeastPowerOfTwo(n: nat)
    ensures n <= CapacityAfterPushes(n)
    ensures n >= 1 ==> IsPowerOfTwo(CapacityAfterPushes(n)) && CapacityAfterPushes(n) < 2 * n
  {
    if n > 0 {
      CapacityAfterPushesIsLeastPowerOfTwo(n - 1);
      var c := CapacityAfterPushes(n - 1);
      if n - 1 == c && c > 0 {
        assert CapacityAfterPushes(n) == 2 * c;
        assert (2 * c) / 2 == c;
      }
    }
  }
}
