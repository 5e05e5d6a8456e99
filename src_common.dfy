/**
 * The growable buffer of src/common.h: `DynamicArray {buffer, len, cap}`.
 * Elements are modelled at their own type instead of as `elem_bytes`-sized
 * byte blocks, and `append_buf` returns the index of the first appended
 * element where the C code returns a pointer to it.
 */
module Buffer {
  import opened Bits

  /** Largest length for which `grow_array` can still compute `next_pow2(len + 1)` without shifting by 32. */
  const MaxLen: nat := 0x7FFF_FFFE

  class DynBuf<T(0)> {
    var buffer: array<T>
    var len: nat
    var cap: nat
    /** The first `len` elements: what the buffer holds. */
    ghost var Contents: seq<T>
    ghost var Repr: set<object>

    /** `cap` is the allocation size; it is 0 (nothing allocated yet) or a power of two, and never below `len`. */
    ghost predicate Valid()
      reads this, Repr
    {
      Repr == {this, buffer} &&
      cap == buffer.Length && len <= cap &&
      (cap == 0 || IsPow2(cap)) &&
      Contents == buffer[..len]
    }

    /** The zero-initialised `DynamicArray` (`= {}`): no storage, length and capacity 0. */
    constructor ()
      ensures Valid() && fresh(Repr)
      ensures Contents == [] && len == 0 && cap == 0
    {
      buffer := new T[0];
      len, cap := 0, 0;
      Contents := [];
      Repr := {this, buffer};
    }

    /**
     * grow_array (src/common.h:57-68). Every caller has already raised `len`
     * to at least `cap`; the storage is reallocated to `next_pow2(len + 1)`
     * elements and the old ones are kept in place.
     */
    method GrowArray()
      requires buffer.Length == cap && cap <= len < MaxLen + 1
      modifies this
      ensures cap == NextPow2(old(len) + 1) && IsPow2(cap) && len + 1 < cap
      ensures buffer.Length == cap && fresh(buffer)
      ensures buffer[..old(cap)] == old(buffer[..])
      ensures len == old(len) && Contents == old(Contents) && Repr == {this, buffer}
    {
      var newCap := NextPow2(len + 1);
      var grown := new T[newCap];
      forall i | 0 <= i < cap {
        grown[i] := buffer[i];
      }
      buffer, cap := grown, newCap;
      Repr := {this, buffer};
    }

    /**
     * push_elem (src/common.h:70-78): stores `e` at the old length, returns
     * that index, and grows first when the new length reaches the capacity,
     * so that afterwards `cap > len`.
     */
    method PushElem(e: T) returns (idx: nat)
      requires Valid() && len < MaxLen
      modifies Repr
      ensures Valid() && fresh(Repr - old(Repr))
      ensures idx == old(len) && len == old(len) + 1 && len < cap
      ensures Contents == old(Contents) + [e]
      ensures cap == if old(len) + 1 >= old(cap) then NextPow2(old(len) + 2) else old(cap)
    {
      len := len + 1;
      if len >= cap {
        GrowArray();
      }
      buffer[len - 1] := e;
      Contents := Contents + [e];
      idx := len - 1;
    }

    /** pop_elem (src/common.h:80-85): the caller must not pop an empty buffer (the `assert`); returns the last element. */
    method PopElem() returns (e: T)
      requires Valid() && len > 0
      modifies this
      ensures Valid() && Repr == old(Repr) && buffer == old(buffer) && cap == old(cap)
      ensures len == old(len) - 1
      ensures e == old(Contents)[old(len) - 1] && Contents == old(Contents)[..old(len) - 1]
    {
      len := len - 1;
      e := buffer[len];
      Contents := Contents[..len];
    }

    /**
     * insert_elem (src/common.h:87-100): `idx <= len` is asserted; after
     * growing, the tail `[idx, len)` is moved up one slot in place (one
     * `memmove`, which also copies the unused slot at the old length into the
     * slot at the new length, still inside the capacity) and `e` is written at
     * `idx`.
     */
    method InsertElem(e: T, idx: nat)
      requires Valid() && idx <= len && len < MaxLen
      modifies Repr
      ensures Valid() && fresh(Repr - old(Repr))
      ensures len == old(len) + 1 && len < cap
      ensures Contents == old(Contents)[..idx] + [e] + old(Contents)[idx..]
    {
      ghost var before := Contents;
      len := len + 1;
      if len >= cap {
        GrowArray();
      }
      ghost var slots := buffer[..];
      assert slots[..len - 1] == before;
      MoveUp(buffer, idx, len);
      buffer[idx] := e;
      Contents := before[..idx] + [e] + before[idx..];
      InsertSlots(slots, before, idx, len, e);
      assert buffer[..] == Shifted(slots, idx, len)[idx := e];
    }

    /**
     * append_buf (src/common.h:102-112): raises the length by `|elems|`,
     * grows if it reached the capacity, copies `elems` after the old end and
     * returns the index where they start.
     */
    method AppendBuf(elems: seq<T>) returns (start: nat)
      requires Valid() && len + |elems| < MaxLen
      modifies Repr
      ensures Valid() && fresh(Repr - old(Repr))
      ensures start == old(len) && len == old(len) + |elems| && len < cap
      ensures Contents == old(Contents) + elems
    {
      start := len;
      len := len + |elems|;
      if len >= cap {
        GrowArray();
      }
      forall k | 0 <= k < |elems| {
        buffer[start + k] := elems[k];
      }
      Contents := Contents + elems;
    }
  }

  /** The slots after the `memmove` of insert_elem: `(idx, n]` hold what `[idx, n)` held. */
  function Shifted<T>(a: seq<T>, idx: nat, n: nat): (r: seq<T>)
    requires idx <= n < |a|
    ensures |r| == |a|
  {
    a[..idx + 1] + a[idx..n] + a[n + 1..]
  }

  /** `memmove(a + idx + 1, a + idx, n - idx)`. */
  method MoveUp<T>(a: array<T>, idx: nat, n: nat)
    requires idx <= n < a.Length
    modifies a
    ensures a[..] == Shifted(old(a[..]), idx, n)
  {
    ghost var a0 := a[..];
    forall k | idx < k <= n {
      a[k] := a[k - 1];
    }
    assert a[..] == Shifted(a0, idx, n) by {
      forall k | 0 <= k < a.Length
        ensures a[k] == Shifted(a0, idx, n)[k]
      {
        if k > n {
          assert Shifted(a0, idx, n)[k] == a0[k];
        } else if k > idx {
          assert Shifted(a0, idx, n)[k] == a0[k - 1];
        }
      }
    }
  }

  /** Shifting the tail up and writing `e` at `idx` inserts `e` into the first `n - 1` slots. */
  lemma InsertSlots<T>(slots: seq<T>, before: seq<T>, idx: nat, n: nat, e: T)
    requires idx < n < |slots| && slots[..n - 1] == before
    ensures Shifted(slots, idx, n)[idx := e][..n] == before[..idx] + [e] + before[idx..]
  {
    var r := Shifted(slots, idx, n)[idx := e];
    forall k | 0 <= k < n
      ensures r[k] == (before[..idx] + [e] + before[idx..])[k]
    {
      if k < idx {
        assert r[k] == slots[k];
      } else if k > idx {
        assert r[k] == slots[k - 1];
      }
    }
  }
}
