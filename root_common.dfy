/**
 * The growable buffer of the earlier revision (common.h): the same
 * `DynamicArray {buffer, len, cap}` as in src/common.h, but it grows only
 * when the length EXCEEDS the capacity, and then to `next_pow2(len)`, so
 * the invariant is `cap >= len` rather than `cap > len`.
 *
 * Popping does not erase a slot, and the parser of this revision raises
 * `len` again to re-expose popped states (parser.c:248-259). So besides the
 * live `Contents` the model keeps `Slots`: every slot written so far, in
 * order, a prefix of the storage. A slot past `Slots` was never written and
 * holds indeterminate bytes.
 */
module RootBuffer {
  import opened Bits

  /** `next_pow2(len)` shifts by `32 - clz(len)`, which is defined only for `len < 2^31`. */
  const MaxLen: nat := 0x7FFF_FFFF

  /** The capacity after a length change to `len`: `grow_array` runs only when `len > cap` (common.h:62-63,84-85). */
  function Regrown(len: nat, cap: nat): (r: nat)
    requires len <= MaxLen
    ensures len <= r && (r == cap || (IsPow2(r) && len < r))
  {
    if len > cap then NextPow2(len) else cap
  }

  class DynBuf<T(0)> {
    var buffer: array<T>
    var len: nat
    var cap: nat
    /** Every slot written so far; pops leave them in place. */
    ghost var Slots: seq<T>
    /** The first `len` slots: what the buffer holds. */
    ghost var Contents: seq<T>
    ghost var Repr: set<object>

    /** `cap` is 0 or a power of two and never below `len`; the written slots are a prefix of the storage. */
    ghost predicate Valid()
      reads this, Repr
    {
      Repr == {this, buffer} &&
      cap == buffer.Length && len <= |Slots| <= cap &&
      (cap == 0 || IsPow2(cap)) &&
      Slots == buffer[..|Slots|] && Contents == Slots[..len]
    }

    /** The zero-initialised `DynamicArray` (`= {}`). */
    constructor ()
      ensures Valid() && fresh(Repr)
      ensures Contents == [] && Slots == [] && len == 0 && cap == 0
    {
      buffer := new T[0];
      len, cap := 0, 0;
      Slots, Contents := [], [];
      Repr := {this, buffer};
    }

    /**
     * grow_array (common.h:45-57): every caller has raised `len` above
     * `cap`; the storage becomes `next_pow2(len)` elements, strictly more
     * than `len`, and the old ones are kept.
     */
    method GrowArray()
      requires buffer.Length == cap && cap < len <= MaxLen
      modifies this
      ensures cap == NextPow2(old(len)) && len < cap
      ensures buffer.Length == cap && fresh(buffer)
      ensures buffer[..old(cap)] == old(buffer[..])
      ensures len == old(len) && Slots == old(Slots) && Contents == old(Contents) && Repr == {this, buffer}
    {
      var newCap := NextPow2(len);
      var grown := new T[newCap];
      forall i | 0 <= i < cap {
        grown[i] := buffer[i];
      }
      buffer, cap := grown, newCap;
      Repr := {this, buffer};
    }

    /**
     * push_elem (common.h:59-68): raises the length, grows when it now
     * exceeds the capacity, stores `e` at the old length and returns that
     * index. Afterwards `len <= cap`, and `len == cap` is possible.
     */
    method PushElem(e: T) returns (idx: nat)
      requires Valid() && len < MaxLen
      modifies Repr
      ensures Valid() && fresh(Repr - old(Repr))
      ensures idx == old(len) && len == old(len) + 1 && len <= cap
      ensures cap == Regrown(old(len) + 1, old(cap))
      ensures Contents == old(Contents) + [e]
      ensures Slots == if old(len) < |old(Slots)| then old(Slots)[old(len) := e] else old(Slots) + [e]
    {
      len := len + 1;
      if len > cap {
        ghost var held := buffer[..];
        GrowArray();
        assert buffer[..|Slots|] == held[..|Slots|];
      }
      StoreLast(e);
      idx := len - 1;
    }

    /** The store of push_elem, once the length is raised and the storage fits it. */
    method StoreLast(e: T)
      requires Repr == {this, buffer} && cap == buffer.Length && (cap == 0 || IsPow2(cap))
      requires 0 < len <= cap && len - 1 <= |Slots| <= cap && Slots == buffer[..|Slots|] && Contents == Slots[..len - 1]
      modifies this, buffer
      ensures Valid() && Repr == old(Repr) && len == old(len) && cap == old(cap)
      ensures Contents == old(Contents) + [e]
      ensures Slots == if len - 1 < |old(Slots)| then old(Slots)[len - 1 := e] else old(Slots) + [e]
    {
      ghost var a0 := buffer[..];
      buffer[len - 1] := e;
      ghost var written := if len - 1 < |Slots| then Slots[len - 1 := e] else Slots + [e];
      StoredSlot(a0, buffer[..], Slots, len - 1, e, written);
      Slots := written;
      Contents := Contents + [e];
    }

    /** pop_elem (common.h:70-76): popping an empty buffer fails the `assert`; the slot keeps its value. */
    method PopElem() returns (e: T)
      requires Valid() && len > 0
      modifies this
      ensures Valid() && Repr == old(Repr) && buffer == old(buffer) && cap == old(cap)
      ensures len == old(len) - 1 && Slots == old(Slots)
      ensures e == old(Contents)[old(len) - 1] && Contents == old(Contents)[..old(len) - 1]
    {
      len := len - 1;
      e := buffer[len];
      Contents := Contents[..len];
    }

    /** The live elements, `buffer[0..len)`, as a value. */
    method Items() returns (r: seq<T>)
      requires Valid()
      ensures r == Contents
    {
      r := buffer[..len];
      assert Slots[..len] == buffer[..len];
    }

    /**
     * A direct store to `len` (parser.c:248,257,259): it re-exposes or hides
     * slots without touching them. Only written slots can be exposed.
     */
    method SetLen(n: nat)
      requires Valid() && n <= |Slots|
      modifies this
      ensures Valid() && Repr == old(Repr) && buffer == old(buffer) && cap == old(cap)
      ensures len == n && Slots == old(Slots) && Contents == Slots[..n]
    {
      len := n;
      Contents := Slots[..n];
    }

    /**
     * insert_elem (common.h:78-93) with the `memmove` corrected to move the
     * `old(len) - idx` live elements of the tail. As written it moves
     * `len - idx` elements counted after the increment, one slot too many:
     * see `InsertSpan`.
     */
    method InsertElem(e: T, idx: nat)
      requires Valid() && idx <= len && len < MaxLen
      modifies Repr
      ensures Valid() && fresh(Repr - old(Repr))
      ensures len == old(len) + 1 && len <= cap && cap == Regrown(len, old(cap))
      ensures Contents == old(Contents)[..idx] + [e] + old(Contents)[idx..]
      ensures Slots == Contents + if len < |old(Slots)| then old(Slots)[len..] else []
    {
      ghost var before, written := Contents, Slots;
      len := len + 1;
      if len > cap {
        ghost var held := buffer[..];
        GrowArray();
        assert buffer[..|written|] == held[..|written|];
      }
      PlaceAt(e, idx, before, written);
    }

    /**
     * insert_elem (common.h:78-93) as written: after the increment and the
     * growth, `memmove` moves `len - idx` elements, so it also copies into
     * slot `len`. When the raised length equals the capacity (no growth
     * happened) that slot is past the storage: `overrun` reports it and the
     * model stops there, the buffer untouched. Otherwise the insertion is
     * right and one slot past the live elements is written as well.
     */
    method InsertElemAsWritten(e: T, idx: nat) returns (overrun: bool)
      requires Valid() && idx <= len && len < MaxLen
      modifies Repr
      ensures Valid() && fresh(Repr - old(Repr))
      ensures overrun <==> old(len) + 1 == old(cap)
      ensures overrun ==> len == old(len) && Contents == old(Contents) && Slots == old(Slots)
      ensures !overrun ==> len == old(len) + 1 && len < cap && cap == Regrown(len, old(cap))
      ensures !overrun ==> Contents == old(Contents)[..idx] + [e] + old(Contents)[idx..]
      ensures !overrun ==> |Slots| == if len < |old(Slots)| then |old(Slots)| else len + 1
    {
      if len + 1 == cap {
        return true;
      }
      overrun := false;
      ghost var before, written := Contents, Slots;
      len := len + 1;
      if len > cap {
        ghost var held := buffer[..];
        GrowArray();
        assert buffer[..|written|] == held[..|written|];
      }
      ShiftAt(e, idx, before, written);
    }

    /** The `memmove` of `len - idx` elements and the store, as written, when slot `len` is inside the storage. */
    method ShiftAt(e: T, idx: nat, ghost before: seq<T>, ghost written: seq<T>)
      requires Repr == {this, buffer} && cap == buffer.Length && (cap == 0 || IsPow2(cap))
      requires idx < len < cap && len - 1 <= |written| <= cap
      requires written == buffer[..|written|] && before == written[..len - 1]
      modifies this, buffer
      ensures Valid() && Repr == old(Repr) && len == old(len) && cap == old(cap)
      ensures Contents == before[..idx] + [e] + before[idx..]
      ensures |Slots| == if len < |written| then |written| else len + 1
    {
      ghost var a0 := buffer[..];
      assert written == a0[..|written|];
      MoveTail(buffer, idx, len + 1);
      buffer[idx] := e;
      ghost var a1 := buffer[..];
      ShiftedSlots(a0, a1, written, before, idx, len, e);
      Slots := a1[..if len < |written| then |written| else len + 1];
      Contents := Slots[..len];
    }

    /** The `memmove` and the store of insert_elem, once the length is raised and the storage fits it. */
    method PlaceAt(e: T, idx: nat, ghost before: seq<T>, ghost written: seq<T>)
      requires Repr == {this, buffer} && cap == buffer.Length && (cap == 0 || IsPow2(cap))
      requires idx < len <= cap && len - 1 <= |written| <= cap
      requires written == buffer[..|written|] && before == written[..len - 1]
      modifies this, buffer
      ensures Valid() && Repr == old(Repr) && len == old(len) && cap == old(cap)
      ensures Contents == before[..idx] + [e] + before[idx..]
      ensures Slots == Contents + if len < |written| then written[len..] else []
    {
      ghost var a0 := buffer[..];
      assert written == a0[..|written|];
      MoveTail(buffer, idx, len);
      buffer[idx] := e;
      ghost var a1 := buffer[..];
      InsertedSlots(a0, a1, written, before, idx, len, e);
      Contents := before[..idx] + [e] + before[idx..];
      Slots := Contents + if len < |written| then written[len..] else [];
      assert Slots[..len] == Contents;
    }
  }

  /** Storing `e` at slot `k`, at most one past the written slots, writes it into the slots or appends it. */
  lemma StoredSlot<T>(a0: seq<T>, a1: seq<T>, sl: seq<T>, k: nat, e: T, written: seq<T>)
    requires k <= |sl| <= |a0| && k < |a0| && sl == a0[..|sl|] && a1 == a0[k := e]
    requires written == if k < |sl| then sl[k := e] else sl + [e]
    ensures |written| <= |a1| && written == a1[..|written|]
    ensures written[..k + 1] == sl[..k] + [e]
  {
    assert |written| <= |a1|;
    assert written[..k + 1] == sl[..k] + [e];
    forall i | 0 <= i < |written|
      ensures written[i] == a1[i]
    {
      if i != k {
        assert written[i] == sl[i] == a0[i];
      }
    }
  }

  /** `memmove(a + idx + 1, a + idx, n - 1 - idx)`: the live tail `[idx, n - 1)` moves up one slot. */
  method MoveTail<T>(a: array<T>, idx: nat, n: nat)
    requires idx < n <= a.Length
    modifies a
    ensures forall k :: 0 <= k < a.Length ==> a[k] == if idx < k < n then old(a[k - 1]) else old(a[k])
  {
    forall k | idx < k < n {
      a[k] := a[k - 1];
    }
  }

  /** After the tail moved up and `e` was written at `idx`, the slots hold the insertion, then the untouched rest. */
  lemma InsertedSlots<T>(a0: seq<T>, a1: seq<T>, written: seq<T>, before: seq<T>, idx: nat, n: nat, e: T)
    requires idx < n <= |a0| == |a1| && |written| <= |a0| && n - 1 <= |written|
    requires written == a0[..|written|] && before == written[..n - 1]
    requires a1[idx] == e && forall k :: 0 <= k < |a1| && k != idx ==> a1[k] == if idx < k < n then a0[k - 1] else a0[k]
    ensures var c := before[..idx] + [e] + before[idx..];
      c + (if n < |written| then written[n..] else []) == a1[..|c + (if n < |written| then written[n..] else [])|]
  {
    var c := before[..idx] + [e] + before[idx..];
    var sl := c + (if n < |written| then written[n..] else []);
    assert |sl| <= |a1|;
    forall k | 0 <= k < |sl|
      ensures sl[k] == a1[k]
    {
      assert k != idx ==> a1[k] == if idx < k < n then a0[k - 1] else a0[k];
      if k < idx {
        assert sl[k] == c[k] == before[k] == written[k] == a0[k];
      } else if k == idx {
        assert sl[k] == c[k] == e;
      } else if k < n {
        assert sl[k] == c[k] == before[k - 1] == written[k - 1] == a0[k - 1];
      } else {
        assert sl[k] == written[k] == a0[k];
      }
    }
  }

  /** After the as-written move and the store, the first `n` slots hold the insertion. */
  lemma ShiftedSlots<T>(a0: seq<T>, a1: seq<T>, written: seq<T>, before: seq<T>, idx: nat, n: nat, e: T)
    requires idx < n < |a0| == |a1| && |written| <= |a0| && n - 1 <= |written|
    requires written == a0[..|written|] && before == written[..n - 1]
    requires a1[idx] == e && forall k :: 0 <= k < |a1| && k != idx ==> a1[k] == if idx < k < n + 1 then a0[k - 1] else a0[k]
    ensures a1[..n] == before[..idx] + [e] + before[idx..]
  {
    var c := before[..idx] + [e] + before[idx..];
    forall k | 0 <= k < n
      ensures c[k] == a1[k]
    {
      if k != idx {
        assert a1[k] == if idx < k < n + 1 then a0[k - 1] else a0[k];
      }
      if k < idx {
        assert c[k] == before[k] == written[k] == a0[k];
      } else if idx < k {
        assert c[k] == before[k - 1] == written[k - 1] == a0[k - 1];
      }
    }
  }

  /**
   * The slots insert_elem writes as written (common.h:84-90): after raising
   * the length and growing, `memmove` copies `len - idx` elements from `idx`
   * to `idx + 1`, so the last slot written is the new `len` itself. Returns
   * that slot and the capacity it must fit in.
   */
  function InsertSpan(len: nat, cap: nat, idx: nat): (r: (nat, nat))
    requires idx <= len < MaxLen
    ensures r.0 == len + 1 && r.1 >= len + 1
  {
    var n := len + 1;
    (idx + 1 + (n - idx) - 1, Regrown(n, cap))
  }

  /**
   * The as-written `memmove` writes one slot past the storage exactly when
   * the raised length equals the capacity, so no growth happened: one
   * element pushed into an empty buffer (capacity `next_pow2(1) == 2`) and
   * then one inserted is the smallest case.
   */
  lemma InsertOverrun(len: nat, cap: nat, idx: nat)
    requires idx <= len < MaxLen && len <= cap
    ensures InsertSpan(len, cap, idx).0 >= InsertSpan(len, cap, idx).1 <==> len + 1 == cap
    ensures InsertSpan(1, NextPow2(1), 0) == (2, 2)
  {
    NextPow2Least(1, 1);
  }
}
