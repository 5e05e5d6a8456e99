/**
 * The deduplicating string set of src/hashtable.c: an open-addressed table
 * of views with linear probing, whose keys live in a backing byte buffer
 * `intrn`. A stored view is an (offset, length) pair into that buffer
 * instead of a raw pointer.
 */
module StringSet {
  import opened Bits
  import opened CText
  import opened Buffer

  datatype Option<T> = None | Some(value: T)

  /** A `StrView` stored in the table: `len` bytes of `intrn` starting at `off`. */
  datatype View = View(off: nat, len: nat)

  /** A `SetEntry`: empty when its view's text pointer is NULL. */
  type Slot = Option<View>

  const FnvPrime: nat := 0x0100_0193

  /** One step of the byte loop: multiply by the prime modulo 2^32, then xor the byte in. */
  function FnvStep(h: nat, b: byte): (r: nat)
    ensures r < U32
  {
    Pow2Constants();
    XorBelow(Wrap32(h * FnvPrime), b, 32);
    BitXor(Wrap32(h * FnvPrime), b)
  }

  /**
   * fnv_32_str as a left fold: the FNV-0 form of Fowler/Noll/Vo (offset
   * basis 0, one FnvStep per byte), a 32-bit value.
   */
  function Fnv0(s: seq<byte>): (r: nat)
    ensures r < U32
  {
    if s == [] then 0 else FnvStep(Fnv0(s[..|s| - 1]), s[|s| - 1])
  }

  /** The byte loop of fnv_32_str (src/hashtable.c:5-23). */
  method FnvHash(key: seq<byte>) returns (h: nat)
    ensures h == Fnv0(key)
  {
    h := 0;
    var i := 0;
    while i < |key|
      invariant i <= |key| && h == Fnv0(key[..i])
    {
      assert key[..i + 1][..i] == key[..i];
      h := BitXor(Wrap32(h * FnvPrime), key[i]);
      i := i + 1;
    }
    assert key[..i] == key;
  }

  /** Appending a byte applies one more step to the hash so far. */
  lemma FnvSnoc(s: seq<byte>, b: byte)
    ensures Fnv0(s + [b]) == FnvStep(Fnv0(s), b)
  {
    assert (s + [b])[..|s|] == s;
  }

  /** Appending `s'` and then `b` is appending `s' + [b]`. */
  lemma SnocAssoc(p: seq<byte>, s': seq<byte>, b: byte)
    ensures p + (s' + [b]) == (p + s') + [b]
  {
  }

  /** The hash of a suffix continues from the hash of what precedes it only. */
  lemma {:induction false} FnvCompose(p: seq<byte>, q: seq<byte>, s: seq<byte>)
    requires Fnv0(p) == Fnv0(q)
    ensures Fnv0(p + s) == Fnv0(q + s)
    decreases |s|
  {
    if s != [] {
      var s', b := s[..|s| - 1], s[|s| - 1];
      FnvCompose(p, q, s');
      assert s == s' + [b];
      SnocAssoc(p, s', b);
      SnocAssoc(q, s', b);
      FnvSnoc(p + s', b);
      FnvSnoc(q + s', b);
    } else {
      assert p + s == p && q + s == q;
    }
  }

  /**
   * With offset basis 0 a single zero byte hashes to 0, so a leading zero
   * byte never changes the hash: `"\0" + s` and `s` always share a home slot.
   */
  lemma FnvLeadingZero(s: seq<byte>)
    ensures Fnv0([0]) == 0
    ensures Fnv0([0] + s) == Fnv0(s)
  {
    FnvSnoc([], 0);
    assert [] + [0 as byte] == [0];
    FnvCompose([0], [], s);
    assert [] + s == s;
  }

  /** The home slot `fnv_32_str(str) & (cap - 1)`, always an index of the table. */
  function Home(key: seq<byte>, m: nat): (r: nat)
    requires IsPow2(m)
    ensures r < m
  {
    MaskBelow(Fnv0(key), m);
    BitAnd(Fnv0(key), m - 1)
  }

  /** The slot reached after `d` steps of `idx = (idx + 1) & cap_mask` from the home slot. */
  lemma ProbeStep(home: nat, d: nat, m: nat)
    requires IsPow2(m) && home < m
    ensures BitAnd(ProbeAt(home, d, m) + 1, m - 1) == ProbeAt(home, d + 1, m)
  {
    MaskedIncrement(ProbeAt(home, d, m), m);
  }

  /** `d` is the first probe distance from `home` that hits an empty slot. */
  ghost predicate FirstEmpty(s: seq<Slot>, home: nat, d: nat)
  {
    home < |s| && d < |s| && s[ProbeAt(home, d, |s|)].None? &&
    forall e :: 0 <= e < d ==> s[ProbeAt(home, e, |s|)].Some?
  }

  /** Number of occupied slots. */
  ghost function Used(s: seq<Slot>): nat
  {
    if s == [] then 0 else Used(s[..|s| - 1]) + (if s[|s| - 1].Some? then 1 else 0)
  }

  /** A table of empty slots has none occupied. */
  lemma {:induction false} UsedNone(s: seq<Slot>)
    requires forall j :: 0 <= j < |s| ==> s[j].None?
    ensures Used(s) == 0
  {
    if s != [] {
      UsedNone(s[..|s| - 1]);
    }
  }

  /** A table with fewer occupied slots than slots has an empty slot. */
  lemma {:induction false} RoomLeft(s: seq<Slot>)
    requires Used(s) < |s|
    ensures exists j :: 0 <= j < |s| && s[j].None?
  {
    var t := s[..|s| - 1];
    if s[|s| - 1].Some? {
      RoomLeft(t);
      var j :| 0 <= j < |t| && t[j].None?;
      assert s[j] == t[j];
    } else {
      assert s[|s| - 1].None?;
    }
  }

  /** Filling an empty slot adds exactly one occupied slot. */
  lemma {:induction false} UsedFill(s: seq<Slot>, i: nat, v: View)
    requires i < |s| && s[i].None?
    ensures Used(s[i := Some(v)]) == Used(s) + 1
    decreases |s|
  {
    var s' := s[i := Some(v)];
    assert s'[..|s| - 1] == if i < |s| - 1 then s[..|s| - 1][i := Some(v)] else s[..|s| - 1];
    if i < |s| - 1 {
      UsedFill(s[..|s| - 1], i, v);
    }
  }

  /** The views held by the slots `lo .. hi - 1`. */
  ghost function Stored(s: seq<Slot>, lo: nat, hi: nat): set<View>
  {
    set k | lo <= k < hi && k < |s| && s[k].Some? :: s[k].value
  }

  /** Filling an empty slot adds its view to the stored views. */
  lemma StoredFill(s: seq<Slot>, i: nat, v: View)
    requires i < |s| && s[i].None?
    ensures Stored(s[i := Some(v)], 0, |s|) == Stored(s, 0, |s|) + {v}
  {
    var s' := s[i := Some(v)];
    forall w | w in Stored(s', 0, |s|)
      ensures w in Stored(s, 0, |s|) + {v}
    {
      var k :| 0 <= k < |s'| && s'[k].Some? && s'[k].value == w;
      if k != i {
        assert s[k] == s'[k];
      }
    }
    forall w | w in Stored(s, 0, |s|)
      ensures w in Stored(s', 0, |s|)
    {
      var k :| 0 <= k < |s| && s[k].Some? && s[k].value == w;
      assert s'[k] == s[k];
    }
    assert s'[i].value == v;
  }

  /** Taking one more old slot into account. */
  lemma StoredExtend(s: seq<Slot>, lo: nat, hi: nat)
    requires lo <= hi < |s|
    ensures Stored(s, lo, hi + 1) == Stored(s, lo, hi) + (if s[hi].Some? then {s[hi].value} else {})
  {
    if s[hi].Some? {
      assert s[hi].value in Stored(s, lo, hi + 1);
    }
  }

  /** The bytes of view `v` in the backing buffer `data`, if it lies inside. */
  predicate Inside(data: seq<byte>, v: View)
  {
    v.off + v.len <= |data|
  }

  /** insert_str's match: same length and the same bytes. */
  predicate Equal(data: seq<byte>, v: View, key: seq<byte>)
  {
    Inside(data, v) && v.len == |key| && data[v.off .. v.off + v.len] == key
  }

  /** remove_str's match: the first `MIN(len, |key|)` bytes agree. */
  predicate PrefixAgrees(data: seq<byte>, v: View, key: seq<byte>)
  {
    Inside(data, v) &&
    var n := if v.len < |key| then v.len else |key|;
    data[v.off .. v.off + n] == key[..n]
  }

  /** Every slot probed before distance `d` is occupied by a view whose prefix disagrees with `key`. */
  ghost predicate Mismatched(s: seq<Slot>, data: seq<byte>, home: nat, d: nat, key: seq<byte>)
    requires home < |s|
  {
    forall e :: 0 <= e < d ==>
      var slot := s[ProbeAt(home, e, |s|)];
      slot.Some? && !PrefixAgrees(data, slot.value, key)
  }

  /** One more occupied, disagreeing slot extends a mismatched probe run. */
  lemma MismatchedStep(s: seq<Slot>, data: seq<byte>, home: nat, d: nat, key: seq<byte>)
    requires home < |s| && Mismatched(s, data, home, d, key)
    requires var slot := s[ProbeAt(home, d, |s|)]; slot.Some? && !PrefixAgrees(data, slot.value, key)
    ensures Mismatched(s, data, home, d + 1, key)
  {
  }

  /**
   * `(float)inuse * PHI >= (float)encap`, with PHI approximated by
   * 1.618034 in exact integer arithmetic.
   */
  predicate NeedsGrow(inuse: nat, encap: nat)
  {
    inuse * 1_618_034 >= encap * 1_000_000
  }

  /** When no growth is due, the table is not empty and holds more slots than `inuse`. */
  lemma NoGrowRoom(inuse: nat, encap: nat)
    requires !NeedsGrow(inuse, encap)
    ensures inuse < encap && encap > 0
  {
  }

  /**
   * insert_unique_in_cap (src/hashtable.c:25-35): starting at the key's
   * home slot, step to the next slot (wrapping) until an empty one is found,
   * and store the view there. The caller guarantees an empty slot exists.
   */
  method InsertUniqueInCap(ens: array<Slot>, v: View, key: seq<byte>) returns (idx: nat)
    requires IsPow2(ens.Length)
    requires exists j :: 0 <= j < ens.Length && ens[j].None?
    modifies ens
    ensures idx < ens.Length
    ensures exists d :: FirstEmpty(old(ens[..]), Home(key, ens.Length), d) &&
                        idx == ProbeAt(Home(key, ens.Length), d, ens.Length)
    ensures ens[..] == old(ens[..])[idx := Some(v)]
  {
    var m := ens.Length;
    var h := FnvHash(key);
    var home := BitAnd(h, m - 1);
    MaskBelow(h, m);
    ghost var d;
    idx, d := FindEmpty(ens, home);
    assert home == Home(key, m);
    ens[idx] := Some(v);
  }

  /** The probe loop of insert_unique_in_cap (src/hashtable.c:28-32): linear probing from `home` to the first empty slot. */
  method FindEmpty(ens: array<Slot>, home: nat) returns (idx: nat, ghost d: nat)
    requires IsPow2(ens.Length) && home < ens.Length
    requires exists j :: 0 <= j < ens.Length && ens[j].None?
    ensures FirstEmpty(ens[..], home, d) && idx == ProbeAt(home, d, ens.Length)
  {
    var m := ens.Length;
    ghost var s := ens[..];
    ghost var j :| 0 <= j < m && s[j].None?;
    ProbeReaches(home, j, m);
    ghost var dj := if home <= j then j - home else m - home + j;
    idx, d := home, 0;
    while ens[idx].Some?
      invariant d <= dj && idx == ProbeAt(home, d, m)
      invariant Occupied(s, home, d)
      decreases dj - d
    {
      OccupiedStep(s, home, d);
      ProbeStep(home, d, m);
      idx := BitAnd(idx + 1, m - 1);
      d := d + 1;
    }
  }

  /** The first `d` probes from `home` all hit occupied slots. */
  ghost predicate Occupied(s: seq<Slot>, home: nat, d: nat)
    requires home < |s|
  {
    forall e :: 0 <= e < d ==> s[ProbeAt(home, e, |s|)].Some?
  }

  /** One more occupied probe extends `Occupied`. */
  lemma OccupiedStep(s: seq<Slot>, home: nat, d: nat)
    requires home < |s| && Occupied(s, home, d) && s[ProbeAt(home, d, |s|)].Some?
    ensures Occupied(s, home, d + 1)
  {
  }

  /**
   * The slot count chosen by grow (src/hashtable.c:39): 0x1000 for a table
   * without slots, otherwise double, as a u32. Unless the doubling wraps to
   * 0, it is again a power of two of at most 2^31.
   */
  lemma GrownCapacity(encap: nat)
    requires encap == 0 || IsPow2(encap)
    requires encap <= 0x8000_0000
    ensures var r := if encap == 0 then 0x1000 else Wrap32(2 * encap);
      (r == 0 <==> encap == 0x8000_0000) &&
      (r != 0 ==> IsPow2(r) && r <= 0x8000_0000 && r > encap)
  {
    if encap == 0 {
      InitialCapacityPow2();
    } else if encap < 0x8000_0000 {
      DoublePow2(encap);
      Pow2Constants();
      Pow2IsPow2(31);
      Pow2Gap(encap, 0x8000_0000);
      DivModUnique(2 * encap, U32, 0, 2 * encap);
    } else {
      DivModUnique(2 * encap, U32, 1, 0);
    }
  }

  lemma InitialCapacityPow2()
    ensures IsPow2(0x1000)
  {
    assert Pow2(4) == 16;
    Pow2Add(8, 4);
    Pow2Constants();
    Pow2IsPow2(12);
  }

  /**
   * The reinsertion loop of grow (src/hashtable.c:46-57) over a non-empty
   * old table `olds`, whose keys are read from `data`. `while (ben++ < een)`
   * tests the pointer before incrementing it, so the body sees slots
   * 1 .. |olds|: slot 0 is never reinserted, and slot |olds|, one past the
   * end, is taken to be empty.
   */
  method Rehash(olds: array<Slot>, data: seq<byte>, ens: array<Slot>)
    requires olds != ens && IsPow2(ens.Length) && olds.Length < ens.Length
    requires forall j :: 0 <= j < ens.Length ==> ens[j].None?
    requires forall k :: 0 <= k < olds.Length && olds[k].Some? ==> Inside(data, olds[k].value)
    modifies ens
    ensures Stored(ens[..], 0, ens.Length) == Stored(olds[..], 1, olds.Length)
    ensures forall j :: 0 <= j < ens.Length && ens[j].Some? ==> Inside(data, ens[j].value)
  {
    UsedNone(ens[..]);
    assert Stored(ens[..], 0, ens.Length) == {};
    var k := 1;
    while k <= olds.Length
      invariant 1 <= k <= olds.Length + 1
      invariant Used(ens[..]) < k
      invariant Stored(ens[..], 0, ens.Length) == Stored(olds[..], 1, k)
      invariant forall j :: 0 <= j < ens.Length && ens[j].Some? ==> Inside(data, ens[j].value)
    {
      if k < olds.Length && olds[k].Some? {
        var v := olds[k].value;
        RoomLeft(ens[..]);
        ghost var before := ens[..];
        var idx := InsertUniqueInCap(ens, v, data[v.off .. v.off + v.len]);
        UsedFill(before, idx, v);
        StoredFill(before, idx, v);
      }
      if k < olds.Length {
        StoredExtend(olds[..], 1, k);
      } else {
        assert Stored(olds[..], 1, k + 1) == Stored(olds[..], 1, k);
      }
      k := k + 1;
    }
  }

  class HSet {
    var entrs: array<Slot>
    var inuse: nat
    var encap: nat
    var intrn: DynBuf<byte>
    ghost var Repr: set<object>

    /**
     * `encap` is the slot count: 0 before the first growth, otherwise a power
     * of two (at most 2^31, since the next doubling wraps a u32 to 0).
     * `inuse` is a u32. Every stored view lies inside the backing buffer.
     */
    ghost predicate Valid()
      reads this, Repr
    {
      intrn in Repr && Repr == {this, entrs} + intrn.Repr &&
      this !in intrn.Repr && entrs !in intrn.Repr && intrn.Valid() &&
      entrs.Length == encap && (encap == 0 || IsPow2(encap)) && encap <= 0x8000_0000 &&
      inuse < U32 &&
      forall k :: 0 <= k < encap && entrs[k].Some? ==> Inside(intrn.Contents, entrs[k].value)
    }

    /** The zero-initialised `HSet` (`= {}`): no slots, nothing in use, empty backing buffer. */
    constructor ()
      ensures Valid() && fresh(Repr)
      ensures encap == 0 && inuse == 0 && intrn.Contents == []
    {
      entrs := new Slot[0];
      inuse, encap := 0, 0;
      intrn := new DynBuf<byte>();
      new;
      Repr := {this, entrs} + intrn.Repr;
    }

    /**
     * grow (src/hashtable.c:37-63): the new slot count is 0x1000 for an
     * empty table and otherwise double the old one, as a u32; a doubling
     * that wraps to 0 makes the zero-length mmap fail and the assert at
     * :44 abort (`ok` false). The old entries are reinserted by
     * insert_unique_in_cap, but `while (ben++ < een)` visits slots
     * 1 .. encap: slot 0 is never reinserted, and the slot one past the end
     * is taken to be empty.
     */
    method Grow() returns (ok: bool)
      requires Valid()
      modifies this
      ensures ok <==> old(encap) != 0x8000_0000
      ensures ok ==> Valid() && fresh(Repr - old(Repr)) && fresh(entrs)
      ensures ok ==> encap == (if old(encap) == 0 then 0x1000 else 2 * old(encap))
      ensures ok ==> Stored(entrs[..], 0, encap) == Stored(old(entrs[..]), 1, old(encap))
      ensures inuse == old(inuse) && intrn == old(intrn)
    {
      var newCap := if encap == 0 then 0x1000 else Wrap32(2 * encap);
      if newCap == 0 {
        return false;
      }
      ok := true;
      GrownCapacity(encap);
      var nentrs := new Slot[newCap](_ => None);
      assert Stored(nentrs[..], 0, newCap) == {};
      if encap != 0 {
        Rehash(entrs, intrn.buffer[..intrn.len], nentrs);
      }
      entrs, encap := nentrs, newCap;
      Repr := {this, entrs} + intrn.Repr;
    }

    /**
     * The probe of insert_str (src/hashtable.c:72-88) on a table that has
     * slots. The loop at :75 reads `ent` once, before the first iteration:
     * an empty home slot ends it at once and the key is appended to `intrn`
     * and stored there; a home slot holding the same bytes returns that view;
     * any other home slot keeps the condition true forever (`ProbeSpins`).
     */
    method ProbeInsert(key: seq<byte>) returns (r: InsertResult)
      requires Valid() && encap > 0 && intrn.len + |key| < MaxLen
      modifies Repr
      ensures Valid() && fresh(Repr - old(Repr)) && encap == old(encap)
      ensures !r.GrowAborts?
      ensures var home := Home(key, encap);
        match old(entrs[home])
        case None =>
          r == Inserted(View(old(|intrn.Contents|), |key|)) &&
          intrn.Contents == old(intrn.Contents) + key &&
          entrs == old(entrs) && entrs[..] == old(entrs[..])[home := Some(r.view)] &&
          inuse == Wrap32(old(inuse) + 1)
        case Some(v) =>
          (if Equal(old(intrn.Contents), v, key) then r == Existing(v) else r == ProbeSpins) &&
          unchanged(this) && entrs[..] == old(entrs[..]) && intrn.Contents == old(intrn.Contents)
      ensures Stored(entrs[..], 0, encap) == Stored(old(entrs[..]), 0, encap) + (if r.Inserted? then {r.view} else {})
      ensures r.Inserted? ==> Equal(intrn.Contents, r.view, key)
    {
      var h := FnvHash(key);
      var idx := BitAnd(h, encap - 1);
      MaskBelow(h, encap);
      if entrs[idx].Some? {
        r := MatchHome(key, idx);
        return;
      }
      r := StoreAt(key, idx);
    }

    /**
     * An occupied home slot in insert_str (src/hashtable.c:75-80): its view
     * is returned when it has the key's length and bytes; otherwise the
     * loop condition stays true and the probe never ends.
     */
    method MatchHome(key: seq<byte>, idx: nat) returns (r: InsertResult)
      requires Valid() && idx < encap && entrs[idx].Some?
      ensures Equal(intrn.Contents, entrs[idx].value, key) ==> r == Existing(entrs[idx].value)
      ensures !Equal(intrn.Contents, entrs[idx].value, key) ==> r == ProbeSpins
    {
      var v := entrs[idx].value;
      assert intrn.Contents == intrn.buffer[..intrn.len];
      if v.len == |key| && intrn.buffer[v.off .. v.off + v.len] == key {
        return Existing(v);
      }
      return ProbeSpins;
    }

    /** The empty-home-slot case of insert_str (src/hashtable.c:82-88): append the key's bytes, store the view, count it. */
    method StoreAt(key: seq<byte>, idx: nat) returns (r: InsertResult)
      requires Valid() && idx < encap && entrs[idx].None? && intrn.len + |key| < MaxLen
      modifies Repr
      ensures Valid() && fresh(Repr - old(Repr)) && encap == old(encap)
      ensures r == Inserted(View(old(|intrn.Contents|), |key|)) && intrn.Contents == old(intrn.Contents) + key
      ensures entrs == old(entrs) && entrs[..] == old(entrs[..])[idx := Some(r.view)]
      ensures inuse == Wrap32(old(inuse) + 1)
      ensures Stored(entrs[..], 0, encap) == Stored(old(entrs[..]), 0, encap) + {r.view}
      ensures Equal(intrn.Contents, r.view, key)
    {
      ghost var data := intrn.Contents;
      ghost var pre := entrs[..];
      var start := intrn.AppendBuf(key);
      var v := View(start, |key|);
      entrs[idx] := Some(v);
      inuse := Wrap32(inuse + 1);
      Repr := {this, entrs} + intrn.Repr;
      r := Inserted(v);
      StoredFill(pre, idx, v);
      assert intrn.Contents[v.off .. v.off + v.len] == key;
      assert forall k :: 0 <= k < encap && entrs[k].Some? ==> Inside(intrn.Contents, entrs[k].value) by {
        forall k | 0 <= k < encap && entrs[k].Some?
          ensures Inside(intrn.Contents, entrs[k].value)
        {
          if k != idx {
            assert Inside(data, entrs[k].value);
          }
        }
      }
    }

    /**
     * insert_str (src/hashtable.c:65-89): grow first when
     * `inuse * PHI >= encap`, then probe the key's home slot. The views held
     * afterwards are those held before (all but slot 0's after a growth)
     * plus the inserted one, and without a growth only the home slot changes.
     * A key whose bytes the home slot already holds gets that view back.
     */
    method InsertStr(key: seq<byte>) returns (r: InsertResult)
      requires Valid() && intrn.len + |key| < MaxLen
      modifies Repr
      ensures r.GrowAborts? <==> NeedsGrow(old(inuse), old(encap)) && old(encap) == 0x8000_0000
      ensures !r.GrowAborts? ==> Valid() && fresh(Repr - old(Repr))
      ensures !r.GrowAborts? ==> encap == if !NeedsGrow(old(inuse), old(encap)) then old(encap)
                                     else if old(encap) == 0 then 0x1000 else 2 * old(encap)
      ensures !r.GrowAborts? ==> var home := Home(key, encap);
        && entrs[home].Some?
        && (r.Existing? ==> entrs[home] == Some(r.view) && Equal(intrn.Contents, r.view, key) &&
                            inuse == old(inuse) && intrn.Contents == old(intrn.Contents))
        && (r.Inserted? ==> entrs[home] == Some(r.view) && r.view == View(old(|intrn.Contents|), |key|) &&
                            Equal(intrn.Contents, r.view, key) &&
                            intrn.Contents == old(intrn.Contents) + key && inuse == Wrap32(old(inuse) + 1))
        && (r.ProbeSpins? ==> !Equal(intrn.Contents, entrs[home].value, key))
      ensures !r.GrowAborts? ==>
        Stored(entrs[..], 0, encap) ==
          Stored(old(entrs[..]), if NeedsGrow(old(inuse), old(encap)) then 1 else 0, old(encap)) +
          (if r.Inserted? then {r.view} else {})
      ensures !NeedsGrow(old(inuse), old(encap)) ==>
        entrs[..] == if r.Inserted? then old(entrs[..])[Home(key, encap) := Some(r.view)] else old(entrs[..])
      ensures !NeedsGrow(old(inuse), old(encap)) && old(encap) > 0 ==>
        var slot := old(entrs[..])[Home(key, old(encap))];
        slot.Some? && Equal(old(intrn.Contents), slot.value, key) ==> r == Existing(slot.value)
    {
      if NeedsGrow(inuse, encap) {
        var ok := Grow();
        if !ok {
          return GrowAborts;
        }
      } else {
        NoGrowRoom(inuse, encap);
      }
      r := ProbeInsert(key);
    }

    /**
     * Interning the same bytes twice without a growth in between: the
     * second insert_str finds the view the first one returned.
     */
    method InsertTwice(key: seq<byte>) returns (r1: InsertResult, r2: InsertResult)
      requires Valid() && intrn.len + 2 * |key| < MaxLen
      requires !NeedsGrow(inuse, encap) && !NeedsGrow(Wrap32(inuse + 1), encap)
      modifies Repr
      ensures r1.Existing? || r1.Inserted? ==> r2 == Existing(r1.view)
    {
      r1 := InsertStr(key);
      if r1.Existing? || r1.Inserted? {
        r2 := InsertStr(key);
      } else {
        r2 := r1;
      }
    }

    /** insert (src/hashtable.c:117-120): insert_str on the first `len` bytes of `text`. */
    method Insert(text: seq<byte>, len: nat) returns (r: InsertResult)
      requires Valid() && len <= |text| && intrn.len + len < MaxLen
      modifies Repr
      ensures r.GrowAborts? <==> NeedsGrow(old(inuse), old(encap)) && old(encap) == 0x8000_0000
      ensures !r.GrowAborts? ==> Valid() && fresh(Repr - old(Repr))
      ensures r.Existing? ==> Equal(intrn.Contents, r.view, text[..len]) && inuse == old(inuse) &&
                              intrn.Contents == old(intrn.Contents)
      ensures r.Inserted? ==> r.view == View(old(|intrn.Contents|), len) &&
                              intrn.Contents == old(intrn.Contents) + text[..len] &&
                              inuse == Wrap32(old(inuse) + 1)
    {
      r := InsertStr(text[..len]);
    }

    /**
     * remove_str (src/hashtable.c:91-115). With no slots the mask is
     * 0xFFFFFFFF and the NULL slot array is read (`Faults`). Otherwise
     * probing stops at the first empty slot (not found) or at the first
     * occupied slot whose view agrees with the key on their common prefix,
     * which is cleared (no tombstone is left). A table with no empty slot
     * and no agreeing view is probed forever (`Spins`). `inuse` is
     * decremented, as a u32, whether or not anything was removed.
     */
    method RemoveStr(key: seq<byte>) returns (r: RemoveResult)
      requires Valid()
      modifies this, entrs
      ensures r.RemoveFaults? <==> old(encap) == 0
      ensures intrn == old(intrn) && entrs == old(entrs) && encap == old(encap) && Repr == old(Repr)
      ensures r.Removed? ==> Valid() && inuse == Wrap32(old(inuse) - 1)
      ensures r.Removed? ==> var home := Home(key, encap);
        exists d: nat :: d < encap && Mismatched(old(entrs[..]), intrn.Contents, home, d, key) &&
          var slot := old(entrs[ProbeAt(home, d, encap)]);
          if r.there then slot.Some? && PrefixAgrees(intrn.Contents, slot.value, key) &&
                          entrs[..] == old(entrs[..])[ProbeAt(home, d, encap) := None]
          else slot.None? && entrs[..] == old(entrs[..])
      ensures r.RemoveSpins? ==> Mismatched(entrs[..], intrn.Contents, Home(key, encap), encap, key)
    {
      if encap == 0 {
        return RemoveFaults;
      }
      var idx, d := RemoveProbe(key);
      if d == encap {
        return RemoveSpins;
      }
      if entrs[idx].Some? {
        entrs[idx] := None;
        r := Removed(true);
      } else {
        r := Removed(false);
      }
      inuse := Wrap32(inuse - 1);
    }

    /**
     * The probe loop of remove_str (src/hashtable.c:94-110): from the home
     * slot, step while the slot is occupied by a view that disagrees with
     * `key`. Stops after `d` steps at slot `idx`, or gives up with
     * `d == encap` once every slot has been probed.
     */
    method RemoveProbe(key: seq<byte>) returns (idx: nat, d: nat)
      requires Valid() && encap > 0
      ensures d <= encap && Mismatched(entrs[..], intrn.Contents, Home(key, encap), d, key)
      ensures d < encap ==>
        idx == ProbeAt(Home(key, encap), d, encap) &&
        (entrs[idx].None? || PrefixAgrees(intrn.Contents, entrs[idx].value, key))
    {
      var h := FnvHash(key);
      var home := BitAnd(h, encap - 1);
      MaskBelow(h, encap);
      var data := intrn.buffer[..intrn.len];
      idx, d := ProbeRun(entrs, data, home, key);
    }
  }

  /**
   * Linear probing over `entrs` from `home` while the slot is occupied by a
   * view that disagrees with `key`: stops after `d` steps at slot `idx`, or
   * gives up with `d` equal to the capacity once every slot was probed.
   */
  method ProbeRun(entrs: array<Slot>, data: seq<byte>, home: nat, key: seq<byte>) returns (idx: nat, d: nat)
    requires IsPow2(entrs.Length) && home < entrs.Length
    ensures d <= entrs.Length && Mismatched(entrs[..], data, home, d, key)
    ensures d < entrs.Length ==>
      idx == ProbeAt(home, d, entrs.Length) && (entrs[idx].None? || PrefixAgrees(data, entrs[idx].value, key))
  {
    var m := entrs.Length;
    idx, d := home, 0;
    while d < m && entrs[idx].Some? && !PrefixAgrees(data, entrs[idx].value, key)
      invariant d <= m && idx == ProbeAt(home, d, m)
      invariant Mismatched(entrs[..], data, home, d, key)
    {
      MismatchedStep(entrs[..], data, home, d, key);
      ProbeStep(home, d, m);
      idx := BitAnd(idx + 1, m - 1);
      d := d + 1;
    }
  }

  datatype InsertResult = Existing(view: View) | Inserted(view: View) | ProbeSpins | GrowAborts

  datatype RemoveResult = Removed(there: bool) | RemoveSpins | RemoveFaults
}
