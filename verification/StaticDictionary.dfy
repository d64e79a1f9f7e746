/** The slot dictionary that maps a virtual address to its DMA segment: two
    fixed arrays, a key of 0 marking a free slot.  Used sequentially it is a
    finite map. */
module StaticDictionary {

  const FREE: int := 0
  const RESERVED: int := -1
  const SLOTS: nat := 10

  /** Index of the first occurrence, -1 if there is none. */
  function First(ks: seq<int>, k: int): (i: int)
    ensures -1 <= i < |ks|
    ensures i >= 0 <==> k in ks
    ensures i >= 0 ==> ks[i] == k
    ensures forall j :: 0 <= j < i ==> ks[j] != k
  {
    if |ks| == 0 then -1
    else if ks[0] == k then 0
    else
      var j := First(ks[1..], k);
      assert ks == [ks[0]] + ks[1..];
      if j < 0 then -1 else j + 1
  }

  /** The map the slots stand for: the first slot of a key wins. */
  function Contents<V>(ks: seq<int>, vs: seq<V>): map<int, V>
    requires |ks| == |vs|
  {
    if |ks| == 0 then map[]
    else
      var rest := Contents(ks[1..], vs[1..]);
      if ks[0] == FREE then rest else rest[ks[0] := vs[0]]
  }

  /** No key occupies two slots. */
  predicate OnePerKey(ks: seq<int>)
  {
    forall i, j :: 0 <= i < j < |ks| && ks[i] != FREE ==> ks[i] != ks[j]
  }

  /** Looking up a key in the slots is looking it up in the map. */
  lemma {:induction false} LookupIsMap<V>(ks: seq<int>, vs: seq<V>, k: int)
    requires |ks| == |vs| && k != FREE
    ensures k in Contents(ks, vs) <==> k in ks
    ensures k in ks ==> Contents(ks, vs)[k] == vs[First(ks, k)]
  {
    if |ks| > 0 {
      LookupIsMap(ks[1..], vs[1..], k);
      assert ks == [ks[0]] + ks[1..];
    }
  }

  lemma FreeIsNoKey<V>(ks: seq<int>, vs: seq<V>)
    requires |ks| == |vs|
    ensures FREE !in Contents(ks, vs)
  {
  }

  lemma FirstIs(ks: seq<int>, k: int, i: nat)
    requires i < |ks| && ks[i] == k
    requires forall j :: 0 <= j < i ==> ks[j] != k
    ensures First(ks, k) == i
  {
  }

  /** Overwriting slot i leaves every other key as it was. */
  lemma OtherKeysStay<V>(ks: seq<int>, vs: seq<V>, i: nat, k: int, v: V, j: int)
    requires i < |ks| == |vs| && j != k && j != ks[i]
    ensures
      var m, m' := Contents(ks, vs), Contents(ks[i := k], vs[i := v]);
      (j in m <==> j in m') && (j in m ==> m[j] == m'[j])
  {
    hide Contents, First;
    var ks', vs' := ks[i := k], vs[i := v];
    if j == FREE {
      FreeIsNoKey(ks, vs);
      FreeIsNoKey(ks', vs');
    } else {
      LookupIsMap(ks, vs, j);
      LookupIsMap(ks', vs', j);
      if j in ks {
        assert ks'[First(ks, j)] == j;
        FirstIs(ks', j, First(ks, j));
      }
    }
  }

  /** Putting a key into the first free slot updates the map exactly when no
      earlier slot hides the new entry. */
  lemma AddIsUpdate<V>(ks: seq<int>, vs: seq<V>, k: int, v: V)
    requires |ks| == |vs| && k != FREE && FREE in ks
    ensures
      var i := First(ks, FREE);
      Contents(ks[i := k], vs[i := v]) == Contents(ks, vs)[k := v]
      <==> (k in ks ==> i < First(ks, k) || vs[First(ks, k)] == v)
  {
    hide Contents, First;
    var i := First(ks, FREE);
    var ks', vs' := ks[i := k], vs[i := v];
    assert ks'[i] == k;
    LookupIsMap(ks, vs, k);
    LookupIsMap(ks', vs', k);
    if k in ks && First(ks, k) < i {
      FirstIs(ks', k, First(ks, k));
    } else {
      FirstIs(ks', k, i);
    }
    var m, m' := Contents(ks, vs), Contents(ks', vs');
    forall j | j != k ensures (j in m <==> j in m') && (j in m ==> m[j] == m'[j]) {
      if j == FREE {
        FreeIsNoKey(ks, vs);
        FreeIsNoKey(ks', vs');
      } else {
        OtherKeysStay(ks, vs, i, k, v, j);
      }
    }
  }

  /** Freeing the slot of a key removes it from the map exactly when the key has
      no second slot. */
  lemma RemoveIsDelete<V>(ks: seq<int>, vs: seq<V>, k: int, v: V)
    requires |ks| == |vs| && k != FREE && k in ks
    ensures
      var i := First(ks, k);
      Contents(ks[i := FREE], vs[i := v]) == Contents(ks, vs) - {k} <==> k !in ks[i + 1..]
  {
    hide Contents, First;
    var i := First(ks, k);
    var ks', vs' := ks[i := FREE], vs[i := v];
    LookupIsMap(ks', vs', k);
    assert ks' == ks[..i] + [FREE] + ks[i + 1..];
    assert k in ks' <==> k in ks[i + 1..];
    var m, m' := Contents(ks, vs), Contents(ks', vs');
    forall j | j != k ensures (j in m <==> j in m') && (j in m ==> m[j] == m'[j]) {
      if j == FREE {
        FreeIsNoKey(ks, vs);
        FreeIsNoKey(ks', vs');
      } else {
        OtherKeysStay(ks, vs, i, FREE, v, j);
      }
    }
  }

  function FreeSlots(ks: seq<int>): nat
  {
    if |ks| == 0 then 0 else (if ks[0] == FREE then 1 else 0) + FreeSlots(ks[1..])
  }

  /** Entries and free slots add up to the array. */
  lemma {:induction false} SizeIsUsedSlots<V>(ks: seq<int>, vs: seq<V>)
    requires |ks| == |vs| && OnePerKey(ks)
    ensures |Contents(ks, vs)| + FreeSlots(ks) == |ks|
    ensures FreeSlots(ks) > 0 <==> FREE in ks
  {
    if |ks| > 0 {
      assert forall j :: 0 <= j < |ks| - 1 ==> ks[1..][j] == ks[j + 1];
      SizeIsUsedSlots(ks[1..], vs[1..]);
      assert ks == [ks[0]] + ks[1..];
      if ks[0] != FREE {
        LookupIsMap(ks[1..], vs[1..], ks[0]);
        assert Contents(ks, vs).Keys == Contents(ks[1..], vs[1..]).Keys + {ks[0]};
      }
    }
  }

  class StaticDictionary<V> {
    const keys: array<int>
    const values: array<V>
    const zero: V

    /** Two different arrays of SLOTS places. */
    ghost predicate Shape()
    {
      keys.Length == SLOTS && values.Length == SLOTS && (keys as object) != values
    }

    /** What sequential use with one registration per address keeps. */
    ghost predicate Valid()
      reads keys
    {
      Shape() && OnePerKey(keys[..])
    }

    ghost function Map(): map<int, V>
      requires Shape()
      reads keys, values
    {
      Contents(keys[..], values[..])
    }

    constructor (zero: V)
      ensures Valid() && fresh(keys) && fresh(values) && this.zero == zero
      ensures Map() == map[]
    {
      this.zero := zero;
      keys := new int[SLOTS](_ => FREE);
      values := new V[SLOTS](_ => zero);
      new;
      AllFree(keys[..], values[..]);
    }

    method GetFreeSlot() returns (slot: int)
      requires Shape()
      modifies keys
      ensures slot == First(old(keys[..]), FREE)
      ensures keys[..] == if slot < 0 then old(keys[..]) else old(keys[..])[slot := RESERVED]
    {
      for i := 0 to SLOTS
        invariant FREE !in keys[..i] && keys[..] == old(keys[..])
      {
        if keys[i] == FREE {
          FirstIs(keys[..], FREE, i);
          keys[i] := RESERVED;
          return i;
        }
      }
      assert keys[..SLOTS] == keys[..];
      slot := -1;
    }

    method FindKey(key: int) returns (slot: int)
      requires Shape()
      ensures slot == First(keys[..], key)
    {
      for i := 0 to SLOTS
        invariant key !in keys[..i]
      {
        if keys[i] == key {
          FirstIs(keys[..], key, i);
          return i;
        }
      }
      assert keys[..SLOTS] == keys[..];
      slot := -1;
    }

    /** Fails exactly when every slot is taken.  On the map it is an insertion,
        provided the key is not 0 and not registered yet. */
    method AddToList(key: int, val: V) returns (ok: bool)
      requires Shape()
      modifies keys, values
      ensures ok <==> FREE in old(keys[..])
      ensures !ok ==> keys[..] == old(keys[..]) && values[..] == old(values[..])
      ensures ok ==>
        var i := First(old(keys[..]), FREE);
        keys[..] == old(keys[..])[i := key] && values[..] == old(values[..])[i := val]
      ensures old(Valid()) && key != FREE && key !in old(Map()) ==>
        && Valid()
        && (ok <==> |old(Map())| < SLOTS)
        && Map() == if ok then old(Map())[key := val] else old(Map())
    {
      ghost var ks, vs := keys[..], values[..];
      var slot := GetFreeSlot();
      if slot < 0 {
        if Valid() { SizeIsUsedSlots(ks, vs); }
        return false;
      }
      keys[slot] := key;
      values[slot] := val;
      assert keys[..] == ks[slot := key] && values[..] == vs[slot := val];
      if key != FREE {
        AddIsUpdate(ks, vs, key, val);
        LookupIsMap(ks, vs, key);
        if OnePerKey(ks) { SizeIsUsedSlots(ks, vs); }
      }
      ok := true;
    }

    /** Fails exactly when the key is not there; on the map it is a deletion. */
    method RemoveFromList(key: int) returns (ok: bool)
      requires Shape()
      modifies keys, values
      ensures ok <==> key in old(keys[..])
      ensures !ok ==> keys[..] == old(keys[..]) && values[..] == old(values[..])
      ensures ok ==>
        var i := First(old(keys[..]), key);
        keys[..] == old(keys[..])[i := FREE] && values[..] == old(values[..])[i := zero]
      ensures old(Valid()) && key != FREE ==>
        && Valid()
        && (ok <==> key in old(Map()))
        && Map() == old(Map()) - {key}
    {
      ghost var ks, vs := keys[..], values[..];
      var slot := FindKey(key);
      if key != FREE { LookupIsMap(ks, vs, key); }
      if slot < 0 {
        assert key != FREE ==> Map() == Map() - {key};
        return false;
      }
      keys[slot] := FREE;
      values[slot] := zero;
      assert keys[..] == ks[slot := FREE] && values[..] == vs[slot := zero];
      if key != FREE {
        RemoveIsDelete(ks, vs, key, zero);
        assert OnePerKey(ks) ==> key !in ks[slot + 1..];
      }
      ok := true;
    }

    /** Lookup in the map. */
    method GetValueFromList(key: int) returns (ok: bool, val: V)
      requires Shape()
      ensures ok <==> key in keys[..]
      ensures ok ==> val == values[First(keys[..], key)]
      ensures key != FREE ==> (ok <==> key in Map()) && (ok ==> val == Map()[key])
    {
      var slot := FindKey(key);
      if key != FREE { LookupIsMap(keys[..], values[..], key); }
      if slot < 0 {
        return false, zero;
      }
      return true, values[slot];
    }
  }

  lemma {:induction false} AllFree<V>(ks: seq<int>, vs: seq<V>)
    requires |ks| == |vs| && forall i :: 0 <= i < |ks| ==> ks[i] == FREE
    ensures Contents(ks, vs) == map[]
  {
    if |ks| > 0 { AllFree(ks[1..], vs[1..]); }
  }
}
