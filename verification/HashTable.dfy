/** kernel/utils/hashtable.c: a bucketed table over any deterministic hash function. */
module HashTable {
  import opened Machine

  const INITIAL_SLOTS: nat := 8
  const INITIAL_THRESHOLD: nat := 4

  datatype Entry = Entry(key: u64, value: u64)

  /** What a hash function answers for a key: a status and the digest words. */
  datatype Hashed = Hashed(st: int, digest: seq<bv32>)

  datatype Found = Value(value: u64) | Error(st: int)

  datatype Outcome = Status(st: int) | Panic

  // ---------------------------------------------------------------- slots

  function Xor(x: bv32, y: bv32): bv32 { x ^ y }

  function XorAll(words: seq<bv32>): bv32 {
    if words == [] then 0 else Xor(XorAll(words[..|words| - 1]), words[|words| - 1])
  }

  function SlotOf(hash: bv32, capacity: nat): (idx: nat)
    requires capacity > 0
    ensures idx < capacity
  {
    hash as int % capacity
  }

  lemma XorGroups(x: bv32, y: bv32, z: bv32)
    ensures Xor(Xor(x, y), z) == Xor(x, Xor(y, z)) && Xor(0, x) == x && Xor(x, 0) == x
  {
  }

  lemma {:induction false} XorSplits(a: seq<bv32>, b: seq<bv32>)
    ensures XorAll(a + b) == Xor(XorAll(a), XorAll(b))
    decreases |b|
  {
    hide Xor;
    if b == [] {
      assert a + b == a;
      XorGroups(XorAll(a), 0, 0);
    } else {
      var front, w := b[..|b| - 1], b[|b| - 1];
      assert (a + b)[..|a + b| - 1] == a + front;
      XorSplits(a, front);
      XorGroups(XorAll(a), XorAll(front), w);
    }
  }

  lemma XorOfOne(w: bv32)
    ensures XorAll([]) == 0 && XorAll([w]) == w
  {
    hide Xor;
    assert [w][..0] == [];
    XorGroups(w, 0, 0);
  }

  /** The words of a digest are combined by exclusive or, whichever way they are split. */
  lemma XorOfParts(a: seq<bv32>, b: seq<bv32>, w: bv32)
    ensures XorAll(a + b) == XorAll(a) ^ XorAll(b) && XorAll([]) == 0 && XorAll([w]) == w
  {
    hide XorAll;
    XorSplits(a, b);
    XorOfOne(w);
  }

  lemma RemainderIs(h: nat, m: nat, q: nat, r: nat)
    requires r < m && h == m * q + r
    ensures h % m == r
  {
    AddMultiple(r, q, m);
  }

  /** A hash that is r above a multiple of the capacity, with r below it, goes to slot r. */
  lemma SlotIsRemainder(hash: bv32, capacity: nat, q: nat, r: nat)
    requires r < capacity && hash as int == capacity * q + r
    ensures SlotOf(hash, capacity) == r
  {
    RemainderIs(hash as int, capacity, q, r);
  }

  ghost predicate KeysDistinct(slot: seq<Entry>) {
    forall i, j :: 0 <= i < j < |slot| ==> slot[i].key != slot[j].key
  }

  predicate HasKey(slot: seq<Entry>, key: u64) {
    exists i :: 0 <= i < |slot| && slot[i].key == key
  }

  function Removed(slot: seq<Entry>, i: nat): seq<Entry>
    requires i < |slot|
  {
    slot[..i] + slot[i + 1..]
  }

  lemma RemovedHolds(slot: seq<Entry>, i: nat)
    requires i < |slot| && KeysDistinct(slot)
    ensures KeysDistinct(Removed(slot, i))
    ensures forall e :: e in Removed(slot, i) <==> e in slot && e.key != slot[i].key
  {
    var r := Removed(slot, i);
    forall e | e in r ensures e in slot && e.key != slot[i].key {
      var k :| 0 <= k < |r| && r[k] == e;
      assert e == slot[if k < i then k else k + 1];
    }
    forall e | e in slot && e.key != slot[i].key ensures e in r {
      var k :| 0 <= k < |slot| && slot[k] == e;
      assert r[if k < i then k else k - 1] == e;
    }
  }

  lemma AppendedHolds(slot: seq<Entry>, key: u64, value: u64)
    requires KeysDistinct(slot) && !HasKey(slot, key)
    ensures KeysDistinct(slot + [Entry(key, value)])
    ensures forall e :: e in slot + [Entry(key, value)] <==> (e in slot && e.key != key) || e == Entry(key, value)
  {
    forall e | e in slot ensures e.key != key {
      var k :| 0 <= k < |slot| && slot[k] == e;
    }
  }

  lemma OverwrittenHolds(slot: seq<Entry>, i: nat, value: u64)
    requires i < |slot| && KeysDistinct(slot)
    ensures var slot' := slot[i := Entry(slot[i].key, value)];
            KeysDistinct(slot') && forall e :: e in slot' <==> (e in slot && e.key != slot[i].key) || e == Entry(slot[i].key, value)
  {
    var slot' := slot[i := Entry(slot[i].key, value)];
    assert slot'[i] == Entry(slot[i].key, value);
    forall e | e in slot && e.key != slot[i].key ensures e in slot' {
      var k :| 0 <= k < |slot| && slot[k] == e;
      assert slot'[k] == e;
    }
  }

  // ---------------------------------------------------------------- the table

  /** The slots hold exactly the pairs of the map, every key in its own slot and once. */
  ghost predicate Represents(slots: seq<seq<Entry>>, hash: u64 -> Hashed, contents: map<u64, u64>)
    requires |slots| > 0
  {
    && (forall i :: 0 <= i < |slots| ==> KeysDistinct(slots[i]))
    && (forall i, e :: 0 <= i < |slots| && e in slots[i] ==>
          hash(e.key).st >= 0 && i == SlotOf(XorAll(hash(e.key).digest), |slots|))
    && (forall i, e :: 0 <= i < |slots| && e in slots[i] ==> e.key in contents && contents[e.key] == e.value)
    && (forall k :: k in contents ==>
          hash(k).st >= 0 && Entry(k, contents[k]) in slots[SlotOf(XorAll(hash(k).digest), |slots|)])
  }

  class HashTable {
    var slots: seq<seq<Entry>>
    var slotCapacity: nat
    var biggestSlotEntryCount: nat
    var slotEntryCountThreshold: nat
    const chew: u64 -> Hashed

    /** The map this table stands for. */
    ghost var contents: map<u64, u64>

    ghost predicate Valid()
      reads this
    {
      && |slots| == slotCapacity > 0
      && biggestSlotEntryCount == 0 < slotEntryCountThreshold
      && Represents(slots, chew, contents)
    }

    /** How many pairs the slot of a key holds. */
    ghost function SlotSize(key: u64): nat
      requires |slots| == slotCapacity > 0
      reads this
    {
      |slots[SlotOf(XorAll(chew(key).digest), slotCapacity)]|
    }

    /** hashtable_init, when its allocation succeeds */
    constructor (chew: u64 -> Hashed)
      ensures Valid() && contents == map[] && this.chew == chew
    {
      this.chew := chew;
      slots := seq(INITIAL_SLOTS, _ => []);
      slotCapacity := INITIAL_SLOTS;
      biggestSlotEntryCount := 0;
      slotEntryCountThreshold := INITIAL_THRESHOLD;
      contents := map[];
    }

    /** hashtable_maybe_enlarge. On a table in use it does nothing and succeeds. Were the guard to let the
        body run, the table would stay right exactly when no key hashes into the new half. */
    method MaybeEnlarge(granted: bool) returns (st: int)
      modifies this`slots, this`slotCapacity, this`slotEntryCountThreshold
      ensures old(Valid()) ==>
                st == 0 && Valid() && slots == old(slots) && slotCapacity == old(slotCapacity) &&
                slotEntryCountThreshold == old(slotEntryCountThreshold)
      ensures old(|slots| == slotCapacity > 0 && Represents(slots, chew, contents)) ==>
                |slots| == slotCapacity > 0 &&
                (Represents(slots, chew, contents) <==>
                 slotCapacity == old(slotCapacity) ||
                 forall k :: k in contents ==> SlotOf(XorAll(chew(k).digest), slotCapacity) < old(slotCapacity))
      ensures st == if old(biggestSlotEntryCount >= slotEntryCountThreshold) && !granted then -ENOMEM else 0
      ensures if old(biggestSlotEntryCount >= slotEntryCountThreshold) && granted
              then slots == old(slots) + seq(old(slotCapacity), _ => []) && slotCapacity == 2 * old(slotCapacity) &&
                   slotEntryCountThreshold == 2 * old(slotEntryCountThreshold)
              else slots == old(slots) && slotCapacity == old(slotCapacity) &&
                   slotEntryCountThreshold == old(slotEntryCountThreshold)
    {
      hide Represents, XorAll, SlotOf;
      if biggestSlotEntryCount < slotEntryCountThreshold {
        return 0;
      }
      if !granted {
        return -ENOMEM;
      }
      if |slots| == slotCapacity > 0 && Represents(slots, chew, contents) {
        EnlargeKeepsIff(slots, chew, contents);
      }
      slots := slots + seq(slotCapacity, _ => []);
      slotCapacity := slotCapacity * 2;
      slotEntryCountThreshold := slotEntryCountThreshold * 2;
      st := 0;
    }

    /** hashtable_key_to_slot_idx */
    method KeyToSlot(key: u64) returns (st: int, idx: nat)
      requires slotCapacity > 0
      ensures if chew(key).st < 0 then st == chew(key).st
              else st == 0 && idx == SlotOf(XorAll(chew(key).digest), slotCapacity)
    {
      idx := 0;
      var hashed := chew(key);
      if hashed.st < 0 {
        return hashed.st, 0;
      }
      var hashidx: bv32 := 0;
      for i := 0 to |hashed.digest|
        invariant hashidx == XorAll(hashed.digest[..i])
      {
        assert hashed.digest[..i + 1][..i] == hashed.digest[..i];
        hashidx := hashidx ^ hashed.digest[i];
      }
      assert hashed.digest[..|hashed.digest|] == hashed.digest;
      return 0, hashidx as int % slotCapacity;
    }

    /** hashtable_insert; `granted` says whether krealloc finds the memory. */
    method Insert(key: u64, value: u64, granted: bool) returns (st: int)
      requires Valid()
      modifies this
      ensures Valid() && slotCapacity == old(slotCapacity)
      ensures st == if chew(key).st < 0 then chew(key).st else if key !in old(contents) && !granted then -ENOMEM else 0
      ensures contents == if st == 0 then old(contents)[key := value] else old(contents)
      ensures st == 0 ==> SlotSize(key) == old(SlotSize(key)) + if key in old(contents) then 0 else 1
    {
      hide XorAll, SlotOf, KeysDistinct, Represents;
      st := MaybeEnlarge(granted);
      if st < 0 {
        return;
      }
      var idx;
      st, idx := KeyToSlot(key);
      if st != 0 {
        return;
      }
      InSlot(slots, chew, contents, key);
      var slot;
      st, slot := AddValueToSlot(key, value, slots[idx], granted);
      if st == 0 {
        SlotReplaced(slots, chew, contents, key, slot, Some(value));
        slots := slots[idx := slot];
        contents := contents[key := value];
      }
    }

    /** hashtable_find_entry: where the key is in its slot. */
    method FindEntry(key: u64, idx: nat) returns (at: Option<nat>)
      requires idx < |slots|
      ensures at == None <==> !HasKey(slots[idx], key)
      ensures at.Some? ==> at.value < |slots[idx]| && slots[idx][at.value].key == key
    {
      for i := 0 to |slots[idx]|
        invariant forall k :: 0 <= k < i ==> slots[idx][k].key != key
      {
        if slots[idx][i].key == key {
          return Some(i);
        }
      }
      at := None;
    }

    /** hashtable_find */
    method Find(key: u64) returns (r: Found)
      requires Valid()
      ensures r == if chew(key).st < 0 then Error(chew(key).st)
                   else if key in contents then Value(contents[key]) else Error(-ENOENT)
    {
      hide XorAll, SlotOf, KeysDistinct, Represents;
      var st, idx := KeyToSlot(key);
      if st != 0 {
        return Error(st);
      }
      InSlot(slots, chew, contents, key);
      var at := FindEntry(key, idx);
      if at == None {
        return Error(-ENOENT);
      }
      assert slots[idx][at.value] in slots[idx];
      r := Value(slots[idx][at.value].value);
    }

    /** hashtable_remove; failing to shrink the slot is fatal. */
    method Remove(key: u64, granted: bool) returns (r: Outcome)
      requires Valid()
      modifies this
      ensures r != Panic ==> Valid() && slotCapacity == old(slotCapacity)
      ensures r == Panic <==> key in old(contents) && !granted && old(SlotSize(key)) > 1
      ensures r != Panic ==> r == Status(if chew(key).st < 0 then chew(key).st else if key !in old(contents) then -ENOENT else 0)
      ensures contents == if r == Status(0) then old(contents) - {key} else old(contents)
    {
      hide XorAll, SlotOf, KeysDistinct, Represents;
      if key in contents { StoredKeysHash(this, key); }
      var st, idx := KeyToSlot(key);
      if st != 0 {
        return Status(st);
      }
      InSlot(slots, chew, contents, key);
      var at := FindEntry(key, idx);
      if at == None {
        return Status(-ENOENT);
      }
      assert slots[idx][at.value] in slots[idx];
      var slot := ShiftDown(slots[idx], at.value);
      if |slot| != 1 && !granted {
        return Panic;
      }
      RemovedHolds(slots[idx], at.value);
      SlotReplaced(slots, chew, contents, key, slot[..|slot| - 1], None);
      slots := slots[idx := slot[..|slot| - 1]];
      contents := contents - {key};
      r := Status(0);
    }
  }

  /** hashtable_add_value_to_slot: overwrites the pair of the key, or grows the slot by one pair. */
  method AddValueToSlot(key: u64, value: u64, slot: seq<Entry>, granted: bool) returns (st: int, slot': seq<Entry>)
    requires KeysDistinct(slot)
    ensures st == if !HasKey(slot, key) && !granted then -ENOMEM else 0
    ensures st != 0 ==> slot' == slot
    ensures st == 0 ==> |slot'| == |slot| + if HasKey(slot, key) then 0 else 1
    ensures st == 0 ==> KeysDistinct(slot') && forall e :: e in slot' <==> (e in slot && e.key != key) || e == Entry(key, value)
  {
    hide KeysDistinct;
    for i := 0 to |slot|
      invariant forall k :: 0 <= k < i ==> slot[k].key != key
    {
      if slot[i].key == key {
        OverwrittenHolds(slot, i, value);
        return 0, slot[i := Entry(key, value)];
      }
    }
    if !granted {
      return -ENOMEM, slot;
    }
    AppendedHolds(slot, key, value);
    return 0, slot + [Entry(key, value)];
  }

  /** The loop of hashtable_remove: everything above position at moves down by one. */
  method ShiftDown(slot: seq<Entry>, at: nat) returns (r: seq<Entry>)
    requires at < |slot|
    ensures |r| == |slot| && r[..|r| - 1] == Removed(slot, at)
  {
    r := slot;
    var e := at;
    while e < |slot| - 1
      invariant at <= e < |slot| == |r|
      invariant forall k :: 0 <= k < |slot| ==> r[k] == slot[if at <= k < e then k + 1 else k]
    {
      r := r[e := r[e + 1]];
      e := e + 1;
    }
  }

  /** A key is in the map exactly when its own slot holds it, and nothing else does. */
  lemma InSlot(slots: seq<seq<Entry>>, hash: u64 -> Hashed, contents: map<u64, u64>, key: u64)
    requires |slots| > 0 && Represents(slots, hash, contents) && hash(key).st >= 0
    ensures key in contents <==> HasKey(slots[SlotOf(XorAll(hash(key).digest), |slots|)], key)
    ensures forall i :: 0 <= i < |slots| && HasKey(slots[i], key) ==> i == SlotOf(XorAll(hash(key).digest), |slots|)
    ensures KeysDistinct(slots[SlotOf(XorAll(hash(key).digest), |slots|)])
    ensures forall e :: e in slots[SlotOf(XorAll(hash(key).digest), |slots|)] ==> e.key in contents && contents[e.key] == e.value
  {
    forall i | 0 <= i < |slots| && HasKey(slots[i], key)
      ensures i == SlotOf(XorAll(hash(key).digest), |slots|) && key in contents
    {
      var j :| 0 <= j < |slots[i]| && slots[i][j].key == key;
      assert slots[i][j] in slots[i];
    }
  }

  lemma StoredKeysHash(ht: HashTable, key: u64)
    requires ht.Valid() && key in ht.contents
    ensures ht.chew(key).st >= 0
  {
  }

  /** Replacing the pair of one key in its slot replaces it in the map. */
  lemma SlotReplaced(slots: seq<seq<Entry>>, hash: u64 -> Hashed, contents: map<u64, u64>, key: u64,
                     slot': seq<Entry>, value: Option<u64>)
    requires |slots| > 0 && Represents(slots, hash, contents) && hash(key).st >= 0 && KeysDistinct(slot')
    requires var slot := slots[SlotOf(XorAll(hash(key).digest), |slots|)];
             forall e :: e in slot' <==> (e in slot && e.key != key) || (value.Some? && e == Entry(key, value.value))
    ensures Represents(slots[SlotOf(XorAll(hash(key).digest), |slots|) := slot'], hash,
                       if value.Some? then contents[key := value.value] else contents - {key})
  {
    hide XorAll, SlotOf, KeysDistinct;
  }

  // ---------------------------------------------------------------- why the guard matters

  lemma DoubledSlot(hash: bv32, capacity: nat)
    requires capacity > 0
    ensures SlotOf(hash, 2 * capacity) < capacity <==> SlotOf(hash, 2 * capacity) == SlotOf(hash, capacity)
  {
    var x := hash as int;
    var half := x / (2 * capacity);
    if x % (2 * capacity) < capacity {
      DivModUnique(x, capacity, 2 * half, x % (2 * capacity));
    }
  }

  /** Doubling the slots without moving entries, as the guarded body of hashtable_maybe_enlarge does,
      would keep the table right exactly when no key hashes into the new half. */
  lemma EnlargeKeepsIff(slots: seq<seq<Entry>>, hash: u64 -> Hashed, contents: map<u64, u64>)
    requires |slots| > 0 && Represents(slots, hash, contents)
    ensures Represents(slots + seq(|slots|, _ => []), hash, contents) <==>
            forall k :: k in contents ==> SlotOf(XorAll(hash(k).digest), 2 * |slots|) < |slots|
  {
    hide XorAll, SlotOf, KeysDistinct;
    var big := slots + seq(|slots|, _ => []);
    NoKeys();
    forall k: u64
      ensures SlotOf(XorAll(hash(k).digest), |big|) < |slots| <==>
              SlotOf(XorAll(hash(k).digest), |big|) == SlotOf(XorAll(hash(k).digest), |slots|)
    {
      DoubledSlot(XorAll(hash(k).digest), |slots|);
    }
    if forall k :: k in contents ==> SlotOf(XorAll(hash(k).digest), |big|) < |slots| {
      assert Represents(big, hash, contents);
    }
  }

  lemma NoKeys()
    ensures KeysDistinct([])
  {
  }
}
