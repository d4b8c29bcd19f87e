/**
 The included-file store of src/app/session.c: an array that grows by doubling a
 32-bit capacity, whose entries are copied when it grows. Allocation succeeds.
 */
module IncludedFiles {
  import opened Words
  import opened Bits
  import opened CStrings
  import opened Errors

  /** The largest capacity doubling 4 reaches without wrapping around. */
  const LARGEST: nat := 0x8000_0000

  /** borrowed and metadataOnly are the bits of attributes. data is null or points to size bytes. */
  datatype Entry = Entry(name: CString, data: Option<seq<Byte>>, size: nat,
                         owners: seq<nat>, ownerCapacity: nat, borrowed: bool, metadataOnly: bool)

  datatype Metadata = Metadata(owners: Option<seq<nat>>, borrowed: bool, metadataOnly: bool)

  /** nmo_session_copy_owner_ids: no ids keep the buffer, more ids than it holds replace it. */
  function WithOwners(e: Entry, ids: Option<seq<nat>>): Entry {
    if ids == None || ids.value == [] then e.(owners := [])
    else e.(owners := ids.value, ownerCapacity := if e.ownerCapacity < |ids.value| then |ids.value| else e.ownerCapacity)
  }

  /** The entry that storing makes of its arguments. */
  function MakeEntry(name: CString, data: Option<seq<Byte>>, size: nat, copyPayload: bool, meta: Option<Metadata>): Entry
    requires data.Some? ==> size <= |data.value|
  {
    var metadataOnly := meta.Some? && meta.value.metadataOnly;
    var payload := if size > 0 && !metadataOnly && data.Some? then Some(data.value[..size]) else None;
    var e := Entry(name, payload, size, [], 0, !copyPayload || (meta.Some? && meta.value.borrowed), metadataOnly);
    if meta.Some? then WithOwners(e, meta.value.owners) else e
  }

  /** What every stored entry is like: a payload of its size, or none, and none only if empty or metadata. */
  predicate Sound(e: Entry) {
    && (e.data.Some? ==> e.size > 0 && |e.data.value| == e.size)
    && (e.data.None? && e.size > 0 ==> e.metadataOnly)
    && |e.owners| <= e.ownerCapacity
  }

  lemma MadeSound(name: CString, data: Option<seq<Byte>>, size: nat, copyPayload: bool, meta: Option<Metadata>)
    requires data.Some? ==> size <= |data.value|
    requires size > 0 && data == None ==> meta.Some? && meta.value.metadataOnly
    ensures Sound(MakeEntry(name, data, size, copyPayload, meta))
  {
  }

  /** The ids given are the owners, none given means none; nothing else changes, and the buffer never shrinks. */
  lemma OwnersReplaced(e: Entry, ids: Option<seq<nat>>)
    requires |e.owners| <= e.ownerCapacity
    ensures var r := WithOwners(e, ids);
      && r.owners == (if ids == None then [] else ids.value)
      && r.name == e.name && r.data == e.data && r.size == e.size
      && r.borrowed == e.borrowed && r.metadataOnly == e.metadataOnly
      && r.ownerCapacity >= e.ownerCapacity && r.ownerCapacity >= |r.owners|
      && r.ownerCapacity in {e.ownerCapacity, |r.owners|}
  {
  }

  /** What is stored: the name, the size, the first size bytes of the payload unless there is to be none, the owners, the attributes. */
  lemma StoredIs(name: CString, data: Option<seq<Byte>>, size: nat, copyPayload: bool, meta: Option<Metadata>)
    requires data.Some? ==> size <= |data.value|
    ensures var e := MakeEntry(name, data, size, copyPayload, meta);
      && e.name == name && e.size == size
      && (e.metadataOnly <==> meta.Some? && meta.value.metadataOnly)
      && (e.borrowed <==> !copyPayload || (meta.Some? && meta.value.borrowed))
      && e.owners == (if meta == None || meta.value.owners == None then [] else meta.value.owners.value)
      && (e.data.Some? <==> data.Some? && size > 0 && !e.metadataOnly)
      && (e.data.Some? ==> |e.data.value| == size && forall i :: 0 <= i < size ==> e.data.value[i] == data.value[i])
  {
  }

  // Growing.

  function Double32(c: nat): nat {
    c * 2 % UINT32_COUNT
  }

  /** The capacity after j rounds of the doubling loop. */
  function Doubled(c: nat, j: nat): nat {
    if j == 0 then c else Double32(Doubled(c, j - 1))
  }

  ghost predicate FourTimesPowerOfTwo(c: nat) {
    exists k: nat :: k <= 29 && c == 4 * Pow2(k)
  }

  lemma LargestIsPower()
    ensures LARGEST == 4 * Pow2(29)
  {
    Pow2Values();
    Pow2Add(29, 3);
    assert Pow2(3) == 8;
  }

  lemma DoublingStays(c: nat)
    requires FourTimesPowerOfTwo(c)
    ensures 4 <= c <= LARGEST
    ensures c < LARGEST ==> Double32(c) == 2 * c && FourTimesPowerOfTwo(2 * c)
    ensures c == LARGEST ==> Double32(c) == 0
  {
    LargestIsPower();
    var k: nat :| k <= 29 && c == 4 * Pow2(k);
    Pow2Monotone(k, 29);
    if c < LARGEST {
      assert k < 29;
      Pow2Monotone(k + 1, 29);
      assert 2 * c == 4 * Pow2(k + 1);
    }
  }

  lemma {:induction false} DoubledBounded(c: nat, j: nat)
    requires FourTimesPowerOfTwo(c)
    ensures Doubled(c, j) == 0 || FourTimesPowerOfTwo(Doubled(c, j))
    decreases j
  {
    if j > 0 {
      DoubledBounded(c, j - 1);
      if Doubled(c, j - 1) != 0 {
        DoublingStays(Doubled(c, j - 1));
      }
    }
  }

  lemma {:induction false} DoubledReaches(c: nat, needed: nat) returns (j: nat)
    requires FourTimesPowerOfTwo(c) && needed <= LARGEST
    ensures Doubled(c, j) >= needed
    decreases LARGEST - c
  {
    DoublingStays(c);
    if c >= needed {
      j := 0;
    } else {
      var i := DoubledReaches(2 * c, needed);
      DoubledShift(c, i);
      j := i + 1;
    }
  }

  lemma {:induction false} DoubledShift(c: nat, j: nat)
    ensures Doubled(Double32(c), j) == Doubled(c, j + 1)
  {
    if j > 0 {
      DoubledShift(c, j - 1);
    }
  }

  /** From any capacity the store can have, the doubling loop ends exactly when no more than 2^31 slots are needed. */
  lemma DoublingEndsIff(c: nat, needed: nat)
    requires FourTimesPowerOfTwo(c)
    ensures (exists j: nat :: Doubled(c, j) >= needed) <==> needed <= LARGEST
  {
    if needed <= LARGEST {
      var j := DoubledReaches(c, needed);
    } else {
      forall j: nat
        ensures Doubled(c, j) < needed
      {
        DoubledBounded(c, j);
        if Doubled(c, j) != 0 {
          DoublingStays(Doubled(c, j));
        }
      }
    }
  }

  /** The doubling loop: it ends with the first capacity that is enough. */
  method NextCapacity(capacity: nat, needed: nat) returns (newCapacity: nat, ghost rounds: nat)
    requires capacity == 0 || FourTimesPowerOfTwo(capacity)
    requires needed <= LARGEST
    ensures FourTimesPowerOfTwo(newCapacity)
    ensures var start := if capacity == 0 then 4 else capacity;
      newCapacity == Doubled(start, rounds) >= needed && forall j :: 0 <= j < rounds ==> Doubled(start, j) < needed
  {
    newCapacity, rounds := if capacity != 0 then capacity else 4, 0;
    ghost var start := newCapacity;
    assert Pow2(0) == 1;
    assert FourTimesPowerOfTwo(4);
    while newCapacity < needed
      invariant FourTimesPowerOfTwo(newCapacity) && newCapacity == Doubled(start, rounds)
      invariant forall j :: 0 <= j < rounds ==> Doubled(start, j) < needed
      decreases if newCapacity < needed then needed - newCapacity else 0
    {
      DoublingStays(newCapacity);
      newCapacity, rounds := newCapacity * 2 % UINT32_COUNT, rounds + 1;
    }
  }

  /** One slot more than a full capacity doubles it once. */
  lemma OneSlotMore(capacity: nat, rounds: nat)
    requires FourTimesPowerOfTwo(capacity) && capacity < LARGEST
    requires Doubled(capacity, rounds) > capacity && forall j :: 0 <= j < rounds ==> Doubled(capacity, j) <= capacity
    ensures Doubled(capacity, rounds) == 2 * capacity
  {
    DoublingStays(capacity);
    assert Doubled(capacity, 0) == capacity;
    assert Doubled(capacity, 1) == 2 * capacity;
  }

  class IncludedFileStore {
    var files: array<Entry>
    var count: nat
    var capacity: nat
    /** How many entries have been copied by growing so far. */
    ghost var copied: nat

    ghost predicate Valid()
      reads this, files
    {
      && count <= capacity == files.Length
      && (capacity == 0 || FourTimesPowerOfTwo(capacity))
      && forall i :: 0 <= i < count ==> Sound(files[i])
    }

    /** The store has grown one slot at a time, as storing makes it grow. */
    ghost predicate Packed()
      reads this
    {
      copied == (if capacity == 0 then 0 else capacity - 4) && (capacity > 4 ==> capacity <= 2 * count)
    }

    ghost function Contents(): seq<Entry>
      reads this, files
      requires Valid()
    {
      files[..count]
    }

    constructor ()
      ensures Valid() && Packed() && fresh(files) && Contents() == [] && copied == 0
    {
      files := new Entry[0];
      count, capacity, copied := 0, 0, 0;
    }

    /** nmo_session_reserve_included_files; storing, its only caller, asks for one slot more than there are entries. */
    method Reserve(needed: nat)
      requires Valid() && needed <= LARGEST
      modifies this
      ensures Valid() && (files == old(files) || fresh(files))
      ensures capacity >= needed && count == old(count) && Contents() == old(Contents())
      ensures copied == old(copied) + if old(capacity) >= needed then 0 else count
      ensures old(Packed()) && needed == count + 1 ==> Packed()
    {
      if capacity >= needed {
        return;
      }
      var newCapacity, rounds := NextCapacity(capacity, needed);
      if capacity > 0 {
        if needed == capacity + 1 {
          OneSlotMore(capacity, rounds);
        }
      } else {
        assert Doubled(4, 0) == 4;
      }
      var newBlock := new Entry[newCapacity](_ => Entry([], None, 0, [], 0, false, false));
      var i := 0;
      while i < count
        modifies newBlock
        invariant 0 <= i <= count
        invariant forall k :: 0 <= k < i ==> newBlock[k] == files[k]
      {
        newBlock[i] := files[i];
        i := i + 1;
      }
      copied := copied + count;
      files, capacity := newBlock, newCapacity;
    }

    /** nmo_session_store_included_file */
    method Store(name: Option<CString>, data: Option<seq<Byte>>, size: nat, copyPayload: bool, meta: Option<Metadata>)
      returns (code: int)
      requires Valid() && count < LARGEST
      requires data.Some? ==> size <= |data.value|
      modifies this, files
      ensures Valid() && (files == old(files) || fresh(files))
      ensures var rejected := name == None || (size > 0 && data == None && !(meta.Some? && meta.value.metadataOnly));
        && code == (if rejected then NMO_ERR_INVALID_ARGUMENT else NMO_OK)
        && Contents() == (if rejected then old(Contents())
                          else old(Contents()) + [MakeEntry(name.value, data, size, copyPayload, meta)])
      ensures old(Packed()) ==> Packed()
    {
      var metadataOnly := meta.Some? && meta.value.metadataOnly;
      if name == None {
        return NMO_ERR_INVALID_ARGUMENT;
      }
      if size > 0 && data == None && !metadataOnly {
        return NMO_ERR_INVALID_ARGUMENT;
      }
      Reserve(count + 1);
      hide FourTimesPowerOfTwo;
      MadeSound(name.value, data, size, copyPayload, meta);
      var payload := if size > 0 && !metadataOnly && data.Some? then Some(data.value[..size]) else None;
      var entry := Entry(name.value, payload, size, [], 0, !copyPayload, false);
      if meta.Some? {
        entry := entry.(borrowed := entry.borrowed || meta.value.borrowed, metadataOnly := meta.value.metadataOnly);
        entry := WithOwners(entry, meta.value.owners);
      }
      ghost var before := Contents();
      files[count] := entry;
      count := count + 1;
      assert Contents() == before + [entry];
      return NMO_OK;
    }

    /** nmo_session_set_included_file_owners */
    method SetOwners(index: nat, ids: Option<seq<nat>>) returns (code: int)
      requires Valid()
      modifies files
      ensures Valid()
      ensures code == if index >= count then NMO_ERR_INVALID_ARGUMENT else NMO_OK
      ensures Contents() ==
        if index >= count then old(Contents())
        else old(Contents())[index := WithOwners(old(Contents())[index], ids)]
    {
      if index >= count {
        return NMO_ERR_INVALID_ARGUMENT;
      }
      files[index] := WithOwners(files[index], ids);
      return NMO_OK;
    }

    /** However the entries came in, growing has copied fewer than two old entries for each one stored. */
    lemma CopiesAmortised()
      requires Packed() && count > 0
      ensures copied < 2 * count
    {
    }
  }
}
