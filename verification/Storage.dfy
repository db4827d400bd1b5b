/** The dense document array (db/storage.cpp): fixed-size documents in one growing byte buffer. */
module DocumentStorage {
  import opened Wrappers
  import opened ByteStrings

  const INITIAL_CAPACITY: nat := 16

  // How documents lie in the buffer

  predicate SlotIs(bytes: Bytes, size: nat, i: nat, doc: Bytes) {
    && |doc| == size
    && i * size + size <= |bytes|
    && bytes[i * size..i * size + size] == doc
  }

  /** Document `i` occupies bytes `i * size` to `(i + 1) * size`. */
  predicate Packed(bytes: Bytes, size: nat, docs: seq<Bytes>) {
    && |docs| * size <= |bytes|
    && forall i {:trigger SlotIs(bytes, size, i, docs[i])} | 0 <= i < |docs| :: SlotIs(bytes, size, i, docs[i])
  }

  lemma SlotsApart(i: nat, j: nat, size: nat)
    requires i < j
    ensures i * size + size <= j * size
  {
    var d: nat := j - i - 1;
    assert j == i + (1 + d);
    assert j * size == i * size + (1 + d) * size;
    assert (1 + d) * size == size + d * size;
  }

  lemma SlotSurvivesWrite(bytes: Bytes, size: nat, i: nat, j: nat, doc: Bytes, new_: Bytes)
    requires SlotIs(bytes, size, j, doc) && i != j && |new_| == size && i * size + size <= |bytes|
    ensures SlotIs(bytes[..i * size] + new_ + bytes[i * size + size..], size, j, doc)
  {
    if j < i {
      SlotsApart(j, i, size);
    } else {
      SlotsApart(i, j, size);
    }
  }

  /** Writing slot `i` replaces document `i`, or adds it when it is the next one. */
  lemma WriteSlot(bytes: Bytes, size: nat, docs: seq<Bytes>, i: nat, doc: Bytes)
    requires Packed(bytes, size, docs) && |doc| == size && i <= |docs| && i * size + size <= |bytes|
    ensures Packed(bytes[..i * size] + doc + bytes[i * size + size..], size, WriteAt(docs, i, doc))
  {
    var bytes' := bytes[..i * size] + doc + bytes[i * size + size..];
    var docs' := WriteAt(docs, i, doc);
    forall j | 0 <= j < |docs'|
      ensures SlotIs(bytes', size, j, docs'[j])
    {
      if j != i {
        assert SlotIs(bytes, size, j, docs[j]);
        SlotSurvivesWrite(bytes, size, i, j, docs[j], doc);
      }
    }
    if i == |docs| {
      assert |docs'| * size == i * size + size;
    }
  }

  /** The next document needs at most one slot more than is in use. */
  lemma NeedAtMostOneMore(count: nat, slots: nat, size: nat)
    requires count <= slots
    ensures size * (count + 1) <= slots * size + size
  {
    var d: nat := slots - count;
    assert slots * size == count * size + d * size;
  }

  lemma MoreRoom(bytes: Bytes, bytes': Bytes, size: nat, docs: seq<Bytes>)
    requires Packed(bytes, size, docs) && bytes <= bytes'
    ensures Packed(bytes', size, docs)
  {
    forall i | 0 <= i < |docs|
      ensures SlotIs(bytes', size, i, docs[i])
    {
      assert SlotIs(bytes, size, i, docs[i]);
    }
  }

  /** `Slots` are all slots ever written; the first `count` are in use. */
  class Storage {
    const docSize: nat
    var data: array<byte>
    var count: nat
    ghost var Slots: seq<Bytes>

    ghost predicate Valid()
      reads this, data
    {
      && docSize > 0 && count <= |Slots| && Packed(data[..], docSize, Slots)
      && (data.Length == 0 || data.Length >= docSize * INITIAL_CAPACITY)
    }

    constructor (docSize: nat)
      requires docSize > 0
      ensures Valid() && fresh(data) && this.docSize == docSize && Slots == [] && count == 0 && data.Length == 0
    {
      this.docSize := docSize;
      data := new byte[0];
      count := 0;
      Slots := [];
    }

    /** `m_data.resize(newSize)`, which only grows here. */
    method Resize(newSize: nat)
      requires Valid() && newSize >= data.Length && newSize >= docSize * INITIAL_CAPACITY
      modifies this`data
      ensures Valid() && fresh(data) && data.Length == newSize
    {
      ghost var before := data[..];
      var bigger := new byte[newSize](_ => 0);
      forall i | 0 <= i < data.Length {
        bigger[i] := data[i];
      }
      assert before == bigger[..data.Length] <= bigger[..];
      MoreRoom(before, bigger[..], docSize, Slots);
      data := bigger;
    }

    method CopyBytes(at: nat, bytes: Bytes)
      requires at + |bytes| <= data.Length
      modifies data
      ensures data[..] == old(data[..])[..at] + bytes + old(data[..])[at + |bytes|..]
    {
      forall k | 0 <= k < |bytes| {
        data[at + k] := bytes[k];
      }
    }

    /** `memcpy` of a document to the start of slot `i`. */
    method CopyIn(i: nat, doc: Bytes)
      requires Valid() && |doc| == docSize && i <= |Slots| && i * docSize + docSize <= data.Length
      modifies data, this`Slots
      ensures Valid() && Slots == WriteAt(old(Slots), i, doc)
    {
      ghost var at, before := i * docSize, data[..];
      ghost var slots := WriteAt(Slots, i, doc);
      WriteSlot(before, docSize, Slots, i, doc);
      CopyBytes(i * docSize, doc);
      assert Packed(data[..], docSize, slots) by {
        assert data[..] == before[..at] + doc + before[at + docSize..];
      }
      Slots := slots;
    }

    /** The growth loop: room for one more document, at most one step away. */
    method Reserve()
      requires Valid()
      modifies this`data
      ensures Valid() && (data == old(data) || fresh(data)) && data.Length >= docSize * (count + 1)
      ensures data.Length == (if old(data.Length) >= docSize * (count + 1) then old(data.Length)
                              else if old(data.Length) == 0 then 16 * docSize
                              else 2 * old(data.Length))
    {
      var need := docSize * (count + 1);
      NeedAtMostOneMore(count, |Slots|, docSize);
      while data.Length < need
        invariant Valid() && (data == old(data) || fresh(data))
        invariant || data.Length == old(data.Length)
                  || (old(data.Length) < need <= data.Length
                      && data.Length == if old(data.Length) == 0 then 16 * docSize else 2 * old(data.Length))
        decreases need - data.Length
      {
        Grow();
      }
    }

    /** Writes the next slot after the documents, which a removal may have left behind. */
    method Put(doc: Bytes) returns (slot: nat)
      requires Valid() && |doc| == docSize
      modifies this, data
      ensures Valid() && (data == old(data) || fresh(data))
      ensures Slots == WriteAt(old(Slots), old(count), doc) && slot == old(count) && count == old(count) + 1
      ensures data.Length == (if old(data.Length) >= docSize * count then old(data.Length)
                              else if old(data.Length) == 0 then 16 * docSize
                              else 2 * old(data.Length))
    {
      Reserve();
      assert count * docSize + docSize == docSize * (count + 1);
      slot := count;
      CopyIn(count, doc);
      count := count + 1;
    }

    /** One growth step: `resize(max(2 * size, doc_size * init_cap))`. */
    method Grow()
      requires Valid()
      modifies this`data
      ensures Valid() && fresh(data) && data.Length > old(data.Length)
      ensures data.Length == if old(data.Length) == 0 then 16 * docSize else 2 * old(data.Length)
    {
      var doubled, initial := data.Length * 2, docSize * INITIAL_CAPACITY;
      Resize(if doubled < initial then initial else doubled);
    }

    /** `memcpy(m_storage[i], doc, doc_size)` */
    method Overwrite(i: nat, doc: Bytes)
      requires Valid() && i < |Slots| && |doc| == docSize
      modifies data, this`Slots
      ensures Valid() && Slots == old(Slots)[i := doc]
    {
      assert SlotIs(data[..], docSize, i, Slots[i]);
      CopyIn(i, doc);
    }

    /** The bytes at `m_storage[i]`. */
    function At(i: nat): (doc: Bytes)
      requires Valid() && i < |Slots|
      reads this, data
      ensures doc == Slots[i] && |doc| == docSize
    {
      assert SlotIs(data[..], docSize, i, Slots[i]);
      data[i * docSize..i * docSize + docSize]
    }

    /** Moves the last document into the freed slot. */
    method Remove(i: nat)
      requires Valid() && i < count
      modifies this, data
      ensures Valid() && data == old(data)
      ensures Slots == old(Slots)[i := old(Slots)[old(count) - 1]] && count == old(count) - 1
    {
      if i != count - 1 {
        Overwrite(i, At(count - 1));
      }
      count := count - 1;
    }
  }
}
