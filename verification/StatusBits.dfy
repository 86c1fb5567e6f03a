/** The status list's bit array: two bits an entry, packed LSB-first
    (section 4.1 of draft-ietf-oauth-status-list-21). */
module StatusBits {
  import opened Common

  const VALID: bv8 := 0x00
  const INVALID: bv8 := 0x01
  const SUSPENDED: bv8 := 0x02

  /** The status a list must show at index i: absent entries read as VALID. */
  function StatusAt(entries: map<int, bv8>, i: int): (s: bv8)
    ensures s < 4
    ensures i in entries && entries[i] < 4 ==> s == entries[i]
    ensures i !in entries ==> s == VALID
  {
    if i in entries then entries[i] & 3 else VALID
  }

  function NumBytes(size: int): nat {
    if size < 0 then 0 else (size * 2 + 7) / 8
  }

  /** The relying party's reading of index i. An index past the end of the
      array reads as VALID, which is also what padding must read as. */
  function Unpack(bytes: seq<bv8>, i: int): bv8
    requires 0 <= i
  {
    if i / 4 < |bytes| then ReadSlot(bytes[i / 4], i % 4) else VALID
  }

  function ReadSlot(b: bv8, k: nat): bv8
    requires k < 4
  {
    (b >> (2 * k)) & 3
  }

  function Slot(v: bv8, k: nat): bv8
    requires k < 4
  {
    (v & 3) << (2 * k)
  }

  /** What a list of the given size shows at index i. */
  function Shown(entries: map<int, bv8>, size: int, i: int): bv8 {
    if 0 <= i < size then StatusAt(entries, i) else VALID
  }

  function JoinSlots(a: bv8, b: bv8, c: bv8, d: bv8): bv8 {
    Slot(a, 0) | Slot(b, 1) | Slot(c, 2) | Slot(d, 3)
  }

  function PackedByte(entries: map<int, bv8>, size: int, b: int): bv8 {
    JoinSlots(Shown(entries, size, 4 * b), Shown(entries, size, 4 * b + 1),
              Shown(entries, size, 4 * b + 2), Shown(entries, size, 4 * b + 3))
  }

  /** The array packBitstring has to build, byte by byte. */
  function Packed(entries: map<int, bv8>, size: int): (bytes: seq<bv8>) {
    seq(NumBytes(size), b => PackedByte(entries, size, b))
  }

  /** The three bytes of the example of two-bit statuses in section 4.1 of the
      draft. */
  lemma DraftExample()
    ensures JoinSlots(1, 2, 0, 3) == 0xC9 && JoinSlots(0, 1, 0, 1) == 0x44 && JoinSlots(1, 2, 3, 3) == 0xF9
  {
  }

  lemma SlotsAreIndependent(a: bv8, b: bv8, c: bv8, d: bv8)
    ensures var x := JoinSlots(a, b, c, d);
            && ReadSlot(x, 0) == a & 3 && ReadSlot(x, 1) == b & 3
            && ReadSlot(x, 2) == c & 3 && ReadSlot(x, 3) == d & 3
  {
  }

  lemma SlotsDetermineByte(x: bv8, y: bv8)
    requires forall k: nat :: k < 4 ==> ReadSlot(x, k) == ReadSlot(y, k)
    ensures x == y
  {
    assert ReadSlot(x, 0) == ReadSlot(y, 0);
    assert ReadSlot(x, 1) == ReadSlot(y, 1);
    assert ReadSlot(x, 2) == ReadSlot(y, 2);
    assert ReadSlot(x, 3) == ReadSlot(y, 3);
  }

  lemma ReadPackedByte(entries: map<int, bv8>, size: int, b: int, k: nat)
    requires k < 4
    ensures ReadSlot(PackedByte(entries, size, b), k) == Shown(entries, size, 4 * b + k)
  {
    SlotsAreIndependent(Shown(entries, size, 4 * b), Shown(entries, size, 4 * b + 1),
                        Shown(entries, size, 4 * b + 2), Shown(entries, size, 4 * b + 3));
    assert Shown(entries, size, 4 * b + k) & 3 == Shown(entries, size, 4 * b + k);
  }

  /** Unpacking inverts packing at every index, inside the list, in the
      padding of the last byte and past the end. */
  lemma UnpackPacked(entries: map<int, bv8>, size: int, i: int)
    requires 0 <= i
    ensures Unpack(Packed(entries, size), i) == Shown(entries, size, i)
  {
    if i / 4 < NumBytes(size) {
      ReadPackedByte(entries, size, i / 4, i % 4);
    }
  }

  /** Decoding pins the array down: a byte array is the packed one exactly
      when it has ceil(size/4) bytes and shows each index's status, zeroes in
      the padding included. So no iteration order can change a byte. */
  lemma PackedIsUnique(entries: map<int, bv8>, size: int, bytes: seq<bv8>)
    ensures bytes == Packed(entries, size) <==>
            && |bytes| == (if size <= 0 then 0 else (size + 3) / 4)
            && forall i :: 0 <= i < 4 * |bytes| ==> Unpack(bytes, i) == Shown(entries, size, i)
  {
    var p := Packed(entries, size);
    forall i | 0 <= i
      ensures Unpack(p, i) == Shown(entries, size, i)
    {
      UnpackPacked(entries, size, i);
    }
    if && |bytes| == NumBytes(size)
       && forall i :: 0 <= i < 4 * |bytes| ==> Unpack(bytes, i) == Shown(entries, size, i)
    {
      forall b | 0 <= b < |bytes|
        ensures bytes[b] == p[b]
      {
        forall k: nat | k < 4
          ensures ReadSlot(bytes[b], k) == ReadSlot(p[b], k)
        {
          assert (4 * b + k) / 4 == b && (4 * b + k) % 4 == k;
          assert Unpack(bytes, 4 * b + k) == Unpack(p, 4 * b + k);
        }
        SlotsDetermineByte(bytes[b], p[b]);
      }
    }
  }

  lemma FillSlot(w: bv8, x: bv8, y: bv8, z: bv8, v: bv8, k: nat)
    requires k < 4
    requires (k == 0 ==> w == 0) && (k == 1 ==> x == 0) && (k == 2 ==> y == 0) && (k == 3 ==> z == 0)
    ensures JoinSlots(w, x, y, z) | Slot(v, k) ==
            JoinSlots(if k == 0 then v else w, if k == 1 then v else x, if k == 2 then v else y,
                      if k == 3 then v else z)
  {
    if k == 0 {
    } else if k == 1 {
    } else if k == 2 {
    } else {
    }
  }

  lemma SlotMasks(v: bv8, k: nat)
    requires k < 4
    ensures Slot(v & 3, k) == Slot(v, k)
  {
    assert (v & 3) & 3 == v & 3;
  }

  /** OR-ing one new entry in changes its own byte, and only its own slot. */
  lemma AddEntry(done: map<int, bv8>, size: int, idx: int, v: bv8, b: int)
    requires 0 <= idx < size && idx !in done && 0 <= b
    ensures PackedByte(done[idx := v], size, b) ==
            if b == idx / 4 then PackedByte(done, size, b) | Slot(v, idx % 4) else PackedByte(done, size, b)
  {
    var more := done[idx := v];
    var k := idx % 4;
    assert forall i :: i != idx ==> Shown(more, size, i) == Shown(done, size, i);
    if b == idx / 4 {
      assert idx == 4 * b + k;
      assert Shown(done, size, idx) == 0 && Shown(more, size, idx) == v & 3;
      FillSlot(Shown(done, size, 4 * b), Shown(done, size, 4 * b + 1),
               Shown(done, size, 4 * b + 2), Shown(done, size, 4 * b + 3), v & 3, k);
      SlotMasks(v, k);
    }
  }

  /** An entry outside the list leaves every byte alone. */
  lemma SkipEntry(done: map<int, bv8>, size: int, idx: int, v: bv8, b: int)
    requires idx < 0 || size <= idx
    ensures PackedByte(done[idx := v], size, b) == PackedByte(done, size, b)
  {
    assert forall i :: Shown(done[idx := v], size, i) == Shown(done, size, i);
  }

  /** The packing loop, over the entries in whatever order the map yields them. */
  method PackBitstring(entries: map<int, bv8>, size: int) returns (out: array<bv8>)
    ensures fresh(out)
    ensures out[..] == Packed(entries, size)
  {
    var n := if size < 0 then 0 else size;
    var numBytes := (n * 2 + 7) / 8;
    out := new bv8[numBytes](_ => 0);
    var rest := entries.Keys;
    ghost var done: map<int, bv8> := map[];
    while exists idx :: idx in rest
      invariant rest <= entries.Keys
      invariant done == map i | i in entries.Keys - rest :: entries[i]
      invariant forall b :: 0 <= b < out.Length ==> out[b] == PackedByte(done, size, b)
      decreases |rest|
    {
      var idx :| idx in rest;
      ghost var more := done[idx := entries[idx]];
      if 0 <= idx < size {
        var byteIndex, bitOffset := idx * 2 / 8, idx * 2 % 8;
        assert byteIndex == idx / 4 && bitOffset == 2 * (idx % 4);
        forall b | 0 <= b < out.Length
          ensures PackedByte(more, size, b) ==
                  if b == byteIndex then PackedByte(done, size, b) | Slot(entries[idx], idx % 4)
                  else PackedByte(done, size, b)
        {
          AddEntry(done, size, idx, entries[idx], b);
        }
        out[byteIndex] := out[byteIndex] | ((entries[idx] & 3) << bitOffset);
      } else {
        forall b | 0 <= b < out.Length
          ensures PackedByte(more, size, b) == PackedByte(done, size, b)
        {
          SkipEntry(done, size, idx, entries[idx], b);
        }
      }
      rest := rest - {idx};
      done := more;
    }
    assert done == entries;
  }

  /** size is the smallest list that covers every entry. */
  ghost predicate IsListSize(entries: map<int, bv8>, size: int) {
    && 0 <= size
    && (forall i :: i in entries ==> i < size)
    && (size == 0 || size - 1 in entries)
  }

  /** The service's size loop: one more than the largest index. */
  method ListSize(entries: map<int, bv8>) returns (size: int)
    ensures IsListSize(entries, size)
  {
    size := 0;
    var rest := entries.Keys;
    while exists idx :: idx in rest
      invariant rest <= entries.Keys
      invariant 0 <= size && (size == 0 || size - 1 in entries)
      invariant forall i :: i in entries && i !in rest ==> i < size
      decreases |rest|
    {
      var idx :| idx in rest;
      if idx + 1 > size {
        size := idx + 1;
      }
      rest := rest - {idx};
    }
  }

  /** The size loop and the packer together: the built list shows every
      entry, because no entry meets the packer's skip, and VALID everywhere
      else, however far out one reads. */
  lemma ListShowsEntries(entries: map<int, bv8>, size: int, i: int)
    requires IsListSize(entries, size)
    requires 0 <= i
    ensures Unpack(Packed(entries, size), i) == StatusAt(entries, i)
    ensures i in entries ==> i / 4 < |Packed(entries, size)|
  {
    UnpackPacked(entries, size, i);
  }
}
