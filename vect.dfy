/**
 * LCMBS_VECT_T: a growable array of fixed-size records with a write cursor
 * (`count`) and a read cursor (`pos`). With records of one byte it is also
 * the staging buffer of a request or a response PDU.
 *
 * `data` is the allocated block, `typeSize * size` bytes long. Records are
 * addressed by their byte offset in `data`, which is what the source's
 * `void *` results point at.
 */
module Vect {
  import opened Wrappers
  import opened Bytes

  /** LCMBS_VECT_BLKSIZE: the vector grows in blocks of this many records. */
  const BLKSIZE: nat := 32

  /** The capacity lcmbsVectEnsureSize picks for a request of n > 0 records. */
  function RoundUp(n: nat): nat
    requires n > 0
  {
    ((n - 1) / BLKSIZE + 1) * BLKSIZE
  }

  /** RoundUp(n) is the least multiple of BLKSIZE that holds n records. */
  lemma RoundUpIsLeastBlockMultiple(n: nat)
    requires n > 0
    ensures RoundUp(n) >= n && RoundUp(n) % BLKSIZE == 0
    ensures forall m: nat :: m % BLKSIZE == 0 && m >= n ==> m >= RoundUp(n)
  {
    var q := (n - 1) / BLKSIZE;
    assert RoundUp(n) == q * BLKSIZE + BLKSIZE;
    forall m: nat | m % BLKSIZE == 0 && m >= n
      ensures m >= RoundUp(n)
    {
      var k := m / BLKSIZE;
      assert m == k * BLKSIZE;
      assert k > q;
    }
  }

  lemma MulMono(a: nat, b: nat, c: nat)
    requires b <= c
    ensures a * b <= a * c
  {
  }

  class Vect {
    const typeSize: nat
    var size: nat
    var count: nat
    var pos: nat
    var data: seq<bv8>

    ghost predicate Valid()
      reads this
    {
      typeSize > 0 && |data| == typeSize * size && pos <= count <= size
    }

    /** The bytes of a byte vector written so far. */
    ghost function Bytes(): seq<bv8>
      reads this
      requires Valid() && typeSize == 1
    {
      data[..count]
    }

    /** The bytes of a byte vector not yet pulled. */
    ghost function Unread(): seq<bv8>
      reads this
      requires Valid() && typeSize == 1
    {
      data[pos..count]
    }

    /** lcmbsVectInit: an empty vector of records of `typeSize` bytes, nothing allocated. */
    constructor (typeSize: nat)
      requires typeSize > 0
      ensures Valid() && this.typeSize == typeSize
      ensures size == 0 && count == 0 && pos == 0 && data == []
    {
      this.typeSize := typeSize;
      size, count, pos := 0, 0, 0;
      data := [];
    }

    /**
     * lcmbsVectEnsureSize: a no-op when `size >= n`, otherwise `size` becomes
     * RoundUp(n). The result is the data pointer, which is NULL exactly when
     * nothing has been allocated yet (`size == 0`). Fresh bytes from realloc
     * are indeterminate in C; here they are zero.
     */
    method EnsureSize(n: nat) returns (ok: bool)
      requires Valid()
      modifies this
      ensures Valid()
      ensures size == (if old(size) >= n then old(size) else RoundUp(n))
      ensures ok <==> size > 0
      ensures count == old(count) && pos == old(pos)
      ensures |data| >= |old(data)| && data[..|old(data)|] == old(data)
    {
      if size >= n {
        ok := size > 0;
        return;
      }
      var newSize := RoundUp(n);
      RoundUpIsLeastBlockMultiple(n);
      MulMono(typeSize, size, newSize);
      data := data + seq(typeSize * newSize - typeSize * size, _ => 0);
      size := newSize;
      ok := true;
    }

    /** lcmbsVectClear: both cursors back to 0; the storage is kept. */
    method Clear()
      requires Valid()
      modifies this`count, this`pos
      ensures Valid() && count == 0 && pos == 0
    {
      count := 0;
      pos := 0;
    }

    /** lcmbsVectGet: the offset of record idx, absent exactly when idx >= count. */
    function Get(idx: nat): (r: Option<nat>)
      reads this
      requires Valid()
      ensures r.None? <==> idx >= count
      ensures r.Some? ==> r.value == typeSize * idx && r.value + typeSize <= |data|
    {
      if idx >= count then None
      else
        MulMono(typeSize, idx + 1, size);
        Some(typeSize * idx)
    }

    /**
     * lcmbsVectPut: appends one (uninitialised) record and returns its offset.
     * The capacity grows by one block exactly when the vector was full.
     */
    method Put() returns (r: Option<nat>)
      requires Valid()
      modifies this
      ensures Valid()
      ensures count == old(count) + 1 && pos == old(pos)
      ensures size == old(size) + (if old(count) == old(size) then BLKSIZE else 0)
      ensures r == Some(typeSize * old(count))
      ensures |data| >= |old(data)| && data[..|old(data)|] == old(data)
    {
      if count >= size {
        size := size + BLKSIZE;
        data := data + seq(typeSize * BLKSIZE, _ => 0);
      }
      count := count + 1;
      r := Get(count - 1);
    }

    /** lcmbsVectPull: the record at the read cursor, which then advances; absent when pos >= count. */
    method Pull() returns (r: Option<nat>)
      requires Valid()
      modifies this`pos
      ensures Valid()
      ensures old(pos) >= count ==> r.None? && pos == old(pos)
      ensures old(pos) < count ==> r == Some(typeSize * old(pos)) && pos == old(pos) + 1
    {
      if pos >= count {
        return None;
      }
      r := Get(pos);
      pos := pos + 1;
    }

    /** lcmbsVectPutByte: fails unless the vector holds bytes; appends one byte. */
    method PutByte(v: bv8) returns (ok: bool)
      requires Valid()
      modifies this
      ensures Valid() && pos == old(pos)
      ensures ok == (typeSize == 1)
      ensures !ok ==> count == old(count) && size == old(size) && data == old(data)
      ensures ok ==> count == old(count) + 1 && Bytes() == old(data[..count]) + [v]
    {
      if typeSize != 1 {
        return false;
      }
      var nonNull := EnsureSize(count + 1);
      assert nonNull;
      data := data[count := v];
      count := count + 1;
      ok := true;
    }

    /** lcmbsVectPutWord: appends the two memory bytes of a host word, low byte first. */
    method PutWord(v: bv16) returns (ok: bool)
      requires Valid()
      modifies this
      ensures Valid() && pos == old(pos)
      ensures ok == (typeSize == 1)
      ensures !ok ==> count == old(count) && size == old(size) && data == old(data)
      ensures ok ==> count == old(count) + 2 && Bytes() == old(data[..count]) + LE16(v)
    {
      if typeSize != 1 {
        return false;
      }
      var nonNull := EnsureSize(count + 2);
      assert nonNull;
      var b := LE16(v);
      data := data[count := b[0]][count + 1 := b[1]];
      count := count + 2;
      ok := true;
    }

    /** lcmbsVectPutDByte: appends the four memory bytes of a 32-bit host word. */
    method PutDByte(v: bv32) returns (ok: bool)
      requires Valid()
      modifies this
      ensures Valid() && pos == old(pos)
      ensures ok == (typeSize == 1)
      ensures !ok ==> count == old(count) && size == old(size) && data == old(data)
      ensures ok ==> count == old(count) + 4 && Bytes() == old(data[..count]) + LE32(v)
    {
      if typeSize != 1 {
        return false;
      }
      var nonNull := EnsureSize(count + 4);
      assert nonNull;
      var b := LE32(v);
      data := data[count := b[0]][count + 1 := b[1]][count + 2 := b[2]][count + 3 := b[3]];
      count := count + 4;
      ok := true;
    }

    /** lcmbsVectPullByte: fails when not a byte vector or no byte is left. */
    method PullByte() returns (ok: bool, v: bv8)
      requires Valid()
      modifies this`pos
      ensures Valid()
      ensures ok == (typeSize == 1 && count - old(pos) >= 1)
      ensures !ok ==> pos == old(pos)
      ensures ok ==> v == data[old(pos)] && pos == old(pos) + 1
    {
      if typeSize != 1 || count - pos < 1 {
        return false, 0;
      }
      v := data[pos];
      pos := pos + 1;
      ok := true;
    }

    /** lcmbsVectPullWord: loads a host word from the next two bytes. */
    method PullWord() returns (ok: bool, v: bv16)
      requires Valid()
      modifies this`pos
      ensures Valid()
      ensures ok == (typeSize == 1 && count - old(pos) >= 2)
      ensures !ok ==> pos == old(pos)
      ensures ok ==> v == LoadLE16(data[old(pos)], data[old(pos) + 1]) && pos == old(pos) + 2
    {
      if typeSize != 1 || count - pos < 2 {
        return false, 0;
      }
      v := LoadLE16(data[pos], data[pos + 1]);
      pos := pos + 2;
      ok := true;
    }

    /** lcmbsVectPullDByte: loads a 32-bit host word from the next four bytes. */
    method PullDByte() returns (ok: bool, v: bv32)
      requires Valid()
      modifies this`pos
      ensures Valid()
      ensures ok == (typeSize == 1 && count - old(pos) >= 4)
      ensures !ok ==> pos == old(pos)
      ensures ok ==> v == LoadLE32(data[old(pos)], data[old(pos) + 1], data[old(pos) + 2], data[old(pos) + 3])
      ensures ok ==> pos == old(pos) + 4
    {
      if typeSize != 1 || count - pos < 4 {
        return false, 0;
      }
      v := LoadLE32(data[pos], data[pos + 1], data[pos + 2], data[pos + 3]);
      pos := pos + 4;
      ok := true;
    }
  }
}
