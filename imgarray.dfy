/**
 * ImgArray: an owned byte buffer with its size. The buffer is kept when the
 * requested size equals the current one and is otherwise replaced by a fresh,
 * zero-filled allocation (or by NULL when the allocator fails; the allocator's
 * answer is the parameter `allocOk`).
 */
module ImgArrays {
  import opened Bytes
  import opened Wrappers

  /** An ImgArray as a value: the buffer's bytes (None for NULL) and the size field. */
  datatype Img = Img(buffer: Option<seq<byte>>, size: nat)

  /** A buffer, when there is one, holds `size` bytes. */
  predicate ImgValid(i: Img)
  {
    i.buffer.Some? ==> |i.buffer.value| == i.size
  }

  /** Whether `ImgArray_ensure_buffer` can keep the current buffer for a request of n bytes. */
  predicate Reusable(i: Img, n: nat)
  {
    i.buffer.Some? && i.size == n
  }

  /** `ImgArray_ensure_buffer` on values. */
  function EnsureSpec(i: Img, n: nat, allocOk: bool): Img
  {
    if Reusable(i, n) then i
    else Img(if allocOk then Some(Zeros(n)) else None, n)
  }

  /** A status code with the array it leaves. */
  datatype Copied = Copied(rc: int, img: Img)

  /** `ImgArray_copy_from_raw_buffer` on values: the first n bytes of `src`. */
  function CopyRawSpec(i: Img, src: seq<byte>, n: nat, allocOk: bool): Copied
    requires n <= |src|
  {
    var t := EnsureSpec(i, n, allocOk);
    if t.buffer.None? then Copied(1, t) else Copied(0, Img(Some(src[..n]), n))
  }

  /** `ImgArray_copy_from_array` on values. */
  function CopyArraySpec(i: Img, other: Img, allocOk: bool): Copied
    requires ImgValid(other)
  {
    if other.buffer.None? then Copied(1, i) else CopyRawSpec(i, other.buffer.value, other.size, allocOk)
  }

  /**
   * After ensure_buffer the array is n bytes long; it has no buffer exactly
   * when nothing could be reused and the allocator failed; a new buffer is zeroed.
   */
  lemma EnsureSized(i: Img, n: nat, allocOk: bool)
    requires ImgValid(i)
    ensures var r := EnsureSpec(i, n, allocOk);
            ImgValid(r) && r.size == n &&
            (r.buffer.None? <==> !allocOk && !Reusable(i, n)) &&
            (!Reusable(i, n) && allocOk ==> r.buffer == Some(Zeros(n)))
  {
  }

  /** A raw copy either holds exactly the first n bytes of the source (0) or no buffer at all (1). */
  lemma CopyRawCopies(i: Img, src: seq<byte>, n: nat, allocOk: bool)
    requires n <= |src|
    ensures var c := CopyRawSpec(i, src, n, allocOk);
            ImgValid(c.img) && c.img.size == n &&
            (c.rc == 0 ==> c.img.buffer == Some(src[..n])) &&
            (c.rc != 0 ==> c.rc == 1 && c.img.buffer.None?) &&
            (c.rc == 1 <==> !allocOk && !Reusable(i, n))
  {
  }

  /** Copying from an array with no buffer fails and changes nothing; otherwise success makes a replica. */
  lemma CopyArrayReplicates(i: Img, other: Img, allocOk: bool)
    requires ImgValid(other)
    ensures var c := CopyArraySpec(i, other, allocOk);
            (other.buffer.None? ==> c == Copied(1, i)) &&
            (other.buffer.Some? ==> c.img.size == other.size && (c.rc == 0 <==> c.img == other)) &&
            (c.rc == 0 || c.rc == 1)
  {
    if other.buffer.Some? {
      assert other.buffer.value[..other.size] == other.buffer.value;
    }
  }

  /** A copy into an array of the right size needs no allocation, so it cannot fail. */
  lemma CopyArrayIntoSameSize(i: Img, other: Img, allocOk: bool)
    requires ImgValid(other) && other.buffer.Some? && Reusable(i, other.size)
    ensures CopyArraySpec(i, other, allocOk) == Copied(0, other)
  {
    assert other.buffer.value[..other.size] == other.buffer.value;
  }

  /** Copying the same array again changes nothing and succeeds whatever the allocator says. */
  lemma CopyArrayIdempotent(i: Img, other: Img, allocOk: bool, allocOk': bool)
    requires ImgValid(other)
    requires CopyArraySpec(i, other, allocOk).rc == 0
    ensures var c := CopyArraySpec(i, other, allocOk);
            CopyArraySpec(c.img, other, allocOk') == c
  {
  }

  class ImgArray {
    var buffer: array?<byte>
    var size: nat

    ghost predicate Valid()
      reads this
    {
      buffer != null ==> buffer.Length == size
    }

    /** The array as a value. */
    ghost function Value(): Img
      reads this, buffer
    {
      Img(if buffer == null then None else Some(buffer[..]), size)
    }

    /** The empty array `ImgArray_create` means to return: no buffer, size 0. */
    constructor ()
      ensures Valid() && buffer == null && size == 0 && Value() == Img(None, 0)
    {
      buffer := null;
      size := 0;
    }

    function GetBuffer(): array?<byte>
      reads this
    {
      buffer
    }

    function GetSize(): nat
      reads this
    {
      size
    }

    /** `ImgArray_ensure_buffer`: make the buffer exactly n bytes long and return it. */
    method EnsureBuffer(n: nat, allocOk: bool) returns (target: array?<byte>)
      requires Valid()
      modifies this
      ensures Valid() && target == buffer
      ensures Value() == EnsureSpec(old(Value()), n, allocOk)
      ensures Reusable(old(Value()), n) ==> buffer == old(buffer)
      ensures buffer != old(buffer) ==> buffer == null || fresh(buffer)
    {
      if buffer != null && size == n {
        return buffer;
      }
      if allocOk {
        buffer := new byte[n](_ => 0);
        assert buffer[..] == Zeros(n);
      } else {
        buffer := null;
      }
      size := n;
      target := buffer;
    }

    /** `ImgArray_copy_from_raw_buffer`: copy the first n bytes of `src`. */
    method CopyFromRaw(src: seq<byte>, n: nat, allocOk: bool) returns (rc: int)
      requires Valid() && n <= |src|
      modifies this, buffer
      ensures Valid()
      ensures Copied(rc, Value()) == CopyRawSpec(old(Value()), src, n, allocOk)
      ensures Reusable(old(Value()), n) ==> buffer == old(buffer)
      ensures buffer != old(buffer) ==> buffer == null || fresh(buffer)
    {
      var target := EnsureBuffer(n, allocOk);
      if target == null {
        return 1;
      }
      forall i | 0 <= i < n {
        target[i] := src[i];
      }
      assert target[..] == src[..n];
      return 0;
    }

    /** `ImgArray_copy_from_array`: copy another array's bytes; fails when it has none. */
    method CopyFromArray(other: ImgArray, allocOk: bool) returns (rc: int)
      requires Valid() && other.Valid() && other != this
      requires other.buffer == null || other.buffer != buffer
      modifies this, buffer
      ensures Valid() && other.Value() == old(other.Value())
      ensures Copied(rc, Value()) == CopyArraySpec(old(Value()), old(other.Value()), allocOk)
      ensures old(other.buffer) == null ==> buffer == old(buffer)
      ensures old(other.buffer) != null && Reusable(old(Value()), other.size) ==> buffer == old(buffer)
      ensures buffer != old(buffer) ==> buffer == null || fresh(buffer)
    {
      if other.buffer == null {
        return 1;
      }
      rc := CopyFromRaw(other.buffer[..], other.size, allocOk);
    }
  }
}
