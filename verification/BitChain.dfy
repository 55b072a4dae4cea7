/** The bit vector packed into bytes of src/crypto/hashtrees.h:560-649. */
module BitChain {
  import opened Bits

  /** ceil(n / 8) */
  function BytesFor(n: nat): nat { (n + 7) / 8 }

  /** The vector cut or padded with zeros to the length n. */
  function Resized(bits: seq<bool>, n: nat): (r: seq<bool>)
    ensures |r| == n
    ensures forall i :: 0 <= i < n ==> r[i] == (i < |bits| && bits[i])
  {
    seq(n, i requires 0 <= i => i < |bits| && bits[i])
  }

  /** The vector with one bit assigned; positions past the end are ignored. */
  function Assigned(bits: seq<bool>, position: nat, value: bool): (r: seq<bool>)
    ensures |r| == |bits|
    ensures forall i :: 0 <= i < |bits| ==> r[i] == if i == position then value else bits[i]
  {
    if position < |bits| then bits[position := value] else bits
  }

  /** The bits packed into the bytes `data`, eight to a byte, lowest first. */
  function Unpack(data: seq<nat>, length: nat): (bits: seq<bool>)
    requires |data| == BytesFor(length)
    ensures |bits| == length
    ensures forall p :: 0 <= p < length ==> bits[p] == Bit(data[p / 8], p % 8)
  {
    seq(length, p requires 0 <= p < length => Bit(data[p / 8], p % 8))
  }

  /** The bytes are just enough for the bits, and unused bits are zero. */
  ghost predicate Canonical(data: seq<nat>, length: nat) {
    && |data| == BytesFor(length)
    && forall k, i: nat :: 0 <= k < |data| && Bit(data[k], i) ==> i < 8 && 8 * k + i < length
  }

  lemma UnpackAssign(before: seq<nat>, after: seq<nat>, length: nat, position: nat, value: bool)
    requires position < length && Canonical(before, length)
    requires after == before[position / 8 :=
        if value then SetBit(before[position / 8], position % 8) else ClearBit(before[position / 8], position % 8)]
    ensures Canonical(after, length)
    ensures Unpack(after, length) == Assigned(Unpack(before, length), position, value)
  {
    var k, i := position / 8, position % 8;
    forall j: nat
      ensures Bit(after[k], j) <==> if j == i then value else Bit(before[k], j)
    {
      SetBitBits(before[k], i, j);
      ClearBitBits(before[k], i, j);
    }
    forall p | 0 <= p < length
      ensures Unpack(after, length)[p] == if p == position then value else Unpack(before, length)[p]
    {
      if p / 8 == k && p % 8 == i {
        assert p == position;
      }
    }
  }

  /** Cutting or padding the bytes to `length` bits and masking the last byte. */
  function ResizedBytes(data: seq<nat>, length: nat): (r: seq<nat>)
    ensures |r| == BytesFor(length)
  {
    var size := BytesFor(length);
    var r := if size <= |data| then data[..size] else data + seq(size - |data|, i => 0);
    if length % 8 != 0 then r[size - 1 := LowBits(r[size - 1], length % 8)] else r
  }

  lemma ResizedCell(data: seq<nat>, oldLength: nat, length: nat, k: nat, i: nat)
    requires Canonical(data, oldLength) && k < BytesFor(length)
    ensures Bit(ResizedBytes(data, length)[k], i) <==> i < 8 && 8 * k + i < length && k < |data| && Bit(data[k], i)
  {
    var size := BytesFor(length);
    var r := if size <= |data| then data[..size] else data + seq(size - |data|, i => 0);
    ZeroBits(i);
    assert Bit(r[k], i) <==> k < |data| && Bit(data[k], i);
    if length % 8 != 0 && k == size - 1 {
      LowBitsBits(r[k], length % 8, i);
    } else {
      assert i < 8 ==> 8 * k + i < length;
    }
  }

  lemma UnpackResize(data: seq<nat>, oldLength: nat, length: nat)
    requires Canonical(data, oldLength)
    ensures Canonical(ResizedBytes(data, length), length)
    ensures Unpack(ResizedBytes(data, length), length) == Resized(Unpack(data, oldLength), length)
  {
    var after := ResizedBytes(data, length);
    forall k, i: nat | 0 <= k < |after| && Bit(after[k], i)
      ensures i < 8 && 8 * k + i < length
    {
      ResizedCell(data, oldLength, length, k, i);
    }
    forall p | 0 <= p < length
      ensures Unpack(after, length)[p] == (p < oldLength && Unpack(data, oldLength)[p])
    {
      ResizedCell(data, oldLength, length, p / 8, p % 8);
    }
  }

  class BitChain {
    var length: nat
    var data: seq<nat>

    ghost predicate Valid()
      reads this
    {
      Canonical(data, length)
    }

    function Contents(): (bits: seq<bool>)
      requires |data| == BytesFor(length)
      reads this
      ensures |bits| == length
    {
      Unpack(data, length)
    }

    constructor ()
      ensures Valid() && Contents() == []
    {
      length, data := 0, [];
    }

    method Add()
      requires Valid()
      modifies this
      ensures Valid() && Contents() == old(Contents()) + [false]
    {
      ghost var before, oldLength := data, length;
      length := length + 1;
      if length > 8 * |data| {
        data := data + [0];
      }
      forall i: nat ensures !Bit(0, i) { ZeroBits(i); }
      assert forall k :: 0 <= k < |before| ==> data[k] == before[k];
      assert !Bit(data[oldLength / 8], oldLength % 8) by {
        if oldLength / 8 < |before| {
          assert 8 * (oldLength / 8) + oldLength % 8 == oldLength;
        }
      }
      assert forall p :: 0 <= p < oldLength ==> Unpack(data, length)[p] == Unpack(before, oldLength)[p];
    }

    method Set(position: nat)
      requires Valid()
      modifies this
      ensures Valid() && Contents() == Assigned(old(Contents()), position, true)
    {
      if position >= length {
        return;
      }
      data := data[position / 8 := SetBit(data[position / 8], position % 8)];
      UnpackAssign(old(data), data, length, position, true);
    }

    method Clear(position: nat)
      requires Valid()
      modifies this
      ensures Valid() && Contents() == Assigned(old(Contents()), position, false)
    {
      if position >= length {
        return;
      }
      data := data[position / 8 := ClearBit(data[position / 8], position % 8)];
      UnpackAssign(old(data), data, length, position, false);
    }

    method Get(position: nat) returns (bit: bool)
      requires Valid()
      ensures bit <==> position < length && Contents()[position]
    {
      if position >= length {
        return false;
      }
      bit := Bit(data[position / 8], position % 8);
    }

    /** `SetLength`: resizes the bytes and masks the last one. */
    method SetLength(newLength: nat)
      requires Valid()
      modifies this
      ensures Valid() && Contents() == Resized(old(Contents()), newLength)
    {
      length := newLength;
      var newSize := BytesFor(newLength);
      if newSize <= |data| {
        data := data[..newSize];
      } else {
        data := data + seq(newSize - |data|, i => 0);
      }
      if length % 8 != 0 {
        var n := length % 8;
        data := data[|data| - 1 := LowBits(data[|data| - 1], n)];
      }
      assert data == ResizedBytes(old(data), newLength);
      UnpackResize(old(data), old(length), newLength);
    }
  }

  /** Vectors with the same contents are the same bytes: `operator==` and the hash
      see nothing but the contents. */
  lemma ContentsDetermineBytes(a: seq<nat>, b: seq<nat>, length: nat)
    requires Canonical(a, length) && Canonical(b, length)
    requires Unpack(a, length) == Unpack(b, length)
    ensures a == b
  {
    forall k | 0 <= k < |a|
      ensures a[k] == b[k]
    {
      forall i: nat
        ensures Bit(a[k], i) <==> Bit(b[k], i)
      {
        var p := 8 * k + i;
        if i < 8 && p < length {
          assert p / 8 == k && p % 8 == i;
          assert Unpack(a, length)[p] == Unpack(b, length)[p];
        }
      }
      SameBits(a[k], b[k]);
    }
  }
}
