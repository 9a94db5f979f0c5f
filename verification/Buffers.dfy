/** The message buffer (src/grib_buffer.cc): growing it, and replacing a stretch of it. */
module Buffers {
  import opened Bits

  /** was with the size bytes at offset replaced by p. */
  function Spliced(was: seq<byte>, offset: nat, size: nat, p: seq<byte>): (r: seq<byte>)
    requires offset + size <= |was|
    ensures |r| == |was| + |p| - size
  {
    was[..offset] + p + was[offset + size..]
  }

  class Buffer {
    var data: array<byte>
    var ulength: nat
    const growable: bool

    ghost predicate Valid()
      reads this
    {
      ulength <= data.Length
    }

    /** The bytes in use. */
    ghost function Message(): seq<byte>
      requires Valid()
      reads this, data
    {
      data[..ulength]
    }

    constructor (data: array<byte>, ulength: nat, growable: bool)
      requires ulength <= data.Length
      ensures Valid() && this.data == data && this.ulength == ulength && this.growable == growable
    {
      this.data, this.ulength, this.growable := data, ulength, growable;
    }

    /** grib_grow_buffer: more is allocated than asked for, in multiples of 1024. */
    method Grow(newSize: nat)
      modifies this`data
      ensures newSize <= data.Length && old(data.Length) <= data.Length
      ensures data[..old(data.Length)] == old(data[..])
      ensures newSize <= old(data.Length) ==> data == old(data)
      ensures newSize > old(data.Length) ==>
                && fresh(data) && data.Length % 1024 == 0
                && newSize + old(data.Length) + 1024 < data.Length
                && data.Length <= newSize + 2 * (if old(data.Length) > 2048 then old(data.Length) else 2048)
                && forall i :: old(data.Length) <= i < data.Length ==> data[i] == 0
    {
      if newSize > data.Length {
        var inc := if data.Length > 2048 then data.Length else 2048;
        var len := ((newSize + 2 * inc) / 1024) * 1024;
        var was := data;
        var newData := new byte[len](_ => 0);
        forall i | 0 <= i < was.Length {
          newData[i] := was[i];
        }
        data := newData;
      }
    }

    /** grib_buffer_set_ulength */
    method SetUlength(length: nat)
      requires Valid()
      modifies this`data, this`ulength
      ensures Valid() && ulength == length
      ensures old(data.Length) <= data.Length && data[..old(data.Length)] == old(data[..])
      ensures data == old(data) || fresh(data)
    {
      Grow(length);
      ulength := length;
    }

    /** grib_buffer_replace, the bytes: the end is moved, the new bytes are copied in. */
    method Replace(offset: nat, oldSize: nat, p: seq<byte>)
      requires Valid() && offset + oldSize <= ulength
      modifies this`data, this`ulength, data
      ensures Valid() && (data == old(data) || fresh(data))
      ensures Message() == Spliced(old(Message()), offset, oldSize, p)
    {
      var messageLength := ulength;
      ghost var was, message := data[..], Message();
      var rest := messageLength - offset - oldSize;
      SetUlength(ulength + |p| - oldSize);
      SameStretch(data[..], was, 0, offset);
      SameStretch(data[..], was, offset + oldSize, messageLength);
      assert message[..offset] == was[0..offset];
      assert message[offset + oldSize..] == was[offset + oldSize..messageLength];
      assert data[..][0..offset] == data[..offset];
      assert data[..][offset + oldSize..messageLength] == data[offset + oldSize..offset + oldSize + rest];
      MoveIn(data, offset, oldSize, p, rest);
    }

    lemma SameStretch(now: seq<byte>, was: seq<byte>, from: nat, to: nat)
      requires from <= to <= |was| <= |now| && now[..|was|] == was
      ensures now[from..to] == was[from..to]
    {
      assert now[..|was|][from..to] == now[from..to];
    }

    /** The rest bytes behind the old stretch are moved behind the new one (memmove), which is then
        filled (memcpy). */
    method MoveIn(data: array<byte>, offset: nat, oldSize: nat, p: seq<byte>, rest: nat)
      requires offset + oldSize + rest <= data.Length && offset + |p| + rest <= data.Length
      modifies data
      ensures data[..offset + |p| + rest]
           == old(data[..offset]) + p + old(data[offset + oldSize..offset + oldSize + rest])
    {
      if |p| != oldSize {
        forall i | 0 <= i < rest {
          data[offset + |p| + i] := data[offset + oldSize + i];
        }
      }
      assert data[offset + |p|..offset + |p| + rest] == old(data[offset + oldSize..offset + oldSize + rest]);
      forall i | 0 <= i < |p| {
        data[offset + i] := p[i];
      }
      assert data[offset..offset + |p|] == p;
    }
  }
}
