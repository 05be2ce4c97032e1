/** The byte cursor every decoder consumes a frame through (the `Unpack`
    object of the trace reader): the frame's bytes and a read offset.  Each
    read either returns its value and advances by exactly the bytes it
    consumed, or fails and leaves the offset unchanged. */
module Unpack {
  import opened Base
  import opened Xdr

  /** What `save_state` records and `restore_state` puts back. */
  datatype State = State(data: seq<byte>, pos: nat)

  /** An offset put back within `0..n`. */
  function Clamp(target: int, n: nat): (r: nat)
    ensures r <= n
    ensures 0 <= target <= n ==> r == target
  {
    if target < 0 then 0 else if target > n then n else target
  }

  class Cursor {
    var data: seq<byte>
    var pos: nat

    ghost predicate Valid()
      reads this
    {
      pos <= |data|
    }

    constructor (bytes: seq<byte>)
      ensures Valid() && data == bytes && pos == 0
    {
      data := bytes;
      pos := 0;
    }

    /** Number of bytes not yet consumed. */
    function Size(): nat
      reads this
      requires Valid()
    {
      |data| - pos
    }

    /** The bytes not yet consumed. */
    function Rest(): seq<byte>
      reads this
      requires Valid()
    {
      data[pos..]
    }

    /** A `k`-byte big-endian unsigned integer. */
    method ReadUint(k: nat) returns (r: Option<nat>)
      requires Valid()
      modifies this
      ensures Valid() && data == old(data)
      ensures Decoded(r, pos) == Xdr.ReadUint(data, old(pos), k)
    {
      if pos + k > |data| {
        return None;
      }
      var v: nat, i: nat := 0, 0;
      while i < k
        invariant 0 <= i <= k
        invariant v == BigEndian(data[pos..pos + i])
      {
        assert data[pos..pos + i + 1][..i] == data[pos..pos + i];
        v := v * 256 + data[pos + i];
        i := i + 1;
      }
      pos := pos + k;
      r := Some(v);
    }

    /** `unpack_uint`: XDR unsigned int. */
    method UnpackUint() returns (r: Option<nat>)
      requires Valid()
      modifies this
      ensures Valid() && data == old(data)
      ensures Decoded(r, pos) == ReadU32(data, old(pos))
    {
      r := ReadUint(4);
    }

    /** `unpack_int`: XDR signed int. */
    method UnpackInt() returns (r: Option<int>)
      requires Valid()
      modifies this
      ensures Valid() && data == old(data)
      ensures Decoded(r, pos) == ReadI32(data, old(pos))
    {
      var u := ReadUint(4);
      if u.Some? {
        r := Some(Signed32(u.value));
      } else {
        r := None;
      }
    }

    /** `read(n)`: the next `n` bytes verbatim. */
    method Read(n: nat) returns (r: Option<seq<byte>>)
      requires Valid()
      modifies this
      ensures Valid() && data == old(data)
      ensures Decoded(r, pos) == ReadBytes(data, old(pos), n)
    {
      if pos + n > |data| {
        return None;
      }
      r := Some(data[pos..pos + n]);
      pos := pos + n;
    }

    /** `unpack_opaque(maxcount)`: XDR variable-length opaque data. */
    method UnpackOpaque(maxcount: nat) returns (r: Option<seq<byte>>)
      requires Valid()
      modifies this
      ensures Valid() && data == old(data)
      ensures Decoded(r, pos) == ReadOpaque(data, old(pos), maxcount)
    {
      var start := pos;
      var n := ReadUint(4);
      if n.None? {
        return None;
      }
      var len := n.value;
      if (maxcount > 0 && len > maxcount) || pos + len + Pad4(len) > |data| {
        pos := start;
        return None;
      }
      r := Some(data[pos..pos + len]);
      pos := pos + len + Pad4(len);
    }

    /** `unpack_array(maxcount)`: XDR variable-length array of unsigned ints. */
    method UnpackArray(maxcount: nat) returns (r: Option<seq<nat>>)
      requires Valid()
      modifies this
      ensures Valid() && data == old(data)
      ensures Decoded(r, pos) == ReadU32Array(data, old(pos), maxcount)
    {
      var start := pos;
      var n := ReadUint(4);
      if n.None? {
        return None;
      }
      var count := n.value;
      if (maxcount > 0 && count > maxcount) || pos + 4 * count > |data| {
        pos := start;
        return None;
      }
      var items := ReadU32s(count);
      r := Some(items);
    }

    /** The `count` unsigned ints of an array body, one `unpack_uint` each. */
    method ReadU32s(count: nat) returns (items: seq<nat>)
      requires Valid() && pos + 4 * count <= |data|
      modifies this
      ensures Valid() && data == old(data) && pos == old(pos) + 4 * count
      ensures items == U32s(data, old(pos), count)
    {
      var start := pos;
      items := [];
      while |items| < count
        invariant |items| <= count
        invariant pos == start + 4 * |items|
        invariant data == old(data) && start + 4 * count <= |data|
        invariant U32s(data, start, count) == items + U32s(data, pos, count - |items|)
        decreases count - |items|
      {
        ghost var p0, rest := pos, count - |items|;
        assert p0 + 4 <= |data|;
        U32sUnroll(data, p0, rest);
        var x := ReadUint(4);
        ghost var v := BigEndian(data[p0..p0 + 4]);
        assert x == Some(v);
        U32sSnoc(items, v, U32s(data, pos, rest - 1));
        items := items + [x.value];
      }
      assert U32s(data, pos, 0) == [];
    }

    /** `getbytes`: every remaining byte, leaving the cursor empty. */
    method GetBytes() returns (r: seq<byte>)
      requires Valid()
      modifies this
      ensures Valid() && data == old(data)
      ensures r == old(Rest()) && pos == |data|
    {
      r := data[pos..];
      pos := |data|;
    }

    /** `insert(b)`: splice `b` in at the read offset, so it is read next. */
    method Insert(b: seq<byte>)
      requires Valid()
      modifies this
      ensures Valid() && pos == old(pos)
      ensures data == old(data[..pos]) + b + old(data[pos..])
    {
      data := data[..pos] + b + data[pos..];
    }

    /** `seek(offset)`: move the read offset, kept within the frame. */
    method Seek(target: int)
      requires Valid()
      modifies this
      ensures Valid() && data == old(data) && pos == Clamp(target, |data|)
    {
      pos := Clamp(target, |data|);
    }

    method SaveState() returns (s: State)
      requires Valid()
      ensures s == State(data, pos)
    {
      s := State(data, pos);
    }

    method RestoreState(s: State)
      requires s.pos <= |s.data|
      modifies this
      ensures Valid() && data == s.data && pos == s.pos
    {
      data, pos := s.data, s.pos;
    }
  }
}
