/**
  The in-memory byte stream (`io.BytesIO`) that the frame splitter drives:
  a byte string plus a stream position. Writing at the position overwrites
  what is there and extends the string; `truncate()` cuts the string at the
  position; `seek` moves the position without touching the bytes.
 */
module ByteStream {
  import opened Bytes

  /**
    The byte string after writing `b` at position `pos` of `data`. A write
    past the end pads the gap with zero bytes; an empty write changes nothing.
   */
  function Overwrite(data: seq<byte>, pos: nat, b: seq<byte>): (r: seq<byte>)
    ensures b == [] ==> r == data
    ensures b != [] ==> |r| == if pos + |b| > |data| then pos + |b| else |data|
    ensures b != [] ==> r[pos..pos + |b|] == b
    ensures b != [] ==> forall i :: 0 <= i < pos && i < |data| ==> r[i] == data[i]
    ensures b != [] ==> forall i :: |data| <= i < pos ==> r[i] == 0
    ensures b != [] ==> forall i :: pos + |b| <= i < |data| ==> r[i] == data[i]
  {
    if b == [] then data
    else
      var head := if pos <= |data| then data[..pos] else data + seq(pos - |data|, _ => 0);
      var tail := if pos + |b| < |data| then data[pos + |b|..] else [];
      head + b + tail
  }

  /** Writing at a position inside the string: the bytes before the new position are the old ones before it, then `b`. */
  lemma OverwriteLive(data: seq<byte>, pos: nat, b: seq<byte>)
    requires pos <= |data|
    ensures pos + |b| <= |Overwrite(data, pos, b)|
    ensures Overwrite(data, pos, b)[..pos + |b|] == data[..pos] + b
  {
    var r := Overwrite(data, pos, b);
    if b != [] {
      assert r[..pos + |b|] == r[..pos] + r[pos..pos + |b|];
    }
  }

  class BytesIO {
    var data: seq<byte>
    var pos: nat

    /** `io.BytesIO()`: empty, positioned at 0. */
    constructor ()
      ensures data == [] && pos == 0
    {
      data := [];
      pos := 0;
    }

    /** `getvalue()`: the whole byte string, whatever the position. */
    function GetValue(): (v: seq<byte>)
      reads this
      ensures v == data
    {
      data
    }

    /** `truncate()`: cut the string at the current position, which does not move. */
    method Truncate() returns (size: nat)
      modifies this
      ensures pos == old(pos) && size == pos
      ensures |data| == if old(pos) < |old(data)| then old(pos) else |old(data)|
      ensures data == old(data)[..|data|]
    {
      if pos < |data| {
        data := data[..pos];
      }
      size := pos;
    }

    /** `seek(offset)`: move the position; the bytes stay as they are. */
    method Seek(offset: nat) returns (newPos: nat)
      modifies this
      ensures pos == offset && newPos == offset
      ensures data == old(data)
    {
      pos := offset;
      newPos := pos;
    }

    /** `write(b)`: overwrite from the position on and advance past `b`; answers `len(b)`. */
    method Write(b: seq<byte>) returns (n: nat)
      modifies this
      ensures n == |b|
      ensures data == Overwrite(old(data), old(pos), b)
      ensures pos == old(pos) + |b|
    {
      data := Overwrite(data, pos, b);
      pos := pos + |b|;
      n := |b|;
    }
  }
}
