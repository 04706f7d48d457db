/**
 Positioned byte streams: a growing one for writing and a fixed one for reading.
 */
module MemoryStreams {
  import opened Types
  import opened Codec

  // Writing src at pos overwrites what is there and extends the buffer as needed.
  function Overwritten(buffer: Bytes, pos: nat, src: Bytes): Bytes
    requires pos <= |buffer|
  {
    buffer[..pos] + src + if pos + |src| < |buffer| then buffer[pos + |src|..] else []
  }

  class MemoryStream {
    var buffer: Bytes
    var position: nat

    ghost predicate Valid()
      reads this
    {
      position <= |buffer|
    }

    ghost predicate AtEnd()
      reads this
    {
      position == |buffer|
    }

    constructor ()
      ensures buffer == [] && position == 0
    {
      buffer, position := [], 0;
    }

    method Write(src: Bytes)
      requires Valid()
      modifies this
      ensures Valid() && position == old(position) + |src|
      ensures buffer == Overwritten(old(buffer), old(position), src)
      ensures old(AtEnd()) ==> AtEnd() && buffer == old(buffer) + src
    {
      buffer := Overwritten(buffer, position, src);
      position := position + |src|;
    }

    // Writing the next field moves it from what is still to come (Put(v, width, after)) to what is
    // already written.
    method WriteNumber(v: nat, width: nat, ghost after: Bytes)
      requires AtEnd()
      modifies this
      ensures AtEnd() && buffer == old(buffer) + LittleEndian(v, width)
      ensures buffer + after == old(buffer) + Put(v, width, after)
    {
      Write(LittleEndian(v, width));
      assert old(buffer) + (LittleEndian(v, width) + after) == (old(buffer) + LittleEndian(v, width)) + after;
    }

    method WriteStr(str: Bytes, ghost after: Bytes)
      requires AtEnd()
      modifies this
      ensures AtEnd() && buffer + after == old(buffer) + PutStr(str, after)
    {
      WriteNumber(|str|, 8, str + after);
      ghost var sized := buffer;
      Write(str);
      assert sized + (str + after) == (sized + str) + after;
    }

    // Appends go to the end of the buffer, wherever the position is.
    method Append(other: MemoryStream, count: nat)
      requires Valid()
      modifies this
      ensures var n := if count < |old(other.buffer)| then count else |old(other.buffer)|;
        && buffer == old(buffer) + old(other.buffer)[..n]
        && position == old(position) + n
      ensures Valid()
    {
      var n := if count < |other.buffer| then count else |other.buffer|;
      buffer := buffer + other.buffer[..n];
      position := position + n;
    }

    method Seek(pos: nat) returns (ok: bool)
      modifies this`position
      ensures ok == (pos <= |buffer|)
      ensures position == if ok then pos else old(position)
    {
      ok := pos <= |buffer|;
      if ok {
        position := pos;
      }
    }
  }

  class ReadOnlyMemoryStream {
    const buffer: Bytes
    var position: nat

    ghost predicate Valid()
      reads this
    {
      position <= |buffer|
    }

    function Rest(): Bytes
      requires Valid()
      reads this
    {
      buffer[position..]
    }

    constructor (buffer: Bytes)
      ensures Valid() && Rest() == buffer && this.buffer == buffer
    {
      this.buffer := buffer;
      position := 0;
    }

    // Delivers as many of the wanted bytes as there are.
    method Read(count: nat) returns (got: Bytes)
      requires Valid()
      modifies this
      ensures Valid()
      ensures var n := if count < |old(Rest())| then count else |old(Rest())|;
        got == old(Rest())[..n] && Rest() == old(Rest())[n..]
    {
      var n := if count <= |buffer| - position then count else |buffer| - position;
      got := buffer[position..position + n];
      position := position + n;
    }

    // A number read whose size is checked.
    method ReadNumber(width: nat) returns (ok: bool, v: nat)
      requires Valid()
      modifies this
      ensures Valid() && ok == Get(width, old(Rest())).Got?
      ensures ok ==> Get(width, old(Rest())) == Got(v, Rest())
    {
      var got := Read(width);
      ok, v := |got| == width, Value(got);
    }

    // A number read that only fails when nothing is left.
    method ReadLoose(width: nat, junk: nat -> Byte) returns (ok: bool, v: nat)
      requires Valid() && width > 0
      modifies this
      ensures Valid() && ok == GetLoose(width, old(Rest()), junk).Got?
      ensures ok ==> GetLoose(width, old(Rest()), junk) == Got(v, Rest())
    {
      var got := Read(width);
      ok := |got| > 0;
      assert |got| < width ==> got == old(Rest()) && Rest() == [];
      v := Value(got + seq(width - |got|, i requires i >= 0 => junk(i)));
      assert |got| == width ==> got + seq(width - |got|, i requires i >= 0 => junk(i)) == got;
    }

    // A number read that is never checked.
    method ReadUnchecked(width: nat) returns (v: nat)
      requires Valid()
      modifies this
      ensures Valid() && GetUnchecked(width, old(Rest())) == (v, Rest())
    {
      hide Value;
      var got := Read(width);
      assert |got| < width ==> got == old(Rest()) && Rest() == [];
      v := Value(got);
    }

    method ReadStr() returns (ok: bool, str: Bytes)
      requires Valid()
      modifies this
      ensures Valid() && ok == GetStr(old(Rest())).Got?
      ensures ok ==> GetStr(old(Rest())) == Got(str, Rest())
    {
      var size;
      str := [];
      ok, size := ReadNumber(8);
      if ok {
        str := Read(size);
        ok := |str| == size;
      }
    }
  }
}
