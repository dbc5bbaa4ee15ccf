/** The random-access input stream the reader borrows. Its contents are a fixed
    byte sequence; any call may also fail with an I/O error for reasons outside
    the model, which the bodies express as a nondeterministic choice. */
module Io {
  import opened Common

  class SeekableInputStream {
    /** The bytes of the underlying file. */
    const bytes: seq<Byte>
    /** The stream's own cursor, used by `Peek`. */
    var position: nat

    constructor (contents: seq<Byte>)
      ensures bytes == contents && position == 0
    {
      bytes := contents;
      position := 0;
    }

    /** Reads exactly `length` bytes at `offset` into `buf`; a short read is an error. */
    method ReadAtFully(offset: nat, buf: array<Byte>, length: nat) returns (st: Status)
      requires length <= buf.Length
      modifies buf
      ensures st == Ok || st == IOError
      ensures offset + length > |bytes| ==> st == IOError
      ensures st == Ok ==> offset + length <= |bytes| && buf[..length] == bytes[offset..offset + length]
      ensures buf[length..] == old(buf[length..])
    {
      if offset + length > |bytes| {
        return IOError;
      }
      var failed: bool :| true;
      if failed {
        return IOError;
      }
      for i := 0 to length
        invariant buf[..i] == bytes[offset..offset + i]
        invariant buf[length..] == old(buf[length..])
      {
        buf[i] := bytes[offset + i];
      }
      st := Ok;
    }

    /** Moves the stream's cursor. */
    method Seek(offset: nat)
      modifies `position
      ensures position == offset
    {
      position := offset;
    }

    /** A view of the `length` bytes at the cursor; the cursor does not move. */
    method Peek(length: nat) returns (st: Status, view: seq<Byte>)
      ensures st == Ok || st == IOError
      ensures position + length > |bytes| ==> st == IOError
      ensures st == Ok ==> position + length <= |bytes| && view == bytes[position..position + length]
    {
      view := [];
      if position + length > |bytes| {
        return IOError, view;
      }
      var failed: bool :| true;
      if failed {
        return IOError, view;
      }
      view := bytes[position..position + length];
      st := Ok;
    }
  }
}
