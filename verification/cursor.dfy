/** The seekable byte reader (`io.BytesIO`) the decoder walks, as pure
    functions of a buffer and an absolute position.

    Three kinds of read appear in the program, and they treat a short buffer
    differently:
    - `reader.read(n)` returns whatever is left, possibly fewer than `n`
      bytes, and never moves the position past the end (`ReadUpTo`);
    - `struct.unpack(fmt, reader.read(n))` raises unless all `n` bytes were
      there (`ReadExact`);
    - `reader.read(1)[0]` raises at the end of the buffer (`ReadByte`).
    A position may lie beyond the end after a `seek`; every read there
    returns nothing and leaves the position where it is. */
module Cursor {
  import opened Results
  import opened Bytes

  /** `reader.read(n)`: the bytes actually available and the new position. */
  function ReadUpTo(buf: seq<Byte>, pos: nat, n: nat): (r: (seq<Byte>, nat))
    ensures pos <= |buf| ==> pos <= r.1 <= |buf| && r.0 == buf[pos..r.1]
    ensures pos <= |buf| ==> r.1 == if pos + n <= |buf| then pos + n else |buf|
    ensures pos > |buf| ==> r == ([], pos)
  {
    if pos >= |buf| then ([], pos)
    else if pos + n <= |buf| then (buf[pos..pos + n], pos + n)
    else (buf[pos..], |buf|)
  }

  /** `reader.read(n)` fed to `struct.unpack`: exactly `n` bytes or an error. */
  function ReadExact(buf: seq<Byte>, pos: nat, n: nat): (r: Result<(seq<Byte>, nat)>)
    ensures r.Ok? <==> pos + n <= |buf|
    ensures r.Ok? ==> r.value == (buf[pos..pos + n], pos + n)
    ensures r.Err? ==> r.error == Truncated
  {
    if pos + n <= |buf| then Ok((buf[pos..pos + n], pos + n)) else Err(Truncated)
  }

  /** `reader.read(1)[0]`: the byte at the position, or an error at the end. */
  function ReadByte(buf: seq<Byte>, pos: nat): (r: Result<(Byte, nat)>)
    ensures r.Ok? <==> pos < |buf|
    ensures r.Ok? ==> r.value == (buf[pos], pos + 1)
    ensures r.Err? ==> r.error == Truncated
  {
    if pos < |buf| then Ok((buf[pos], pos + 1)) else Err(Truncated)
  }
}
