/**
 * The buffered reader the frame decoder pulls bytes from (Go's bufio.Reader
 * over the hijacked connection), modelled as a finite input with a cursor.
 * Only the two calls the decoder makes are modelled: ReadByte and io.ReadFull.
 */
module ByteReader {
  import opened Wrappers
  import opened Bytes

  /** How a read stops short of the end of the input: io.EOF when nothing at
      all could be read, io.ErrUnexpectedEOF when part of a buffer was filled. */
  datatype IoError = EOF | UnexpectedEOF

  /** The error io.ReadFull reports when only `got` bytes of a longer buffer were available. */
  function ShortReadError(got: nat): (e: IoError)
    ensures e == EOF <==> got == 0
  {
    if got == 0 then EOF else UnexpectedEOF
  }

  function Min(a: nat, b: nat): nat { if a <= b then a else b }

  class Reader {
    /** Every byte the peer will ever send on this connection. */
    const data: seq<Byte>
    /** How many of them have been consumed. */
    var pos: nat

    ghost predicate Valid()
      reads this
    {
      pos <= |data|
    }

    /** The bytes not yet consumed. */
    function Remaining(): seq<Byte>
      reads this
      requires Valid()
    {
      data[pos..]
    }

    constructor (input: seq<Byte>)
      ensures Valid() && data == input && pos == 0
    {
      data := input;
      pos := 0;
    }

    /** bufio.Reader.ReadByte: the next byte, or io.EOF with nothing consumed. */
    method ReadByte() returns (b: Byte, err: Option<IoError>)
      requires Valid()
      modifies this`pos
      ensures Valid()
      ensures old(pos) < |data| ==> b == data[old(pos)] && err == None && pos == old(pos) + 1
      ensures old(pos) == |data| ==> b == 0 && err == Some(EOF) && pos == old(pos)
    {
      if pos < |data| {
        b, err := data[pos], None;
        pos := pos + 1;
      } else {
        b, err := 0, Some(EOF);
      }
    }

    /** io.ReadFull: fills `buf` from the input. When the input runs out first,
        the bytes that were there are still consumed and copied into the front
        of `buf`, and the call reports EOF or UnexpectedEOF. An empty `buf`
        always succeeds. */
    method ReadFull(buf: array<Byte>) returns (n: nat, err: Option<IoError>)
      requires Valid()
      modifies this`pos, buf
      ensures Valid()
      ensures n == Min(buf.Length, |old(Remaining())|)
      ensures pos == old(pos) + n
      ensures buf[..n] == old(Remaining())[..n]
      ensures buf[n..] == old(buf[n..])
      ensures err == if n == buf.Length then None else Some(ShortReadError(n))
    {
      ghost var input := data[pos..];
      n := 0;
      while n < buf.Length && pos < |data|
        invariant n <= buf.Length
        invariant pos == old(pos) + n <= |data|
        invariant buf[..n] == input[..n]
        invariant buf[n..] == old(buf[n..])
      {
        buf[n] := data[pos];
        pos := pos + 1;
        n := n + 1;
      }
      err := if n == buf.Length then None else Some(ShortReadError(n));
    }
  }
}
