/**
 * Single-frame decoder of websocket.go: getPayloadLength and readFrame, read
 * against the base framing of section 5.2 of RFC 6455 as this code actually
 * interprets it.
 *
 * Decode is the reference definition of what readFrame does to the bytes it
 * has not yet consumed; ReadFrameFrom is the step-by-step method over the
 * shared reader, proved to agree with it. Encode builds the frames this
 * decoder reads back, for the round-trip lemma.
 */
module Decoder {
  import opened Wrappers
  import opened ByteReader
  import opened Frames
  import opened Bytes

  // ---------------------------------------------------------------------
  // Big-endian integers (encoding/binary.BigEndian) and Go's int
  // ---------------------------------------------------------------------

  /** The weight of byte position n: 256^n, which is Pow2(8 * n) (Pow256IsPow2). */
  function Pow256(n: nat): (r: nat)
    ensures r > 0
  {
    if n == 0 then 1 else 256 * Pow256(n - 1)
  }

  lemma {:induction false} Pow256IsPow2(n: nat)
    ensures Pow256(n) == Pow2(8 * n)
  {
    if n > 0 {
      Pow256IsPow2(n - 1);
      var k := 8 * (n - 1);
      var p := Pow2(k);
      assert Pow2(k + 1) == 2 * p;
      assert Pow2(k + 2) == 4 * p;
      assert Pow2(k + 3) == 8 * p;
      assert Pow2(k + 4) == 16 * p;
      assert Pow2(k + 5) == 32 * p;
      assert Pow2(k + 6) == 64 * p;
      assert Pow2(k + 7) == 128 * p;
      assert Pow2(k + 8) == 256 * p;
    }
  }

  const TwoTo63: nat := 0x8000_0000_0000_0000
  const TwoTo64: nat := 0x1_0000_0000_0000_0000

  /** The unsigned value of bytes read most significant first
      (binary.BigEndian.Uint16 on 2 bytes, Uint64 on 8). */
  function BigEndian(b: seq<Byte>): (r: nat)
    ensures r < Pow256(|b|)
  {
    if b == [] then 0
    else
      var init := b[..|b| - 1];
      assert BigEndian(init) + 1 <= Pow256(|init|);
      assert BigEndian(init) * 256 + 256 <= Pow256(|init|) * 256;
      BigEndian(init) * 256 + b[|b| - 1]
  }

  /** The `w` bytes whose big-endian value is `n`. */
  function ToBigEndian(n: nat, w: nat): (b: seq<Byte>)
    ensures |b| == w
  {
    if w == 0 then [] else ToBigEndian(n / 256, w - 1) + [n % 256]
  }

  /** Reading back what ToBigEndian wrote gives the number, when it fits. */
  lemma {:induction false} BigEndianRoundTrip(n: nat, w: nat)
    requires n < Pow256(w)
    ensures BigEndian(ToBigEndian(n, w)) == n
  {
    if w > 0 {
      var b := ToBigEndian(n, w);
      var q, r := n / 256, n % 256;
      DivideBelow(n, Pow256(w - 1));
      BigEndianRoundTrip(q, w - 1);
      assert b[..|b| - 1] == ToBigEndian(q, w - 1);
      assert b[|b| - 1] == r;
    }
  }

  lemma DivideBelow(n: nat, p: nat)
    requires n < 256 * p
    ensures n / 256 < p && n == n / 256 * 256 + n % 256
  {
  }

  /** The first byte of a big-endian number weighs Pow256 of the remaining length. */
  lemma {:induction false} BigEndianFront(b: seq<Byte>)
    requires b != []
    ensures BigEndian(b) == b[0] * Pow256(|b| - 1) + BigEndian(b[1..])
  {
    if |b| == 1 {
      assert b[..0] == [] && b[1..] == [];
    } else {
      var init := b[..|b| - 1];
      BigEndianFront(init);
      assert init[1..] == b[1..][..|b| - 2];
      assert b[1..][|b| - 2] == b[|b| - 1];
      var a, p, rest, last := b[0], Pow256(|b| - 2), BigEndian(init[1..]), b[|b| - 1];
      assert Pow256(|b| - 1) == p * 256;
      assert BigEndian(b) == (a * p + rest) * 256 + last;
      assert BigEndian(b[1..]) == rest * 256 + last;
      ShiftByte(a, p, rest, last);
    }
  }

  lemma ShiftByte(a: nat, p: nat, rest: nat, last: nat)
    ensures (a * p + rest) * 256 + last == a * (p * 256) + (rest * 256 + last)
  {
  }

  /** An 8-byte big-endian number stays below 2^63 exactly when the top bit
      of its first byte is clear. */
  lemma TopBitClearIff(b: seq<Byte>)
    requires |b| == 8
    ensures BigEndian(b) < TwoTo63 <==> b[0] < 128
  {
    var p := Pow256(7);
    assert p == 0x100_0000_0000_0000;
    BigEndianFront(b);
    var rest := BigEndian(b[1..]);
    if b[0] < 128 {
      assert b[0] * p <= 127 * p;
    } else {
      assert b[0] * p >= 128 * p;
    }
  }

  /** Go's int(u) for a uint64 u on a 64-bit platform: two's-complement
      reinterpretation, the one int64 congruent to u modulo 2^64. */
  function GoInt(u: nat): (r: int)
    requires u < TwoTo64
    ensures -(TwoTo63 as int) <= r < TwoTo63 as int
    ensures r >= 0 <==> u < TwoTo63
    ensures r % TwoTo64 == u
  {
    if u < TwoTo63 then u else u - TwoTo64
  }

  // ---------------------------------------------------------------------
  // getPayloadLength
  // ---------------------------------------------------------------------

  /** What getPayloadLength returns, and how many bytes it consumed. */
  datatype LengthRead = LengthRead(length: int, consumed: nat)

  /** Extended-length bytes that follow a 7-bit base length. */
  function ExtendedSize(base: nat): nat
  {
    if base == 126 then 2 else if base == 127 then 8 else 0
  }

  /** getPayloadLength on the input `s` it has not yet consumed. A missing
      second byte or a short extended length is not reported: the length is 0,
      and a short io.ReadFull has still consumed every byte that was left. */
  function PayloadLength(s: seq<Byte>): (r: LengthRead)
    ensures r.consumed <= |s| && r.consumed <= 9
    ensures -(TwoTo63 as int) <= r.length < TwoTo63 as int
  {
    if s == [] then LengthRead(0, 0)
    else
      var base := Low(s[0], 0x80);
      if base == 126 then
        if |s| < 3 then LengthRead(0, |s|) else LengthRead(BigEndian(s[1..3]), 3)
      else if base == 127 then
        if |s| < 9 then LengthRead(0, |s|)
        else
          assert Pow256(8) == TwoTo64;
          LengthRead(GoInt(BigEndian(s[1..9])), 9)
      else
        LengthRead(base, 1)
  }

  /** A base length of 125 or less is the payload length, and nothing more is read. */
  lemma ShortLength(s: seq<Byte>)
    requires |s| >= 1 && Low(s[0], 0x80) <= 125
    ensures PayloadLength(s) == LengthRead(Low(s[0], 0x80), 1)
    ensures 0 <= PayloadLength(s).length <= 125
  {
  }

  /** A base length of 126 takes the next two bytes as a big-endian u16. */
  lemma ExtendedLength16(s: seq<Byte>)
    requires |s| >= 3 && Low(s[0], 0x80) == 126
    ensures PayloadLength(s) == LengthRead(s[1] as int * 256 + s[2], 3)
    ensures 0 <= PayloadLength(s).length <= 65535
  {
    var b := s[1..3];
    assert b[..1] == [s[1]] && b[..1][..0] == [];
    assert BigEndian(b[..1]) == s[1];
  }

  /** A base length of 127 takes the next eight bytes as a big-endian u64,
      converted to Go's int: it is negative exactly when the top bit of the
      first of those bytes is set. */
  lemma ExtendedLength64(s: seq<Byte>)
    requires |s| >= 9 && Low(s[0], 0x80) == 127
    ensures PayloadLength(s).consumed == 9
    ensures PayloadLength(s).length >= 0 ==> PayloadLength(s).length == BigEndian(s[1..9])
    ensures PayloadLength(s).length >= 0 <==> s[1] < 128
  {
    TopBitClearIff(s[1..9]);
  }

  /** A missing or short length is swallowed: the length is 0 and all the
      input that was left is gone. */
  lemma TruncatedLengthIsZero(s: seq<Byte>)
    requires s == [] || (Low(s[0], 0x80) >= 126 && |s| < 1 + ExtendedSize(Low(s[0], 0x80)))
    ensures PayloadLength(s) == LengthRead(0, |s|)
  {
  }

  /** getPayloadLength, over the shared reader. */
  method GetPayloadLength(reader: Reader) returns (length: int)
    requires reader.Valid()
    modifies reader`pos
    ensures reader.Valid()
    ensures var r := PayloadLength(old(reader.Remaining()));
      length == r.length && reader.pos == old(reader.pos) + r.consumed
  {
    ghost var s := reader.Remaining();
    var sb, err := reader.ReadByte();
    if err.Some? {
      return 0;
    }
    length := Low(sb, 0x80);
    assert reader.Remaining() == s[1..];
    if length == 126 {
      var b := new Byte[2];
      var n, e := reader.ReadFull(b);
      if e.Some? {
        return 0;
      }
      assert b[..] == b[..n] == s[1..][..2];
      assert b[..] == s[1..3];
      length := BigEndian(b[..]);
    } else if length == 127 {
      var b := new Byte[8];
      var n, e := reader.ReadFull(b);
      if e.Some? {
        return 0;
      }
      assert b[..] == b[..n] == s[1..][..8];
      assert b[..] == s[1..9];
      assert Pow256(8) == TwoTo64;
      length := GoInt(BigEndian(b[..]));
    }
  }

  // ---------------------------------------------------------------------
  // readFrame
  // ---------------------------------------------------------------------

  /** XOR of each byte with key[i mod 4] (section 5.3 of RFC 6455); masking
      and unmasking are the same operation. */
  function Unmask(p: seq<Byte>, key: seq<Byte>): (r: seq<Byte>)
    requires |key| == 4
    ensures |r| == |p|
    ensures forall i :: 0 <= i < |p| ==> Xor(r[i], key[i % 4]) == p[i]
  {
    seq(|p|, i requires 0 <= i < |p| => XorByte(p[i], key[i % 4]))
  }

  /** Unmasking twice with the same key gives the bytes back. */
  lemma UnmaskInvolution(p: seq<Byte>, key: seq<Byte>)
    requires |key| == 4
    ensures |Unmask(p, key)| == |p|
    ensures Unmask(Unmask(p, key), key) == p
  {
    var once := Unmask(p, key);
    forall i | 0 <= i < |p|
      ensures Unmask(once, key)[i] == p[i]
    {
      XorTwice(p[i], key[i % 4]);
    }
  }

  /** readFrame panics in `make` when a 64-bit length does not fit Go's int
      and the frame gets that far: the input must not carry such a length
      unless the frame is masked and its key read fails first. With a first
      byte `s[0]` and base length 127 in `s[1]`, the eight length bytes are
      `s[2..10]` and the key would be `s[10..14]`. */
  predicate LengthFits(s: seq<Byte>)
  {
    |s| >= 10 && Low(s[1], 0x80) == 127 && s[2] >= 128 ==> HasFlag(s[0], 0x80) && |s| < 14
  }

  lemma LengthFitsIff(s: seq<Byte>)
    requires s != []
    ensures var lr := PayloadLength(s[1..]);
      LengthFits(s) <==> lr.length >= 0 || (HasFlag(s[0], 0x80) && |s| - 1 - lr.consumed < 4)
  {
    var t := s[1..];
    if |s| >= 10 && Low(s[1], 0x80) == 127 {
      ExtendedLength64(t);
    } else if |t| >= 3 && Low(t[0], 0x80) == 126 {
      ExtendedLength16(t);
    }
  }

  /** What readFrame returns, and the input it leaves unconsumed. */
  datatype Decoding = Decoding(result: Result<FrameValue, IoError>, rest: seq<Byte>)

  /** readFrame on the input `s` it has not yet consumed. FIN is taken from
      bit 0x40 and MASK from bit 0x80 of the first byte; the opcode is never
      stored (SetOpcode writes to a copy), so it stays Continuation. */
  function Decode(s: seq<Byte>): (d: Decoding)
    requires LengthFits(s)
    ensures |d.rest| <= |s|
    ensures s == [] ==> d.result == Failure(EOF)
    ensures d.result.Failure? ==> d.rest == []
    ensures d.result.Success? ==> && d.result.value.opcode == Continuation
                                  && d.result.value.isFinal == HasFlag(s[0], 0x40)
                                  && |d.result.value.payload| == PayloadLength(s[1..]).length
  {
    if s == [] then Decoding(Failure(EOF), [])
    else
      var lr := PayloadLength(s[1..]);
      LengthFitsIff(s);
      DecodeKey(HasFlag(s[0], 0x40), HasFlag(s[0], 0x80), lr.length, s[1 + lr.consumed..])
  }

  /** readFrame once the length is known: the masking key, read only when masked. */
  function DecodeKey(isFinal: bool, masked: bool, length: int, t: seq<Byte>): (d: Decoding)
    requires length >= 0 || (masked && |t| < 4)
    ensures |d.rest| <= |t|
    ensures d.result.Failure? ==> d.rest == []
    ensures d.result.Success? ==> && d.result.value.opcode == Continuation
                                  && d.result.value.isFinal == isFinal
                                  && |d.result.value.payload| == length
  {
    if !masked then DecodePayload(isFinal, None, length, t)
    else if |t| < 4 then Decoding(Failure(ShortReadError(|t|)), [])
    else DecodePayload(isFinal, Some(t[..4]), length, t[4..])
  }

  /** readFrame's payload read: exactly `length` bytes, unmasked when there is a key. */
  function DecodePayload(isFinal: bool, key: Option<seq<Byte>>, length: nat, t: seq<Byte>): (d: Decoding)
    requires key.Some? ==> |key.value| == 4
    ensures d.result.Failure? <==> |t| < length
    ensures d.result.Failure? ==> d.rest == [] && d.result.error == ShortReadError(|t|)
    ensures d.result.Success? ==> && |d.result.value.payload| == length
                                  && |d.rest| == |t| - length
                                  && d.result.value.opcode == Continuation
                                  && d.result.value.isFinal == isFinal
  {
    if |t| < length then Decoding(Failure(ShortReadError(|t|)), [])
    else
      var wire := t[..length];
      var payload := if key.Some? then Unmask(wire, key.value) else wire;
      Decoding(Success(FrameValue(Continuation, payload, isFinal)), t[length..])
  }

  /** The unmask loop of readFrame: each payload byte is XORed in place with
      key[i mod 4]. */
  method UnmaskInPlace(payload: array<Byte>, key: array<Byte>)
    requires key.Length == 4 && key != payload
    modifies payload
    ensures payload[..] == Unmask(old(payload[..]), key[..])
  {
    ghost var wire := payload[..];
    ghost var k := key[..];
    for i := 0 to payload.Length
      invariant forall j :: 0 <= j < i ==> payload[j] == XorByte(wire[j], k[j % 4])
      invariant forall j :: i <= j < payload.Length ==> payload[j] == wire[j]
    {
      payload[i] := XorByte(payload[i], key[i % 4]);
    }
    assert forall j :: 0 <= j < payload.Length ==> payload[..][j] == Unmask(wire, k)[j];
  }


  /** Decode after the first byte and the length: what is left is DecodeKey. */
  lemma DecodeHeader(s: seq<Byte>, t: seq<Byte>)
    requires s != [] && LengthFits(s)
    requires t == s[1 + PayloadLength(s[1..]).consumed..]
    ensures PayloadLength(s[1..]).length >= 0 || (HasFlag(s[0], 0x80) && |t| < 4)
    ensures Decode(s) == DecodeKey(HasFlag(s[0], 0x40), HasFlag(s[0], 0x80), PayloadLength(s[1..]).length, t)
  {
    LengthFitsIff(s);
  }

  /** readFrame's payload read and unmask loop. */
  method ReadPayload(reader: Reader, isFinal: bool, isMasked: bool, mask: array<Byte>, length: nat,
                     ghost key: Option<seq<Byte>>)
    returns (payload: array?<Byte>, err: Option<IoError>)
    requires reader.Valid() && mask.Length == 4
    requires key == if isMasked then Some(mask[..]) else None
    modifies reader`pos
    ensures reader.Valid()
    ensures var d := DecodePayload(isFinal, key, length, old(reader.Remaining()));
      && reader.Remaining() == d.rest
      && (payload == null <==> d.result.Failure?)
      && (d.result.Failure? ==> err == Some(d.result.error))
      && (d.result.Success? ==> err == None && fresh(payload) && payload[..] == d.result.value.payload)
  {
    ghost var u := reader.Remaining();
    ghost var p0 := reader.pos;
    payload := new Byte[length];
    var n, e := reader.ReadFull(payload);
    if e.Some? {
      assert n == |u| && reader.pos == |reader.data|;
      return null, e;
    }
    ghost var wire := payload[..];
    assert wire == payload[..n] == u[..length];
    assert reader.pos == p0 + length;
    assert reader.data[p0 + length..] == u[length..];
    if isMasked {
      UnmaskInPlace(payload, mask);
    }
    err := None;
  }

  /** The second half of readFrame: the masking key (read only when masked),
      then exactly `length` payload bytes, unmasked in place. */
  method ReadKeyAndPayload(reader: Reader, isFinal: bool, isMasked: bool, length: int)
    returns (payload: array?<Byte>, err: Option<IoError>)
    requires reader.Valid()
    requires length >= 0 || (isMasked && |reader.Remaining()| < 4)
    modifies reader`pos
    ensures reader.Valid()
    ensures var d := DecodeKey(isFinal, isMasked, length, old(reader.Remaining()));
      && reader.Remaining() == d.rest
      && (payload == null <==> d.result.Failure?)
      && (d.result.Failure? ==> err == Some(d.result.error))
      && (d.result.Success? ==> err == None && fresh(payload) && payload[..] == d.result.value.payload)
  {
    ghost var t := reader.Remaining();
    var mask := new Byte[4];
    ghost var key: Option<seq<Byte>> := None;
    ghost var u := t;
    if isMasked {
      var n, e := reader.ReadFull(mask);
      if e.Some? {
        assert n == |t| && reader.pos == |reader.data|;
        return null, e;
      }
      assert mask[..] == mask[..n] == t[..4];
      key := Some(mask[..]);
      u := t[4..];
      assert reader.Remaining() == u;
    }
    assert DecodeKey(isFinal, isMasked, length, t) == DecodePayload(isFinal, key, length, u);

    assert reader.Remaining() == u;
    payload, err := ReadPayload(reader, isFinal, isMasked, mask, length, key);
  }

  /** readFrame after its first byte `s[0]`: the length, then the key and the payload. */
  method ReadLengthKeyAndPayload(reader: Reader, isFinal: bool, isMasked: bool, ghost s: seq<Byte>)
    returns (payload: array?<Byte>, err: Option<IoError>)
    requires reader.Valid() && s != [] && LengthFits(s) && reader.Remaining() == s[1..]
    requires isFinal == HasFlag(s[0], 0x40) && isMasked == HasFlag(s[0], 0x80)
    modifies reader`pos
    ensures reader.Valid()
    ensures var d := Decode(s);
      && reader.Remaining() == d.rest
      && (payload == null <==> d.result.Failure?)
      && (d.result.Failure? ==> err == Some(d.result.error))
      && (d.result.Success? ==> err == None && fresh(payload) && payload[..] == d.result.value.payload)
  {
    var length := GetPayloadLength(reader);
    DecodeHeader(s, reader.Remaining());
    payload, err := ReadKeyAndPayload(reader, isFinal, isMasked, length);
  }

  /** readFrame, over the shared reader: the frame is built on a fresh object;
      its opcode is lost to SetOpcode's value receiver. */
  method ReadFrameFrom(reader: Reader) returns (frame: Frame?, err: Option<IoError>)
    requires reader.Valid() && LengthFits(reader.Remaining())
    modifies reader`pos
    ensures reader.Valid()
    ensures var d := Decode(old(reader.Remaining()));
      && reader.Remaining() == d.rest
      && (frame == null <==> d.result.Failure?)
      && (d.result.Failure? ==> err == Some(d.result.error))
      && (d.result.Success? ==> err == None && fresh(frame) && fresh(frame.payload)
                                && frame.Value() == d.result.value)
  {
    ghost var s := reader.Remaining();
    var fb, e := reader.ReadByte();
    if e.Some? {
      return null, e;
    }
    var f := new Frame();
    var isFinal := HasFlag(fb, 0x40);
    f.isFinal := isFinal;
    f.SetOpcode(Low(fb, 0x10));
    var isMasked := HasFlag(fb, 0x80);

    var payload;
    payload, err := ReadLengthKeyAndPayload(reader, isFinal, isMasked, s);
    if err.Some? {
      return null, err;
    }
    f.payload := payload;
    return f, None;
  }
}
