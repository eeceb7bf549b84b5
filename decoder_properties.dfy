/**
 * What readFrame's decoding promises, stated over Decode: the layout of a
 * decoded frame, exactly when decoding fails, the deviations from section
 * 5.2 of RFC 6455 in how the header is read, and a round trip through an
 * encoder of the frames this decoder reads.
 */
module DecoderProperties {
  import opened Wrappers
  import opened ByteReader
  import opened Frames
  import opened Decoder
  import opened Bytes

  /** Bytes the masking key takes. */
  function MaskSize(s: seq<Byte>): nat
    requires s != []
  {
    if HasFlag(s[0], 0x80) then 4 else 0
  }

  /** The first byte, the length byte and every extended-length byte are present. */
  predicate HeaderComplete(s: seq<Byte>)
  {
    |s| >= 2 && |s| >= 2 + ExtendedSize(Low(s[1], 0x80))
  }

  /** With the whole header present, getPayloadLength consumes the length
      byte and the extended-length bytes, and nothing more. */
  lemma {:induction false} LengthConsumed(s: seq<Byte>)
    requires HeaderComplete(s)
    ensures PayloadLength(s[1..]).consumed == 1 + ExtendedSize(Low(s[1], 0x80))
  {
    assert s[1..][0] == s[1];
  }

  /** The input left after decoding is a suffix of the input. */
  lemma DecodeRestIsSuffix(s: seq<Byte>)
    requires LengthFits(s)
    ensures var d := Decode(s); d.rest == s[|s| - |d.rest|..]
  {
    if s != [] {
      var lr := PayloadLength(s[1..]);
      LengthFitsIff(s);
      var t := s[1 + lr.consumed..];
      var u := if HasFlag(s[0], 0x80) && |t| >= 4 then t[4..] else t;
      var d := Decode(s);
      if d.result.Success? {
        assert d.rest == u[lr.length..];
        assert u == s[|s| - |u|..];
      }
    }
  }

  /** A decoded frame: FIN is bit 0x40 of the first byte, the opcode is
      always Continuation, the payload has the declared length, and exactly
      the header, the key (when bit 0x80 of the first byte is set) and the
      payload are consumed. */
  lemma FrameLayout(s: seq<Byte>)
    requires LengthFits(s) && HeaderComplete(s) && Decode(s).result.Success?
    ensures var v := Decode(s).result.value;
      var end := 2 + ExtendedSize(Low(s[1], 0x80)) + MaskSize(s) + |v.payload|;
      && v.isFinal == HasFlag(s[0], 0x40)
      && v.opcode == Continuation
      && |v.payload| == PayloadLength(s[1..]).length
      && end <= |s|
      && Decode(s).rest == s[end..]
  {
    LengthConsumed(s);
    var h := 2 + ExtendedSize(Low(s[1], 0x80));
    DecodeHeader(s, s[h..]);
    var n := PayloadLength(s[1..]).length as nat;
    if HasFlag(s[0], 0x80) {
      MaskedLayout(HasFlag(s[0], 0x40), n, s[h..]);
      SuffixSlices(s, h, 4, n);
    } else {
      SuffixSlices(s, h, 0, n);
    }
  }

  /** The payload of a decoded frame is the wire bytes after the header,
      unmasked with the 4-byte key that precedes them when bit 0x80 of the
      first byte is set, and taken as they are otherwise. */
  lemma FramePayload(s: seq<Byte>)
    requires LengthFits(s) && HeaderComplete(s) && Decode(s).result.Success?
    ensures var p := Decode(s).result.value.payload;
      var h := 2 + ExtendedSize(Low(s[1], 0x80));
      && h + MaskSize(s) + |p| <= |s|
      && (!HasFlag(s[0], 0x80) ==> p == s[h..h + |p|])
      && (HasFlag(s[0], 0x80) ==> Unmask(p, s[h..h + 4]) == s[h + 4..h + 4 + |p|])
  {
    LengthConsumed(s);
    var h := 2 + ExtendedSize(Low(s[1], 0x80));
    DecodeHeader(s, s[h..]);
    var n := PayloadLength(s[1..]).length as nat;
    if HasFlag(s[0], 0x80) {
      MaskedLayout(HasFlag(s[0], 0x40), n, s[h..]);
      SuffixSlices(s, h, 4, n);
    } else {
      SuffixSlices(s, h, 0, n);
    }
  }

  lemma SuffixSlices(s: seq<Byte>, h: nat, k: nat, n: nat)
    requires h + k + n <= |s|
    ensures s[h..][..k] == s[h..h + k]
    ensures s[h..][k..k + n] == s[h + k..h + k + n]
    ensures s[h..][k..][..n] == s[h + k..h + k + n]
    ensures s[h..][k + n..] == s[h + k + n..]
  {
  }

  /** The masked half of FrameLayout, on the input after the length. */
  lemma MaskedLayout(isFinal: bool, n: nat, t: seq<Byte>)
    requires DecodeKey(isFinal, true, n, t).result.Success?
    ensures var d := DecodeKey(isFinal, true, n, t);
      && 4 + n <= |t|
      && |d.result.value.payload| == n
      && d.rest == t[4 + n..]
      && Unmask(d.result.value.payload, t[..4]) == t[4..4 + n]
  {
    var wire := t[4..][..n];
    assert wire == t[4..4 + n];
    assert t[4..][n..] == t[4 + n..];
    UnmaskInvolution(wire, t[..4]);
  }

  /** Decoding fails exactly when the input ends before the frame does: no
      first byte, or fewer bytes than the length, key and payload need. A
      failure leaves nothing of the input behind. */
  lemma FailsIffShort(s: seq<Byte>)
    requires LengthFits(s)
    ensures Decode(s).result.Failure? ==> Decode(s).rest == []
    ensures s == [] ==> Decode(s) == Decoding(Failure(EOF), [])
    ensures s != [] ==>
      var lr := PayloadLength(s[1..]);
      (Decode(s).result.Failure? <==> |s| < 1 + lr.consumed + MaskSize(s) + (if lr.length < 0 then 0 else lr.length))
  {
    if s != [] {
      LengthFitsIff(s);
    }
  }

  /** A masked frame whose 64-bit length reads as a negative Go int never
      reaches `make` when its key is cut short: the key read reports EOF or
      UnexpectedEOF, and everything is consumed. */
  lemma NegativeLengthKeyFails(s: seq<Byte>)
    requires |s| >= 10 && Low(s[1], 0x80) == 127 && s[2] >= 128
    requires HasFlag(s[0], 0x80) && |s| < 14
    ensures LengthFits(s)
    ensures Decode(s) == Decoding(Failure(ShortReadError(|s| - 10)), [])
  {
    ExtendedLength64(s[1..]);
    DecodeHeader(s, s[10..]);
  }

  /** A missing or short length is not an error: the length reads as 0 and
      all that was left is consumed, so an unmasked frame decodes with an
      empty payload and a masked one fails at its key. */
  lemma TruncatedLengthSwallowed(s: seq<Byte>)
    requires s != [] && !HeaderComplete(s)
    ensures LengthFits(s)
    ensures Decode(s) == if HasFlag(s[0], 0x80) then Decoding(Failure(EOF), [])
                         else Decoding(Success(FrameValue(Continuation, [], HasFlag(s[0], 0x40))), [])
  {
    LengthFitsIff(s);
    TruncatedLengthIsZero(s[1..]);
    assert s[1 + PayloadLength(s[1..]).consumed..] == [];
  }

  /** getPayloadLength looks only at the low seven bits of the length byte. */
  lemma PayloadLengthIgnoresTopBit(a: seq<Byte>, b: seq<Byte>)
    requires |a| == |b| >= 1 && Low(a[0], 0x80) == Low(b[0], 0x80) && a[1..] == b[1..]
    ensures PayloadLength(a) == PayloadLength(b)
  {
    if |a| >= 3 {
      assert a[1..3] == b[1..3];
    }
    if |a| >= 9 {
      assert a[1..9] == b[1..9];
    }
  }

  /** The top bit of the second byte, where section 5.2 of RFC 6455 puts
      MASK, is never looked at: two inputs that differ only there decode
      alike. */
  lemma SecondByteTopBitIgnored(a: seq<Byte>, b: seq<Byte>)
    requires |a| == |b| >= 2 && a[0] == b[0] && Low(a[1], 0x80) == Low(b[1], 0x80) && a[2..] == b[2..]
    requires LengthFits(a)
    ensures LengthFits(b) && Decode(b) == Decode(a)
  {
    assert a[1..][1..] == b[1..][1..];
    PayloadLengthIgnoresTopBit(a[1..], b[1..]);
    LengthFitsIff(a);
    LengthFitsIff(b);
    var c := PayloadLength(a[1..]).consumed;
    assert a[1 + c..] == b[1 + c..];
    DecodeHeader(a, a[1 + c..]);
    DecodeHeader(b, a[1 + c..]);
  }

  // ---------------------------------------------------------------------
  // An encoder for the frames this decoder reads, and the round trip
  // ---------------------------------------------------------------------

  /** The first byte of a frame as this decoder reads it: FIN in bit 0x40,
      MASK in bit 0x80 and the opcode in the low four bits (the bits are
      disjoint, so the sum is their bitwise OR). */
  function FirstByte(isFinal: bool, masked: bool, opcode: Opcode): Byte
    requires opcode < 0x10
  {
    (if isFinal then 0x40 else 0) + (if masked then 0x80 else 0) + opcode
  }

  lemma FirstByteFields(isFinal: bool, masked: bool, opcode: Opcode)
    requires opcode < 0x10
    ensures var b := FirstByte(isFinal, masked, opcode);
      HasFlag(b, 0x40) == isFinal && HasFlag(b, 0x80) == masked && Low(b, 0x10) == opcode
  {
  }

  /** The shortest length field for `n`: 7 bits, 126 and a u16, or 127 and a u64. */
  function EncodeLength(n: nat): (b: seq<Byte>)
    requires n < TwoTo63
  {
    if n <= 125 then [n]
    else if n <= 65535 then [126] + ToBigEndian(n, 2)
    else [127] + ToBigEndian(n, 8)
  }

  /** A frame laid out as this decoder reads it: FIN in bit 0x40 and MASK in
      bit 0x80 of the first byte, the opcode in its low four bits, then the
      length, the key when there is one, and the masked payload. */
  function Encode(isFinal: bool, opcode: Opcode, payload: seq<Byte>, key: Option<seq<Byte>>): seq<Byte>
    requires opcode < 0x10 && |payload| < TwoTo63
    requires key.Some? ==> |key.value| == 4
  {
    var b0 := FirstByte(isFinal, key.Some?, opcode);
    [b0] + EncodeLength(|payload|)
      + (if key.Some? then key.value + Unmask(payload, key.value) else payload)
  }

  lemma {:induction false} LengthRoundTrip(n: nat, rest: seq<Byte>)
    requires n < TwoTo63
    ensures var s := EncodeLength(n) + rest;
      && PayloadLength(s) == LengthRead(n, |EncodeLength(n)|)
      && (|s| >= 9 && Low(s[0], 0x80) == 127 ==> s[1] < 128)
  {
    var s := EncodeLength(n) + rest;
    if n <= 125 {
    } else if n <= 65535 {
      assert Pow256(2) == 65536;
      BigEndianRoundTrip(n, 2);
      assert s[1..3] == ToBigEndian(n, 2);
    } else {
      assert Pow256(8) == TwoTo64;
      BigEndianRoundTrip(n, 8);
      assert s[1..9] == ToBigEndian(n, 8);
      TopBitClearIff(s[1..9]);
    }
  }

  /** Decoding an encoded frame followed by anything gives back FIN and the
      payload and consumes exactly the frame; the opcode is not recovered. */
  lemma {:induction false} DecodeEncode(isFinal: bool, opcode: Opcode, payload: seq<Byte>,
                                        key: Option<seq<Byte>>, rest: seq<Byte>)
    requires opcode < 0x10 && |payload| < TwoTo63
    requires key.Some? ==> |key.value| == 4
    ensures var s := Encode(isFinal, opcode, payload, key) + rest;
      && LengthFits(s)
      && Decode(s) == Decoding(Success(FrameValue(Continuation, payload, isFinal)), rest)
  {
    var n := |payload|;
    var len := EncodeLength(n);
    var body := if key.Some? then key.value + Unmask(payload, key.value) else payload;
    var s := Encode(isFinal, opcode, payload, key) + rest;
    FirstByteFields(isFinal, key.Some?, opcode);
    assert s == [s[0]] + len + (body + rest);
    assert s[1..] == len + (body + rest);
    LengthRoundTrip(n, body + rest);
    assert LengthFits(s);
    var t := s[1 + |len|..];
    assert t == body + rest;
    DecodeHeader(s, t);
    BodyRoundTrip(isFinal, payload, key, rest);
  }

  /** The part of the round trip after the length field. */
  lemma BodyRoundTrip(isFinal: bool, payload: seq<Byte>, key: Option<seq<Byte>>, rest: seq<Byte>)
    requires key.Some? ==> |key.value| == 4
    ensures var t := (if key.Some? then key.value + Unmask(payload, key.value) else payload) + rest;
      DecodeKey(isFinal, key.Some?, |payload|, t)
        == Decoding(Success(FrameValue(Continuation, payload, isFinal)), rest)
  {
    var n := |payload|;
    if key.Some? {
      var t := key.value + Unmask(payload, key.value) + rest;
      assert t[..4] == key.value;
      assert t[4..] == Unmask(payload, key.value) + rest;
      assert t[4..][..n] == Unmask(payload, key.value);
      assert t[4..][n..] == rest;
      UnmaskInvolution(payload, key.value);
    } else {
      var t := payload + rest;
      assert t[..n] == payload && t[n..] == rest;
    }
  }

  // ---------------------------------------------------------------------
  // Concrete inputs
  // ---------------------------------------------------------------------

  /** The unmasked "Hello" of section 5.7 of RFC 6455 (0x81 0x05 "Hello"):
      its 0x80 bit is read as MASK, "Hell" becomes the key, and the 5-byte
      payload read finds only "o". */
  lemma RfcUnmaskedHelloFails()
    ensures LengthFits([0x81, 0x05, 0x48, 0x65, 0x6c, 0x6c, 0x6f])
    ensures Decode([0x81, 0x05, 0x48, 0x65, 0x6c, 0x6c, 0x6f]) == Decoding(Failure(UnexpectedEOF), [])
  {
    var s: seq<Byte> := [0x81, 0x05, 0x48, 0x65, 0x6c, 0x6c, 0x6f];
    assert Low(s[1..][0], 0x80) == 5;
    assert s[2..][4..] == [0x6f];
  }

  /** The masked payload of section 5.7 of RFC 6455 unmasks to "Hello". */
  lemma RfcHelloUnmasks()
    ensures Unmask([0x7f, 0x9f, 0x4d, 0x51, 0x58], [0x37, 0xfa, 0x21, 0x3d]) == [0x48, 0x65, 0x6c, 0x6c, 0x6f]
  {
    RfcHelloByte0();
    RfcHelloByte1();
    RfcHelloByte2();
    RfcHelloByte3();
    RfcHelloByte4();
    UnmaskFive([0x7f, 0x9f, 0x4d, 0x51, 0x58], [0x37, 0xfa, 0x21, 0x3d]);
  }

  /** Unmask spelled out on a five-byte payload. */
  lemma UnmaskFive(w: seq<Byte>, k: seq<Byte>)
    requires |w| == 5 && |k| == 4
    ensures Unmask(w, k) == [XorByte(w[0], k[0]), XorByte(w[1], k[1]), XorByte(w[2], k[2]),
                             XorByte(w[3], k[3]), XorByte(w[4], k[0])]
  {
  }

  // One XOR of the example each, bit pair by bit pair from the top.
  lemma RfcHelloByte0()
    ensures Xor(0x7f, 0x37) == 0x48
  {
    assert Xor(0x1, 0x0) == 0x1;
    assert Xor(0x7, 0x3) == 0x4;
    assert Xor(0x1f, 0xd) == 0x12;
    assert Xor(0x3f, 0x1b) == 0x24;
  }

  lemma RfcHelloByte1()
    ensures Xor(0x9f, 0xfa) == 0x65
  {
    assert Xor(0x2, 0x3) == 0x1;
    assert Xor(0x9, 0xf) == 0x6;
    assert Xor(0x27, 0x3e) == 0x19;
    assert Xor(0x4f, 0x7d) == 0x32;
  }

  lemma RfcHelloByte2()
    ensures Xor(0x4d, 0x21) == 0x6c
  {
    assert Xor(0x1, 0x0) == 0x1;
    assert Xor(0x4, 0x2) == 0x6;
    assert Xor(0x13, 0x8) == 0x1b;
    assert Xor(0x26, 0x10) == 0x36;
  }

  lemma RfcHelloByte3()
    ensures Xor(0x51, 0x3d) == 0x6c
  {
    assert Xor(0x1, 0x0) == 0x1;
    assert Xor(0x5, 0x3) == 0x6;
    assert Xor(0x14, 0xf) == 0x1b;
    assert Xor(0x28, 0x1e) == 0x36;
  }

  lemma RfcHelloByte4()
    ensures Xor(0x58, 0x37) == 0x6f
  {
    assert Xor(0x1, 0x0) == 0x1;
    assert Xor(0x5, 0x3) == 0x6;
    assert Xor(0x16, 0xd) == 0x1b;
    assert Xor(0x2c, 0x1b) == 0x37;
  }

  /** The masked "Hello" of section 5.7 of RFC 6455: it unmasks to "Hello",
      but as a non-final frame, because bit 0x40 of 0x81 is clear. */
  lemma RfcMaskedHelloNotFinal()
    ensures LengthFits([0x81, 0x85, 0x37, 0xfa, 0x21, 0x3d, 0x7f, 0x9f, 0x4d, 0x51, 0x58])
    ensures Decode([0x81, 0x85, 0x37, 0xfa, 0x21, 0x3d, 0x7f, 0x9f, 0x4d, 0x51, 0x58])
      == Decoding(Success(FrameValue(Continuation, [0x48, 0x65, 0x6c, 0x6c, 0x6f], false)), [])
  {
    var s: seq<Byte> := [0x81, 0x85, 0x37, 0xfa, 0x21, 0x3d, 0x7f, 0x9f, 0x4d, 0x51, 0x58];
    assert Low(s[1..][0], 0x80) == 5;
    var key := s[2..][..4];
    assert key == [0x37, 0xfa, 0x21, 0x3d];
    var wire := s[2..][4..][..5];
    assert wire == [0x7f, 0x9f, 0x4d, 0x51, 0x58];
    RfcHelloUnmasks();
  }

  /** A stream holding only a first byte: unmasked, it decodes to an empty
      frame instead of an error; masked, the key read hits EOF. */
  lemma LoneFirstByte()
    ensures Decode([0x40]) == Decoding(Success(FrameValue(Continuation, [], true)), [])
    ensures Decode([0x80]) == Decoding(Failure(EOF), [])
  {
  }

  /** A masked frame with a 64-bit length of 2^63 and nothing after it:
      the key read hits EOF before the length is used. */
  lemma NegativeLengthNoKey()
    ensures LengthFits([0x80, 0x7F, 0x80, 0, 0, 0, 0, 0, 0, 0])
    ensures Decode([0x80, 0x7F, 0x80, 0, 0, 0, 0, 0, 0, 0]) == Decoding(Failure(EOF), [])
  {
    NegativeLengthKeyFails([0x80, 0x7F, 0x80, 0, 0, 0, 0, 0, 0, 0]);
  }

  /** A 126-form length of 256 with only three payload bytes left: the
      payload read fails part-way. */
  lemma ExtendedLengthPayloadShort()
    ensures LengthFits([0x40, 126, 0x01, 0x00, 1, 2, 3])
    ensures Decode([0x40, 126, 0x01, 0x00, 1, 2, 3]) == Decoding(Failure(UnexpectedEOF), [])
  {
    var s: seq<Byte> := [0x40, 126, 0x01, 0x00, 1, 2, 3];
    ExtendedLength16(s[1..]);
    assert PayloadLength(s[1..]).length == 256;
  }
}
