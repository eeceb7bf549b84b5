/** The in-memory frame and its opcode (frame.go). */
module Frames {
  import opened Bytes

  /** Go's `type Opcode byte`: every byte is an Opcode, named or not. */
  type Opcode = Byte

  const Continuation: Opcode := 0x0
  const Text: Opcode := 0x1
  const Binary: Opcode := 0x2
  const Close: Opcode := 0x8
  const Ping: Opcode := 0x9
  const Pong: Opcode := 0xA

  /** The named opcodes in declaration order. */
  const NamedOpcodes: seq<Opcode> := [Continuation, Text, Binary, Close, Ping, Pong]

  /** The named opcodes are the six frame types of section 5.2 of RFC 6455,
      pairwise distinct, and all fit the 4-bit opcode field. */
  lemma NamedOpcodesDistinct()
    ensures NamedOpcodes == [0x0, 0x1, 0x2, 0x8, 0x9, 0xA]
    ensures forall i, j :: 0 <= i < j < |NamedOpcodes| ==> NamedOpcodes[i] != NamedOpcodes[j]
    ensures forall i :: 0 <= i < |NamedOpcodes| ==> NamedOpcodes[i] <= 0x0F
  {
  }

  /** A frame's contents as a value. */
  datatype FrameValue = FrameValue(opcode: Opcode, payload: seq<Byte>, isFinal: bool)

  /** Go's `Frame` struct; the decoder fills one in through a pointer. */
  class Frame {
    var opcode: Opcode
    var payload: array<Byte>
    var isFinal: bool

    /** `&Frame{}`: every field at its zero value; Go's nil Payload slice is
        modelled as a fresh empty array. */
    constructor ()
      ensures opcode == Continuation && payload.Length == 0 && !isFinal
      ensures fresh(payload)
    {
      opcode := Continuation;
      payload := new Byte[0];
      isFinal := false;
    }

    /** The copy Go makes of a struct passed by value; the payload slice is shared. */
    constructor CopyOf(f: Frame)
      ensures opcode == f.opcode && payload == f.payload && isFinal == f.isFinal
    {
      opcode := f.opcode;
      payload := f.payload;
      isFinal := f.isFinal;
    }

    function Value(): FrameValue
      reads this, payload
    {
      FrameValue(opcode, payload[..], isFinal)
    }

    /** SetOpcode has a value receiver: the assignment lands on a copy of the
        frame that is dropped on return, so the caller's frame keeps its opcode.
        Any byte is accepted; nothing checks it against the named opcodes. */
    method SetOpcode(b: Byte)
      ensures Value() == old(Value())
      ensures opcode == old(opcode)
    {
      var receiver := new Frame.CopyOf(this);
      receiver.opcode := b;
    }
  }
}
