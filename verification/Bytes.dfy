/** Bytes, 32-bit words and the option type shared by the models. */
module Bytes {

  type byte = x: int | 0 <= x < 256

  /** A 32-bit unsigned word. */
  type u32 = x: int | 0 <= x < 0x1_0000_0000

  datatype Option<+T> = None | Some(value: T)

  /** Little-endian 16 bits. */
  function ReadU16(bytes: seq<byte>, offset: nat): (r: nat)
    requires offset + 2 <= |bytes|
    ensures r < 0x1_0000
  {
    (bytes[offset] as int) + 0x100 * (bytes[offset + 1] as int)
  }

  /** Little-endian 32 bits. */
  function ReadU32(bytes: seq<byte>, offset: nat): (r: nat)
    requires offset + 4 <= |bytes|
    ensures r < 0x1_0000_0000
  {
    ReadU16(bytes, offset) + 0x1_0000 * ReadU16(bytes, offset + 2)
  }

  /** `data` with `bytes` written over it from `pos` on, longer if they reach past its end. */
  function Overlay(data: seq<byte>, pos: nat, bytes: seq<byte>): (r: seq<byte>)
    requires pos <= |data|
    ensures |r| == if pos + |bytes| <= |data| then |data| else pos + |bytes|
  {
    data[..pos] + bytes + (if pos + |bytes| <= |data| then data[pos + |bytes|..] else [])
  }

  lemma OverlayTwice(data: seq<byte>, pos: nat, a: seq<byte>, b: seq<byte>)
    requires pos <= |data|
    ensures pos + |a| <= |Overlay(data, pos, a)|
    ensures Overlay(Overlay(data, pos, a), pos + |a|, b) == Overlay(data, pos, a + b)
  {
  }
}
