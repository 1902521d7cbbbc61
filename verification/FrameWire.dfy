/** Two gateway frames, byte for byte. */
module FrameWire {
  import opened Bytes
  import Crc
  import CrcCheck
  import opened Frames

  lemma {:induction false} BeBytesStep(n: nat, width: nat)
    requires width > 0
    ensures BeBytes(n, width) == BeBytes(n / 256, width - 1) + [n % 256]
  {
  }

  lemma FourBytes(n: nat)
    ensures BeBytes(n, 4) == [n / 0x100_0000 % 256, n / 0x1_0000 % 256, n / 256 % 256, n % 256]
  {
    hide BeBytes;
    TwoBytes(n / 256 / 256);
    BeBytesStep(n, 4);
    BeBytesStep(n / 256, 3);
    assert n / 256 / 256 == n / 0x1_0000 && n / 256 / 256 / 256 == n / 0x100_0000;
  }

  lemma TwoBytes(n: nat)
    ensures BeBytes(n, 2) == [n / 256 % 256, n % 256]
  {
    assert BeBytes(n / 256, 1) == [] + [n / 256 % 256];
  }

  /** An echo request with number 7 and the text "A" on the wire. */
  lemma EchoOnWire()
    ensures Packet(MSG_ECHO, 7, [0x41]) ==
            [0xFF, 0xAA, 0xBB, 0xCC, 0, 1, 0, 1, 0, 0, 0, 1, 0, 0, 0, 7, 0x41, 0xD3, 0xD9, 0x9E, 0x8B]
  {
    hide BeBytes, Crc.CrcValue;
    CrcCheck.LetterValue();
    FourBytes(PROTOCOL_MAGIC);
    TwoBytes(1);
    FourBytes(1);
    FourBytes(7);
    FourBytes(0xD3D9_9E8B);
  }

  /** The answer to a damaged request with number 7 on the wire: type 0x8002, error 5. */
  lemma MismatchOnWire()
    ensures Packet(MSG_ERROR, 7, [5]) ==
            [0xFF, 0xAA, 0xBB, 0xCC, 0, 1, 0x80, 0x02, 0, 0, 0, 1, 0, 0, 0, 7, 5, 0xA2, 0x68, 0x1B, 0x02]
  {
    hide BeBytes, Crc.CrcValue;
    CrcCheck.FiveValue();
    FourBytes(PROTOCOL_MAGIC);
    TwoBytes(1);
    TwoBytes(MSG_ERROR);
    FourBytes(1);
    FourBytes(7);
    FourBytes(0xA268_1B02);
  }
}
