/** HCI packets by their fields, and their H4 encoding (Bluetooth Core Specification, Vol 4 Part A
    section 2 and Part E section 5.4). */
module Hci {
  import opened Bytes

  datatype Hci =
    | Command(opcode: nat, params: seq<Byte>)
    | Acl(handle: nat, data: seq<Byte>)     // handle with its flags
    | Sco(handle: nat, data: seq<Byte>)
    | Event(code: Byte, params: seq<Byte>)
  {
    predicate Valid() {
      match this
      case Command(opcode, params) => opcode < 0x1_0000 && |params| < 0x100
      case Acl(handle, data) => handle < 0x1_0000 && |data| < 0x1_0000
      case Sco(handle, data) => handle < 0x1_0000 && |data| < 0x100
      case Event(_, params) => |params| < 0x100
    }

    /** Indicator, fields, length of the rest (two bytes for ACL data), rest; little-endian. */
    function Encode(): seq<Byte>
      requires Valid()
    {
      match this
      case Command(opcode, params) => [0x01, opcode % 256, opcode / 256, |params|] + params
      case Acl(handle, data) => [0x02, handle % 256, handle / 256, |data| % 256, |data| / 256] + data
      case Sco(handle, data) => [0x03, handle % 256, handle / 256, |data|] + data
      case Event(code, params) => [0x04, code, |params|] + params
    }

    /** How many bytes it takes to tell the length. */
    function HeaderSize(): nat {
      match this case Command(_, _) => 4 case Acl(_, _) => 5 case Sco(_, _) => 4 case Event(_, _) => 3
    }

    function Body(): seq<Byte> {
      match this
      case Command(_, params) => params
      case Acl(_, data) => data
      case Sco(_, data) => data
      case Event(_, params) => params
    }
  }

  ghost predicate AllValid(hs: seq<Hci>) {
    forall h :: h in hs ==> h.Valid()
  }

  function Encodings(hs: seq<Hci>): (ps: seq<seq<Byte>>)
    requires AllValid(hs)
    ensures |ps| == |hs| && forall i :: 0 <= i < |hs| ==> ps[i] == hs[i].Encode()
  {
    seq(|hs|, i requires 0 <= i < |hs| => hs[i].Encode())
  }

  /** Header, then body, told apart by the indicator. */
  lemma EncodeShape(h: Hci)
    requires h.Valid()
    ensures |h.Encode()| == h.HeaderSize() + |h.Body()| && h.Encode()[h.HeaderSize()..] == h.Body()
    ensures h.Encode()[0] == match h
            case Command(_, _) => 1
            case Acl(_, _) => 2
            case Sco(_, _) => 3
            case Event(_, _) => 4
  {
  }

  /** HCI Reset, and five bytes of ACL data on handle 0. */
  lemma KnownPackets()
    ensures Command(0x0c03, []).Encode() == [0x01, 0x03, 0x0c, 0x00]
    ensures Acl(0x2000, [1, 2, 3, 4, 5]).Encode() == [0x02, 0x00, 0x20, 0x05, 0x00, 1, 2, 3, 4, 5]
  {
  }
}
