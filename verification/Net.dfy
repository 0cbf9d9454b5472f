/** The addresses, prefixes and identifiers shared by the view, the codecs and the consumers. */
module Net {

  type byte = x: int | 0 <= x < 256

  datatype Ver = V4 | V6 {
    function Other(): Ver { if V4? then V6 else V4 }
    function Bytes(): nat { if V4? then 4 else 16 }
  }

  datatype Ip = Ip(ver: Ver, bytes: seq<byte>) {
    predicate Ok() { |bytes| == ver.Bytes() }
  }

  datatype Pfx = Pfx(addr: Ip, len: byte) {
    function Ver(): Ver { addr.ver }
  }

  /** A peer identifier; zero is reserved for "no peer". */
  type PeerId = x: int | 0 < x < 0x10000 witness 1

  /** A cell of the table. */
  type Key = (Pfx, PeerId)

  /** What identifies a peer across processes: collector, address and AS number. */
  datatype PeerSig = PeerSig(collector: seq<byte>, ip: Ip, asn: nat)

  /** An identifier handed out by an AS path store; equal identifiers mean equal paths. */
  type PathId = nat

  datatype Option<+T> = None | Some(value: T)
}
