/**
 The Ethernet frame codec of listener/canary/ethernet/ethernet.go.
 */
module Ethernet {
  import opened Words

  type HardwareAddr = a: seq<byte> | |a| == 6 witness [0, 0, 0, 0, 0, 0]

  datatype Frame = Frame(source: HardwareAddr, destination: HardwareAddr, kind: u16, payload: seq<byte>)

  function HeaderBytes(f: Frame): (b: seq<byte>)
    ensures |b| == 14
  {
    f.destination + f.source + [Hi(f.kind), Lo(f.kind)]
  }

  /** Marshal writes the header only; the payload is appended by the caller. */
  method Marshal(f: Frame) returns (data: array<byte>)
    ensures fresh(data) && data[..] == HeaderBytes(f)
  {
    data := new byte[14](_ => 0);
    CopyInto(data, 0, f.destination);
    CopyInto(data, 6, f.source);
    data[12], data[13] := Hi(f.kind), Lo(f.kind);
  }

  /** Unmarshal into a fresh frame; the source slices its input without a length check. */
  function Parsed(data: seq<byte>): Frame
    requires |data| >= 14
  {
    Frame(data[6..12], data[..6], Get16(data, 12), data[14..])
  }

  /** Destination, source and type, in this order. */
  lemma Layout(f: Frame)
    ensures var b := HeaderBytes(f);
            b[0..6] == f.destination && b[6..12] == f.source && Get16(b, 12) == f.kind
  {
    WordParses(HeaderBytes(f), 12, f.kind);
  }

  lemma RoundTrip(f: Frame)
    ensures Parsed(HeaderBytes(f) + f.payload) == f
  {
    var b := HeaderBytes(f) + f.payload;
    assert b[..6] == f.destination && b[6..12] == f.source && b[14..] == f.payload;
  }
}
