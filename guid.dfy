/**
 * System.Guid, represented by the 16 bytes that Guid.ToByteArray returns. The byte-array
 * constructor `new Guid(byte[])` reads those 16 bytes back, so the two are inverse by construction.
 */
module Guids {
  import opened Bytes

  type GuidBytes = s: seq<byte> | |s| == 16 witness [0, 0, 0, 0, 0, 0, 0, 0, 0, 0, 0, 0, 0, 0, 0, 0]

  datatype Guid = Guid(bytes: GuidBytes)

  function ToByteArray(g: Guid): (r: seq<byte>)
    ensures |r| == 16
  {
    g.bytes
  }

  /** `new Guid(byte[])`; its ArgumentException for a length other than 16 is a precondition here. */
  function FromByteArray(b: seq<byte>): (g: Guid)
    requires |b| == 16
    ensures ToByteArray(g) == b
  {
    Guid(b)
  }

  lemma FromToByteArray(g: Guid)
    ensures FromByteArray(ToByteArray(g)) == g
  {
  }
}
