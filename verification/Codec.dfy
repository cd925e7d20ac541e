/** The nanopb encoder and decoder together, on a real buffer. */
module Codec {
  import opened Bits
  import opened PbTypes
  import opened Encoding
  import PbDecode
  import PbEncode
  import opened RoundTrip

  /** Measures a message, writes it to a buffer of exactly that size, and reads it back into a struct of its own: this
      succeeds exactly when the message can be encoded and every string in it is terminated, and then gives the message
      in normal form, with every member as it was. */
  method EncodeThenDecode(fs: seq<Field>, slots: seq<Slot>) returns (ok: bool, out: seq<Slot>)
    requires DescriptorOk(fs) && Matches(fs, slots) && |EncodeMessage(fs, slots).bytes| < TWO32
    ensures ok == (EncodeMessage(fs, slots).ok && Terminated(fs, slots))
    ensures ok ==> out == Normal(fs, slots) && Same(fs, slots, out)
  {
    FieldsAreStatic(fs, 0);
    var bytes;
    ok, bytes := PbEncode.EncodeToBuffer(fs, slots);
    if !ok {
      return false, [];
    }
    var buf := new byte[|bytes|](i requires 0 <= i < |bytes| => bytes[i]);
    var stream := new PbDecode.IStream(buf, 0, |bytes|);
    assert stream.Left() == bytes;
    MessageRoundTrip(fs, slots);
    ok, out := PbDecode.PbDecode(stream, fs);
  }
}
