/**
 The two streams together: size a struct, encode it into a buffer of that size and decode the buffer.
 */
module StreamRoundTrip {
  import opened Wire
  import opened Message
  import opened Encoding
  import opened RoundTrip
  import opened Theorems
  import opened StreamEncoder
  import opened StreamDecoder

  /** The imperative round trip: every step succeeds, and the struct read back is the normalised one. */
  method EncodeThenDecode(fs: seq<Field>, m: seq<Slot>, dest: array<Slot>) returns (ok: bool)
    requires |m| == |fs| == dest.Length && FieldsOk(fs) && MsgOk(fs, m) && SmallMsg(fs, m)
    modifies dest
    ensures ok && dest[..] == Normalise(fs, m)
  {
    ConformingHeld(fs, m);
    EncodeDecode(fs, m);
    var size;
    ok, size := GetEncodedSize(fs, m);
    var buf := new byte[size](_ => 0);
    var sized, counted, written;
    sized, counted, ok, written := SizeAndEncode(fs, m, buf, size);
    assert buf[..size] == Encode(fs, m).bytes == buf[..];
    var stream := new IStream.FromBuffer(buf[..]);
    ok := stream.Decode(fs, dest);
  }
}
