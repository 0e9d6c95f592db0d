/** The type-tag frame AnyValueTable puts around a value: an eight byte magic, the tag's
    length in four little-endian bytes, the tag, the payload. */
module AnyValues {

  import opened ByteStrings

  /** "MDBXCAV1". */
  const MAGIC: Bytes := [0x4D, 0x44, 0x42, 0x58, 0x43, 0x41, 0x56, 0x31]
  const HEADER_SIZE: nat := 12

  function Header(tag: Bytes): (h: Bytes)
    ensures |h| == HEADER_SIZE
  {
    MAGIC + LittleEndian(|tag|, 4)
  }

  /** wrap_with_type_tag: without checking the value as it is; a tag of 2^32 bytes or more
      is refused. */
  function Wrap(checked: bool, tag: Bytes, payload: Bytes): Option<Bytes> {
    if !checked then Some(payload)
    else if |tag| >= TWO_TO_THE_32 then None
    else Some(Header(tag) + tag + payload)
  }

  /** unwrap_and_check_type_tag: every comparison in the order the code makes it. */
  function Unwrap(checked: bool, tag: Bytes, raw: Bytes): Option<Bytes> {
    if !checked then Some(raw)
    else if |raw| < HEADER_SIZE then None
    else if raw[..8] != MAGIC then None
    else
      var size := LittleEndianValue(raw[8..HEADER_SIZE]);
      if size > |raw| - HEADER_SIZE then None
      else if |tag| != size || raw[HEADER_SIZE..HEADER_SIZE + size] != tag then None
      else Some(raw[HEADER_SIZE + size..])
  }

  lemma FrameParts(tag: Bytes, payload: Bytes)
    requires |tag| < TWO_TO_THE_32
    ensures var raw := Header(tag) + tag + payload;
            && raw[..8] == MAGIC && LittleEndianValue(raw[8..HEADER_SIZE]) == |tag|
            && raw[HEADER_SIZE..HEADER_SIZE + |tag|] == tag && raw[HEADER_SIZE + |tag|..] == payload
  {
    Pow256Widths();
    LittleEndianRoundTrip(|tag|, 4);
    var raw := Header(tag) + tag + payload;
    assert raw[8..HEADER_SIZE] == LittleEndian(|tag|, 4);
  }

  /** A value is accepted as T exactly when it is the frame of some payload under T's tag,
      and what comes back is that payload: the two are inverse on all byte strings. */
  lemma UnwrapExact(checked: bool, tag: Bytes, raw: Bytes, payload: Bytes)
    ensures Unwrap(checked, tag, raw) == Some(payload) <==> Wrap(checked, tag, payload) == Some(raw)
  {
    if checked {
      if |tag| < TWO_TO_THE_32 {
        FrameParts(tag, payload);
      }
      if Unwrap(checked, tag, raw) == Some(payload) {
        Pow256Widths();
        LittleEndianOfValue(raw[8..HEADER_SIZE]);
        assert raw == raw[..8] + raw[8..HEADER_SIZE] + raw[HEADER_SIZE..HEADER_SIZE + |tag|] + raw[HEADER_SIZE + |tag|..];
      }
    }
  }

  /** Frames under different tags are different, even when one tag begins with the other:
      a value written as one type is never read as another. */
  lemma OtherTypeRefused(written: Bytes, read: Bytes, payload: Bytes, raw: Bytes)
    requires Wrap(true, written, payload) == Some(raw)
    ensures Unwrap(true, read, raw) == if read == written then Some(payload) else None
  {
    FrameParts(written, payload);
  }

  /** A record written with checking off is refused once checking is on, unless its own
      bytes happen to be a frame for the tag. */
  lemma RawRecordRefused(tag: Bytes, raw: Bytes)
    ensures Unwrap(true, tag, raw).None? <==> |tag| >= TWO_TO_THE_32 || !(Header(tag) + tag <= raw)
  {
    if Unwrap(true, tag, raw).Some? {
      UnwrapExact(true, tag, raw, Unwrap(true, tag, raw).value);
    } else if |tag| < TWO_TO_THE_32 && Header(tag) + tag <= raw {
      var payload := raw[HEADER_SIZE + |tag|..];
      assert raw == Header(tag) + tag + payload;
      UnwrapExact(true, tag, raw, payload);
    }
  }

  /** A value is refused exactly when tags are checked and the tag is too long to measure. */
  lemma WrapRefuses(checked: bool, tag: Bytes, payload: Bytes)
    ensures Wrap(checked, tag, payload).None? <==> checked && |tag| >= 0x1_0000_0000
  {
  }

  /** What a checked record looks like: "MDBXCAV1", the tag's length, the tag, the payload. */
  lemma FrameLayout(tag: Bytes, payload: Bytes, raw: Bytes)
    requires Wrap(true, tag, payload) == Some(raw)
    ensures |raw| == 12 + |tag| + |payload|
    ensures raw[..8] == [0x4D, 0x44, 0x42, 0x58, 0x43, 0x41, 0x56, 0x31]
    ensures var d: seq<int> := raw; |tag| == d[8] + 0x100 * d[9] + 0x1_0000 * d[10] + 0x100_0000 * d[11]
    ensures raw[12..12 + |tag|] == tag && raw[12 + |tag|..] == payload
  {
    FrameParts(tag, payload);
    var size := raw[8..12];
    FourDigits(size);
    assert size[4..] == [];
  }

  /** With checking off, which is the default, the record is the payload itself, every byte
      string is a record of every type, and tags play no part. */
  lemma Unchecked(written: Bytes, read: Bytes, payload: Bytes)
    ensures Wrap(false, written, payload) == Some(payload)
    ensures Unwrap(false, read, payload) == Some(payload)
  {
  }

  /** Either way what is stored under a tag short enough is read back under it. */
  lemma StoredIsRead(checked: bool, tag: Bytes, payload: Bytes)
    requires checked ==> |tag| < 0x1_0000_0000
    ensures Wrap(checked, tag, payload).Some?
    ensures Unwrap(checked, tag, Wrap(checked, tag, payload).value) == Some(payload)
  {
    UnwrapExact(checked, tag, Wrap(checked, tag, payload).value, payload);
  }
}
