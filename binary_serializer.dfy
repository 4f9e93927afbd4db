/** A model of `BinarySerializer` in Spreads.Serialization: the size a value
    takes in binary form, and `Write`, which puts that form into a
    destination buffer at an offset.

    What the serializer asks of code outside it is given as plain values:
      - `TypeHelper<T>.SizeOf(value, out tempStream)` is a `Report`: the size
        it returns and the temporary stream it may hand back;
      - `TypeHelper<T>.Write(value, ref destination, offset)` is the `image`
        of the report: the bytes it stores at `offset`;
      - the BSON encoding of the value (`BSON.Serialize`, and the stream
        `BSON.SizeOf` fills) is a byte sequence.
    Streams are their contents: `WriteToPtr` copies all of them.

    The destination `DirectBuffer` is an array of bytes changed in place.
    `Write` is a method on it, proved against the function `WriteSpec` on
    the buffer's contents; the properties of the serializer are lemmas about
    `WriteSpec`. Byte order is little-endian, the only order the library
    runs on. */
module Serialization {

  const TWO31: int := 0x8000_0000
  const TWO32: int := 0x1_0000_0000
  const Int32Max: int := 0x7FFF_FFFF

  type Byte = x: int | 0 <= x < 256

  /** A C# `int`. */
  type Int32 = x: int | -0x8000_0000 <= x < 0x8000_0000

  /** A C# `uint`. */
  type UInt32 = x: int | 0 <= x < 0x1_0000_0000

  datatype Option<T> = None | Some(value: T)

  /** What `TypeHelper<T>` reports for a value: the size `SizeOf` returns
      (negative when the type has no binary layout of its own, 0 when the
      size is only known once written), the temporary stream `SizeOf` hands
      back, and the bytes `TypeHelper<T>.Write` stores at the offset. */
  datatype Report = Report(size: Int32, temp: Option<seq<Byte>>, image: seq<Byte>)

  /** The contract of `TypeHelper<T>.Write` for a fixed-size type: it writes
      exactly the reported number of bytes. */
  predicate FixedWriterKeepsSize(h: Report) {
    h.size > 0 ==> |h.image| == h.size
  }

  /** The exceptions `Write` and the size functions throw. */
  datatype Failure =
    | DestinationTooSmall  // ArgumentException: "Value size is too big for destination"
    | Overflow             // OverflowException from `checked((int)stream.Length)`
    | NotImplemented       // NotImplementedException

  datatype Outcome = Wrote(size: Int32) | Failed(failure: Failure)

  // ---------------------------------------------------------------------
  // Int32 arithmetic and its bytes

  /** Unchecked C# `int` arithmetic: x reduced into the int range modulo
      2^32. */
  function Wrap32(x: int): (r: Int32)
    ensures (r - x) % TWO32 == 0
    ensures -TWO31 <= x < TWO31 ==> r == x
  {
    var u := x % TWO32;
    if u >= TWO31 then u - TWO32 else u
  }

  /** `checked((int)length)` on a stream length: the length, or an overflow
      when it exceeds int.MaxValue. */
  function CheckedLength(len: nat): (r: Option<Int32>)
    ensures r.Some? <==> len <= Int32Max
    ensures r.Some? ==> r.value == len
  {
    if len <= Int32Max then Some(len) else None
  }

  /** `8 + checked((int)length)`: the length of a payload and its 8-byte
      header. The addition itself is unchecked. */
  function FramedSize(len: nat): (r: Option<Int32>)
    ensures r.None? <==> len > Int32Max
  {
    match CheckedLength(len)
    case None => None
    case Some(n) => Some(Wrap32(8 + n))
  }

  /** The framed size is the payload length plus 8 unless the length is
      within 8 of int.MaxValue, where the unchecked addition wraps to a
      negative size. */
  lemma FramedSizeValue(len: nat)
    requires len <= Int32Max
    ensures len <= Int32Max - 8 ==> FramedSize(len) == Some(8 + len)
    ensures len > Int32Max - 8 ==> FramedSize(len).value < 0
  {
  }

  /** The four bytes `WriteInt32` stores for v, least significant first. */
  function Int32LE(v: Int32): (bs: seq<Byte>)
    ensures |bs| == 4
  {
    var u := if v < 0 then v + TWO32 else v;
    [u % 256, u / 256 % 256, u / 65536 % 256, u / 16777216]
  }

  /** The `int` that four little-endian bytes hold. */
  function ReadInt32LE(bs: seq<Byte>): Int32
    requires |bs| == 4
  {
    var u := bs[0] as int + 256 * (bs[1] as int) + 65536 * (bs[2] as int) + 16777216 * (bs[3] as int);
    if u >= TWO31 then u - TWO32 else u
  }

  /** Reading back the bytes of an int gives the int. */
  lemma Int32RoundTrip(v: Int32)
    ensures ReadInt32LE(Int32LE(v)) == v
  {
    var u := if v < 0 then v + TWO32 else v;
    var bs := Int32LE(v);
    assert u == bs[0] + 256 * (u / 256);
    assert u / 256 == bs[1] + 256 * (u / 65536);
    assert u / 65536 == bs[2] + 256 * bs[3];
  }

  // ---------------------------------------------------------------------
  // Buffer contents

  /** The contents of `buf` with `bytes` copied in at `at`. */
  function Splice(buf: seq<Byte>, at: nat, bytes: seq<Byte>): (r: seq<Byte>)
    requires at + |bytes| <= |buf|
    ensures |r| == |buf|
    ensures r[at..at + |bytes|] == bytes
    ensures forall i :: 0 <= i < |buf| && !(at <= i < at + |bytes|) ==> r[i] == buf[i]
  {
    buf[..at] + bytes + buf[at + |bytes|..]
  }

  /** The 8-byte header of a framed payload, as the payload path writes
      it at `at`: the size as an int at bytes at..at+3 and a zero marker at
      byte at+5; bytes at+4, at+6 and at+7 are left alone. */
  function HeaderAt(buf: seq<Byte>, at: nat, size: Int32): (r: seq<Byte>)
    requires at + 6 <= |buf|
    ensures |r| == |buf|
    ensures ReadInt32LE(r[at..at + 4]) == size && r[at + 5] == 0
    ensures forall i :: 0 <= i < |buf| && !(at <= i < at + 4) && i != at + 5 ==> r[i] == buf[i]
  {
    Int32RoundTrip(size);
    Splice(buf, at, Int32LE(size))[at + 5 := 0]
  }

  /** `after` is `buf` with `bytes` copied in at `at`, and nothing else
      changed. */
  predicate Copied(buf: seq<Byte>, after: seq<Byte>, at: nat, bytes: seq<Byte>) {
    && |after| == |buf|
    && at + |bytes| <= |buf|
    && after[at..at + |bytes|] == bytes
    && forall i :: 0 <= i < |buf| && !(at <= i < at + |bytes|) ==> after[i] == buf[i]
  }

  /** The paths that copy a stream place it at `Data + (int)offset`; the
      offset must be one that the cast leaves unchanged. */
  predicate StreamOffsetFits(offset: UInt32, payload: Option<seq<Byte>>, h: Report) {
    CopiesStream(payload, h) ==> offset <= Int32Max
  }

  /** `Write` takes a path that copies a stream: the caller's payload, the
      temporary stream of `TypeHelper<T>.SizeOf`, or the BSON bytes. */
  predicate CopiesStream(payload: Option<seq<Byte>>, h: Report) {
    payload.Some? || h.size < 0 || (h.size == 0 && h.temp.Some?)
  }

  /** A payload stream whose framed size does not wrap. */
  predicate PayloadFrameFits(payload: Option<seq<Byte>>) {
    payload.Some? ==> |payload.value| <= Int32Max - 8 || |payload.value| > Int32Max
  }

  /** The contract `TypeHelper<T>.Write` is called under on the path that
      skips the bounds check: its bytes land inside the buffer, and their
      count, which it returns, is an int. */
  predicate UncheckedWriteFits(bufLen: nat, offset: UInt32, payload: Option<seq<Byte>>, h: Report) {
    payload.None? && h.size == 0 && h.temp.None? ==> offset + |h.image| <= bufLen && |h.image| <= Int32Max
  }

  /** What the callers of `Write` must supply. */
  predicate WriteArgs(bufLen: nat, offset: UInt32, payload: Option<seq<Byte>>, h: Report) {
    StreamOffsetFits(offset, payload, h) && PayloadFrameFits(payload) && FixedWriterKeepsSize(h)
    && UncheckedWriteFits(bufLen, offset, payload, h)
  }

  // ---------------------------------------------------------------------
  // Write

  /** The outcome of a copy of `bytes` to `offset`, bounds-checked first. */
  function CheckedCopy(buf: seq<Byte>, offset: nat, bytes: seq<Byte>): (Outcome, seq<Byte>)
  {
    match CheckedLength(|bytes|)
    case None => (Failed(Overflow), buf)
    case Some(size) =>
      if |buf| < offset + size then (Failed(DestinationTooSmall), buf)
      else (Wrote(size), Splice(buf, offset, bytes))
  }

  /** `Write<T>(value, ref destination, offset, payloadStream)`: the result
      and the destination's new contents, on each of its four paths. */
  function WriteSpec(buf: seq<Byte>, offset: UInt32, payload: Option<seq<Byte>>, h: Report, bson: seq<Byte>)
    : (Outcome, seq<Byte>)
    requires WriteArgs(|buf|, offset, payload, h)
  {
    if payload.Some? then
      // a payload stream supplied by the caller: header at 0, payload at offset + 8
      match FramedSize(|payload.value|)
      case None => (Failed(Overflow), buf)
      case Some(size) =>
        if |buf| < offset + size then (Failed(DestinationTooSmall), buf)
        else (Wrote(size), Splice(HeaderAt(buf, 0, size), offset + 8, payload.value))
    else if h.size > 0 then
      // fixed size: TypeHelper writes it
      if |buf| < offset + h.size then (Failed(DestinationTooSmall), buf)
      else (Wrote(h.size), Splice(buf, offset, h.image))
    else if h.size == 0 then
      // size known once written: the temporary stream, raw, or TypeHelper unchecked
      if h.temp.None? then (Wrote(|h.image|), Splice(buf, offset, h.image))
      else CheckedCopy(buf, offset, h.temp.value)
    else
      // no binary layout: the BSON bytes, raw
      CheckedCopy(buf, offset, bson)
  }

  /** Copies `bytes` into `dest` at `at` (`WriteToPtr`, and the stores of
      `WriteInt32` and `TypeHelper<T>.Write`). */
  method CopyInto(dest: array<Byte>, at: nat, bytes: seq<Byte>)
    requires at + |bytes| <= dest.Length
    modifies dest
    ensures dest[..] == Splice(old(dest[..]), at, bytes)
  {
    var i := 0;
    while i < |bytes|
      invariant 0 <= i <= |bytes|
      invariant forall k :: 0 <= k < dest.Length && !(at <= k < at + i) ==> dest[k] == old(dest[k])
      invariant forall k :: at <= k < at + i ==> dest[k] == bytes[k - at]
    {
      dest[at + i] := bytes[i];
      i := i + 1;
    }
    ghost var want := Splice(old(dest[..]), at, bytes);
    assert forall k :: 0 <= k < dest.Length ==> dest[..][k] == want[k] by {
      forall k | 0 <= k < dest.Length ensures dest[..][k] == want[k] {
        if at <= k < at + |bytes| {
          assert want[k] == want[at..at + |bytes|][k - at];
        }
      }
    }
  }

  /** `Write<T>`: the destination is bounds-checked before any store, and
      changed in place. */
  method Write(dest: array<Byte>, offset: UInt32, payload: Option<seq<Byte>>, h: Report, bson: seq<Byte>)
    returns (r: Outcome)
    requires WriteArgs(dest.Length, offset, payload, h)
    modifies dest
    ensures (r, dest[..]) == WriteSpec(old(dest[..]), offset, payload, h, bson)
  {
    if payload.Some? {
      var framed := FramedSize(|payload.value|);
      if framed.None? {
        return Failed(Overflow);
      }
      var size := framed.value;
      if dest.Length < offset + size {
        return Failed(DestinationTooSmall);
      }
      CopyInto(dest, 0, Int32LE(size));
      dest[5] := 0;
      CopyInto(dest, offset + 8, payload.value);
      return Wrote(size);
    }
    if h.size > 0 {
      if dest.Length < offset + h.size {
        return Failed(DestinationTooSmall);
      }
      CopyInto(dest, offset, h.image);
      return Wrote(h.size);
    }
    if h.size == 0 {
      if h.temp.None? {
        CopyInto(dest, offset, h.image);
        return Wrote(|h.image|);
      }
      r := CopyChecked(dest, offset, h.temp.value);
      return;
    }
    r := CopyChecked(dest, offset, bson);
  }

  /** A stream's bytes copied raw to `offset` after the length cast and the
      bounds check. */
  method CopyChecked(dest: array<Byte>, offset: nat, bytes: seq<Byte>) returns (r: Outcome)
    modifies dest
    ensures (r, dest[..]) == CheckedCopy(old(dest[..]), offset, bytes)
  {
    if |bytes| > Int32Max {
      return Failed(Overflow);
    }
    if dest.Length < offset + |bytes| {
      return Failed(DestinationTooSmall);
    }
    CopyInto(dest, offset, bytes);
    r := Wrote(|bytes|);
  }

  // ---------------------------------------------------------------------
  // What Write does, path by path

  /** The outcome of a raw, bounds-checked copy of a stream: an overflow
      when the length is not an int, a size error when the bytes do not fit
      after `offset`, the buffer untouched on either failure; otherwise the
      length is returned and the bytes are at `offset`, nothing else
      changed. */
  predicate RawCopyOutcome(buf: seq<Byte>, offset: nat, bytes: seq<Byte>, r: Outcome, after: seq<Byte>) {
    && (r == Failed(Overflow) <==> |bytes| > Int32Max)
    && (r == Failed(DestinationTooSmall) <==> |bytes| <= Int32Max && |buf| < offset + |bytes|)
    && (r.Failed? ==> after == buf)
    && (r.Wrote? ==> r.size == |bytes| && Copied(buf, after, offset, bytes))
  }

  lemma CheckedCopyOutcome(buf: seq<Byte>, offset: nat, bytes: seq<Byte>)
    ensures RawCopyOutcome(buf, offset, bytes, CheckedCopy(buf, offset, bytes).0, CheckedCopy(buf, offset, bytes).1)
  {
  }

  /** With a payload stream: the size is 8 plus the payload length; the
      destination must hold that many bytes after `offset` or `Write` throws
      before any store. Otherwise the size goes as an int to bytes 0..3 and
      a zero to byte 5, whatever the offset, the payload goes to
      `offset + 8`, and no other byte changes. */
  lemma WritePayloadPath(buf: seq<Byte>, offset: UInt32, p: seq<Byte>, h: Report, bson: seq<Byte>)
    requires WriteArgs(|buf|, offset, Some(p), h)
    requires |p| <= Int32Max - 8
    ensures var (r, after) := WriteSpec(buf, offset, Some(p), h, bson);
      && (r.Failed? <==> |buf| < offset + 8 + |p|)
      && (r.Failed? ==> r.failure == DestinationTooSmall && after == buf)
      && (r.Wrote? ==>
            && r.size == 8 + |p|
            && |after| == |buf|
            && ReadInt32LE(after[0..4]) == 8 + |p| && after[5] == 0
            && after[offset + 8..offset + 8 + |p|] == p
            && forall i :: 4 <= i < |buf| && i != 5 && !(offset + 8 <= i < offset + 8 + |p|) ==> after[i] == buf[i])
  {
    FramedSizeValue(|p|);
    if offset + 8 + |p| <= |buf| {
      var header := HeaderAt(buf, 0, 8 + |p|);
      var after := Splice(header, offset + 8, p);
      assert after[0..4] == header[0..4];
    }
  }

  /** With a payload stream longer than int.MaxValue, the length cast
      throws before any store. */
  lemma WritePayloadOverflow(buf: seq<Byte>, offset: UInt32, p: seq<Byte>, h: Report, bson: seq<Byte>)
    requires WriteArgs(|buf|, offset, Some(p), h)
    requires |p| > Int32Max
    ensures WriteSpec(buf, offset, Some(p), h, bson) == (Failed(Overflow), buf)
  {
  }

  /** A fixed-size value: the bounds check against the reported size comes
      first; then `TypeHelper<T>.Write` stores its bytes at `offset`, with
      no header, and the reported size is returned. */
  lemma WriteFixedPath(buf: seq<Byte>, offset: UInt32, h: Report, bson: seq<Byte>)
    requires WriteArgs(|buf|, offset, None, h)
    requires h.size > 0
    ensures var (r, after) := WriteSpec(buf, offset, None, h, bson);
      && (r.Failed? <==> |buf| < offset + h.size)
      && (r.Failed? ==> r.failure == DestinationTooSmall && after == buf)
      && (r.Wrote? ==> r.size == h.size && Copied(buf, after, offset, h.image))
  {
  }

  /** Size 0 with a temporary stream: the stream is copied raw at
      `offset`, bounds-checked, with no header. */
  lemma WriteTempStreamPath(buf: seq<Byte>, offset: UInt32, h: Report, bson: seq<Byte>)
    requires WriteArgs(|buf|, offset, None, h)
    requires h.size == 0 && h.temp.Some?
    ensures var (r, after) := WriteSpec(buf, offset, None, h, bson);
      RawCopyOutcome(buf, offset, h.temp.value, r, after)
  {
    CheckedCopyOutcome(buf, offset, h.temp.value);
  }

  /** Size 0 without a temporary stream: `TypeHelper<T>.Write` is called
      with no bounds check, and its count is returned. */
  lemma WriteUncheckedPath(buf: seq<Byte>, offset: UInt32, h: Report, bson: seq<Byte>)
    requires WriteArgs(|buf|, offset, None, h)
    requires h.size == 0 && h.temp.None?
    ensures var (r, after) := WriteSpec(buf, offset, None, h, bson);
      r == Wrote(|h.image|) && Copied(buf, after, offset, h.image)
  {
  }

  /** No binary layout: the BSON bytes are copied raw at `offset`,
      bounds-checked, with no header. */
  lemma WriteBsonPath(buf: seq<Byte>, offset: UInt32, h: Report, bson: seq<Byte>)
    requires WriteArgs(|buf|, offset, None, h)
    requires h.size < 0
    ensures var (r, after) := WriteSpec(buf, offset, None, h, bson);
      RawCopyOutcome(buf, offset, bson, r, after)
  {
    CheckedCopyOutcome(buf, offset, bson);
  }

  /** Every path checks before it stores: a failed `Write` leaves the
      destination exactly as it was. Without a payload stream, a successful
      `Write` changes only the bytes from `offset` to `offset` plus the
      returned size. */
  lemma WriteChecksBeforeStoring(buf: seq<Byte>, offset: UInt32, payload: Option<seq<Byte>>, h: Report, bson: seq<Byte>)
    requires WriteArgs(|buf|, offset, payload, h)
    ensures var (r, after) := WriteSpec(buf, offset, payload, h, bson);
      && |after| == |buf|
      && (r.Failed? ==> after == buf)
      && (payload.None? && r.Wrote? ==>
            && offset + r.size <= |buf|
            && forall i :: 0 <= i < |buf| && !(offset <= i < offset + r.size) ==> after[i] == buf[i])
  {
    if payload.None? {
      if h.size > 0 {
        WriteFixedPath(buf, offset, h, bson);
      } else if h.size == 0 && h.temp.Some? {
        WriteTempStreamPath(buf, offset, h, bson);
      } else if h.size == 0 {
        WriteUncheckedPath(buf, offset, h, bson);
      } else {
        WriteBsonPath(buf, offset, h, bson);
      }
    }
  }

  // ---------------------------------------------------------------------
  // The payload path, corrected

  /** `checked(8 + (int)length)`: the framed size, or an overflow when
      the payload and its header together are not an int. */
  function CheckedFramedSize(len: nat): Option<Int32> {
    if len <= Int32Max - 8 then Some(8 + len) else None
  }

  /** As written, `8 + checked((int)length)` wraps for a payload within 8
      bytes of int.MaxValue: the size is negative, so the bounds check
      `destination.Length < offset + size` at offset 0 lets every buffer of
      up to int.MaxValue bytes through, although copying the payload to
      offset 8 needs more bytes than that buffer has. Checking the whole
      sum reports the overflow instead. */
  lemma FramedSizeWrapPassesCheck(bufLen: nat, len: nat)
    requires Int32Max - 8 < len <= Int32Max && bufLen <= Int32Max
    ensures FramedSize(len).Some? && FramedSize(len).value < 0
    ensures !(bufLen < 0 + FramedSize(len).value)
    ensures bufLen < 0 + 8 + len
    ensures CheckedFramedSize(len).None?
  {
    FramedSizeValue(len);
  }

  /** What the callers of the corrected `Write` must supply: nothing about
      the payload's length any more. */
  predicate WriteAtOffsetArgs(bufLen: nat, offset: UInt32, payload: Option<seq<Byte>>, h: Report) {
    StreamOffsetFits(offset, payload, h) && FixedWriterKeepsSize(h)
    && UncheckedWriteFits(bufLen, offset, payload, h)
  }

  /** `Write` with the payload path corrected twice: the framed size is
      computed with a checked addition, and the header goes to `offset`
      rather than to the start of the buffer. The other paths are
      unchanged. */
  function WriteAtOffsetSpec(buf: seq<Byte>, offset: UInt32, payload: Option<seq<Byte>>, h: Report, bson: seq<Byte>)
    : (Outcome, seq<Byte>)
    requires WriteAtOffsetArgs(|buf|, offset, payload, h)
  {
    if payload.Some? then
      match CheckedFramedSize(|payload.value|)
      case None => (Failed(Overflow), buf)
      case Some(size) =>
        if |buf| < offset + size then (Failed(DestinationTooSmall), buf)
        else (Wrote(size), Splice(HeaderAt(buf, offset, size), offset + 8, payload.value))
    else WriteSpec(buf, offset, payload, h, bson)
  }

  /** Corrected, every path writes only inside the window from `offset` to
      `offset` plus the returned size, whatever the payload's length; a
      frame too long for an int is an overflow; and a framed payload can be
      read back from the offset: its size first, then the payload after 8
      bytes. */
  lemma WriteAtOffsetStaysInWindow(buf: seq<Byte>, offset: UInt32, payload: Option<seq<Byte>>, h: Report, bson: seq<Byte>)
    requires WriteAtOffsetArgs(|buf|, offset, payload, h)
    ensures var (r, after) := WriteAtOffsetSpec(buf, offset, payload, h, bson);
      && |after| == |buf|
      && (payload.Some? ==> (r == Failed(Overflow) <==> |payload.value| > Int32Max - 8))
      && (r.Failed? ==> after == buf)
      && (r.Wrote? ==>
            && offset + r.size <= |buf|
            && forall i :: 0 <= i < |buf| && !(offset <= i < offset + r.size) ==> after[i] == buf[i])
      && (payload.Some? && r.Wrote? ==>
            && ReadInt32LE(after[offset..offset + 4]) == r.size
            && after[offset + 8..offset + r.size] == payload.value)
  {
    if payload.Some? {
      var p := payload.value;
      if |p| <= Int32Max - 8 && offset + 8 + |p| <= |buf| {
        var header := HeaderAt(buf, offset, 8 + |p|);
        var after := Splice(header, offset + 8, p);
        assert after[offset..offset + 4] == header[offset..offset + 4];
      }
    } else {
      WriteChecksBeforeStoring(buf, offset, payload, h, bson);
    }
  }

  /** As written, the payload path's header ignores the offset: writing an
      empty payload at offset 8 into 16 bytes of 0xFF stores the size 8 at
      bytes 0..3, before the window it reports, while the four bytes at the
      offset do not read as 8. With the header at the offset they do, and
      byte 0 keeps its value. */
  lemma PayloadHeaderIgnoresOffset()
    ensures var buf := seq(16, _ => 0xFF);
      var h := Report(0, None, []);
      && WriteSpec(buf, 8, Some([]), h, []).0 == Wrote(8)
      && WriteSpec(buf, 8, Some([]), h, []).1[0] != buf[0]
      && ReadInt32LE(WriteSpec(buf, 8, Some([]), h, []).1[8..12]) != 8
      && WriteAtOffsetSpec(buf, 8, Some([]), h, []).0 == Wrote(8)
      && WriteAtOffsetSpec(buf, 8, Some([]), h, []).1[0] == buf[0]
      && ReadInt32LE(WriteAtOffsetSpec(buf, 8, Some([]), h, []).1[8..12]) == 8
  {
    var buf: seq<Byte> := seq(16, _ => 0xFF);
    var h := Report(0, None, []);
    WritePayloadPath(buf, 8, [], h, []);
    WriteAtOffsetStaysInWindow(buf, 8, Some([]), h, []);
    var after := WriteSpec(buf, 8, Some([]), h, []).1;
    assert after[8..12] == buf[8..12];
    assert buf[8..12] == [0xFF, 0xFF, 0xFF, 0xFF];
  }

  // ---------------------------------------------------------------------
  // Sizes

  /** A size, with the stream `SizeOf` hands back; or the overflow of its
      length cast. */
  datatype Sized = Sized(size: Int32, stream: Option<seq<Byte>>) | SizeOverflow

  /** `BSON.SizeOf`: 8 plus the length of the BSON bytes, which it hands
      back as the stream. */
  function BsonSizeOf(bson: seq<Byte>): (r: Sized)
    ensures r.SizeOverflow? <==> |bson| > Int32Max
    ensures r.Sized? ==> r.stream == Some(bson)
    ensures |bson| <= Int32Max - 8 ==> r.Sized? && r.size == 8 + |bson|
  {
    match FramedSize(|bson|)
    case None => SizeOverflow
    case Some(n) => FramedSizeValue(|bson|); Sized(n, Some(bson))
  }

  /** `SizeOf<T>`: what `TypeHelper<T>.SizeOf` reports when it is not
      negative, the BSON size otherwise. */
  function SizeOf(h: Report, bson: seq<Byte>): Sized {
    if h.size >= 0 then Sized(h.size, h.temp) else BsonSizeOf(bson)
  }

  /** `SizeOf` reports what `TypeHelper<T>` says, stream included, unless
      that is negative; then 8 plus the length of the BSON bytes, handed
      back as the stream, or the overflow of the length cast. */
  lemma SizeOfDispatch(h: Report, bson: seq<Byte>)
    ensures h.size >= 0 ==> SizeOf(h, bson) == Sized(h.size, h.temp)
    ensures h.size < 0 && |bson| <= Int32Max - 8 ==> SizeOf(h, bson) == Sized(8 + |bson|, Some(bson))
    ensures h.size < 0 && |bson| > Int32Max ==> SizeOf(h, bson) == SizeOverflow
  {
  }

  /** The caller's protocol, `SizeOf` and then `Write` with the stream it
      handed back, for a value with no binary layout: `Write` needs exactly
      the size `SizeOf` reported after the offset, and returns that size. */
  lemma SizeOfThenWriteBson(buf: seq<Byte>, offset: UInt32, h: Report, bson: seq<Byte>)
    requires h.size < 0 && |bson| <= Int32Max - 8
    requires WriteArgs(|buf|, offset, SizeOf(h, bson).stream, h)
    ensures SizeOf(h, bson).stream == Some(bson)
    ensures var (r, _) := WriteSpec(buf, offset, SizeOf(h, bson).stream, h, bson);
      && (r.Failed? <==> |buf| < offset + SizeOf(h, bson).size)
      && (r.Wrote? ==> r.size == SizeOf(h, bson).size)
  {
    WritePayloadPath(buf, offset, bson, h, bson);
  }

  /** Without the stream, `Write` on the same value copies the BSON bytes
      raw and returns 8 less than `SizeOf` reported: the two disagree on
      whether the header is counted. */
  lemma SizeOfCountsHeaderWriteDoesNot(buf: seq<Byte>, offset: UInt32, h: Report, bson: seq<Byte>)
    requires h.size < 0 && |bson| <= Int32Max - 8
    requires WriteArgs(|buf|, offset, None, h)
    ensures var (r, _) := WriteSpec(buf, offset, None, h, bson);
      r.Wrote? ==> SizeOf(h, bson).size == r.size + 8
  {
    WriteBsonPath(buf, offset, h, bson);
  }

  /** For a fixed-size value, `SizeOf` and a successful `Write` agree on the
      size, and `Write` stores exactly that many bytes. */
  lemma SizeOfMatchesFixedWrite(buf: seq<Byte>, offset: UInt32, h: Report, bson: seq<Byte>)
    requires h.size > 0
    requires WriteArgs(|buf|, offset, None, h)
    ensures var (r, after) := WriteSpec(buf, offset, None, h, bson);
      r.Wrote? ==> r.size == SizeOf(h, bson).size && Copied(buf, after, offset, h.image)
  {
    WriteFixedPath(buf, offset, h, bson);
  }

  // ---------------------------------------------------------------------
  // Serialize

  /** `Serialize<T>(value, byte[] destination, offset, memoryStream)`: not
      implemented; it always throws and leaves the array alone. */
  method SerializeToArray(destination: array<Byte>, offset: UInt32, memoryStream: Option<seq<Byte>>)
    returns (r: Outcome)
    ensures r == Failed(NotImplemented)
  {
    r := Failed(NotImplemented);
  }

  /** `Serialize<T>(value, Stream destination, memoryStream)`: not
      implemented; it always throws and writes nothing to the stream. */
  method SerializeToStream(destination: seq<Byte>, memoryStream: Option<seq<Byte>>)
    returns (r: Outcome, written: seq<Byte>)
    ensures r == Failed(NotImplemented) && written == destination
  {
    r, written := Failed(NotImplemented), destination;
  }
}
