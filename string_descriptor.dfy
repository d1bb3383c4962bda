/** The fallback path of usbhidGetStringAscii (libusb): decoding a raw USB
    String descriptor (section 9.6.7 of the USB 2.0 specification: bLength,
    bDescriptorType = 3, then UTF-16LE code units) into a NUL-terminated
    ISO Latin-1 string. The GET_DESCRIPTOR transfer itself is foreign: its
    result is the 256-byte scratch buffer `raw` and the count `received`. */
module StringDescriptor {
  import opened HidTypes
  import opened Narrowing

  /** bDescriptorType of a String descriptor. */
  const DT_STRING: byte := 3

  /** Size of the scratch buffer the descriptor is read into. */
  const SCRATCH_SIZE: nat := 256

  predicate WellFormedInput(raw: seq<byte>, received: int)
  {
    |raw| == SCRATCH_SIZE && received <= SCRATCH_SIZE
  }

  /** `rval` after clipping: half the smaller of bLength and the number of
      bytes received. */
  function UnitBound(raw: seq<byte>, received: nat): (n: nat)
    requires WellFormedInput(raw, received)
    ensures 2 * n <= raw[0] && 2 * n <= received
    ensures n <= 127
  {
    (if raw[0] < received then raw[0] else received) / 2
  }

  /** The number of chars usbhidGetStringAscii produces, which is also the
      index at which it writes the terminating NUL. */
  function CharCount(raw: seq<byte>, received: nat, buflen: int): (count: nat)
    requires WellFormedInput(raw, received)
    ensures count <= 126
    ensures raw[1] != DT_STRING ==> count == 0
  {
    if raw[1] != DT_STRING then 0
    else
      var n := UnitBound(raw, received);
      if n - 1 < buflen then (if n < 1 then 0 else n - 1)
      else (if buflen < 0 then 0 else buflen)
  }

  /** The k-th code unit of the descriptor's bString, little-endian. */
  function DescriptorUnit(raw: seq<byte>, k: nat): u16
    requires 2 * k + 3 < |raw|
  {
    raw[2 * k + 2] as int + 256 * raw[2 * k + 3] as int
  }

  /** The k-th char the decoder writes: the low byte of the unit, or '?'
      when its high byte is not zero. */
  function DescriptorChar(raw: seq<byte>, k: nat): byte
    requires 2 * k + 3 < |raw|
  {
    if raw[2 * k + 3] != 0 then QUESTION_MARK else raw[2 * k + 2]
  }

  /** The first `count` decoded chars. */
  function Decoded(raw: seq<byte>, count: nat): (s: seq<byte>)
    requires 2 * count + 1 < |raw|
    ensures |s| == count
  {
    seq(count, k requires 0 <= k < count => DescriptorChar(raw, k))
  }

  /** The decoder narrows exactly as convertUniToAscii does: each char is
      the UTF-16 unit if it fits ISO Latin-1, else '?'. */
  lemma DecodedIsNarrowed(raw: seq<byte>, count: nat)
    requires 2 * count + 1 < |raw|
    ensures Decoded(raw, count) == Narrow(seq(count, k requires 0 <= k < count => DescriptorUnit(raw, k)))
  {
    var units := seq(count, k requires 0 <= k < count => DescriptorUnit(raw, k));
    forall k | 0 <= k < count
      ensures Decoded(raw, count)[k] == NarrowUnit(units[k])
    {
      assert raw[2 * k + 3] != 0 <==> DescriptorUnit(raw, k) > 0xff;
    }
  }

  /** A String descriptor for a sequence of UTF-16 code units. */
  function Encode(units: seq<u16>): (d: seq<byte>)
    requires 2 * |units| + 2 < 256
    ensures |d| == 2 * |units| + 2
  {
    [2 * |units| + 2, DT_STRING as int] + seq(2 * |units|, j requires 0 <= j < 2 * |units| =>
      if j % 2 == 0 then units[j / 2] % 256 else units[j / 2] / 256)
  }

  /** Decoding a whole descriptor into a buffer with room for it yields the
      narrowed string, whatever bytes follow the descriptor in the scratch
      buffer and however many more bytes arrived. */
  lemma DecodeEncoded(units: seq<u16>, raw: seq<byte>, received: nat, buflen: int)
    requires 2 * |units| + 2 < 256
    requires WellFormedInput(raw, received) && raw[..2 * |units| + 2] == Encode(units)
    requires 2 * |units| + 2 <= received && |units| <= buflen
    ensures CharCount(raw, received, buflen) == |units|
    ensures Decoded(raw, |units|) == Narrow(units)
  {
    var d := Encode(units);
    assert raw[0] == d[0] && raw[1] == d[1];
    forall k | 0 <= k < |units|
      ensures Decoded(raw, |units|)[k] == NarrowUnit(units[k])
    {
      assert raw[2 * k + 2] == d[2 * k + 2] && raw[2 * k + 3] == d[2 * k + 3];
      assert d[2 * k + 2] == units[k] % 256 && d[2 * k + 3] == units[k] / 256;
    }
  }

  /** usbhidGetStringAscii after usb_get_string_simple failed: a negative
      transfer result is passed back; a descriptor of another type gives the
      empty string; otherwise up to min(bLength, received) / 2 - 1 units are
      narrowed into `buf`, the loop stopping once i exceeds `buflen`, and a
      NUL is written after the last char. The NUL lands at index
      CharCount, which the caller's buffer must hold. */
  method GetStringAscii(raw: seq<byte>, received: int, buf: array<byte>, buflen: int) returns (rval: int)
    requires |raw| == SCRATCH_SIZE && received <= SCRATCH_SIZE
    requires received >= 0 ==> CharCount(raw, received, buflen) < buf.Length
    modifies buf
    ensures received < 0 ==> rval == received && buf[..] == old(buf[..])
    ensures received >= 0 ==>
      var count := CharCount(raw, received, buflen);
      && rval == count
      && buf[..count] == Decoded(raw, count)
      && buf[count] == 0
      && buf[count + 1..] == old(buf[count + 1..])
  {
    if received < 0 {
      return received;
    }
    if raw[1] != DT_STRING {
      buf[0] := 0;
      return 0;
    }
    rval := received;
    if raw[0] < rval {
      rval := raw[0];
    }
    rval := rval / 2;

    var i := 1;
    while i < rval
      invariant 1 <= i && (i <= rval || i == 1)
      invariant i == 1 || i - 1 <= buflen
      invariant forall k :: 0 <= k < i - 1 ==> buf[k] == DescriptorChar(raw, k)
      invariant forall k :: i - 1 <= k < buf.Length ==> buf[k] == old(buf[k])
    {
      if i > buflen {
        break;
      }
      buf[i - 1] := raw[2 * i];
      if raw[2 * i + 1] != 0 {
        buf[i - 1] := QUESTION_MARK;
      }
      i := i + 1;
    }
    buf[i - 1] := 0;
    return i - 1;
  }

  /** The NUL lands one past a buffer of `buflen` bytes whenever the
      descriptor holds at least `buflen` chars: here a two-char descriptor
      decoded for a one-byte buffer puts its NUL at index 1. */
  lemma NulPastBuflen()
    ensures var raw := [6, DT_STRING as int, 0x41, 0, 0x42, 0] + Zeros(SCRATCH_SIZE - 6);
      CharCount(raw, 6, 1) == 1
  {
  }

  /** The evidently intended count: at most buflen - 1 chars, so that the
      NUL always fits. */
  function BoundedCharCount(raw: seq<byte>, received: nat, buflen: int): nat
    requires WellFormedInput(raw, received)
  {
    if raw[1] != DT_STRING then 0
    else
      var n := UnitBound(raw, received);
      if n - 1 < buflen then (if n < 1 then 0 else n - 1)
      else (if buflen < 1 then 0 else buflen - 1)
  }

  /** With the bound, the NUL always lands inside a buffer of `buflen`
      bytes, and on every input the original keeps in bounds the two agree. */
  lemma BoundedNulFits(raw: seq<byte>, received: nat, buflen: int)
    requires WellFormedInput(raw, received) && buflen >= 1
    ensures BoundedCharCount(raw, received, buflen) < buflen
    ensures CharCount(raw, received, buflen) < buflen ==>
      BoundedCharCount(raw, received, buflen) == CharCount(raw, received, buflen)
  {
  }
}
