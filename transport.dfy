/** The libusb transport of host/hiddev.cpp: HID Set_Report and Get_Report
    requests (sections 7.2.1 and 7.2.2 of the Device Class Definition for HID
    1.11) for Feature reports, issued as control transfers on an open device.
    The USB stack itself is foreign; the device's answers come from an oracle,
    and every control transfer issued is recorded in a ghost trace. */
module Transport {
  import opened HidTypes

  /** bRequest values of the two HID class requests. */
  const HID_GET_REPORT: int := 0x01
  const HID_SET_REPORT: int := 0x09

  /** The Feature report type, the high byte of wValue. */
  const REPORT_TYPE_FEATURE: int := 3

  /** The value of a C `char` holding `b` (signed on the host ABI). */
  function SignedChar(b: byte): (c: int)
    ensures -128 <= c < 128
    ensures c % 256 == b
  {
    if b < 128 then b else b - 256
  }

  /** `x & 0xff` on a two's-complement int. */
  function LowByte(x: int): (b: byte)
    ensures (x - b) % 256 == 0
  {
    x % 256
  }

  /** wValue of a Set_Report request whose buffer starts with the byte `id`:
      `FEATURE << 8 | (reportId & 0xff)`, where reportId is that byte read as
      a signed char. The low byte of `3 << 8` is zero, so the `|` is a `+`. */
  function SetReportWValue(id: byte): (w: int)
    ensures w / 256 == REPORT_TYPE_FEATURE
    ensures w % 256 == id
  {
    REPORT_TYPE_FEATURE * 256 + LowByte(SignedChar(id))
  }

  /** wValue of a Get_Report request for report `reportNumber`:
      `FEATURE << 8 | reportNumber`, with no mask on the report number. */
  function GetReportWValue(reportNumber: byte): (w: int)
    ensures w / 256 == REPORT_TYPE_FEATURE
    ensures w % 256 == reportNumber
  {
    REPORT_TYPE_FEATURE * 256 + reportNumber
  }

  /** The bus's answer to one control transfer. `count` is what
      usb_control_msg returns: the number of bytes moved, or a negative error.
      For an IN transfer `data` holds the bytes the device sends back. */
  datatype Reply = Reply(count: int, data: seq<byte>)

  /** One control transfer as the device sees it. */
  datatype Transfer =
    | SetFeature(wValue: int, data: seq<byte>, count: int)
    | GetFeature(wValue: int, maxLen: int, count: int, data: seq<byte>)

  /** The bytes an IN transfer leaves in a buffer of `maxLen` bytes: no
      more than the count usb_control_msg reports, than the device sent, or
      than the buffer holds. */
  function Landed(r: Reply, maxLen: nat): (d: seq<byte>)
    ensures r.count < 0 ==> d == []
    ensures d <= r.data && |d| <= maxLen
    ensures r.count >= 0 ==> |d| <= r.count
    ensures r.count >= 0 && |d| < maxLen && |d| < r.count ==> d == r.data
  {
    if r.count < 0 then []
    else
      var sent := if r.count < |r.data| then r.count else |r.data|;
      r.data[..if sent < maxLen then sent else maxLen]
  }

  /** The bmRequestType bits the two requests use (section 9.3.1 of the USB
      2.0 specification): a class request, and the direction bit for IN. */
  const USB_TYPE_CLASS: int := 0x20
  const USB_ENDPOINT_IN: int := 0x80

  /** The first two fields of a transfer's setup packet. */
  datatype Setup = Setup(requestType: int, request: int)

  /** What usb_control_msg is asked for: a class request to the device,
      host-to-device Set_Report or device-to-host Get_Report. */
  function SetupOf(t: Transfer): (s: Setup)
    ensures s.requestType / USB_ENDPOINT_IN == 1 <==> t.GetFeature?
    ensures s.requestType % USB_ENDPOINT_IN == USB_TYPE_CLASS
    ensures s.request == HID_SET_REPORT <==> t.SetFeature?
  {
    match t
    case SetFeature(_, _, _) => Setup(USB_TYPE_CLASS, HID_SET_REPORT)
    case GetFeature(_, _, _, _) => Setup(USB_TYPE_CLASS + USB_ENDPOINT_IN, HID_GET_REPORT)
  }

  /** A Set_Report succeeds only when the whole buffer was transferred. */
  predicate SetOk(t: Transfer)
  {
    t.SetFeature? && t.count == |t.data|
  }

  /** The feature reports the device has accepted, in order. */
  ghost function Delivered(trace: seq<Transfer>): (reports: seq<seq<byte>>)
    ensures |reports| <= |trace|
  {
    if trace == [] then []
    else
      var last := trace[|trace| - 1];
      Delivered(trace[..|trace| - 1]) + (if SetOk(last) then [last.data] else [])
  }

  lemma {:induction false} DeliveredAppend(trace: seq<Transfer>, more: seq<Transfer>)
    ensures Delivered(trace + more) == Delivered(trace) + Delivered(more)
    decreases |more|
  {
    if more == [] {
      assert trace + more == trace;
    } else {
      var init := more[..|more| - 1];
      assert (trace + more)[..|trace + more| - 1] == trace + init;
      DeliveredAppend(trace, init);
    }
  }

  /** An open usb_dev_handle. `wire` is the oracle deciding the outcome of
      the k-th control transfer on this handle; `transfers` counts them. */
  class Device {
    const wire: nat -> Reply
    var transfers: nat
    ghost var trace: seq<Transfer>

    ghost predicate Valid()
      reads this
    {
      |trace| == transfers
    }

    constructor (wire: nat -> Reply)
      ensures Valid() && this.wire == wire
      ensures trace == [] && transfers == 0
    {
      this.wire := wire;
      transfers := 0;
      trace := [];
    }

    /** usbhidSetReport: sends the first `len` bytes of `buffer` as a
        Feature report whose id is buffer[0]; fails unless exactly `len`
        bytes were transferred. */
    method SetReport(buffer: array<byte>, len: int) returns (status: OpenCode)
      requires Valid()
      requires 1 <= buffer.Length && 0 <= len <= buffer.Length
      modifies this
      ensures Valid() && transfers == old(transfers) + 1
      ensures trace == old(trace) + [SetFeature(SetReportWValue(buffer[0]), buffer[..len], wire(old(transfers)).count)]
      ensures status == Success <==> SetOk(trace[|trace| - 1])
      ensures status == Success || status == ErrIO
    {
      var wValue := SetReportWValue(buffer[0]);
      var bytesSent := wire(transfers).count;
      trace := trace + [SetFeature(wValue, buffer[..len], bytesSent)];
      transfers := transfers + 1;
      if bytesSent != len {
        return ErrIO;
      }
      return Success;
    }

    /** usbhidGetReport: requests Feature report `reportNumber` into the
        first `len` bytes of `buffer`. On success `received` is the byte
        count the library reports; on failure neither it nor the buffer is
        touched. */
    method GetReport(reportNumber: byte, buffer: array<byte>, len: int) returns (status: OpenCode, received: int)
      requires Valid()
      requires 0 <= len <= buffer.Length
      modifies this, buffer
      ensures Valid() && transfers == old(transfers) + 1
      ensures var r := wire(old(transfers));
        && trace == old(trace) + [GetFeature(GetReportWValue(reportNumber), len, r.count, Landed(r, len))]
        && (status == Success <==> r.count >= 0)
        && (status == Success || status == ErrIO)
        && received == (if r.count < 0 then len else r.count)
        && buffer[..] == Landed(r, len) + old(buffer[..])[|Landed(r, len)|..]
    {
      var r := wire(transfers);
      var landed := Landed(r, len);
      trace := trace + [GetFeature(GetReportWValue(reportNumber), len, r.count, landed)];
      transfers := transfers + 1;
      if r.count < 0 {
        return ErrIO, len;
      }
      Memcpy(buffer, 0, landed, 0, |landed|);
      assert buffer[..] == landed + old(buffer[..])[|landed|..];
      return Success, r.count;
    }
  }
}
