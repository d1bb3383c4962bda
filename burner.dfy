/** HIDBurner, the programmer's host-side session: it opens the programmer
    by its configured identification and moves data through the two
    Feature reports of the framing protocol. Each failed step of the C++
    class throws; here it returns `ok == false` and changes nothing more. */
module Burner {
  import opened HidTypes
  import opened Transport
  import opened Frames
  import opened Selection
  import opened OpenDevice

  /** The configuration bytes {lo, hi} of a VID or PID read as one
      little-endian 16-bit number: `raw[0] + 256 * raw[1]`. */
  function LeU16(lo: byte, hi: byte): (v: u16)
    ensures v % 256 == lo && v / 256 == hi
  {
    lo as int + 256 * hi as int
  }

  /** The two bytes of a 16-bit number, low byte first. */
  function LeBytes(v: u16): (raw: seq<byte>)
    ensures |raw| == 2
  {
    [v % 256, v / 256]
  }

  /** Reading the two configuration bytes back gives the number they were
      written from, and different byte pairs give different numbers. */
  lemma LeU16RoundTrip(v: u16, lo: byte, hi: byte, lo': byte, hi': byte)
    ensures LeU16(LeBytes(v)[0], LeBytes(v)[1]) == v
    ensures LeU16(lo, hi) == LeU16(lo', hi') ==> lo == lo' && hi == hi'
  {
  }

  class HIDBurner {
    /** HIDREP_FIRST_* and HIDREP_SECOND_* */
    const layout: Layout
    /** hHIDDev: null until Open succeeds. */
    var dev: Device?
    /** The enumerated device hHIDDev is a handle to. */
    ghost var device: Option<Loc>

    /** hHIDDev and the device it refers to are set together. */
    ghost predicate Linked()
      reads this
    {
      dev != null <==> device.Some?
    }

    /** hHIDDev starts out NULL. */
    constructor (layout: Layout)
      requires layout.Valid()
      ensures this.layout == layout && dev == null && device == None
      ensures Linked()
    {
      this.layout := layout;
      dev := null;
      device := None;
    }

    /** Open: assembles VID and PID from their configuration bytes and
        opens the first device that matches them and both names. `buses`
        is what libusb enumerates and `wire` is how the opened handle will
        answer control transfers. On failure hHIDDev is left as it was. */
    method Open(rawVid: seq<byte>, rawPid: seq<byte>, vendorName: CString, productName: CString,
                buses: seq<seq<UsbDevice>>, wire: nat -> Reply) returns (ok: bool)
      requires |rawVid| == 2 && |rawPid| == 2
      requires Linked()
      modifies this
      ensures Linked()
      ensures var vid := LeU16(rawVid[0], rawVid[1]);
        var pid := LeU16(rawPid[0], rawPid[1]);
        var outcome := Run(UsbCandidates(buses, vid, pid, Names(vendorName, productName)));
        && (ok <==> outcome.chosen.Some?)
        && (ok ==> device == outcome.chosen)
        && (ok ==> var at := device.value;
              && at.bus < |buses| && at.slot < |buses[at.bus]|
              && UsbAcceptable(buses[at.bus][at.slot], vid, pid, Names(vendorName, productName)))
        && (ok ==> dev != null && fresh(dev) && dev.Valid() && dev.wire == wire && dev.trace == [])
        && (!ok ==> dev == old(dev) && device == old(device))
    {
      var vid := LeU16(rawVid[0], rawVid[1]);
      var pid := LeU16(rawPid[0], rawPid[1]);
      var code, handle, log := UsbOpenDevice(buses, vid, Some(vendorName), pid, Some(productName));
      RunResult(UsbCandidates(buses, vid, pid, Names(vendorName, productName)));
      UsbOpensFirstAcceptable(buses, vid, pid, Names(vendorName, productName));
      if code.Code() != 0 {
        return false;
      }
      dev := new Device(wire);
      device := handle;
      return true;
    }

    /** ReadFirst: fetches the first report and copies its payload region,
        without the echoed id byte, to buffer[.. firstBytes). */
    method ReadFirst(buffer: array<byte>) returns (ok: bool)
      requires dev != null && dev.Valid() && Linked()
      requires layout.firstBytes <= buffer.Length
      modifies dev, buffer
      ensures dev.Valid() && dev.transfers == old(dev.transfers) + 1
      ensures var r := dev.wire(old(dev.transfers));
        var size := layout.firstBytes + 1;
        && dev.trace == old(dev.trace) + [GetFeature(GetReportWValue(layout.firstId), size, r.count, Landed(r, size))]
        && (ok <==> r.count >= 0)
        && (ok ==> buffer[..] == ReadOutput(r, layout.firstBytes) + old(buffer[layout.firstBytes..]))
        && (!ok ==> buffer[..] == old(buffer[..]))
    {
      ok := ReadReport(layout.firstId, layout.firstBytes, buffer);
    }

    /** ReadSecond: as ReadFirst, for the second report. */
    method ReadSecond(buffer: array<byte>) returns (ok: bool)
      requires dev != null && dev.Valid() && Linked()
      requires layout.secondBytes <= buffer.Length
      modifies dev, buffer
      ensures dev.Valid() && dev.transfers == old(dev.transfers) + 1
      ensures var r := dev.wire(old(dev.transfers));
        var size := layout.secondBytes + 1;
        && dev.trace == old(dev.trace) + [GetFeature(GetReportWValue(layout.secondId), size, r.count, Landed(r, size))]
        && (ok <==> r.count >= 0)
        && (ok ==> buffer[..] == ReadOutput(r, layout.secondBytes) + old(buffer[layout.secondBytes..]))
        && (!ok ==> buffer[..] == old(buffer[..]))
    {
      ok := ReadReport(layout.secondId, layout.secondBytes, buffer);
    }

    /** The body shared by ReadFirst and ReadSecond: Get_Report into a
        scratch buffer of capacity + 1 bytes, then, on success only, copy
        scratch bytes [1, 1 + capacity) out. The length the library reports
        is not consulted. */
    method ReadReport(id: byte, capacity: nat, buffer: array<byte>) returns (ok: bool)
      requires dev != null && dev.Valid()
      requires capacity <= buffer.Length
      modifies dev, buffer
      ensures dev.Valid() && dev.transfers == old(dev.transfers) + 1
      ensures var r := dev.wire(old(dev.transfers));
        && dev.trace == old(dev.trace) + [GetFeature(GetReportWValue(id), capacity + 1, r.count, Landed(r, capacity + 1))]
        && (ok <==> r.count >= 0)
        && (ok ==> buffer[..] == ReadOutput(r, capacity) + old(buffer[capacity..]))
        && (!ok ==> buffer[..] == old(buffer[..]))
    {
      var rcvBuff := new byte[capacity + 1](_ => 0);
      var len := capacity + 1;
      ghost var r := dev.wire(dev.transfers);
      assert rcvBuff[..] == Zeros(len);
      var res, received := dev.GetReport(id, rcvBuff, len);
      if res != Success {
        return false;
      }
      ScratchPayload(r, capacity, rcvBuff[..]);
      Memcpy(buffer, 0, rcvBuff[..], 1, capacity);
      return true;
    }

    /** WriteBytes: sends buffer[.. bytes) as a first report of
        firstBytes + 1 bytes and, when it does not fit, a second report of
        secondBytes + 1 bytes, both built in one zeroed 128-byte scratch
        buffer. The second send is attempted only after the first
        succeeded. The copy into the second report is not clamped, so the
        payload must fit both reports. */
    method WriteBytes(buffer: array<byte>, bytes: int) returns (ok: bool)
      requires dev != null && dev.Valid() && Linked() && layout.Valid()
      requires 0 <= bytes <= buffer.Length && bytes <= layout.Capacity()
      modifies dev
      ensures dev.Valid()
      ensures var t0 := old(dev.transfers);
        var sent := WriteTransfers(layout, buffer[..bytes], dev.wire(t0).count, dev.wire(t0 + 1).count);
        && dev.trace == old(dev.trace) + sent
        && dev.transfers == t0 + |sent|
        && ok == WriteOk(layout, bytes, dev.wire(t0).count, dev.wire(t0 + 1).count)
    {
      var sendbuff := new byte[SEND_BUFFER_SIZE];
      PrepareFirst(layout, sendbuff, buffer, bytes);
      var result := dev.SetReport(sendbuff, layout.firstBytes + 1);
      if result != Success {
        return false;
      }

      if bytes > layout.firstBytes {
        PrepareSecond(layout, sendbuff, buffer, bytes);
        result := dev.SetReport(sendbuff, layout.secondBytes + 1);
        if result != Success {
          return false;
        }
      }
      return true;
    }
  }

  /** After a successful Get_Report into a zeroed scratch buffer of
      capacity + 1 bytes, bytes [1, 1 + capacity) are what ReadReport hands
      back. */
  lemma ScratchPayload(r: Reply, capacity: nat, scratch: seq<byte>)
    requires r.count >= 0
    requires var landed := Landed(r, capacity + 1);
      scratch == landed + Zeros(capacity + 1)[|landed|..]
    ensures scratch[1..capacity + 1] == ReadOutput(r, capacity)
  {
    var landed := Landed(r, capacity + 1);
    forall k | 0 <= k < capacity
      ensures scratch[k + 1] == ReadOutput(r, capacity)[k]
    {
      if k + 1 < |landed| {
        assert scratch[k + 1] == landed[k + 1];
      } else {
        assert scratch[k + 1] == Zeros(capacity + 1)[k + 1];
      }
    }
  }

  /** The first report of WriteBytes, built in the zeroed scratch buffer:
      the first id, then the payload clamped to firstBytes. */
  method PrepareFirst(L: Layout, sendbuff: array<byte>, buffer: array<byte>, bytes: int)
    requires L.Valid() && sendbuff.Length == SEND_BUFFER_SIZE && sendbuff != buffer
    requires 0 <= bytes <= buffer.Length && bytes <= L.Capacity()
    modifies sendbuff
    ensures sendbuff[..L.firstBytes + 1] == FirstReport(L, buffer[..bytes])
  {
    Memset(sendbuff);
    sendbuff[0] := L.firstId;
    if bytes > L.firstBytes {
      Memcpy(sendbuff, 1, buffer[..], 0, L.firstBytes);
    } else {
      Memcpy(sendbuff, 1, buffer[..], 0, bytes);
    }
    ghost var r := FirstReport(L, buffer[..bytes]);
    forall k | 1 <= k <= L.firstBytes
      ensures sendbuff[k] == r[k]
    {
    }
  }

  /** The second report of WriteBytes, built in the re-zeroed scratch
      buffer: the second id, then the payload from offset firstBytes on. */
  method PrepareSecond(L: Layout, sendbuff: array<byte>, buffer: array<byte>, bytes: int)
    requires L.Valid() && sendbuff.Length == SEND_BUFFER_SIZE && sendbuff != buffer
    requires 0 <= bytes <= buffer.Length && L.firstBytes < bytes <= L.Capacity()
    modifies sendbuff
    ensures sendbuff[..L.secondBytes + 1] == SecondReport(L, buffer[..bytes])
  {
    Memset(sendbuff);
    sendbuff[0] := L.secondId;
    Memcpy(sendbuff, 1, buffer[..], L.firstBytes, bytes - L.firstBytes);
    ghost var r := SecondReport(L, buffer[..bytes]);
    forall k | 1 <= k <= L.secondBytes
      ensures sendbuff[k] == r[k]
    {
    }
  }
}
