/** usbhidOpenDevice, in both of its builds. The operating system or libusb
    enumerates the devices; each is abstracted as a record of what the
    foreign calls would report about it (its ids, whether opening it works,
    what reading its name strings gives). The loops are modelled as written
    and proved to run the Selection state machine. */
module OpenDevice {
  import opened HidTypes
  import opened Selection
  import opened Narrowing

  /** The vendorName / productName arguments: both NULL means that names
      do not matter. */
  datatype NameFilter = AnyName | Names(vendor: CString, product: CString)

  /** The Windows build checks names only when both are given. */
  function FilterOf(vendorName: Option<CString>, productName: Option<CString>): (f: NameFilter)
    ensures f.Names? <==> vendorName.Some? && productName.Some?
    ensures f.Names? ==> f.vendor == vendorName.value && f.product == productName.value
  {
    if vendorName.Some? && productName.Some? then Names(vendorName.value, productName.value)
    else AnyName
  }

  // ---------------------------------------------------------------------
  // Windows: HID interfaces from SetupDi, opened with CreateFile first.

  /** One HID interface: whether CreateFile opens it, the VendorID and
      ProductID HidD_GetAttributes reports, and the wide strings
      HidD_GetManufacturerString / HidD_GetProductString return (None when
      the call fails). */
  datatype HidInterface = HidInterface(opens: bool, vendorId: u16, productId: u16,
                                       manufacturer: Option<seq<u16>>, product: Option<seq<u16>>)

  /** The interface passes every filter of the Windows loop. */
  ghost predicate WinAcceptable(d: HidInterface, vendor: int, product: int, names: NameFilter)
  {
    && d.opens && d.vendorId == vendor && d.productId == product
    && (names.Names? ==>
          && d.manufacturer.Some? && WideName(d.manufacturer.value) == names.vendor
          && d.product.Some? && WideName(d.product.value) == names.product)
  }

  /** What one iteration of the Windows loop decides. A device that cannot
      be opened is skipped without touching errorCode; a VID/PID match
      resets errorCode to NOTFOUND before the names are read. */
  function WinVerdict(d: HidInterface, vendor: int, product: int, names: NameFilter): (v: Verdict)
    ensures v.Accept? <==> WinAcceptable(d, vendor, product, names)
    ensures v.Reject? ==> d.opens && d.vendorId == vendor && d.productId == product && names.Names?
    ensures v.Reject? ==> v.wasOpened && (v.code == ErrIO || v.code == ErrNotFound)
    ensures v.Ignore? ==> (v.wasOpened <==> d.opens)
  {
    if !d.opens then Ignore(false)
    else if d.vendorId != vendor || d.productId != product then Ignore(true)
    else if names.AnyName? then Accept
    else if d.manufacturer.None? then Reject(ErrIO, true)
    else if WideName(d.manufacturer.value) != names.vendor then Reject(ErrNotFound, true)
    else if d.product.None? then Reject(ErrIO, true)
    else if WideName(d.product.value) != names.product then Reject(ErrNotFound, true)
    else Accept
  }

  /** The interfaces in enumeration order, each at its index. */
  function WinCandidates(ifaces: seq<HidInterface>, vendor: int, product: int, names: NameFilter): (cs: seq<(nat, Verdict)>)
    ensures |cs| == |ifaces|
    ensures forall i :: 0 <= i < |ifaces| ==> cs[i] == (i, WinVerdict(ifaces[i], vendor, product, names))
  {
    seq(|ifaces|, i requires 0 <= i < |ifaces| => (i as nat, WinVerdict(ifaces[i], vendor, product, names)))
  }

  /** The handle still open at the top of an iteration, which the loop
      closes first. */
  function Pending(handle: Option<nat>): seq<Event<nat>>
  {
    if handle.Some? then [Closed(handle.value)] else []
  }

  /** One pass of the Windows loop body for interface `at`, from CreateFile
      to the final `break`: `found` says whether the loop stops here. A
      handle left open for a passed-over interface is closed at the top of
      the next pass. */
  method WinVisit(d: HidInterface, at: nat, vendor: int, vendorName: Option<CString>,
                  product: int, productName: Option<CString>, code0: OpenCode, log0: seq<Event<nat>>)
    returns (found: bool, code: OpenCode, handle: Option<nat>, log: seq<Event<nat>>)
    ensures var st := Step(State(code0, None, log0), at, WinVerdict(d, vendor, product, FilterOf(vendorName, productName)));
      && (handle.Some? ==> handle.value == at)
      && (found ==> handle == Some(at) && st.chosen == handle && st.log == log)
      && (!found ==> st == State(code, None, log + Pending(handle)))
  {
    code, handle, log := code0, None, log0;
    found := false;
    if !d.opens {
      return;
    }
    handle := Some(at);
    log := log + [Opened(at)];
    if d.vendorId != vendor || d.productId != product {
      return;  // VID or PID differs: passed over, errorCode kept
    }

    code := ErrNotFound;
    if vendorName.Some? && productName.Some? {
      if d.manufacturer.None? {
        code := ErrIO;
        return;
      }
      if vendorName.value != WideName(d.manufacturer.value) {
        return;
      }
      if d.product.None? {
        code := ErrIO;
        return;
      }
      if productName.value != WideName(d.product.value) {
        return;
      }
    }
    found := true;  // every filter passed: this handle is kept
  }

  /** usbhidOpenDevice (Windows): walk the HID interfaces, closing the
      previous iteration's handle at the top of each; open each interface,
      skip it unless VID and PID match, compare the narrowed manufacturer
      and product strings when both names are given, and stop at the first
      interface that passes. The handle events are recorded in `log`. */
  method WinOpenDevice(ifaces: seq<HidInterface>, vendor: int, vendorName: Option<CString>,
                       product: int, productName: Option<CString>)
    returns (code: OpenCode, handle: Option<nat>, log: seq<Event<nat>>)
    ensures var s := Run(WinCandidates(ifaces, vendor, product, FilterOf(vendorName, productName)));
      code == Result(s) && handle == s.chosen && log == s.log
  {
    ghost var cs := WinCandidates(ifaces, vendor, product, FilterOf(vendorName, productName));
    code := ErrNotFound;
    handle := None;
    log := [];
    var i := 0;
    while true
      invariant 0 <= i <= |ifaces|
      invariant handle.Some? ==> handle.value + 1 == i
      invariant Run(cs[..i]) == State(code, None, log + Pending(handle))
      decreases |ifaces| - i
    {
      if handle.Some? {
        log := log + [Closed(handle.value)];
        handle := None;
      }
      assert log + Pending(handle) == log;
      if i == |ifaces| {
        assert cs[..i] == cs;
        break;  // enumeration exhausted
      }
      RunNext(cs, i);
      assert cs[i] == (i, WinVerdict(ifaces[i], vendor, product, FilterOf(vendorName, productName)));
      var found;
      found, code, handle, log := WinVisit(ifaces[i], i, vendor, vendorName, product, productName, code, log);
      i := i + 1;
      if found {
        RunPrefixKept(cs, i);
        break;
      }
    }
    assert Run(cs).chosen == handle && Run(cs).log == log;
    if handle.Some? {
      code := Success;
    }
  }

  /** The Windows build keeps a handle exactly when some interface passes
      every filter, and then to the first such interface. */
  lemma {:induction false} WinOpensFirstAcceptable(ifaces: seq<HidInterface>, vendor: int, product: int, names: NameFilter)
    ensures var chosen := Run<nat>(WinCandidates(ifaces, vendor, product, names)).chosen;
      && (chosen.None? <==> forall i :: 0 <= i < |ifaces| ==> !WinAcceptable(ifaces[i], vendor, product, names))
      && (chosen.Some? ==>
            && 0 <= chosen.value < |ifaces|
            && WinAcceptable(ifaces[chosen.value], vendor, product, names)
            && forall j :: 0 <= j < chosen.value ==> !WinAcceptable(ifaces[j], vendor, product, names))
  {
    var cs := WinCandidates(ifaces, vendor, product, names);
    RunChoosesFirst(cs);
    forall i | 0 <= i < |ifaces|
      ensures cs[i].1.Accept? <==> WinAcceptable(ifaces[i], vendor, product, names)
    {
    }
    if Run(cs).chosen.Some? {
      var k :| FirstAccept(cs, k);
      assert Run(cs).chosen.value == k;
      assert WinAcceptable(ifaces[k], vendor, product, names);
    }
  }

  /** The Windows build never reports ACCESS: an interface it cannot open
      is passed over. */
  lemma {:induction false} WinNeverAccess(ifaces: seq<HidInterface>, vendor: int, product: int, names: NameFilter)
    ensures Result(Run<nat>(WinCandidates(ifaces, vendor, product, names))) != ErrAccess
  {
    RunErrorCodeFrom(WinCandidates(ifaces, vendor, product, names));
  }

  /** With no openable interface having the VID and PID, errorCode stays
      NOTFOUND. */
  lemma {:induction false} WinNoMatchNotFound(ifaces: seq<HidInterface>, vendor: int, product: int, names: NameFilter)
    requires forall j :: 0 <= j < |ifaces| ==>
      !(ifaces[j].opens && ifaces[j].vendorId == vendor && ifaces[j].productId == product)
    ensures Result(Run<nat>(WinCandidates(ifaces, vendor, product, names))) == ErrNotFound
  {
    var cs := WinCandidates(ifaces, vendor, product, names);
    RunChoosesFirst(cs);
    RunErrorCode(cs);
  }

  /** With no interface passing the filters, errorCode comes from the names
      of the last openable interface that has the VID and PID: IO when a
      string could not be read, NOTFOUND when a name differs. */
  lemma {:induction false} WinLastMatchDecides(ifaces: seq<HidInterface>, vendor: int, product: int, names: NameFilter, i: nat)
    requires forall j :: 0 <= j < |ifaces| ==> !WinAcceptable(ifaces[j], vendor, product, names)
    requires i < |ifaces| && ifaces[i].opens && ifaces[i].vendorId == vendor && ifaces[i].productId == product
    requires forall j :: i < j < |ifaces| ==>
      !(ifaces[j].opens && ifaces[j].vendorId == vendor && ifaces[j].productId == product)
    ensures Result(Run<nat>(WinCandidates(ifaces, vendor, product, names))) == WinVerdict(ifaces[i], vendor, product, names).code
  {
    var cs := WinCandidates(ifaces, vendor, product, names);
    RunChoosesFirst(cs);
    RunErrorCode(cs);
    assert LastReject(cs, i);
  }

  // ---------------------------------------------------------------------
  // libusb: busses of devices, filtered by descriptor ids before opening.

  /** One device on a bus: its descriptor's idVendor and idProduct, whether
      usb_open succeeds, and the strings usbhidGetStringAscii reads for
      iManufacturer and iProduct (None when it returns a negative value). */
  datatype UsbDevice = UsbDevice(idVendor: u16, idProduct: u16, opens: bool,
                                 manufacturer: Option<CString>, product: Option<CString>)

  /** A device's place in the enumeration: bus number, then position. */
  datatype Loc = Loc(bus: nat, slot: nat)

  /** The device passes every filter of the libusb loop. */
  ghost predicate UsbAcceptable(d: UsbDevice, vendor: int, product: int, names: NameFilter)
  {
    && d.idVendor == vendor && d.idProduct == product && d.opens
    && (names.Names? ==> d.manufacturer == Some(names.vendor) && d.product == Some(names.product))
  }

  /** What one iteration of the libusb inner loop decides. A matching
      device that cannot be opened is a candidate: errorCode becomes ACCESS. */
  function UsbVerdict(d: UsbDevice, vendor: int, product: int, names: NameFilter): (v: Verdict)
    ensures v.Accept? <==> UsbAcceptable(d, vendor, product, names)
    ensures v.Ignore? <==> d.idVendor != vendor || d.idProduct != product
    ensures v.Ignore? ==> !v.wasOpened
    ensures v.Reject? ==> (v.code == ErrAccess <==> !d.opens) && (v.wasOpened <==> d.opens)
    ensures v.Reject? && d.opens ==> names.Names? && (v.code == ErrIO || v.code == ErrNotFound)
  {
    if d.idVendor != vendor || d.idProduct != product then Ignore(false)
    else if !d.opens then Reject(ErrAccess, false)
    else if names.AnyName? then Accept
    else if d.manufacturer.None? then Reject(ErrIO, true)
    else if d.manufacturer.value != names.vendor then Reject(ErrNotFound, true)
    else if d.product.None? then Reject(ErrIO, true)
    else if d.product.value != names.product then Reject(ErrNotFound, true)
    else Accept
  }

  /** The devices of bus `b`, in order. */
  function BusCandidates(b: nat, devs: seq<UsbDevice>, vendor: int, product: int, names: NameFilter): (cs: seq<(Loc, Verdict)>)
    ensures |cs| == |devs|
    ensures forall s :: 0 <= s < |devs| ==> cs[s] == (Loc(b, s), UsbVerdict(devs[s], vendor, product, names))
  {
    seq(|devs|, s requires 0 <= s < |devs| => (Loc(b, s as nat), UsbVerdict(devs[s], vendor, product, names)))
  }

  /** Enumeration order: bus by bus, then position on the bus. */
  predicate Before(a: Loc, b: Loc)
  {
    a.bus < b.bus || (a.bus == b.bus && a.slot < b.slot)
  }

  /** Locations strictly increasing in enumeration order. */
  predicate InOrder(cs: seq<(Loc, Verdict)>)
  {
    forall i, j :: 0 <= i < j < |cs| ==> Before(cs[i].0, cs[j].0)
  }

  /** All devices, bus by bus. */
  function UsbCandidates(buses: seq<seq<UsbDevice>>, vendor: int, product: int, names: NameFilter): (cs: seq<(Loc, Verdict)>)
    ensures forall k :: 0 <= k < |cs| ==>
      var at := cs[k].0;
      && at.bus < |buses| && at.slot < |buses[at.bus]|
      && cs[k].1 == UsbVerdict(buses[at.bus][at.slot], vendor, product, names)
  {
    if buses == [] then []
    else UsbCandidates(buses[..|buses| - 1], vendor, product, names)
         + BusCandidates(|buses| - 1, buses[|buses| - 1], vendor, product, names)
  }

  /** Appending the devices of a later bus keeps the order. */
  lemma InOrderAppend(pre: seq<(Loc, Verdict)>, last: seq<(Loc, Verdict)>, bus: nat)
    requires InOrder(pre) && forall k :: 0 <= k < |pre| ==> pre[k].0.bus < bus
    requires forall k :: 0 <= k < |last| ==> last[k].0 == Loc(bus, k)
    ensures InOrder(pre + last)
  {
    var cs := pre + last;
    forall i, j | 0 <= i < j < |cs|
      ensures Before(cs[i].0, cs[j].0)
    {
      if j < |pre| {
        assert cs[i] == pre[i] && cs[j] == pre[j];
      } else if i < |pre| {
        assert cs[i] == pre[i] && cs[j] == last[j - |pre|];
      } else {
        assert cs[i] == last[i - |pre|] && cs[j] == last[j - |pre|];
      }
    }
  }

  /** The devices are examined in enumeration order. */
  lemma {:induction false} UsbCandidatesOrdered(buses: seq<seq<UsbDevice>>, vendor: int, product: int, names: NameFilter)
    ensures InOrder(UsbCandidates(buses, vendor, product, names))
    decreases |buses|
  {
    if buses != [] {
      var init := buses[..|buses| - 1];
      var pre := UsbCandidates(init, vendor, product, names);
      var last := BusCandidates(|buses| - 1, buses[|buses| - 1], vendor, product, names);
      UsbCandidatesOrdered(init, vendor, product, names);
      InOrderAppend(pre, last, |buses| - 1);
    }
  }

  /** Every device of every bus is examined: `k` is its place in the
      enumeration. */
  lemma {:induction false} UsbCandidatesCover(buses: seq<seq<UsbDevice>>, vendor: int, product: int, names: NameFilter,
                                              b: nat, s: nat) returns (k: nat)
    requires b < |buses| && s < |buses[b]|
    ensures k < |UsbCandidates(buses, vendor, product, names)|
    ensures UsbCandidates(buses, vendor, product, names)[k].0 == Loc(b, s)
    decreases |buses|
  {
    var init := buses[..|buses| - 1];
    var pre := UsbCandidates(init, vendor, product, names);
    var last := BusCandidates(|buses| - 1, buses[|buses| - 1], vendor, product, names);
    var cs := UsbCandidates(buses, vendor, product, names);
    assert cs == pre + last;
    if b == |buses| - 1 {
      k := |pre| + s;
      assert cs[k] == last[s];
    } else {
      assert init[b] == buses[b];
      k := UsbCandidatesCover(init, vendor, product, names, b, s);
      assert cs[k] == pre[k];
    }
  }

  /** The libusb build keeps a handle exactly when some device passes every
      filter, and then to the first such device in enumeration order. */
  lemma {:induction false} UsbOpensFirstAcceptable(buses: seq<seq<UsbDevice>>, vendor: int, product: int, names: NameFilter)
    ensures var chosen := Run(UsbCandidates(buses, vendor, product, names)).chosen;
      && (chosen.None? <==> forall b, s :: 0 <= b < |buses| && 0 <= s < |buses[b]| ==>
            !UsbAcceptable(buses[b][s], vendor, product, names))
      && (chosen.Some? ==>
            var at := chosen.value;
            && at.bus < |buses| && at.slot < |buses[at.bus]|
            && UsbAcceptable(buses[at.bus][at.slot], vendor, product, names)
            && forall b, s :: 0 <= b < |buses| && 0 <= s < |buses[b]| && Before(Loc(b, s), at) ==>
                 !UsbAcceptable(buses[b][s], vendor, product, names))
  {
    var cs := UsbCandidates(buses, vendor, product, names);
    RunChoosesFirst(cs);
    if Run(cs).chosen.None? {
      forall b, s | 0 <= b < |buses| && 0 <= s < |buses[b]|
        ensures !UsbAcceptable(buses[b][s], vendor, product, names)
      {
        var k := UsbCandidatesCover(buses, vendor, product, names, b, s);
      }
    } else {
      var k :| FirstAccept(cs, k);
      UsbCandidatesOrdered(buses, vendor, product, names);
      forall b, s | 0 <= b < |buses| && 0 <= s < |buses[b]| && Before(Loc(b, s), cs[k].0)
        ensures !UsbAcceptable(buses[b][s], vendor, product, names)
      {
        var j := UsbCandidatesCover(buses, vendor, product, names, b, s);
      }
    }
  }

  /** With no device having the VID and PID, errorCode stays NOTFOUND. */
  lemma {:induction false} UsbNoMatchNotFound(buses: seq<seq<UsbDevice>>, vendor: int, product: int, names: NameFilter)
    requires forall b, s :: 0 <= b < |buses| && 0 <= s < |buses[b]| ==>
      buses[b][s].idVendor != vendor || buses[b][s].idProduct != product
    ensures Result(Run(UsbCandidates(buses, vendor, product, names))) == ErrNotFound
  {
    var cs := UsbCandidates(buses, vendor, product, names);
    RunChoosesFirst(cs);
    RunErrorCode(cs);
  }

  /** With no device passing the filters, errorCode comes from the last
      device that has the VID and PID: ACCESS when it could not be opened,
      IO when a string could not be read, NOTFOUND when a name differs. */
  lemma {:induction false} UsbLastMatchDecides(buses: seq<seq<UsbDevice>>, vendor: int, product: int, names: NameFilter,
                                               b: nat, s: nat)
    requires forall b, s :: 0 <= b < |buses| && 0 <= s < |buses[b]| ==> !UsbAcceptable(buses[b][s], vendor, product, names)
    requires b < |buses| && s < |buses[b]| && buses[b][s].idVendor == vendor && buses[b][s].idProduct == product
    requires forall b', s' :: 0 <= b' < |buses| && 0 <= s' < |buses[b']| && Before(Loc(b, s), Loc(b', s')) ==>
      buses[b'][s'].idVendor != vendor || buses[b'][s'].idProduct != product
    ensures Result(Run(UsbCandidates(buses, vendor, product, names))) == UsbVerdict(buses[b][s], vendor, product, names).code
  {
    var cs := UsbCandidates(buses, vendor, product, names);
    RunChoosesFirst(cs);
    RunErrorCode(cs);
    UsbCandidatesOrdered(buses, vendor, product, names);
    var k := UsbCandidatesCover(buses, vendor, product, names, b, s);
    forall j | k < j < |cs|
      ensures !cs[j].1.Reject?
    {
      assert Before(cs[k].0, cs[j].0);
    }
    assert LastReject(cs, k);
  }

  /** The candidates of the first b busses come first. */
  lemma {:induction false} UsbCandidatesPrefix(buses: seq<seq<UsbDevice>>, b: nat, vendor: int, product: int, names: NameFilter)
    requires b <= |buses|
    ensures UsbCandidates(buses[..b], vendor, product, names) <= UsbCandidates(buses, vendor, product, names)
    decreases |buses|
  {
    if b < |buses| {
      var init := buses[..|buses| - 1];
      UsbCandidatesPrefix(init, b, vendor, product, names);
      assert init[..b] == buses[..b];
    } else {
      assert buses[..b] == buses;
    }
  }

  /** The libusb inner loop body for the device at `at`: `found` says
      whether the loop stops here, keeping the handle. The handle of a
      rejected device is closed at once. */
  method UsbVisit(d: UsbDevice, at: Loc, vendor: int, vendorName: Option<CString>,
                  product: int, productName: Option<CString>, code0: OpenCode, log0: seq<Event<Loc>>)
    returns (found: bool, code: OpenCode, log: seq<Event<Loc>>)
    requires vendorName.Some? <==> productName.Some?
    ensures var st := Step(State(code0, None, log0), at, UsbVerdict(d, vendor, product, FilterOf(vendorName, productName)));
      && (found ==> st.chosen == Some(at) && st.log == log)
      && (!found ==> st == State(code, None, log))
  {
    code, log := code0, log0;
    found := false;
    if d.idVendor == vendor && d.idProduct == product {
      if !d.opens {
        code := ErrAccess;
        return;
      }
      log := log + [Opened(at)];
      if vendorName.None? && productName.None? {
        found := true;  // no name filter: the ids decide
        return;
      }
      if d.manufacturer.None? {
        code := ErrIO;
      } else {
        code := ErrNotFound;
        if d.manufacturer.value == vendorName.value {
          if d.product.None? {
            code := ErrIO;
          } else {
            code := ErrNotFound;
            if d.product.value == productName.value {
              found := true;
              return;
            }
          }
        }
      }
      log := log + [Closed(at)];
    }
  }

  /** One pass of the libusb inner loop over the devices of bus `b`, from
      the state the earlier busses left: it stops at the first device it
      keeps a handle to. */
  method ScanBus(ghost done: seq<(Loc, Verdict)>, b: nat, devs: seq<UsbDevice>, vendor: int,
                 vendorName: Option<CString>, product: int, productName: Option<CString>,
                 code0: OpenCode, log0: seq<Event<Loc>>)
    returns (code: OpenCode, handle: Option<Loc>, log: seq<Event<Loc>>)
    requires vendorName.Some? <==> productName.Some?
    requires Run(done) == State(code0, None, log0)
    ensures var s := Run(done + BusCandidates(b, devs, vendor, product, FilterOf(vendorName, productName)));
      s.chosen == handle && s.log == log && (handle.None? ==> s.errorCode == code)
  {
    ghost var names := FilterOf(vendorName, productName);
    ghost var row := BusCandidates(b, devs, vendor, product, names);
    code, handle, log := code0, None, log0;
    var s := 0;
    assert done + row[..s] == done;
    while s < |devs|
      invariant 0 <= s <= |devs|
      invariant handle.None?
      invariant Run(done + row[..s]) == State(code, None, log)
    {
      assert done + row[..s + 1] == (done + row[..s]) + [row[s]];
      RunAppend(done + row[..s], row[s]);
      var found;
      found, code, log := UsbVisit(devs[s], Loc(b, s), vendor, vendorName, product, productName, code, log);
      if found {
        handle := Some(Loc(b, s));
        KeepsRest(done, row, s);
        return;
      }
      s := s + 1;
    }
    assert row[..s] == row;
  }

  /** A device kept at position s of a bus is still the one kept after the
      rest of the bus. */
  lemma {:induction false} KeepsRest(done: seq<(Loc, Verdict)>, row: seq<(Loc, Verdict)>, s: nat)
    requires s < |row| && Run(done + row[..s + 1]).chosen.Some?
    ensures Run(done + row) == Run(done + row[..s + 1])
  {
    RunKeepsChoice(done + row[..s + 1], row[s + 1..]);
    assert done + row[..s + 1] + row[s + 1..] == done + row;
  }

  /** usbhidOpenDevice (libusb): walk every bus and every device on it;
      for a VID/PID match, open it (ACCESS on failure), accept it at once
      when no names are given, otherwise read and compare the manufacturer
      and then the product string (IO when a read fails, NOTFOUND when a
      name differs), closing the handle of every rejected device. The
      outer loop stops as soon as the inner one kept a handle. The handle
      events are recorded in `log`. */
  method UsbOpenDevice(buses: seq<seq<UsbDevice>>, vendor: int, vendorName: Option<CString>,
                       product: int, productName: Option<CString>)
    returns (code: OpenCode, handle: Option<Loc>, log: seq<Event<Loc>>)
    requires vendorName.Some? <==> productName.Some?
    ensures var s := Run(UsbCandidates(buses, vendor, product, FilterOf(vendorName, productName)));
      code == Result(s) && handle == s.chosen && log == s.log
  {
    ghost var names := FilterOf(vendorName, productName);
    code := ErrNotFound;
    handle := None;
    log := [];
    var b := 0;
    while b < |buses|
      invariant 0 <= b <= |buses|
      invariant handle.None?
      invariant Run(UsbCandidates(buses[..b], vendor, product, names)) == State(code, None, log)
    {
      ghost var done := UsbCandidates(buses[..b], vendor, product, names);
      assert buses[..b + 1][..b] == buses[..b];
      assert UsbCandidates(buses[..b + 1], vendor, product, names)
          == done + BusCandidates(b, buses[b], vendor, product, names);
      code, handle, log := ScanBus(done, b, buses[b], vendor, vendorName, product, productName, code, log);
      b := b + 1;
      if handle.Some? {
        KeepsLaterBuses(buses, b, vendor, product, names);
        break;
      }
    }

    if handle.Some? {
      code := Success;
    } else {
      assert buses[..b] == buses;
    }
  }

  /** A device kept in the first b busses is still the one kept after all. */
  lemma {:induction false} KeepsLaterBuses(buses: seq<seq<UsbDevice>>, b: nat, vendor: int, product: int, names: NameFilter)
    requires b <= |buses| && Run(UsbCandidates(buses[..b], vendor, product, names)).chosen.Some?
    ensures Run(UsbCandidates(buses, vendor, product, names)) == Run(UsbCandidates(buses[..b], vendor, product, names))
  {
    var done := UsbCandidates(buses[..b], vendor, product, names);
    var all := UsbCandidates(buses, vendor, product, names);
    UsbCandidatesPrefix(buses, b, vendor, product, names);
    RunKeepsChoice(done, all[|done|..]);
    assert done + all[|done|..] == all;
  }
}
