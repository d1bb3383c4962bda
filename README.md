# nrfburn HID host layer, modelled in Dafny

This project models `host/hiddev.cpp` of nrfburn. That file is the host side of the USB HID link to the nRF24LU1 programmer. The model covers five parts of it:

- **Report framing in `HIDBurner`.** `WriteBytes` lays a payload out over a "first" Feature report of `HIDREP_FIRST_BYTES + 1` bytes and, when the payload is longer, a "second" report of `HIDREP_SECOND_BYTES + 1` bytes. `ReadFirst` and `ReadSecond` drop the echoed report id.
- **The libusb transport.** `usbhidSetReport` and `usbhidGetReport` issue HID Set_Report and Get_Report class requests for Feature reports (sections 7.2.1 and 7.2.2 of the Device Class Definition for HID 1.11). They are modelled as methods of a `Device` class. An oracle decides what the bus answers, and a ghost trace records every control transfer.
- **String descriptor decoding.** This is the fallback path of `usbhidGetStringAscii`. It decodes a raw USB String descriptor (section 9.6.7 of the USB 2.0 specification) into a NUL-terminated ISO Latin-1 string.
- **`convertUniToAscii`.** It narrows a UTF-16 string to Latin-1 in place, in the same buffer.
- **Device selection in `usbhidOpenDevice`.** Both builds are covered: the Windows one (SetupDi/CreateFile) and the libusb one (bus and device lists). `HIDBurner::Open` also assembles the VID and PID from their little-endian configuration bytes.

Each enumerated device is abstracted as a record of what the foreign calls would say about it:
- its VID and PID;
- whether opening it works;
- what reading its manufacturer and product strings returns.

Each loop is proved to run one shared state machine, `Selection.Run`, over the devices' verdicts. Lemmas about `Run` then state the selection rule:
- the first device that passes every filter is kept;
- otherwise the last VID/PID-matching candidate sets the error code;
- every other handle that was opened is closed.

Files:
- `hid_types.dfy`: bytes, `Option`, the `USBOPEN_*` codes, and `memset`/`memcpy` on arrays.
- `transport.dfy`: the `Device` class, wValue, and the trace of delivered reports.
- `frames.dfy`: the two-report layout and what a write delivers or a read keeps.
- `burner.dfy`: the `HIDBurner` class.
- `narrowing.dfy`: `convertUniToAscii`.
- `string_descriptor.dfy`: `usbhidGetStringAscii`.
- `selection.dfy`: the selection state machine.
- `open_device.dfy`: both `usbhidOpenDevice` loops.

The report sizes and ids `HIDREP_*` are defined in `firmware/prg_common.h`, which is not part of this model. They are therefore a parameter, `Frames.Layout`. The only constraint on them is that each report fits the 128-byte `sendbuff`.

## Model

| member | source | states |
|---|---|---|
| HidTypes.OpenCode.Code | host/hiddev.cpp:17-20 | the status codes are 0..3, and 0 means success |
| Transport.SetReportWValue | host/hiddev.cpp:330-332 | wValue of Set_Report has the Feature type 3 in its high byte. Its low byte is buffer[0], even when that byte read as a signed char is negative (`& 0xff`) |
| Transport.GetReportWValue | host/hiddev.cpp:346-348 | wValue of Get_Report has type 3 in its high byte and the report number in its low byte |
| Transport.SetupOf | host/hiddev.cpp:332-348 | the setup packet of a recorded transfer is a class request; its direction bit is set exactly for Get_Report, and its bRequest is SET_REPORT (0x09) exactly for a Set_Report transfer, GET_REPORT (0x01) otherwise |
| Transport.Device.SetReport | host/hiddev.cpp:328-342 | one OUT control transfer of the first `len` bytes is added to the trace. It succeeds exactly when the bus reports `len` bytes sent, and IO is the only error |
| Transport.Device.GetReport | host/hiddev.cpp:344-358 | one IN control transfer of at most `len` bytes. On a negative count it returns IO and leaves the length and buffer alone. Otherwise the received bytes land at the front of the buffer, never more than the reported count, and the count is passed back |
| Frames.FirstReport | host/hiddev.cpp:435-444 | the first report is C1+1 bytes: the first id, then payload byte k-1 at index k while the payload lasts, then zeros |
| Frames.SecondReport | host/hiddev.cpp:451-456 | the second report is C2+1 bytes: the second id, then the payload from offset C1 on, then zeros |
| Frames.FramesRoundTrip | host/hiddev.cpp:435-461 | joining the payload regions of the frames of a payload gives the payload back, followed only by zero bytes |
| Frames.WriteDeliversFrames | host/hiddev.cpp:446-461 | a write reports success exactly when the device has accepted every frame of the payload, in order |
| Frames.WriteShortCircuits | host/hiddev.cpp:446-448 | when the first Set_Report fails, it is the only transfer, nothing is delivered and the write fails |
| Frames.WriteKeepsFirstOnSecondFailure | host/hiddev.cpp:451-460 | when the second Set_Report fails, the write fails but the first report stays delivered: there is no rollback |
| Frames.ReadOutput | host/hiddev.cpp:390-398 | a read yields C bytes. Byte k is received byte k+1 when the reported count and the sent data reach it, and zero otherwise |
| Frames.ReadStripsId | host/hiddev.cpp:398 | a report echoed in full (count and data both C+1 bytes) reads back as exactly its payload region, without the id byte |
| Frames.ReadBackWrittenFrames | host/hiddev.cpp:390-461 | reading back in full the two frames a write sent yields the written payload first |
| Burner.LeU16 | host/hiddev.cpp:381-382 | `raw[0] + 256 * raw[1]` is a 16-bit value whose low byte is raw[0] and whose high byte is raw[1] |
| Burner.LeU16RoundTrip | host/hiddev.cpp:377-382 | the assembly inverts the little-endian split of a 16-bit value and is injective on byte pairs |
| Burner.HIDBurner.constructor | host/hiddev.cpp:365-367 | hHIDDev starts NULL and refers to no device, so the handle and its device are linked |
| Burner.HIDBurner.Open | host/hiddev.cpp:375-386 | assembles VID and PID from the configuration bytes and succeeds exactly when the libusb selection keeps a handle (the status is tested as `!= 0`). On success hHIDDev is a fresh handle to the kept device, which is on the bus list and passes the VID, PID and both name filters. On failure hHIDDev and the device it refers to are unchanged |
| Burner.ScratchPayload | host/hiddev.cpp:392-397 | after a successful Get_Report into a zeroed scratch buffer of C+1 bytes, scratch bytes 1..C are exactly the read output |
| Burner.HIDBurner.ReadReport | host/hiddev.cpp:392-398 | the body ReadFirst and ReadSecond share: one Get_Report of C+1 bytes for the given id; on success the output's first C bytes become the read output and the rest is unchanged; on failure the output is unchanged |
| Burner.HIDBurner.ReadFirst | host/hiddev.cpp:390-398 | one Get_Report for the first id with C1+1 bytes. On success the output's first C1 bytes become the read output and the rest is unchanged. On failure the output is unchanged |
| Burner.HIDBurner.ReadSecond | host/hiddev.cpp:408-416 | the same as ReadFirst, for the second id and C2 |
| Burner.HIDBurner.WriteBytes | host/hiddev.cpp:426-461 | the trace grows by exactly the transfers of the framed write. The second report is tried only when needed and after the first succeeded. The result is success exactly when every needed Set_Report moved the whole report |
| Burner.PrepareFirst | host/hiddev.cpp:435-444 | after the memset, the id byte and the clamped memcpy, the first C1+1 bytes of the scratch buffer are exactly `FirstReport` of the payload |
| Burner.PrepareSecond | host/hiddev.cpp:452-456 | after the memset, the id byte and the memcpy from offset C1, the first C2+1 bytes of the scratch buffer are exactly `SecondReport` of the payload |
| Narrowing.WideCString | host/hiddev.cpp:46 | the units before the first zero unit: a zero-free prefix followed by a zero |
| Narrowing.ConvertedHoldsName | host/hiddev.cpp:41-53 | the converted buffer starts with a C string that is exactly the narrowed name |
| Narrowing.NarrowWidenRoundTrip | host/hiddev.cpp:41-53 | a NUL-free Latin-1 string, widened and zero-terminated, converts back to itself |
| Narrowing.ConvertUniToAscii | host/hiddev.cpp:41-53 | in place, the buffer becomes the narrowed name, one NUL, and its old bytes after that. The write offset never passes the read offset |
| StringDescriptor.CharCount | host/hiddev.cpp:218-243 | the returned char count is at most 126, and 0 for a descriptor that is not of type STRING |
| StringDescriptor.DecodedIsNarrowed | host/hiddev.cpp:235-238 | the decoder narrows each UTF-16LE unit exactly as convertUniToAscii does |
| StringDescriptor.DecodeEncoded | host/hiddev.cpp:218-243 | decoding an encoded descriptor into a large enough buffer gives every char, narrowed, whatever else is in the scratch buffer |
| StringDescriptor.GetStringAscii | host/hiddev.cpp:215-243 | a negative transfer result is passed through. Otherwise the buffer holds the decoded chars followed by a NUL, the return value is their number, and the rest of the buffer is unchanged |
| StringDescriptor.NulPastBuflen | host/hiddev.cpp:230-243 | with buflen 1 and a two-char descriptor, the NUL is written at index 1, outside a 1-byte buffer |
| StringDescriptor.BoundedNulFits | host/hiddev.cpp:230-243 | with the count bounded by buflen - 1, the NUL always lands inside the buffer. The bounded count agrees with the original wherever the original stays in bounds |
| Selection.RunChoosesFirst | host/hiddev.cpp:263-319 | the loop keeps a handle exactly when some device is accepted, and then it keeps the first accepted one |
| Selection.RunErrorCode | host/hiddev.cpp:263-319 | with nothing accepted, errorCode is the code of the last rejected candidate, or NOTFOUND when there was none |
| Selection.RunErrorCodeFrom | host/hiddev.cpp:82-171 | errorCode is NOTFOUND or the code of some rejected candidate |
| Selection.RunLog | host/hiddev.cpp:263-319 | `Run`, the selection loop as a state machine over the devices' verdicts (`Step` per device), makes at most twice as many handle calls in total as there are devices, and an odd number of them exactly when it keeps a handle, since only the kept one is left unclosed |
| Selection.RunCalls | host/hiddev.cpp:263-319 | the loop's handle calls are exactly `Calls`: each device's own calls (`Own`: open and close for a passed-over device it opened, nothing for one it did not open, a single open for the kept one) in enumeration order, stopping at the kept device. So each device is opened at most once, in turn, and none after the kept one is touched |
| Selection.Own | host/hiddev.cpp:263-319 | one device costs at most two handle calls, all on that device |
| Selection.RunResult | host/hiddev.cpp:313-319 | `Result`, the value usbhidOpenDevice returns after its loop, is SUCCESS exactly when a handle is kept, given that no candidate is rejected with SUCCESS |
| Selection.RunBalanced | host/hiddev.cpp:263-319 | every handle that is opened and not returned is closed by the very next handle call. The returned one is opened last and never closed |
| Selection.RunKeepsChoice | host/hiddev.cpp:157 | once a device is kept, the devices enumerated after it change nothing |
| OpenDevice.WinVerdict | host/hiddev.cpp:111-157 | an interface is accepted exactly when it opens, its VID and PID match, and, if names are given, both strings read and narrow to the names. A rejection sets IO or NOTFOUND and never ACCESS |
| OpenDevice.WinVisit | host/hiddev.cpp:111-157 | one pass of the Windows loop body is one `Step` on that interface's `WinVerdict`: when it stops the loop, its handle is the one kept and its calls are the step's; otherwise the step leaves errorCode as the pass does and the handle it left open is the one closed at the top of the next pass |
| OpenDevice.WinOpenDevice | host/hiddev.cpp:74-172 | the Windows loop returns the result, the kept handle, and the open/close calls of the selection state machine run over its interfaces |
| OpenDevice.WinOpensFirstAcceptable | host/hiddev.cpp:89-171 | a handle is returned exactly when some interface passes every filter, and it is the first such interface |
| OpenDevice.WinNeverAccess | host/hiddev.cpp:113-117 | the Windows build never returns ACCESS |
| OpenDevice.WinNoMatchNotFound | host/hiddev.cpp:82-126 | with no openable interface matching VID and PID, the result is NOTFOUND |
| OpenDevice.WinLastMatchDecides | host/hiddev.cpp:126-157 | with nothing accepted, the result is the verdict code of the last openable VID/PID match |
| OpenDevice.UsbVerdict | host/hiddev.cpp:267-309 | a device is accepted exactly when its VID and PID match, it opens, and, if names are given, both strings read and equal them. A match that cannot be opened sets ACCESS, and a device with other ids is passed over |
| OpenDevice.UsbCandidates | host/hiddev.cpp:263-265 | every candidate is the verdict on the device at its location |
| OpenDevice.UsbCandidatesOrdered | host/hiddev.cpp:263-265 | the devices are examined in bus-major order: bus by bus, each bus from its first device on |
| OpenDevice.UsbCandidatesCover | host/hiddev.cpp:263-265 | every device of every bus is examined |
| OpenDevice.UsbCandidatesPrefix | host/hiddev.cpp:263 | the candidates of the first busses come first |
| OpenDevice.UsbVisit | host/hiddev.cpp:267-306 | one pass of the libusb inner-loop body is one `Step` on that device's `UsbVerdict`: when it breaks, the device is kept with the step's calls; otherwise the step's errorCode and calls are the pass's, with the handle already closed |
| OpenDevice.ScanBus | host/hiddev.cpp:265-307 | the inner loop over one bus continues `Run` from the busses before it: the kept handle and the calls are those of `Run` over the candidates so far plus this bus's, and with no handle kept so is errorCode |
| OpenDevice.UsbOpenDevice | host/hiddev.cpp:246-320 | the libusb loops return the result, the kept handle, and the open/close calls of the selection state machine run over every bus's devices |
| OpenDevice.UsbOpensFirstAcceptable | host/hiddev.cpp:263-319 | a handle is returned exactly when some device passes every filter, and it is the first such device in bus-major order |
| OpenDevice.UsbNoMatchNotFound | host/hiddev.cpp:252-319 | with no device matching VID and PID, the result is NOTFOUND |
| OpenDevice.UsbLastMatchDecides | host/hiddev.cpp:267-309 | with nothing accepted, the result is the verdict code of the last VID/PID match: ACCESS, IO or NOTFOUND |

## Left out

- **The foreign libraries.** The SetupDi, CreateFile, HidD_* and CloseHandle calls and the libusb calls (`usb_init`, `usb_find_*`, `usb_open`, `usb_close`, `usb_control_msg`, `usb_get_string_simple`) are not modelled. A device is a record of what those calls would report. A control transfer is answered by the `wire` oracle.
- **Windows report transport.** The Windows `usbhidSetReport`/`usbhidGetReport` (host/hiddev.cpp:179-190) are not modelled; only the libusb versions are. The Windows one writes the report number into buffer[0] before the call, and the libusb one does not.
- **`usbhidGetStringAscii` on success.** The path where `usb_get_string_simple` succeeds (line 212) returns the library's own answer. The GET_DESCRIPTOR transfer itself becomes the parameters `raw` (the 256-byte scratch buffer) and `received`.
- **Printing and lifecycle.** Not modelled:
  - `GetErrorString`;
  - `DEBUG_PRINT` and `LOG_HID_TRAFFIC` printing;
  - the 5000 ms timeouts;
  - the `didUsbInit` flag;
  - `usbhidCloseDevice`;
  - the destructor's close.
- **Exceptions.** A thrown `std::string` becomes `ok == false`, and its message text is not modelled.
- **Uninitialised scratch.** In ReadFirst/ReadSecond, `rcvBuff` bytes that the transfer does not fill are uninitialised in C. They are zero in this model (Frames.ReadOutput).
- **Names on the libusb path.** Only both-given and both-NULL name filters are allowed. Exactly one NULL name is undefined behaviour in the C code (`strcmp` with NULL), so it is excluded by precondition.
- **Device names.** Name filters and the strings read through libusb are `HidTypes.CString` values: the characters of a C string without its NUL, so none of them is zero and `==` on them is `strcmp(...) == 0`. A manufacturer or product string read through libusb is abstracted as the resulting C string. The Windows strings are sequences of 16-bit units, assuming `wchar_t` is 16 bits. A Windows string that fills the 512-byte buffer without a terminator is not modelled specially.
- Burner.HIDBurner.WriteBytes: requires `bytes <= HIDREP_FIRST_BYTES + HIDREP_SECOND_BYTES`. The C code does not check this; its unclamped copy at line 456 would send a truncated second report or overrun `sendbuff`.
- Burner.HIDBurner.Open: takes the configuration bytes and names as parameters, since `USB_CFG_*` is not part of this model. It uses the libusb selection.

## Findings

| source | as written | input that shows it | evidently intended | confidence | as-written member | corrected member |
|---|---|---|---|---|---|---|
| host/hiddev.cpp:230-243 | the loop leaves through `i > buflen` with i == buflen + 1, and `buf[i - 1] = 0` then writes buf[buflen], one byte past a buffer of `buflen` bytes | descriptor `06 03 41 00 42 00`, 6 bytes received, buflen 1: the char count is 1, so the NUL goes to buf[1] | at most buflen - 1 chars, so that the NUL fits. This is latent in nrfburn, whose only call passes 256 while the count never exceeds 126 | not executed | StringDescriptor.NulPastBuflen | StringDescriptor.BoundedNulFits |
