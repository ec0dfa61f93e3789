# GPS-disciplined NTP server: discipline object and responder core

This project models the two sequential components of a Raspberry Pi Pico NTP server that takes its time from a GPS receiver. The properties are proved in Dafny.

- **`GPS`** (`src/gps.cpp`, `src/gps.h`) is the time-discipline object.
  - The PPS interrupt handler (`pps`) shifts the PPS timestamps on every edge and advances the calendar second. It keeps the minimum and maximum of the accepted edge-to-edge intervals.
  - The main-loop step (`process`) clears the one-slot invalidation reason. It collects UART bytes into a 128-byte NMEA line buffer. When a complete sentence arrives, it hands the sentence to the NMEA parser; only a valid RMC fix records the fix time and makes the clock valid.
  - `invalidate` keeps only the first reason.
  - `getTime` builds seconds and microseconds from the NMEA and PPS timestamps.
  - The accessors are `isValid`, `getJitter`, `getValidCount`, `getValidSince` and the integer part of `getDispersion`.
- **`NTP`** (`src/ntp.cpp`) is the responder.
  - The header bit-field macros handle LI, VN and Mode (section 7.3 of RFC 5905).
  - The 1900/1970 era conversion follows section 6 of RFC 5905.
  - The 48-byte wire packet is handled with `ntohl`/`htonl`.
  - The receive callback `ntp_udp_recv_cb` validates the request, builds the response, echoes the transmit timestamp as the originate timestamp (section 8 of RFC 5905) and keeps request and response counters.

The project has four modules:

- `Bits` (`bits.dfy`) holds the C integer widths. Unsigned wrap-around, the two's-complement reinterpretation in a signed field and network byte order are written out explicitly.
- `Wrappers` (`wrappers.dfy`) holds `Option`.
- `Gps` (`gps.dfy`) holds the following:
  - a `Discipline` value, which is a snapshot of every scalar field;
  - the pure transitions over that snapshot: `PpsStep`, `Dispatch`, `TimeAt` and `Scan`;
  - the class `GPS`, whose methods update the fields and arrays in place and are proved against those transitions.
- `Ntp` (`ntp.dfy`) holds the following:
  - the macros and the era conversion as functions;
  - the packet codec;
  - the response transform `Respond`;
  - the class `NTP`, whose `Receive` method is proved against `Encode(Respond(Decode(payload), …))`.

Four things in the original are not code the model can see: the microsecond clock (`time_us_64`), the UART receive FIFO, the minmea parser and `mktime`. They become parameters:

- `now` is a clock reading;
- `input` is the sequence of bytes available when `process` runs;
- `decode` is a `Decoder` function from the 128-byte buffer to the sentence kind;
- the RMC date and time are given directly as seconds since the epoch, so `mktime` is the identity and `tm_sec += 1` adds one second.

The PPS interrupt is modelled as an atomic method that runs between main-loop steps. The global `GPS` object is in static storage, so fields its constructor does not set start at zero. These are `_valid_since`, `_pps_timestamp_us_prev`, `_nmea_timestamp` and the reason bytes after the first.

## Model

| member | source | states |
|---|---|---|
| Gps.PpsStep | src/gps.cpp:293-312 | On every PPS edge the current timestamp becomes the previous one, the new one is `now`, and the calendar second advances by exactly one, even when the interval is rejected. Nothing else changes apart from the statistics; in particular validity does not. An interval above 1001 ms leaves min and max unchanged. An accepted interval e satisfies `min <= e <= max`; max never decreases, and min only decreases or is set from the unset value 0. The order `min <= max <= 1001000` is preserved. |
| Gps.PpsRunInvariants | src/gps.cpp:297-310 | Over any sequence of edges: the second advances once per edge, validity and the fix time are untouched, max never decreases, the last edge is the current timestamp, and the statistics stay ordered, so the jitter never wraps. |
| Gps.GPS.Pps | src/gps.cpp:293-312 | The interrupt handler updates the fields in place to exactly `PpsStep` of the old state. It keeps the object invariant and leaves the buffers alone. |
| Gps.Dispatch | src/gps.cpp:237-265 | Only a parsed RMC frame with its valid flag set changes state. It sets the NMEA time and the fix timestamp and makes the clock valid. GGA, GSV, unknown sentences and an RMC that fails to parse change nothing. Validity is gained only from such a fix. |
| Gps.GPS.HandleSentence | src/gps.cpp:237-265 | The switch on the sentence kind updates the fields to exactly `Dispatch` of the old state and touches only the three fields a fix sets. |
| Gps.Scan | src/gps.cpp:225-234 | The reading loop with a bounds guard: it never reads past the available bytes. Without a terminator, it reads every available byte and the line stays under 128 bytes. A completed sentence ends with the `'\n'` read last, at index 2 or later, and fits the buffer. |
| Gps.ScanStopsAtFirstTerminator | src/gps.cpp:225-232 | A `'\n'` at index 0 or 1 does not end a sentence. Reading stops at the first `'\n'` past index 1, so the completed line contains no earlier one. |
| Gps.ScanAppends | src/gps.cpp:225-232 | While the buffer cannot fill, the buffered line is the previous line followed by exactly the bytes read. |
| Gps.StoresAsWrittenConsecutive | src/gps.cpp:225-232 | The loop as written, with no bounds check, stores at consecutive indices while no terminator arrives. |
| Gps.AsWrittenOverrunsBuffer | src/gps.cpp:227 | As written, 129 bytes without a terminator make the loop store at index 128, one past the 128-byte buffer. |
| Gps.GuardedReaderDropsOverlongLine | src/gps.cpp:225-232 | With the guard, a line that would fill the buffer without a terminator is dropped: nothing is completed and the line starts over empty. |
| Gps.GPS.ReadSentence | src/gps.cpp:225-232 | The in-place loop over the array agrees with `Scan`. On completion `_buf[_buf_idx]` is the `'\n'`, the index is past 1 and the buffer is the line padded with zeros. Otherwise the buffer invariant holds and the line is `Scan`'s line. |
| Gps.GPS.Process | src/gps.cpp:206-274 | A pending reason is cleared and the rest of the reason is untouched. The bytes read are those `Scan` reads. A complete sentence moves the state to `Dispatch` of the decoded 128-byte buffer and leaves the buffer all zero with index 0. An incomplete line changes no discipline state. The object invariant is kept. |
| Gps.GPS.StoreByte | src/gps.cpp:227-231 | One pass of the read loop stores the byte at the index. It reports a sentence end exactly when the line already holds more than one byte and the byte is `'\n'`; then the index stays on the `'\n'` and the buffer is the extended line padded with zeros. Otherwise the line grows by the byte, with the corrected restart at 128 bytes. |
| Gps.GPS.ClearLine | src/gps.cpp:271-272 | After `memset` and the index reset, the buffer is all zero and the line is empty. |
| Gps.TimeAt | src/gps.cpp:162-199 | There is a time if and only if the object is valid, and its microseconds are always in [0, 999999]. When no PPS edge followed the last fix, the seconds are the fix second plus the whole seconds elapsed since the fix, and the microseconds are `(now - pps) mod 1000000`. After a later PPS edge, the seconds are the edge-advanced second and the microseconds are the raw 32-bit difference, or 999999 when that is out of range. |
| Gps.GPS.GetTime | src/gps.cpp:162-199 | Reports false and leaves the caller's `timeval` unchanged when not valid. Otherwise it reports true and the `timeval` that `TimeAt` gives. |
| Bits.Int32 | src/gps.cpp:169 | Storing a `uint32_t` into the 32-bit signed `tv_usec` keeps the value modulo 2^32, and it is negative exactly when bit 31 is set. |
| Gps.Vsnprintf | src/gps.cpp:284 | At most `size - 1` characters of the text are written, then a terminator. Every other byte of the destination is unchanged. |
| Gps.ReasonAfter | src/gps.cpp:277-290 | The reason buffer keeps a pending reason, or otherwise holds the truncated text. It is always NUL-terminated within 128 bytes. |
| Gps.FirstReasonWins | src/gps.cpp:279-287 | A second invalidation before the reason is consumed leaves the first reason in place. |
| Gps.GPS.Invalidate | src/gps.cpp:277-290 | The reason array becomes `ReasonAfter` of the old one. Validity and `_last_micros` are always cleared and nothing else changes. |
| Gps.GPS.constructor | src/gps.cpp:46-60 | A new object is not valid, has min = max = 0, all counters zero, an empty reason, an all-zero buffer with index 0, and jitter 0. |
| Gps.GPS.IsValid | src/gps.h:68 | Returns the validity flag and has no side effects. |
| Gps.GPS.GetJitter | src/gps.h:69 | Returns `max - min` in unsigned 32-bit arithmetic, which is the true spread whenever min <= max, and has no side effects. |
| Gps.GPS.GetValidCount | src/gps.h:70 | Always 0: no code increments `_valid_count` after construction. |
| Gps.GPS.GetValidSince | src/gps.h:71 | Always 0: no code assigns `_valid_since`. |
| Gps.DispersionMicros | src/gps.cpp:201-204 | The integer part of the dispersion, as intended. It is the larger deviation of the two interval bounds from one second, and it bounds the deviation of every interval between them. |
| Gps.GPS.GetDispersionMicros | src/gps.cpp:201-204 | The object's dispersion bounds the deviation of every interval between its min and max, and it is attained at one of them. |
| Gps.DispersionAsWritten | src/gps.cpp:203 | The written unsigned differences agree with the intended dispersion while both bounds are at most one second. |
| Gps.DispersionWrapsAfterLongSecond | src/gps.cpp:203 | Intervals of 999990 and 1000010 µs, both accepted, make the written dispersion 2^32 - 10 µs instead of 10 µs. |
| Ntp.Flags | src/ntp.cpp:66-72 | `getLI`, `getVERS` and `getMODE` of `setLI(l) \| setVERS(v) \| setMODE(m)` give `l & 3`, `v & 7` and `m & 7`. |
| Ntp.FlagsUnpack | src/ntp.cpp:66-72 | Every first byte is the packing of its three unpacked fields. |
| Ntp.ServerFlags | src/ntp.cpp:198 | The server's first byte is 0x24: LI 0, version 4, mode 4 (server). |
| Ntp.EraRoundTrip | src/ntp.cpp:74-76 | Stored into 32-bit fields, `toEPOCH(toNTP(t))` and `toNTP(toEPOCH(t))` both give `t` modulo 2^32. |
| Ntp.EraOffset | src/ntp.cpp:74-76 | Until the 2036 NTP rollover, the NTP seconds are the Unix seconds plus 2,208,988,800. |
| Ntp.Fraction | src/ntp.cpp:159-160 | The 32-bit fraction is the floor of `usec * 2^32 / 10^6`. |
| Ntp.FromTimeVal | src/ntp.cpp:157-160 | The NTP seconds are the Unix seconds plus 2,208,988,800 while they fit. |
| Ntp.NtpTimeAt | src/ntp.cpp:152-161 | The corrected `getNTPTime` gives a timestamp if and only if the GPS is valid, and that timestamp is the conversion of `getTime`'s result. |
| Ntp.NtpSecondsAsWrittenUsesStaleTime | src/ntp.cpp:154-157 | As written, when the GPS is not valid the seconds come from the uninitialised stack `timeval`, and two such values give different timestamps. When the GPS is valid they agree with the corrected timestamp. |
| Ntp.NTP.GetNTPTime | src/ntp.cpp:152-161 | Computes exactly `NtpTimeAt` of the GPS state: no timestamp while the GPS is not valid. |
| Bits.BigEndian32RoundTrip | src/ntp.cpp:211-221 | `ntohl` after `htonl` returns the 32-bit value. |
| Bits.FromBigEndian32RoundTrip | src/ntp.cpp:184-193 | `htonl` after `ntohl` returns the four wire bytes. |
| Ntp.TimeBytesRoundTrip | src/ntp.cpp:213-221 | A timestamp written in network order reads back unchanged. |
| Ntp.TimeFromBytesRoundTrip | src/ntp.cpp:186-193 | Eight timestamp bytes read and written back are unchanged. |
| Ntp.DecodeEncode | src/ntp.cpp:183-193 | Decoding the wire form of a packet gives the packet back. |
| Ntp.EncodeDecode | src/ntp.cpp:211-229 | Encoding a decoded 48-byte payload gives the payload back. |
| Ntp.ResponseLayout | src/ntp.cpp:197-221 | The response bytes are: 0x24, stratum 1, the client's poll, the server's precision, delay 1 and dispersion 1 in network order, and reference id "GPS ". Then come the reference, receive and transmit timestamps. The originate timestamp is byte for byte the request's transmit timestamp. |
| Ntp.NTP.BuildResponse | src/ntp.cpp:197-221 | The field-by-field rewrite of the local packet produces exactly `Respond` with the reference and transmit times sampled from the GPS. |
| Ntp.NTP.Answer | src/ntp.cpp:171-232 | The callback's early returns: a reply exists if and only if the payload is 48 bytes, the GPS is valid and the transmit buffer is allocated. The reply is then the encoding of `Respond` on the decoded request, with the reference and transmit times sampled from the GPS. |
| Ntp.NTP.CountRequest | src/ntp.cpp:167 | `_req_count` is the number of requests modulo 2^32 after the increment. |
| Bits.Wrap32Increment | src/ntp.cpp:167 | Incrementing a 32-bit counter that holds n modulo 2^32 gives n + 1 modulo 2^32. |
| Ntp.NTP.CountResponse | src/ntp.cpp:234 | `_rsp_count` is the number of responses modulo 2^32 after the increment, and responses never outnumber requests. |
| Ntp.NTP.Receive | src/ntp.cpp:163-235 | Every callback counts a request before any check. A reply is sent if and only if the payload is 48 bytes, the GPS is valid and the transmit buffer is allocated, and only then is a response counted. The reply is the encoding of `Respond` applied to the decoded request, with the receive time sampled on arrival, before validation. |
| Ntp.NTP.GetReqCount | src/ntp.h:41 | Returns the number of requests since construction, modulo 2^32. |
| Ntp.NTP.GetRspCount | src/ntp.h:42 | Returns the number of responses since construction, modulo 2^32. |
| Ntp.NTP.constructor | src/ntp.cpp:111-118 | A new responder has both counters and the precision at 0. |
| Ntp.NTP.Begin | src/ntp.cpp:124-126 | The signed precision exponent stored in the unsigned 8-bit field reads back as the same signed value. |

## Left out

- `begin`, `end`, `configure_mtk` and `configure_ubx` of `GPS` are not modelled. They are UART and GPIO configuration and blocking writes to the receiver.
- `time_to_str`, `timestr`, `dumpNTPPacket` and all diagnostic `printf` output are not modelled. They only format text.
- The `us2s` floating-point conversion in `getDispersion` is not modelled. Only its integer argument, the maximum of the two differences in microseconds, is modelled.
- Ntp.Fraction: the source computes the fraction in `double` and truncates. The model uses the exact floor of `usec * 2^32 / 10^6`, which can differ from the double result by one unit.
- `computePrecision` is not modelled. It times 10000 calls with `double` and `log2`. `Begin` takes the measured exponent as a parameter instead.
- The lwIP work is not modelled: UDP binding, `pbuf_alloc`, `udp_sendto` and `pbuf_free`. The allocation outcome is a parameter of `Receive`, and the reply is returned rather than sent. The model does not capture that the request `pbuf` is freed only on the success path.
- minmea and `mktime` are not modelled. They are external library code. `decode` is a parameter, and the RMC date and time arrive as seconds since the epoch.
- Gps.TimeAt: `tv_sec` is an unbounded integer. The width of `time_t` is not modelled; the NTP conversion truncates it to 32 bits.
- The race between the PPS interrupt and the main loop on the volatile fields is not modelled. `Pps` runs atomically between main-loop steps.
- The PPS and NMEA timeout checks in `process` are not modelled, because they are commented out in the source. The NMEA window constant is kept.
- The validity debounce countdown and the `valid_count` bookkeeping are not modelled. Some descriptions of this system mention them, but this revision of the code does neither, so the model follows the code: validity comes from one valid RMC fix, and `getValidCount`/`getValidSince` stay 0.
- `_last_pps_us` and the `_uart` handle are not modelled. No modelled code reads `_last_pps_us`, and `_uart` is a hardware handle.
- `src/gps.h` declares neither `_pps_timestamp_us_prev` nor `time_to_str`, although `src/gps.cpp` uses both. The model treats the first as a field of `GPS`.
- Ntp.NTP.GetRspCount: `rsp_count <= req_count` holds on the unbounded totals. Once either 32-bit counter wraps, the stored values need not be ordered.
- `src/net.cpp`, `src/ref_clock.cpp`, `src/main.cpp` and `src/arch/sys_arch.c` are not part of this model. They are network-adapter plumbing, clock register writes, board init and SDK wrappers.

## Findings

| source | as written | input that shows it | evidently intended | confidence | as-written member | corrected member |
|---|---|---|---|---|---|---|
| src/gps.cpp:227 | `_buf[_buf_idx]` is stored with no bounds check. `_buf_idx` is a `uint8_t` and the buffer has 128 bytes. | 129 UART bytes without a `'\n'` (a garbled line) store at index 128. | Drop a line that would overrun the buffer and start over. | high, not executed | Gps.AsWrittenOverrunsBuffer | Gps.GuardedReaderDropsOverlongLine |
| src/gps.cpp:203 | `MICROS_PER_SEC - _max_micros` is computed in unsigned 32-bit arithmetic. It wraps once an accepted interval exceeds one second, and the window admits up to 1.001 s. | Accepted intervals of 999990 µs and 1000010 µs give 4294967286 µs instead of 10 µs. | The larger absolute deviation of min and max from one second. | high, not executed | Gps.DispersionWrapsAfterLongSecond | Gps.DispersionMicros |
| src/ntp.cpp:155-157 | `getNTPTime` ignores the status of `getTime` and converts an uninitialised `timeval`. | Any call while the GPS is not valid: the seconds depend on stack contents. | No timestamp while the GPS is not valid. | high, not executed | Ntp.NtpSecondsAsWrittenUsesStaleTime | Ntp.NtpTimeAt |
