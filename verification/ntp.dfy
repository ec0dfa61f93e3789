/** The NTP responder: header bit fields, the 1900/1970 era conversion, the
    48-byte wire packet and the receive callback that turns a client request
    into a server response from the GPS time. */
module Ntp {
  import opened Bits
  import opened Wrappers
  import Gps

  const NTP_PORT: nat := 123
  /** `sizeof(NTPPacket)`: four single bytes, two 32-bit words, four reference-id
      bytes and four 64-bit timestamps. */
  const PACKET_SIZE: nat := 48

  const LI_NONE: bv8 := 0
  const LI_SIXTY_ONE: bv8 := 1
  const LI_FIFTY_NINE: bv8 := 2
  const LI_NOSYNC: bv8 := 3

  const MODE_RESERVED: bv8 := 0
  const MODE_ACTIVE: bv8 := 1
  const MODE_PASSIVE: bv8 := 2
  const MODE_CLIENT: bv8 := 3
  const MODE_SERVER: bv8 := 4
  const MODE_BROADCAST: bv8 := 5
  const MODE_CONTROL: bv8 := 6
  const MODE_PRIVATE: bv8 := 7

  const NTP_VERSION: bv8 := 4

  /** "GPS " in ASCII. */
  const REF_ID: seq<uint8> := [0x47, 0x50, 0x53, 0x20]

  /** Seconds from 1900-01-01 (NTP era 0) to 1970-01-01 (the Unix epoch). */
  const SEVENTY_YEARS: nat := 2_208_988_800

  // ---------------------------------------------------------------------------
  // Header bit fields (section 7.3 of RFC 5905): LI in bits 7-6, VN in bits 5-3,
  // Mode in bits 2-0 of the first byte

  function SetLI(value: bv8): bv8 { (value & 0x03) << 6 }
  function SetVERS(value: bv8): bv8 { (value & 0x07) << 3 }
  function SetMODE(value: bv8): bv8 { value & 0x07 }

  function GetLI(value: bv8): bv8 { (value >> 6) & 0x03 }
  function GetVERS(value: bv8): bv8 { (value >> 3) & 0x07 }
  function GetMODE(value: bv8): bv8 { value & 0x07 }

  /** `setLI(li) | setVERS(vn) | setMODE(mode)`: the three fields do not overlap,
      so each one reads back as the low bits of what was packed. */
  function Flags(li: bv8, vn: bv8, mode: bv8): (f: bv8)
    ensures GetLI(f) == li & 0x03
    ensures GetVERS(f) == vn & 0x07
    ensures GetMODE(f) == mode & 0x07
  {
    SetLI(li) | SetVERS(vn) | SetMODE(mode)
  }

  /** The converse: every first byte is the packing of its three fields. */
  lemma FlagsUnpack(f: bv8)
    ensures Flags(GetLI(f), GetVERS(f), GetMODE(f)) == f
  {
  }

  /** The server's first byte: no leap warning, version 4, server mode. */
  lemma ServerFlags()
    ensures Flags(LI_NONE, NTP_VERSION, MODE_SERVER) == 0x24
    ensures GetLI(0x24) == LI_NONE && GetVERS(0x24) == NTP_VERSION && GetMODE(0x24) == MODE_SERVER
  {
  }

  // ---------------------------------------------------------------------------
  // Era conversion (section 6 of RFC 5905). The constant does not fit a 32-bit
  // `long`, so `(uint32_t)t + SEVENTY_YEARS` is computed in 64 bits; the result
  // is truncated when stored into a 32-bit field.

  function ToNTP(t: int): int { Wrap32(t) + SEVENTY_YEARS }
  function ToEpoch(t: int): int { Wrap32(t) - SEVENTY_YEARS }

  /** Stored in 32-bit fields, the two conversions undo each other. */
  lemma EraRoundTrip(t: int)
    ensures Wrap32(ToEpoch(Wrap32(ToNTP(t)))) == Wrap32(t)
    ensures Wrap32(ToNTP(Wrap32(ToEpoch(t)))) == Wrap32(t)
  {
    var u := Wrap32(t);
    if u + SEVENTY_YEARS < TWO_32 {
      assert Wrap32(ToNTP(t)) == u + SEVENTY_YEARS;
    } else {
      assert Wrap32(ToNTP(t)) == u + SEVENTY_YEARS - TWO_32;
    }
    if u >= SEVENTY_YEARS {
      assert Wrap32(ToEpoch(t)) == u - SEVENTY_YEARS;
    } else {
      assert Wrap32(ToEpoch(t)) == u - SEVENTY_YEARS + TWO_32;
    }
  }

  /** Up to the NTP era rollover in 2036 the two eras differ by exactly
      2,208,988,800 seconds. */
  lemma EraOffset(t: int)
    requires 0 <= t < TWO_32 - SEVENTY_YEARS
    ensures Wrap32(ToNTP(t)) == t + SEVENTY_YEARS
    ensures ToEpoch(Wrap32(ToNTP(t))) == t
  {
  }

  // ---------------------------------------------------------------------------
  // Timestamps

  /** `NTPTime`: 32-bit seconds since 1900 and a 32-bit binary fraction. */
  datatype NTPTime = NTPTime(seconds: uint32, fraction: uint32)

  /** The fraction of a second as a 32-bit binary fraction. */
  function Fraction(usec: int): (f: uint32)
    requires 0 <= usec < Gps.US_PER_SEC
    ensures f * Gps.US_PER_SEC <= usec * TWO_32 < (f + 1) * Gps.US_PER_SEC
  {
    usec * TWO_32 / Gps.US_PER_SEC
  }

  /** The NTP timestamp of a `timeval` whose microseconds are in range. */
  function FromTimeVal(tv: Gps.TimeVal): (t: NTPTime)
    requires 0 <= tv.usec < Gps.US_PER_SEC
    ensures 0 <= tv.sec < TWO_32 - SEVENTY_YEARS ==> t.seconds == tv.sec + SEVENTY_YEARS
  {
    NTPTime(Wrap32(ToNTP(tv.sec)), Fraction(tv.usec))
  }

  /** `getNTPTime`, corrected: no timestamp while the GPS is not valid. */
  function NtpTimeAt(d: Gps.Discipline, now: uint64): (r: Option<NTPTime>)
    ensures r.Some? <==> d.valid
    ensures r.Some? ==> r.value == FromTimeVal(Gps.TimeAt(d, now).value)
  {
    match Gps.TimeAt(d, now)
    case None => None
    case Some(tv) => Some(FromTimeVal(tv))
  }

  /** The seconds `getNTPTime` writes as written: the `getTime` status is
      ignored, so while not valid they come from the uninitialised `timeval`
      (`stale`) on the stack. */
  function NtpSecondsAsWritten(d: Gps.Discipline, now: uint64, stale: Gps.TimeVal): uint32 {
    var tv := match Gps.TimeAt(d, now) case Some(tv) => tv case None => stale;
    Wrap32(ToNTP(tv.sec))
  }

  /** While the GPS is not valid the written seconds depend on stack garbage;
      while it is valid they agree with the corrected timestamp. */
  lemma NtpSecondsAsWrittenUsesStaleTime(d: Gps.Discipline, now: uint64, stale: Gps.TimeVal)
    ensures !d.valid ==> NtpSecondsAsWritten(d, now, stale) == Wrap32(ToNTP(stale.sec))
    ensures !d.valid ==> NtpSecondsAsWritten(d, now, Gps.TimeVal(0, 0))
                         != NtpSecondsAsWritten(d, now, Gps.TimeVal(1, 0))
    ensures d.valid ==> NtpSecondsAsWritten(d, now, stale) == NtpTimeAt(d, now).value.seconds
  {
  }

  // ---------------------------------------------------------------------------
  // The wire packet

  /** `NTPPacket` with its 32-bit fields in host order (after `ntohl`). */
  datatype Packet = Packet(
    flags: uint8, stratum: uint8, poll: uint8, precision: uint8,
    delay: uint32, dispersion: uint32, refId: seq<uint8>,
    refTime: NTPTime, origTime: NTPTime, recvTime: NTPTime, xmitTime: NTPTime)

  predicate WellFormed(p: Packet) {
    |p.refId| == 4
  }

  function TimeBytes(t: NTPTime): (b: seq<uint8>)
    ensures |b| == 8
  {
    BigEndian32(t.seconds) + BigEndian32(t.fraction)
  }

  function TimeFromBytes(b: seq<uint8>): NTPTime
    requires |b| == 8
  {
    NTPTime(FromBigEndian32(b[..4]), FromBigEndian32(b[4..]))
  }

  lemma TimeBytesRoundTrip(t: NTPTime)
    ensures TimeFromBytes(TimeBytes(t)) == t
  {
    var b := TimeBytes(t);
    assert b[..4] == BigEndian32(t.seconds) && b[4..] == BigEndian32(t.fraction);
    BigEndian32RoundTrip(t.seconds);
    BigEndian32RoundTrip(t.fraction);
  }

  lemma TimeFromBytesRoundTrip(b: seq<uint8>)
    requires |b| == 8
    ensures TimeBytes(TimeFromBytes(b)) == b
  {
    FromBigEndian32RoundTrip(b[..4]);
    FromBigEndian32RoundTrip(b[4..]);
    assert b == b[..4] + b[4..];
  }

  /** The four single-byte fields. */
  function HeaderBytes(p: Packet): (b: seq<uint8>)
    ensures |b| == 4
  {
    [p.flags, p.stratum, p.poll, p.precision]
  }

  /** Root delay and root dispersion in network order, then the reference id. */
  function WordBytes(p: Packet): (b: seq<uint8>)
    requires WellFormed(p)
    ensures |b| == 12
  {
    BigEndian32(p.delay) + BigEndian32(p.dispersion) + p.refId
  }

  /** The reference, originate, receive and transmit timestamps in network order. */
  function TimesBytes(p: Packet): (b: seq<uint8>)
    ensures |b| == 32
  {
    (TimeBytes(p.refTime) + TimeBytes(p.origTime)) + (TimeBytes(p.recvTime) + TimeBytes(p.xmitTime))
  }

  /** The packet as it goes on the wire (`htonl` on every 32-bit field). */
  function Encode(p: Packet): (b: seq<uint8>)
    requires WellFormed(p)
    ensures |b| == PACKET_SIZE
  {
    HeaderBytes(p) + WordBytes(p) + TimesBytes(p)
  }

  /** The packet read from its header bytes, its 12 bytes of words and
      reference id, and its 32 bytes of timestamps. */
  function FromParts(h: seq<uint8>, w: seq<uint8>, t: seq<uint8>): (p: Packet)
    requires |h| == 4 && |w| == 12 && |t| == 32
    ensures WellFormed(p)
  {
    Packet(h[0], h[1], h[2], h[3],
           FromBigEndian32(w[..4]), FromBigEndian32(w[4..8]), w[8..],
           TimeFromBytes(t[..8]), TimeFromBytes(t[8..16]),
           TimeFromBytes(t[16..24]), TimeFromBytes(t[24..]))
  }

  /** `memcpy` of a 48-byte payload followed by `ntohl` on every 32-bit field. */
  function Decode(b: seq<uint8>): (p: Packet)
    requires |b| == PACKET_SIZE
    ensures WellFormed(p)
  {
    FromParts(b[..4], b[4..16], b[16..])
  }

  lemma WordsRoundTrip(p: Packet)
    requires WellFormed(p)
    ensures var w := WordBytes(p);
            FromBigEndian32(w[..4]) == p.delay && FromBigEndian32(w[4..8]) == p.dispersion
            && w[8..] == p.refId
  {
    var w := WordBytes(p);
    assert w[..4] == BigEndian32(p.delay);
    assert w[4..8] == BigEndian32(p.dispersion);
    BigEndian32RoundTrip(p.delay);
    BigEndian32RoundTrip(p.dispersion);
  }

  lemma TimesRoundTrip(p: Packet)
    ensures var t := TimesBytes(p);
            && TimeFromBytes(t[..8]) == p.refTime && TimeFromBytes(t[8..16]) == p.origTime
            && TimeFromBytes(t[16..24]) == p.recvTime && TimeFromBytes(t[24..]) == p.xmitTime
  {
    var t := TimesBytes(p);
    assert t[..8] == TimeBytes(p.refTime);
    assert t[8..16] == TimeBytes(p.origTime);
    assert t[16..24] == TimeBytes(p.recvTime);
    assert t[24..] == TimeBytes(p.xmitTime);
    TimeBytesRoundTrip(p.refTime);
    TimeBytesRoundTrip(p.origTime);
    TimeBytesRoundTrip(p.recvTime);
    TimeBytesRoundTrip(p.xmitTime);
  }

  lemma WordsFromBytesRoundTrip(w: seq<uint8>)
    requires |w| == 12
    ensures BigEndian32(FromBigEndian32(w[..4])) + BigEndian32(FromBigEndian32(w[4..8])) + w[8..] == w
  {
    FromBigEndian32RoundTrip(w[..4]);
    FromBigEndian32RoundTrip(w[4..8]);
    assert w == w[..4] + w[4..8] + w[8..];
  }

  lemma TimesFromBytesRoundTrip(t: seq<uint8>)
    requires |t| == 32
    ensures (TimeBytes(TimeFromBytes(t[..8])) + TimeBytes(TimeFromBytes(t[8..16])))
            + (TimeBytes(TimeFromBytes(t[16..24])) + TimeBytes(TimeFromBytes(t[24..]))) == t
  {
    TimeFromBytesRoundTrip(t[..8]);
    TimeFromBytesRoundTrip(t[8..16]);
    TimeFromBytesRoundTrip(t[16..24]);
    TimeFromBytesRoundTrip(t[24..]);
    assert t == (t[..8] + t[8..16]) + (t[16..24] + t[24..]);
  }

  lemma DecodeEncode(p: Packet)
    requires WellFormed(p)
    ensures Decode(Encode(p)) == p
  {
    var h, w, t := HeaderBytes(p), WordBytes(p), TimesBytes(p);
    var b := Encode(p);
    assert b[..4] == h && b[4..16] == w && b[16..] == t;
    WordsRoundTrip(p);
    TimesRoundTrip(p);
  }

  lemma EncodeDecode(b: seq<uint8>)
    requires |b| == PACKET_SIZE
    ensures Encode(Decode(b)) == b
  {
    var h, w, t := b[..4], b[4..16], b[16..];
    var p := Decode(b);
    assert HeaderBytes(p) == h;
    WordsFromBytesRoundTrip(w);
    TimesFromBytesRoundTrip(t);
    assert WordBytes(p) == w && TimesBytes(p) == t;
    assert b == h + w + t;
  }

  // ---------------------------------------------------------------------------
  // The request-to-response transform

  /** The response built from a decoded request: fixed header fields, the
      request's transmit time echoed as the originate time (section 8 of
      RFC 5905), and the three times sampled from the GPS. The poll field is
      left as the client sent it. */
  function Respond(request: Packet, precision: uint8, recv: NTPTime, ref: NTPTime, xmit: NTPTime): (p: Packet)
    requires WellFormed(request)
    ensures WellFormed(p)
  {
    request.(flags := Flags(LI_NONE, NTP_VERSION, MODE_SERVER) as uint8, stratum := 1, precision := precision,
             delay := 1, dispersion := 1, refId := REF_ID,
             origTime := request.xmitTime, recvTime := recv, refTime := ref, xmitTime := xmit)
  }

  /** The response on the wire, byte by byte: header 0x24 (LI 0, version 4,
      server), stratum 1, the client's poll, the server's precision, delay and
      dispersion 1, reference id "GPS ", and the originate timestamp equal,
      byte for byte, to the request's transmit timestamp. */
  lemma ResponseLayout(request: seq<uint8>, precision: uint8, recv: NTPTime, ref: NTPTime, xmit: NTPTime)
    requires |request| == PACKET_SIZE
    ensures var out := Encode(Respond(Decode(request), precision, recv, ref, xmit));
            && out[0] == 0x24 && out[1] == 1 && out[2] == request[2] && out[3] == precision
            && out[4..8] == [0, 0, 0, 1] && out[8..12] == [0, 0, 0, 1]
            && out[12..16] == REF_ID
            && out[16..24] == TimeBytes(ref)
            && out[24..32] == request[40..48]
            && out[32..40] == TimeBytes(recv)
            && out[40..48] == TimeBytes(xmit)
  {
    var req := Decode(request);
    var p := Respond(req, precision, recv, ref, xmit);
    var out := Encode(p);
    ServerFlags();
    var h, w, t := HeaderBytes(p), WordBytes(p), TimesBytes(p);
    assert out[..4] == h && out[4..16] == w && out[16..] == t;
    assert w == BigEndian32(1) + BigEndian32(1) + REF_ID;
    assert out[4..8] == w[..4] && out[8..12] == w[4..8] && out[12..16] == w[8..];
    assert out[16..24] == t[..8] && out[24..32] == t[8..16];
    assert out[32..40] == t[16..24] && out[40..48] == t[24..];
    assert request[16..][24..] == request[40..48];
    TimeFromBytesRoundTrip(request[40..48]);
  }

  // ---------------------------------------------------------------------------
  // The server object

  class NTP {
    const gps: Gps.GPS
    var reqCount: uint32
    var rspCount: uint32
    var precision: uint8
    /** Requests and responses since construction, without the 32-bit wrap. */
    ghost var requests: nat
    ghost var responses: nat

    /** The counters are the totals modulo 2^32, and no request is answered twice. */
    ghost predicate Valid()
      reads this
    {
      && reqCount == requests % TWO_32
      && rspCount == responses % TWO_32
      && responses <= requests
    }

    constructor (gps: Gps.GPS)
      ensures Valid() && this.gps == gps
      ensures requests == 0 && responses == 0 && precision == 0
    {
      this.gps := gps;
      reqCount := 0;
      rspCount := 0;
      precision := 0;
      requests := 0;
      responses := 0;
    }

    /** The request counter: the number of callbacks, modulo 2^32. */
    function GetReqCount(): (r: uint32)
      reads this
      requires Valid()
      ensures r == requests % TWO_32
    {
      reqCount
    }

    /** The response counter: the number of responses sent, modulo 2^32. */
    function GetRspCount(): (r: uint32)
      reads this
      requires Valid()
      ensures r == responses % TWO_32
    {
      rspCount
    }

    /** `begin`, less the UDP binding: stores the measured clock precision
        (a signed `int8_t` exponent) in the unsigned 8-bit field. */
    method Begin(measured: int)
      requires -0x80 <= measured < 0x80
      modifies this`precision
      ensures precision == measured % TWO_8
      ensures (if precision < 0x80 then precision else precision - TWO_8) == measured
    {
      precision := measured % TWO_8;
    }

    /** `getNTPTime`, corrected to report the `getTime` status. */
    method GetNTPTime(now: uint64) returns (t: Option<NTPTime>)
      ensures t == NtpTimeAt(gps.State(), now)
    {
      var ok, tv := gps.GetTime(now, Gps.TimeVal(0, 0));
      if !ok {
        return None;
      }
      t := Some(NTPTime(Wrap32(ToNTP(tv.sec)), Fraction(tv.usec)));
    }

    /** `++that->_req_count` */
    method CountRequest()
      requires Valid()
      modifies this`reqCount, this`requests
      ensures Valid()
      ensures requests == old(requests) + 1 && reqCount == Wrap32(old(reqCount) + 1)
    {
      Wrap32Increment(requests);
      reqCount := Wrap32(reqCount + 1);
      requests := requests + 1;
    }

    /** `++that->_rsp_count`, only ever after a request was counted and not yet answered. */
    method CountResponse()
      requires Valid() && responses < requests
      modifies this`rspCount, this`responses
      ensures Valid()
      ensures responses == old(responses) + 1 && rspCount == Wrap32(old(rspCount) + 1)
    {
      Wrap32Increment(responses);
      rspCount := Wrap32(rspCount + 1);
      responses := responses + 1;
    }

    /** The "Build the response" block of `ntp_udp_recv_cb`, applied to the
        decoded request while the GPS is valid. */
    method BuildResponse(request: Packet, recvTime: NTPTime, nowRef: uint64, nowXmit: uint64)
      returns (ntp: Packet)
      requires WellFormed(request) && gps.valid
      ensures ntp == Respond(request, precision, recvTime,
                             NtpTimeAt(gps.State(), nowRef).value, NtpTimeAt(gps.State(), nowXmit).value)
    {
      ntp := request;
      ntp := ntp.(flags := Flags(LI_NONE, NTP_VERSION, MODE_SERVER) as uint8);
      ntp := ntp.(stratum := 1);
      ntp := ntp.(precision := precision);
      ntp := ntp.(delay := 1);
      ntp := ntp.(dispersion := 1);
      ntp := ntp.(refId := REF_ID);
      ntp := ntp.(origTime := ntp.xmitTime);
      ntp := ntp.(recvTime := recvTime);
      var refTime := GetNTPTime(nowRef);
      ntp := ntp.(refTime := refTime.value);
      var xmitTime := GetNTPTime(nowXmit);
      ntp := ntp.(xmitTime := xmitTime.value);
    }

    /** The checks and the response construction of `ntp_udp_recv_cb`, given
        the receive time sampled on arrival: no reply to a datagram that is not
        48 bytes long, none while the GPS is not valid, and none when the
        transmit buffer cannot be allocated. */
    method Answer(payload: seq<uint8>, recvTime: Option<NTPTime>, nowRef: uint64, nowXmit: uint64, sendBufferOk: bool)
      returns (reply: Option<seq<uint8>>)
      requires gps.valid ==> recvTime.Some?
      ensures reply.Some? <==> |payload| == PACKET_SIZE && gps.valid && sendBufferOk
      ensures reply.Some? ==>
                && |payload| == PACKET_SIZE
                && reply.value == Encode(Respond(Decode(payload), precision, recvTime.value,
                                                 NtpTimeAt(gps.State(), nowRef).value,
                                                 NtpTimeAt(gps.State(), nowXmit).value))
    {
      if |payload| != PACKET_SIZE {
        return None;
      }
      if !gps.IsValid() {
        return None;
      }

      var ntp := BuildResponse(Decode(payload), recvTime.value, nowRef, nowXmit);

      if !sendBufferOk {
        return None;
      }
      return Some(Encode(ntp));
    }

    /** `ntp_udp_recv_cb` for a datagram with `payload`. The clock readings for
        the receive, reference and transmit times are parameters, as is whether
        the transmit buffer could be allocated. Returns the datagram sent back. */
    method Receive(payload: seq<uint8>, nowRecv: uint64, nowRef: uint64, nowXmit: uint64, sendBufferOk: bool)
      returns (reply: Option<seq<uint8>>)
      requires Valid()
      modifies this`reqCount, this`rspCount, this`requests, this`responses
      ensures Valid()
      ensures requests == old(requests) + 1 && reqCount == Wrap32(old(reqCount) + 1)
      ensures reply.Some? <==> |payload| == PACKET_SIZE && gps.valid && sendBufferOk
      ensures responses == old(responses) + (if reply.Some? then 1 else 0)
      ensures rspCount == if reply.Some? then Wrap32(old(rspCount) + 1) else old(rspCount)
      ensures reply.Some? ==>
                && |payload| == PACKET_SIZE
                && reply.value == Encode(Respond(Decode(payload), precision,
                                                 NtpTimeAt(gps.State(), nowRecv).value,
                                                 NtpTimeAt(gps.State(), nowRef).value,
                                                 NtpTimeAt(gps.State(), nowXmit).value))
    {
      CountRequest();
      var recvTime := GetNTPTime(nowRecv);
      reply := Answer(payload, recvTime, nowRef, nowXmit, sendBufferOk);
      if reply.Some? {
        CountResponse();
      }
    }
  }
}
