/** The wire format: what `pkt_encode` writes and what `pkt_decode` accepts. */
module Packets {
  import opened Octets
  import opened Crc32

  const DATA: bv2 := 1
  const ACK: bv2 := 2
  const NACK: bv2 := 3

  const MAX_PAYLOAD_SIZE: nat := 512
  const MAX_WINDOW_SIZE: nat := 31
  const MAX_PKT_LEN: nat := MAX_PAYLOAD_SIZE + 16

  /** The status codes that the codec and the setters return. */
  datatype Status = PktOk | ErrType | ErrTr | ErrLength | ErrCrc | ErrWindow | ErrNoMem

  /** A packet as its users see it: the payload is empty when it was cut off. */
  datatype Pkt = Pkt(ptype: bv2, tr: bool, window: bv5, length: u16, seqnum: u8, timestamp: u32, payload: seq<Octet>)

  /** `Overflow`: the payload is longer than the array that it is copied to, and what follows is undefined. */
  datatype Decoded = Accepted(pkt: Pkt) | Rejected(status: Status) | Overflow

  /** The structure holds as much payload as its length field says. */
  predicate Consistent(p: Pkt) {
    p.length <= MAX_PAYLOAD_SIZE && |p.payload| == if p.tr then 0 else p.length
  }

  predicate WellFormed(p: Pkt) {
    Consistent(p) && (p.ptype != DATA ==> !p.tr && p.length == 0)
  }

  // ---- encoding

  function FirstOctet(ptype: bv2, tr: bool, window: bv5): Octet {
    ((ptype as bv8) << 6) | ((if tr then 1 else 0) << 5) | (window as bv8)
  }

  function TypeField(b: Octet): bv2 {
    (b >> 6) as bv2
  }

  function TrField(b: Octet): bool {
    (b >> 5) & 1 == 1
  }

  function WindowField(b: Octet): bv5 {
    (b & 31) as bv5
  }

  function HeaderLength(ptype: bv2): nat {
    if ptype == DATA then 8 else 6
  }

  function Header(p: Pkt): (h: seq<Octet>)
    ensures |h| == HeaderLength(p.ptype)
  {
    [FirstOctet(p.ptype, p.tr, p.window)]
    + (if p.ptype == DATA then NetworkU16(p.length) else [])
    + [OctetOf(p.seqnum)]
    + NativeU32(p.timestamp)
  }

  /** CRC1 covers the header with its TR bit cleared. */
  function HeaderCrc(h: seq<Octet>): bv32
    requires |h| != 0
  {
    Crc(if TrField(h[0]) then h[0 := h[0] - 32] else h)
  }

  function Trailer(p: Pkt): seq<Octet> {
    if p.tr || p.length == 0 then [] else p.payload + NetworkU32(Crc(p.payload))
  }

  function Encoding(p: Pkt): seq<Octet> {
    Header(p) + NetworkU32(HeaderCrc(Header(p))) + Trailer(p)
  }

  /** What goes over the socket when these packets are sent. */
  function Datagrams(packets: seq<Pkt>): (s: seq<seq<Octet>>)
    ensures |s| == |packets|
    ensures forall i :: 0 <= i < |s| ==> s[i] == Encoding(packets[i])
  {
    seq(|packets|, i requires 0 <= i < |packets| => Encoding(packets[i]))
  }

  // ---- decoding

  /** The length field, read before anything is known about the size; too short an input is refused in any case. */
  function AnnouncedLength(s: seq<Octet>): u16 {
    if |s| >= 3 && TypeField(s[0]) == DATA then HostU16(s[1], s[2]) else 0
  }

  function RequiredSize(s: seq<Octet>): nat
    requires |s| != 0
  {
    var length := AnnouncedLength(s);
    HeaderLength(TypeField(s[0])) + 4
    + if TrField(s[0]) then 0 else length + if length > 0 then 4 else 0
  }

  /** CRC2 follows the payload and covers it. */
  predicate TrailerChecks(body: seq<Octet>, length: nat)
    requires |body| >= length + 4
  {
    Crc(body[..length]) == HostU32(body[length..length + 4])
  }

  /** TR is refused by its setter on a packet that is not DATA, and the error is not looked at. */
  predicate DecodedTr(s: seq<Octet>)
    requires |s| != 0
  {
    TypeField(s[0]) == DATA && TrField(s[0])
  }

  /** An announced length above 512 is refused too, so the length that the structure held before stays in force. */
  function DecodedHeader(s: seq<Octet>, previous: u16): Pkt
    requires |s| != 0 && |s| >= HeaderLength(TypeField(s[0])) + 4
  {
    var n := HeaderLength(TypeField(s[0]));
    var length: u16 := if AnnouncedLength(s) <= MAX_PAYLOAD_SIZE then AnnouncedLength(s) else previous;
    Pkt(TypeField(s[0]), DecodedTr(s), WindowField(s[0]), length, s[n - 5] as int, OfNativeU32(s[n - 4..n]), [])
  }

  /** What `pkt_decode` answers on the octets s, given the length that the structure held before. */
  function Decode(s: seq<Octet>, previous: u16): (r: Decoded)
    ensures r.Rejected? ==> r.status in {ErrNoMem, ErrCrc}
  {
    if |s| == 0 || |s| < RequiredSize(s) then Rejected(ErrNoMem)
    else
      var h := DecodedHeader(s, previous);
      var n := HeaderLength(h.ptype);
      var body := s[n + 4..];
      if HeaderCrc(s[..n]) != HostU32(s[n..n + 4]) then Rejected(ErrCrc)
      else if h.tr || h.length == 0 then Accepted(h)
      else if h.length > MAX_PAYLOAD_SIZE then Overflow
      else if TrailerChecks(body, h.length) then Accepted(h.(payload := body[..h.length]))
      else Rejected(ErrCrc)
  }

  /** That takes more octets than either end reads, and a structure that held such a length before. */
  lemma OverflowNeedsLongInput(s: seq<Octet>, previous: u16)
    requires Decode(s, previous).Overflow?
    ensures |s| > MAX_PKT_LEN && previous > MAX_PAYLOAD_SIZE
  {
    hide Crc, HeaderCrc, TypeField, TrField, HostU32, HostU16, WindowField, OfNativeU32;
  }

  // ---- the first octet

  lemma FirstOctetFields(ptype: bv2, tr: bool, window: bv5)
    ensures TypeField(FirstOctet(ptype, tr, window)) == ptype
    ensures TrField(FirstOctet(ptype, tr, window)) == tr
    ensures WindowField(FirstOctet(ptype, tr, window)) == window
  {
  }

  lemma FirstOctetOfFields(b: Octet)
    ensures FirstOctet(TypeField(b), TrField(b), WindowField(b)) == b
  {
  }

  lemma FirstOctetOfHeader(p: Pkt)
    ensures TypeField(Header(p)[0]) == p.ptype
    ensures TrField(Header(p)[0]) == p.tr
    ensures WindowField(Header(p)[0]) == p.window
  {
    FirstOctetFields(p.ptype, p.tr, p.window);
  }

  // ---- round trip

  lemma HeaderParts(p: Pkt)
    ensures var h, n := Header(p), HeaderLength(p.ptype);
            && h[n - 5] == OctetOf(p.seqnum)
            && h[n - 4..] == NativeU32(p.timestamp)
            && (p.ptype == DATA ==> h[1] == NetworkU16(p.length)[0] && h[2] == NetworkU16(p.length)[1])
  {
  }

  lemma TypeAndLengthOfHeader(p: Pkt, t: seq<Octet>)
    requires Header(p) <= t
    ensures TypeField(t[0]) == p.ptype && TrField(t[0]) == p.tr
    ensures p.ptype == DATA ==> AnnouncedLength(t) == p.length
  {
    HeaderParts(p);
    FirstOctetOfHeader(p);
    var n := HeaderLength(p.ptype);
    assert t[..n] == Header(p);
    assert t[0] == t[..n][0] && t[1] == t[..n][1] && t[2] == t[..n][2];
    U16RoundTrip(p.length);
  }

  lemma EncodingParts(p: Pkt, tail: seq<Octet>)
    ensures var s, n := Encoding(p) + tail, HeaderLength(p.ptype);
            && |s| >= n + 4
            && s[..n] == Header(p)
            && s[n..n + 4] == NetworkU32(HeaderCrc(Header(p)))
            && s[n + 4..] == Trailer(p) + tail
  {
    hide Header, HeaderCrc, NetworkU32, Trailer;
    var h, c := Header(p), NetworkU32(HeaderCrc(Header(p)));
    assert Encoding(p) + tail == h + c + (Trailer(p) + tail);
    ThreeParts(h, c, Trailer(p) + tail);
  }

  lemma ThreeParts(a: seq<Octet>, b: seq<Octet>, c: seq<Octet>)
    ensures var s, n, m := a + b + c, |a|, |a + b|; s[..n] == a && s[n..m] == b && s[m..] == c
  {
  }

  lemma TrailerParts(p: Pkt, tail: seq<Octet>)
    requires WellFormed(p) && !p.tr && p.length > 0
    ensures var body := Trailer(p) + tail;
            && |body| >= p.length + 4
            && body[..p.length] == p.payload
            && body[p.length..p.length + 4] == NetworkU32(Crc(p.payload))
  {
    hide Crc, NetworkU32;
    var c := NetworkU32(Crc(p.payload));
    assert Trailer(p) + tail == p.payload + c + tail;
    ThreeParts(p.payload, c, tail);
  }

  /** Decoding what was encoded gives the packet back, whatever follows it in the buffer. */
  lemma RoundTrip(p: Pkt, tail: seq<Octet>, previous: u16)
    requires WellFormed(p)
    ensures Decode(Encoding(p) + tail, previous) == Accepted(p)
  {
    hide Crc, HeaderCrc, Header, Encoding, TypeField, TrField, WindowField, NativeU32, OfNativeU32, NetworkU32, HostU32,
         OctetOf, NetworkU16, HostU16;
    var s, n := Encoding(p) + tail, HeaderLength(p.ptype);
    EncodingParts(p, tail);
    HeaderParts(p);
    FirstOctetOfHeader(p);
    TypeAndLengthOfHeader(p, s);
    assert s[0] == s[..n][0] && s[n - 5] == s[..n][n - 5];
    assert s[n - 4..n] == s[..n][n - 4..];
    U32RoundTrip(HeaderCrc(Header(p)));
    NativeU32RoundTrip(p.timestamp);
    if !p.tr && p.length > 0 {
      TrailerParts(p, tail);
      U32RoundTrip(Crc(p.payload));
    }
    assert |s| >= RequiredSize(s);
  }

  /** The zero type is no type of packet, but the decoder accepts it: every such packet that is encoded comes back. */
  lemma ZeroTypePasses(p: Pkt, tail: seq<Octet>, previous: u16)
    requires p.ptype == 0 && !p.tr && p.length == 0 && p.payload == []
    ensures Decode(Encoding(p) + tail, previous) == Accepted(p)
  {
    hide Encoding, Decode;
    RoundTrip(p, tail, previous);
  }

  lemma EncodingSplits(p: Pkt, s: seq<Octet>)
    requires var n := HeaderLength(p.ptype); |s| >= n + 4
    requires var n := HeaderLength(p.ptype);
             && s[..n] == Header(p) && s[n..n + 4] == NetworkU32(HeaderCrc(Header(p))) && Trailer(p) <= s[n + 4..]
    ensures Encoding(p) <= s
  {
    hide Header, HeaderCrc, NetworkU32, Trailer;
    var n := HeaderLength(p.ptype);
    assert s == s[..n] + s[n..n + 4] + s[n + 4..];
  }

  /** The announced length is taken, or happens to be the one that the structure held before. */
  predicate LengthTaken(s: seq<Octet>, previous: u16) {
    AnnouncedLength(s) <= MAX_PAYLOAD_SIZE || AnnouncedLength(s) == previous
  }

  lemma HeaderIsReadBack(p: Pkt, h: seq<Octet>)
    requires |h| == HeaderLength(p.ptype) && TypeField(h[0]) == p.ptype && TrField(h[0]) == p.tr
    requires WindowField(h[0]) == p.window && h[|h| - 5] as int == p.seqnum && OfNativeU32(h[|h| - 4..]) == p.timestamp
    requires p.ptype == DATA ==> HostU16(h[1], h[2]) == p.length
    ensures Header(p) == h
  {
    FirstOctetOfFields(h[0]);
    if p.ptype == DATA {
      NetworkU16Injective(h[1], h[2]);
    }
    OctetIsItsValue(OctetOf(p.seqnum), h[|h| - 5]);
    NativeU32OfOfNativeU32(h[|h| - 4..]);
    hide TypeField, TrField, WindowField, OfNativeU32, NativeU32, HostU16, NetworkU16, FirstOctet, OctetOf;
    assert h == [h[0]] + h[1..|h| - 5] + [h[|h| - 5]] + h[|h| - 4..];
  }

  lemma HeaderOfAccepted(s: seq<Octet>, previous: u16)
    requires Decode(s, previous).Accepted?
    requires LengthTaken(s, previous) && (TypeField(s[0]) != DATA ==> !TrField(s[0]))
    ensures var p := Decode(s, previous).pkt; Header(p) == s[..HeaderLength(p.ptype)]
  {
    hide Crc, HeaderCrc, Header, TypeField, TrField, WindowField, OfNativeU32, HostU32, HostU16, TrailerChecks;
    var p := Decode(s, previous).pkt;
    var n := HeaderLength(p.ptype);
    var h := s[..n];
    assert h[n - 4..] == s[n - 4..n];
    HeaderIsReadBack(p, h);
  }

  lemma CheckedTrailer(p: Pkt, body: seq<Octet>)
    requires !p.tr && |body| >= p.length + 4 && p.payload == body[..p.length] && TrailerChecks(body, p.length)
    ensures Trailer(p) <= body
  {
    NetworkU32OfHostU32(body[p.length..p.length + 4]);
    assert body == body[..p.length] + body[p.length..p.length + 4] + body[p.length + 4..];
  }

  lemma AcceptedIsEncoding(s: seq<Octet>, previous: u16)
    requires Decode(s, previous).Accepted?
    requires LengthTaken(s, previous) && (TypeField(s[0]) != DATA ==> !TrField(s[0]))
    ensures Encoding(Decode(s, previous).pkt) <= s
  {
    hide Crc, HeaderCrc, Header, Encoding, TypeField, TrField, WindowField, OfNativeU32, HostU32, NetworkU32, HostU16;
    var p := Decode(s, previous).pkt;
    var n := HeaderLength(p.ptype);
    HeaderOfAccepted(s, previous);
    NetworkU32OfHostU32(s[n..n + 4]);
    if !p.tr && p.length > 0 {
      CheckedTrailer(p, s[n + 4..]);
    }
    EncodingSplits(p, s);
  }

  /**
   An accepted string is the encoding of what it decodes to (followed by anything) exactly when its announced length is
   taken and it does not carry a TR bit on a packet that is not DATA.
   */
  lemma Reencoding(s: seq<Octet>, previous: u16)
    requires Decode(s, previous).Accepted?
    ensures WellFormed(Decode(s, previous).pkt)
            <==> AnnouncedLength(s) <= MAX_PAYLOAD_SIZE || previous <= MAX_PAYLOAD_SIZE
    ensures Encoding(Decode(s, previous).pkt) <= s
            <==> LengthTaken(s, previous) && (TypeField(s[0]) != DATA ==> !TrField(s[0]))
  {
    hide Crc, HeaderCrc, Header, TypeField, TrField, WindowField, OfNativeU32, HostU32, HostU16, Trailer, NetworkU32;
    var p := Decode(s, previous).pkt;
    if LengthTaken(s, previous) && (TypeField(s[0]) != DATA ==> !TrField(s[0])) {
      AcceptedIsEncoding(s, previous);
    } else if Encoding(p) <= s {
      assert Header(p) <= Encoding(p);
      TypeAndLengthOfHeader(p, s);
    }
  }

  // ---- what the link does to an encoded packet

  lemma HeaderCrcDetectsOneOctet(h: seq<Octet>, i: nat, b: Octet)
    requires 1 <= i < |h| && h[i] != b
    ensures HeaderCrc(h) != HeaderCrc(h[i := b])
  {
    hide Crc, TrField;
    DetectsOneOctet(h, i, b);
    var c := h[0 := h[0] - 32];
    DetectsOneOctet(c, i, b);
    assert h[i := b][0 := h[0] - 32] == c[i := b];
  }

  /** Replacing any one octet but the first by another makes the decoder refuse the packet. */
  lemma DamageDetected(p: Pkt, i: nat, b: Octet, tail: seq<Octet>, previous: u16)
    requires WellFormed(p)
    requires 1 <= i < |Encoding(p)| && Encoding(p)[i] != b
    ensures Decode(Encoding(p)[i := b] + tail, previous).Rejected?
  {
    hide Crc, HeaderCrc, Header, Encoding, Trailer, TypeField, TrField, WindowField, OfNativeU32, HostU32, NetworkU32,
         HostU16, TrailerChecks;
    var s, n := Encoding(p) + tail, HeaderLength(p.ptype);
    var t := Encoding(p)[i := b] + tail;
    assert t == s[i := b];
    EncodingParts(p, tail);
    FirstOctetOfHeader(p);
    assert s[0] == s[..n][0];
    if i < n {
      HeaderCrcDetectsOneOctet(s[..n], i, b);
      assert t[..n] == s[..n][i := b] && t[n..n + 4] == s[n..n + 4];
      U32RoundTrip(HeaderCrc(Header(p)));
    } else if i < n + 4 {
      assert t[..n] == s[..n] && t[n..n + 4] == s[n..n + 4][i - n := b];
      U32RoundTrip(HeaderCrc(Header(p)));
      DamagedCrcDiffers(s[n..n + 4], i - n, b);
    } else {
      DamagedTrailerRefused(p, i, b, tail, previous);
    }
  }

  lemma DamagedCrcDiffers(s: seq<Octet>, i: nat, b: Octet)
    requires |s| == 4 && i < 4 && s[i] != b
    ensures HostU32(s) != HostU32(s[i := b])
  {
    var t := s[i := b];
    assert t[i] != s[i];
    if HostU32(s) == HostU32(t) {
      HostU32Injective(s, t);
    }
  }

  lemma DamagedTrailerFails(p: Pkt, k: nat, b: Octet, tail: seq<Octet>)
    requires WellFormed(p) && !p.tr && p.length > 0
    requires k < |Trailer(p)| && Trailer(p)[k] != b
    ensures !TrailerChecks(Trailer(p)[k := b] + tail, p.length)
  {
    hide Crc, HostU32, NetworkU32;
    TrailerParts(p, tail);
    U32RoundTrip(Crc(p.payload));
    var body := Trailer(p) + tail;
    var damaged := Trailer(p)[k := b] + tail;
    assert damaged == body[k := b];
    if k < p.length {
      DetectsOneOctet(p.payload, k, b);
      assert damaged[..p.length] == p.payload[k := b];
      assert damaged[p.length..p.length + 4] == body[p.length..p.length + 4];
    } else {
      DamagedCrcDiffers(body[p.length..p.length + 4], k - p.length, b);
      assert damaged[..p.length] == p.payload;
      assert damaged[p.length..p.length + 4] == body[p.length..p.length + 4][k - p.length := b];
    }
  }

  lemma FailedTrailerRefused(p: Pkt, t: seq<Octet>, previous: u16)
    requires WellFormed(p) && !p.tr && p.length > 0
    requires Header(p) <= t
    requires var body := t[HeaderLength(p.ptype)..]; |body| >= p.length + 8 && !TrailerChecks(body[4..], p.length)
    ensures Decode(t, previous).Rejected?
  {
    hide Crc, HeaderCrc, Header, TypeField, TrField, WindowField, OfNativeU32, HostU32, HostU16, TrailerChecks;
    TypeAndLengthOfHeader(p, t);
    var n := HeaderLength(p.ptype);
    assert t[n..][4..] == t[n + 4..];
  }

  lemma DamagedTrailerRefused(p: Pkt, i: nat, b: Octet, tail: seq<Octet>, previous: u16)
    requires WellFormed(p)
    requires HeaderLength(p.ptype) + 4 <= i < |Encoding(p)| && Encoding(p)[i] != b
    ensures Decode(Encoding(p)[i := b] + tail, previous).Rejected?
  {
    hide HeaderCrc, Header, NetworkU32, TrailerChecks, Decode, Crc;
    var n := HeaderLength(p.ptype);
    var k := i - n - 4;
    var t := Encoding(p)[i := b] + tail;
    assert t == Header(p) + NetworkU32(HeaderCrc(Header(p))) + Trailer(p)[k := b] + tail;
    assert t[n..][4..] == Trailer(p)[k := b] + tail;
    DamagedTrailerFails(p, k, b, tail);
    FailedTrailerRefused(p, t, previous);
  }

  /** The link's cut after a DATA header: the first 12 octets, with the TR bit set. */
  function Cut(s: seq<Octet>): seq<Octet>
    requires |s| > 12
  {
    s[..12][0 := s[0] | 0x20]
  }

  lemma SetTrField(window: bv5)
    ensures FirstOctet(DATA, false, window) | 0x20 == FirstOctet(DATA, true, window)
    ensures FirstOctet(DATA, true, window) - 32 == FirstOctet(DATA, false, window)
  {
  }

  lemma CutHeader(p: Pkt)
    requires p.ptype == DATA && !p.tr
    ensures var q := p.(tr := true, payload := []);
            && Header(q) == Header(p)[0 := Header(p)[0] | 0x20]
            && HeaderCrc(Header(q)) == HeaderCrc(Header(p))
  {
    var q := p.(tr := true, payload := []);
    var w := p.window;
    FirstOctetFields(DATA, false, w);
    FirstOctetFields(DATA, true, w);
    SetTrField(w);
    assert Header(q)[1..] == Header(p)[1..];
    assert Header(q)[0 := Header(q)[0] - 32] == Header(p);
  }

  lemma CutOfParts(h: seq<Octet>, c: seq<Octet>, trailer: seq<Octet>)
    requires |h| == 8 && |c| == 4 && |trailer| > 0
    ensures Cut(h + c + trailer) == h[0 := h[0] | 0x20] + c
  {
  }

  lemma TrailerIsThere(p: Pkt)
    ensures !p.tr && p.length > 0 ==> |Trailer(p)| >= 4
    ensures p.tr ==> Trailer(p) == []
  {
  }

  /** A cut DATA packet still decodes, to the same header with TR set: CRC1 does not cover that bit. */
  lemma CutIsRecognised(p: Pkt, previous: u16)
    requires WellFormed(p) && p.ptype == DATA && !p.tr && p.length > 0
    ensures |Encoding(p)| > 12
    ensures Decode(Cut(Encoding(p)), previous) == Accepted(p.(tr := true, payload := []))
  {
    hide HeaderCrc, Header, NetworkU32, Trailer, Cut, Decode;
    var q := p.(tr := true, payload := []);
    CutHeader(p);
    TrailerIsThere(p);
    TrailerIsThere(q);
    CutOfParts(Header(p), NetworkU32(HeaderCrc(Header(p))), Trailer(p));
    assert Cut(Encoding(p)) == Encoding(q) + [];
    RoundTrip(q, [], previous);
  }

  /** The link's corruption: one octet inverted. */
  function Invert(s: seq<Octet>, i: nat): seq<Octet>
    requires i < |s|
  {
    s[i := !s[i]]
  }

  lemma InvertedFirstOctet(b: Octet)
    ensures TypeField(!b) == !TypeField(b) && TrField(!b) == !TrField(b)
    ensures TypeField(!b) != TypeField(b) && !b != b
    ensures TypeField(b) == NACK && TrField(!b) ==> !b - 32 != b
  {
  }

  lemma InvertedNackRefused(p: Pkt, t: seq<Octet>, previous: u16)
    requires p.ptype == NACK && !p.tr
    requires |t| >= 10 && t[..6] == Invert(Header(p), 0) && HostU32(t[6..10]) == HeaderCrc(Header(p))
    ensures Decode(t, previous).Rejected?
  {
    hide Crc, Header, TypeField, TrField, WindowField, OfNativeU32, HostU32;
    var h := Header(p);
    FirstOctetOfHeader(p);
    InvertedFirstOctet(h[0]);
    assert t[0] == t[..6][0];
    assert t[..6][0 := t[0] - 32] == h[0 := t[0] - 32];
    DetectsOneOctet(h, 0, t[0] - 32);
  }

  lemma TypeOfAccepted(t: seq<Octet>, previous: u16)
    requires Decode(t, previous).Accepted?
    ensures |t| != 0 && Decode(t, previous).pkt.ptype == TypeField(t[0])
  {
  }

  lemma InvertedEncoding(p: Pkt, tail: seq<Octet>)
    ensures |Encoding(p)| >= 10
    ensures var t, n := Invert(Encoding(p), 0) + tail, HeaderLength(p.ptype);
            && t[0] == !Header(p)[0] && |t| >= n + 4
            && t[..n] == Invert(Header(p), 0) && t[n..n + 4] == NetworkU32(HeaderCrc(Header(p)))
  {
    hide Header, HeaderCrc, NetworkU32, Trailer;
    InvertedParts(Header(p), NetworkU32(HeaderCrc(Header(p))), Trailer(p), tail);
  }

  lemma InvertedParts(h: seq<Octet>, c: seq<Octet>, trailer: seq<Octet>, tail: seq<Octet>)
    requires |h| > 0
    ensures var t, n := Invert(h + c + trailer, 0) + tail, |h|;
            && t[0] == !h[0] && |t| >= n + |c|
            && t[..n] == Invert(h, 0) && t[n..n + |c|] == c
  {
    var t := Invert(h + c + trailer, 0) + tail;
    assert t == Invert(h, 0) + c + (trailer + tail);
    hide Invert;
    ThreeParts(Invert(h, 0), c, trailer + tail);
  }

  /** Inverting the first octet can pass, but never under the packet's own type; on a NACK it cannot pass at all. */
  lemma InvertedTypeNeverReturns(p: Pkt, tail: seq<Octet>, previous: u16)
    requires WellFormed(p)
    ensures var r := Decode(Invert(Encoding(p), 0) + tail, previous);
            && (r.Accepted? ==> r.pkt.ptype == !p.ptype)
            && (p.ptype == NACK ==> r.Rejected?)
  {
    hide Decode, Header, HeaderCrc, NetworkU32, HostU32, Encoding, Invert, TypeField, TrField, WindowField;
    InvertedEncoding(p, tail);
    var t := Invert(Encoding(p), 0) + tail;
    FirstOctetOfHeader(p);
    InvertedFirstOctet(Header(p)[0]);
    if Decode(t, previous).Accepted? {
      TypeOfAccepted(t, previous);
    }
    if p.ptype == NACK {
      U32RoundTrip(HeaderCrc(Header(p)));
      InvertedNackRefused(p, t, previous);
    }
  }

  lemma AckFormAccepted(t: seq<Octet>, previous: u16)
    requires |t| >= 10 && TypeField(t[0]) == ACK && TrField(t[0])
    ensures Decode(t, previous).Accepted? <==> Crc(t[..6][0 := t[0] - 32]) == HostU32(t[6..10])
  {
    hide Crc, TypeField, TrField, WindowField, HostU32, OfNativeU32;
  }

  /**
   Exactly when an inverted first octet passes on a DATA packet: the packet then reads as an ACK, so CRC1 is looked
   for two octets early.
   */
  lemma InvertedDataPasses(p: Pkt, previous: u16)
    requires WellFormed(p) && p.ptype == DATA && !p.tr
    ensures var t := Invert(Encoding(p), 0);
            && |t| >= 10
            && (Decode(t, previous).Accepted? <==> Crc(t[..6][0 := t[0] - 32]) == HostU32(t[6..10]))
  {
    hide Decode, Header, HeaderCrc, NetworkU32, Trailer, TypeField, TrField, WindowField, Crc, HostU32;
    var t := Invert(Encoding(p), 0);
    InvertedEncoding(p, []);
    assert t + [] == t;
    FirstOctetOfHeader(p);
    InvertedFirstOctet(Header(p)[0]);
    assert !DATA == ACK;
    AckFormAccepted(t, previous);
  }

  lemma DataFormAccepted(t: seq<Octet>, previous: u16)
    requires |t| >= 10 && TypeField(t[0]) == DATA && TrField(t[0])
    ensures Decode(t, previous).Accepted?
            <==> |t| >= 12 && Crc(t[..8][0 := t[0] - 32]) == HostU32(t[8..12])
  {
    hide Crc, TypeField, TrField, WindowField, HostU32, HostU16, OfNativeU32;
  }

  /**
   Exactly when an inverted first octet passes on an ACK: the packet then reads as cut DATA, so CRC1 is looked for two
   octets late, in what the buffer held.
   */
  lemma InvertedAckPasses(p: Pkt, rest: seq<Octet>, previous: u16)
    requires WellFormed(p) && p.ptype == ACK
    ensures var t := Invert(Encoding(p), 0) + rest;
            && |t| == 10 + |rest|
            && (Decode(t, previous).Accepted? <==> |rest| >= 2 && Crc(t[..8][0 := t[0] - 32]) == HostU32(t[8..12]))
  {
    hide Decode, Header, HeaderCrc, NetworkU32, TypeField, TrField, WindowField, Crc, HostU32;
    var t := Invert(Encoding(p), 0) + rest;
    InvertedEncoding(p, rest);
    FirstOctetOfHeader(p);
    InvertedFirstOctet(Header(p)[0]);
    assert !ACK == DATA;
    DataFormAccepted(t, previous);
  }

  lemma HeaderOfThatPacket(p: Pkt)
    requires p == Pkt(DATA, false, 31, 0, 0, 0x5697DE5B, [])
    ensures Header(p) == [0x5F, 0, 0, 0, 0x5B, 0xDE, 0x97, 0x56]
  {
    OctetIsItsValue(OctetOf(p.seqnum), 0);
    var t: seq<Octet> := [0x5B, 0xDE, 0x97, 0x56];
    assert OfNativeU32(t) == p.timestamp;
    NativeU32OfOfNativeU32(t);
    hide NativeU32, OfNativeU32;
  }

  lemma EncodingOfThatPacket(p: Pkt, h: seq<Octet>)
    requires p.length == 0 && Header(p) == h && |h| != 0 && !TrField(h[0]) && Crc(h) == 0xCE374686
    ensures Encoding(p) == h + [0xCE, 0x37, 0x46, 0x86]
  {
    assert NetworkU32(0xCE374686) == [0xCE, 0x37, 0x46, 0x86];
  }

  lemma InvertedStart(e: seq<Octet>)
    requires e == [0x5F, 0, 0, 0, 0x5B, 0xDE, 0x97, 0x56] + [0xCE, 0x37, 0x46, 0x86]
    ensures var t := Invert(e, 0);
            && t[..6][0 := t[0] - 32] == [0x80, 0, 0, 0, 0x5B, 0xDE]
            && HostU32(t[6..10]) == 0x9756CE37
  {
  }

  /** Such a packet exists, so not every inverted octet is detected. */
  lemma InvertedFirstOctetCanPass(p: Pkt)
    requires p == Pkt(DATA, false, 31, 0, 0, 0x5697DE5B, [])
    ensures WellFormed(p) && |Encoding(p)| == 12 && Decode(Invert(Encoding(p), 0), 0).Accepted?
  {
    HeaderOfThatPacket(p);
    var h := Header(p);
    CrcOfThatHeader(h);
    EncodingOfThatPacket(p, h);
    var e := Encoding(p);
    InvertedStart(e);
    var t := Invert(e, 0);
    CrcOfItsInvertedStart(t[..6][0 := t[0] - 32]);
    InvertedDataPasses(p, 0);
  }

  lemma CrcOfThatHeader(h: seq<Octet>)
    requires h == [0x5F, 0, 0, 0, 0x5B, 0xDE, 0x97, 0x56]
    ensures Crc(h) == 0xCE374686
  {
    RunOne(0xFFFFFFFF, h);
    RunOne(0xD6295C17, h[1..]);
    RunOne(0x8305AC9B, h[2..]);
    RunOne(0x675E4F60, h[3..]);
    RunOne(0x4DD53F17, h[4..]);
    RunOne(0x7F27D884, h[5..]);
    RunOne(0x8BC19F32, h[6..]);
    RunOne(0xA63796F8, h[7..]);
  }

  lemma CrcOfItsInvertedStart(h: seq<Octet>)
    requires h == [0x80, 0, 0, 0, 0x5B, 0xDE]
    ensures Crc(h) == 0x9756CE37
  {
    RunOne(0xFFFFFFFF, h);
    RunOne(0xC0459352, h[1..]);
    RunOne(0x85A5754B, h[2..]);
    RunOne(0xE18B3D6D, h[3..]);
    RunOne(0x33E296D8, h[4..]);
    RunOne(0x7482300C, h[5..]);
  }
}
