/** `struct pkt` with its setters, and the codec that reads and fills it in place. */
module PacketStruct {
  import opened Octets
  import opened Crc32
  import opened Packets
  import opened Layout

  /** What happens to be in freshly allocated memory. */
  datatype Memory = Memory(fields: Pkt, crc1: bv32, payload: seq<Octet>, crc2: bv32) {
    predicate Valid() {
      |payload| == MAX_PAYLOAD_SIZE
    }
  }

  /** The fixed payload array of 512 octets is part of the structure itself, so it is a field of that length here. */
  class Packet {
    var ptype: bv2
    var tr: bool
    var window: bv5
    var length: u16
    var seqnum: u8
    var timestamp: u32
    var crc1: bv32
    var payload: seq<Octet>
    var crc2: bv32

    ghost predicate Valid()
      reads this
    {
      |payload| == MAX_PAYLOAD_SIZE
    }

    /** The length is one that fits the payload array, or there is no payload. */
    ghost predicate Readable()
      reads this
    {
      Valid() && (tr || length <= MAX_PAYLOAD_SIZE)
    }

    function Value(): (p: Pkt)
      requires Readable()
      reads this
      ensures length <= MAX_PAYLOAD_SIZE ==> Consistent(p)
    {
      Pkt(ptype, tr, window, length, seqnum, timestamp, if tr then [] else payload[..length])
    }

    /** `pkt_new`: the memory is not initialised, so nothing but the field widths is known. */
    constructor (memory: Memory)
      requires memory.Valid()
      ensures Valid() && length == memory.fields.length
    {
      ptype, tr, window, length := memory.fields.ptype, memory.fields.tr, memory.fields.window, memory.fields.length;
      seqnum, timestamp, payload := memory.fields.seqnum, memory.fields.timestamp, memory.payload;
      crc1, crc2 := memory.crc1, memory.crc2;
    }

    method SetType(t: bv2) returns (status: Status)
      modifies this`ptype
      ensures t == 0 ==> status == ErrType && ptype == old(ptype)
      ensures t != 0 ==> status == PktOk && ptype == t
    {
      if t == 0 { return ErrType; }
      ptype := t;
      return PktOk;
    }

    method SetTr(newTr: bool) returns (status: Status)
      modifies this`tr
      ensures ptype != DATA && newTr ==> status == ErrTr && tr == old(tr)
      ensures ptype == DATA || !newTr ==> status == PktOk && tr == newTr
    {
      if ptype != DATA && newTr { return ErrTr; }
      tr := newTr;
      return PktOk;
    }

    method SetWindow(w: u8) returns (status: Status)
      modifies this`window
      ensures w > 31 ==> status == ErrWindow && window == old(window)
      ensures w <= 31 ==> status == PktOk && window as int == w
    {
      if w > 31 { return ErrWindow; }
      window := FiveBitsOf(w);
      return PktOk;
    }

    method SetLength(n: u16) returns (status: Status)
      modifies this`length
      ensures n > MAX_PAYLOAD_SIZE ==> status == ErrLength && length == old(length)
      ensures n <= MAX_PAYLOAD_SIZE ==> status == PktOk && length == n
    {
      if n > MAX_PAYLOAD_SIZE { return ErrLength; }
      length := n;
      return PktOk;
    }

    method SetPayload(data: seq<Octet>) returns (status: Status)
      requires Valid() && |data| < 0x1_0000
      modifies this`length, this`payload
      ensures Valid()
      ensures |data| > MAX_PAYLOAD_SIZE ==> status == ErrLength && length == old(length) && payload == old(payload)
      ensures |data| <= MAX_PAYLOAD_SIZE ==> status == PktOk && length == |data| && payload[..|data|] == data
    {
      if |data| > MAX_PAYLOAD_SIZE { return ErrLength; }
      payload := data + payload[|data|..];
      var _ := SetLength(|data|);
      return PktOk;
    }

    /** The size test of `pkt_decode`; the length field is read even when the input is too short to hold it. */
    method MinimumSize(data: array<Octet>, len: nat) returns (base: nat)
      requires len <= data.Length && 3 <= data.Length
      ensures len < base <==> len == 0 || len < RequiredSize(data[..len])
    {
      var announced: u16 := 0;
      var bits := TypeField(data[0]);
      if bits == DATA { announced := HostU16(data[1], data[2]); }
      base := HeaderLength(bits) + 4;
      if !TrField(data[0]) {
        base := base + announced;
        if announced > 0 { base := base + 4; }
      }
    }

    ghost predicate HeaderIs(h: Pkt)
      reads this
    {
      h == Pkt(ptype, tr, window, length, seqnum, timestamp, [])
    }

    /** The part of `pkt_decode` that fills the header fields; TR stays clear until CRC1 is known to be right. */
    method DecodeHeader(s: seq<Octet>)
      requires Valid() && |s| != 0 && |s| >= HeaderLength(TypeField(s[0])) + 4
      modifies this`ptype, this`tr, this`window, this`length, this`seqnum, this`timestamp, this`crc1
      ensures Valid() && ptype == TypeField(s[0]) && !tr
      ensures crc1 == HostU32(s[HeaderLength(ptype)..HeaderLength(ptype) + 4])
      ensures HeaderIs(DecodedHeader(s, old(length)).(tr := false))
    {
      hide TypeField, TrField, WindowField, HostU32, HostU16, OfNativeU32;
      ptype := TypeField(s[0]);
      window := WindowField(s[0]);
      tr := false;
      var inc := 0;
      if ptype == DATA {
        inc := 2;
        var _ := SetLength(HostU16(s[1], s[2]));
      } else {
        length := 0;
      }
      seqnum := s[1 + inc] as int;
      timestamp := OfNativeU32(s[2 + inc..6 + inc]);
      crc1 := HostU32(s[6 + inc..10 + inc]);
    }

    /** CRC1 against the header as received, its TR bit cleared. */
    method HeaderChecks(received: seq<Octet>, prevTr: bool) returns (ok: bool)
      requires |received| != 0 && prevTr == TrField(received[0])
      ensures ok <==> HeaderCrc(received) == crc1
    {
      var header := received;
      if prevTr { header := header[0 := header[0] - 32]; }
      return Crc(header) == crc1;
    }

    /** The part of `pkt_decode` that takes the payload and checks CRC2. */
    method DecodePayload(body: seq<Octet>) returns (status: Status)
      requires Valid() && 0 < length <= MAX_PAYLOAD_SIZE && length + 4 <= |body|
      modifies this`payload, this`crc2
      ensures Valid() && payload[..length] == body[..length]
      ensures status == if TrailerChecks(body, length) then PktOk else ErrCrc
    {
      payload := body[..length] + payload[length..];
      crc2 := HostU32(body[length..length + 4]);
      assert payload[..length] == body[..length];
      if Crc(payload[..length]) != crc2 { return ErrCrc; }
      return PktOk;
    }

    /** The checks of `pkt_decode` once the size is known to be sufficient. */
    method DecodeChecked(s: seq<Octet>) returns (status: Status)
      requires Valid() && |s| != 0 && |s| >= RequiredSize(s) && !Packets.Decode(s, length).Overflow?
      modifies this
      ensures Valid()
      ensures match Packets.Decode(s, old(length))
              case Accepted(p) => status == PktOk && Readable() && Value() == p
              case Rejected(e) => status == ErrCrc == e
    {
      hide Crc, HeaderCrc, TrailerChecks, HostU32, HostU16, OfNativeU32, WindowField;
      ghost var h := DecodedHeader(s, length);
      var prevTr := TrField(s[0]);
      DecodeHeader(s);
      var n := HeaderLength(ptype);
      var checks := HeaderChecks(s[..n], prevTr);
      if !checks { return ErrCrc; }
      var _ := SetTr(prevTr);
      assert HeaderIs(h);
      if tr || length == 0 {
        assert Value() == h;
        return PktOk;
      }
      status := DecodePayload(s[n + 4..]);
      assert Value() == h.(payload := s[n + 4..][..length]);
    }

    /** `pkt_decode` on the first len octets of a buffer. */
    method Decode(data: array<Octet>, len: nat) returns (status: Status)
      requires Valid() && len <= data.Length && 3 <= data.Length
      requires !Packets.Decode(data[..len], length).Overflow?
      modifies this
      ensures Valid()
      ensures match Packets.Decode(old(data[..len]), old(length))
              case Accepted(p) => status == PktOk && Readable() && Value() == p
              case Rejected(e) => status == e && (e == ErrNoMem ==> unchanged(this))
    {
      var base := MinimumSize(data, len);
      if len < base { return ErrNoMem; }
      status := DecodeChecked(data[..len]);
    }
  }

  /** The part of `pkt_encode` before CRC1: the header, with each field in its place. */
  method EncodeFields(p: Pkt, buf: array<Octet>)
    requires HeaderLength(p.ptype) <= buf.Length
    modifies buf
    ensures buf[..HeaderLength(p.ptype)] == Header(p) && IsHeader(buf[..HeaderLength(p.ptype)], p)
    ensures forall j :: HeaderLength(p.ptype) <= j < buf.Length ==> buf[j] == old(buf[j])
  {
    hide FirstOctet, NetworkU16, NativeU32, OctetOf, IsHeader;
    HeaderLayout(p);
    Copy(buf, 0, [FirstOctet(p.ptype, p.tr, p.window)]);
    var lengthField := if p.ptype == DATA then NetworkU16(p.length) else [];
    var inc := |lengthField|;
    Copy(buf, 1, lengthField);
    Copy(buf, 1 + inc, [OctetOf(p.seqnum)]);
    Copy(buf, 2 + inc, NativeU32(p.timestamp));
  }

  /** The part of `pkt_encode` up to CRC1. */
  method EncodeHeader(p: Pkt, buf: array<Octet>)
    requires HeaderLength(p.ptype) + 4 <= buf.Length
    modifies buf
    ensures buf[..HeaderLength(p.ptype) + 4] == Header(p) + NetworkU32(HeaderCrc(Header(p)))
    ensures forall j :: HeaderLength(p.ptype) + 4 <= j < buf.Length ==> buf[j] == old(buf[j])
  {
    EncodeFields(p, buf);
    var n := HeaderLength(p.ptype);
    var header := buf[..n];
    FirstOctetOfHeader(p);
    if p.tr { header := header[0 := header[0] - 32]; }
    Copy(buf, n, NetworkU32(Crc(header)));
  }

  /**
   `pkt_encode`, into a buffer with room for len octets. For a well-formed packet it writes the encoding and returns
   its size; on a packet that is not DATA but has a payload it claims two octets more than it wrote.
   */
  method Encode(p: Pkt, buf: array<Octet>, len: nat) returns (status: Status, written: nat)
    requires Consistent(p) && len <= buf.Length
    modifies buf
    ensures status == if len < |Encoding(p)| then ErrNoMem else PktOk
    ensures status == ErrNoMem ==> buf[..] == old(buf[..]) && written == len
    ensures status == PktOk ==>
              && buf[..|Encoding(p)|] == Encoding(p)
              && (forall j :: |Encoding(p)| <= j < buf.Length ==> buf[j] == old(buf[j]))
              && written == |Encoding(p)| + (if p.ptype != DATA && !p.tr && p.length > 0 then 2 else 0)
  {
    var base := HeaderLength(p.ptype) + 4;
    if !p.tr {
      base := base + p.length;
      if p.length > 0 { base := base + 4; }
    }
    if len < base { return ErrNoMem, len; }

    EncodeHeader(p, buf);
    status, written := PktOk, HeaderLength(p.ptype) + 4;
    if !p.tr && p.length > 0 {
      Copy(buf, written, p.payload + NetworkU32(Crc(p.payload)));
      written := 16 + p.length;
    } else {
      assert buf[..written] == buf[..written] + [];
    }
  }

  /** `memcpy` into a buffer. */
  method Copy(dst: array<Octet>, at: nat, src: seq<Octet>)
    requires at + |src| <= dst.Length
    modifies dst
    ensures dst[..at + |src|] == old(dst[..at]) + src
    ensures forall j :: at + |src| <= j < dst.Length ==> dst[j] == old(dst[j])
  {
    for i := 0 to |src|
      invariant dst[..at + i] == old(dst[..at]) + src[..i]
      invariant forall j :: at + i <= j < dst.Length ==> dst[j] == old(dst[j])
    {
      dst[at + i] := src[i];
    }
  }
}
