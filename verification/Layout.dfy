/** Where each field lies on the wire, octet by octet and number by number, and the repository's own test packet. */
module Layout {
  import opened Octets
  import opened Crc32
  import opened Packets

  /** Two octets in network order. */
  predicate IsNetwork16(s: seq<Octet>, n: int) {
    |s| == 2 && s[0] as int * 256 + s[1] as int == n
  }

  /** Four octets in network order. */
  predicate IsNetwork32(s: seq<Octet>, n: bv32) {
    && |s| == 4
    && (s[0] as bv32) * 0x100_0000 + (s[1] as bv32) * 0x1_0000 + (s[2] as bv32) * 0x100 + (s[3] as bv32) == n
  }

  /** Four octets, least significant first. */
  predicate IsLittleEndian32(s: seq<Octet>, n: int) {
    |s| == 4 && s[3] as int * 0x100_0000 + s[2] as int * 0x1_0000 + s[1] as int * 0x100 + s[0] as int == n
  }

  lemma NetworkU32IsNetwork32(n: bv32)
    ensures IsNetwork32(NetworkU32(n), n)
  {
  }

  lemma NativeU32IsLittleEndian32(n: u32)
    ensures IsLittleEndian32(NativeU32(n), n)
  {
  }

  lemma FourOctetsAsRead(s: seq<Octet>)
    requires |s| == 4
    ensures IsNetwork32(s, HostU32(s)) && IsLittleEndian32(s, OfNativeU32(s))
  {
    hide *;
    NetworkU32IsNetwork32(HostU32(s));
    NetworkU32OfHostU32(s);
    NativeU32IsLittleEndian32(OfNativeU32(s));
    NativeU32OfOfNativeU32(s);
  }

  lemma FourOctetsAreOneNumber(s: seq<Octet>, n: bv32)
    requires |s| == 4
    ensures IsNetwork32(s, n) <==> HostU32(s) == n
  {
    hide HostU32, OfNativeU32, IsLittleEndian32;
    FourOctetsAsRead(s);
  }

  /** The first octet: two bits of type, one of TR, five of window. */
  predicate IsFirstOctet(b: Octet, ptype: bv2, tr: bool, window: bv5) {
    b == (ptype as bv8) * 64 + (if tr then 32 else 0) + (window as bv8)
  }

  lemma FirstOctetLayout(ptype: bv2, tr: bool, window: bv5)
    ensures IsFirstOctet(FirstOctet(ptype, tr, window), ptype, tr, window)
  {
  }

  lemma FieldsOfFirstOctet(b: Octet, ptype: bv2, tr: bool, window: bv5)
    requires IsFirstOctet(b, ptype, tr, window)
    ensures TypeField(b) == ptype && TrField(b) == tr && WindowField(b) == window
  {
  }

  /** The header of a packet: type, TR and window, the length of DATA only, the number, the timestamp. */
  predicate IsHeader(h: seq<Octet>, p: Pkt) {
    if p.ptype == DATA then
      && |h| == 8 && IsFirstOctet(h[0], DATA, p.tr, p.window) && IsNetwork16(h[1..3], p.length)
      && h[3] as int == p.seqnum && IsLittleEndian32(h[4..], p.timestamp)
    else
      && |h| == 6 && IsFirstOctet(h[0], p.ptype, p.tr, p.window)
      && h[1] as int == p.seqnum && IsLittleEndian32(h[2..], p.timestamp)
  }

  lemma HeaderLayout(p: Pkt)
    ensures IsHeader(Header(p), p)
  {
    hide IsFirstOctet, IsLittleEndian32, FirstOctet, NativeU32;
    FirstOctetLayout(p.ptype, p.tr, p.window);
    NativeU32IsLittleEndian32(p.timestamp);
    HeaderParts(p);
  }

  lemma ClearedHeader(p: Pkt)
    ensures HeaderCrc(Header(p)) == Crc(Header(p.(tr := false)))
  {
    hide Crc, NativeU32, NetworkU16;
    FirstOctetOfHeader(p);
    ClearedFirstOctet(p.ptype, p.window);
    if p.tr {
      var h := Header(p);
      assert h[0 := h[0] - 32] == Header(p.(tr := false));
    }
  }

  lemma ClearedFirstOctet(ptype: bv2, window: bv5)
    ensures FirstOctet(ptype, true, window) - 32 == FirstOctet(ptype, false, window)
  {
  }

  /**
   The whole encoding. CRC1 is that of the header with TR clear; the payload and its CRC2 follow unless the packet is
   cut or empty. Both CRCs are in network order.
   */
  lemma EncodingLayout(p: Pkt)
    requires WellFormed(p)
    ensures var s, n := Encoding(p), if p.ptype == DATA then 8 else 6;
            && |s| == n + 4 + (if p.tr || p.length == 0 then 0 else p.length + 4)
            && IsHeader(s[..n], p)
            && IsNetwork32(s[n..n + 4], Crc(Header(p.(tr := false))))
            && (!p.tr && p.length > 0 ==>
                  && s[n + 4..n + 4 + p.length] == p.payload
                  && IsNetwork32(s[n + 4 + p.length..], Crc(p.payload)))
  {
    hide Header, HeaderCrc, Crc, NetworkU32, IsHeader, IsNetwork32;
    HeaderLayout(p);
    ClearedHeader(p);
    NetworkU32IsNetwork32(HeaderCrc(Header(p)));
    NetworkU32IsNetwork32(Crc(p.payload));
    var s := Encoding(p);
    assert s + [] == s;
    EncodingParts(p, []);
    if !p.tr && p.length > 0 {
      var n := HeaderLength(p.ptype);
      ThreeParts(s[..n + 4], p.payload, NetworkU32(Crc(p.payload)));
      assert s == s[..n + 4] + p.payload + NetworkU32(Crc(p.payload));
    }
  }

  /** The length that a first octet of this type announces together with the octets behind it. */
  function Announced(s: seq<Octet>, ptype: bv2): int {
    if ptype == DATA && |s| >= 3 then s[1] as int * 256 + s[2] as int else 0
  }

  /** The octets that must be there. */
  function Needed(ptype: bv2, tr: bool, announced: int): int {
    (if ptype == DATA then 12 else 10) + if tr || announced == 0 then 0 else announced + 4
  }

  lemma SizeTest(s: seq<Octet>, previous: u16, ptype: bv2, tr: bool, window: bv5)
    requires |s| > 0 && IsFirstOctet(s[0], ptype, tr, window)
    ensures Decode(s, previous) == Rejected(ErrNoMem) <==> |s| < Needed(ptype, tr, Announced(s, ptype))
  {
    hide IsFirstOctet, TypeField, TrField, WindowField, HeaderCrc, Crc, OfNativeU32, HostU32;
    FieldsOfFirstOctet(s[0], ptype, tr, window);
  }

  /** CRC1, in the n-th and the next three octets, is that of the n octets before them with TR clear. */
  predicate Crc1Fits(s: seq<Octet>, n: nat, tr: bool)
    requires 0 < n && n + 4 <= |s|
  {
    IsNetwork32(s[n..n + 4], Crc(if tr then s[..n][0 := s[0] - 32] else s[..n]))
  }

  predicate Crc2Fits(s: seq<Octet>, n: nat)
    requires 12 <= n && n + 4 <= |s|
  {
    IsNetwork32(s[n..n + 4], Crc(s[12..n]))
  }

  /**
   What an input of sufficient size decodes to. A length above 512 is not taken, a TR bit only on DATA; and an input is
   accepted exactly when the CRCs fit, unless the length that stays in force is too long for the structure.
   */
  lemma DecodingLayout(s: seq<Octet>, previous: u16, ptype: bv2, tr: bool, window: bv5)
    requires |s| > 0 && IsFirstOctet(s[0], ptype, tr, window)
    requires |s| >= Needed(ptype, tr, Announced(s, ptype))
    ensures var r, n := Decode(s, previous), if ptype == DATA then 8 else 6;
            var length := if Announced(s, ptype) <= 512 then Announced(s, ptype) else previous;
            var cut := tr && ptype == DATA;
            && (r.Overflow? <==> Crc1Fits(s, n, tr) && !cut && length > 512)
            && (r.Accepted? <==> Crc1Fits(s, n, tr)
                                 && (cut || length == 0 || (length <= 512 && Crc2Fits(s, 12 + length))))
            && (r.Accepted? ==>
                  && r.pkt.ptype == ptype && r.pkt.tr == cut && r.pkt.window == window && r.pkt.length == length
                  && r.pkt.seqnum == s[n - 5] as int && IsLittleEndian32(s[n - 4..n], r.pkt.timestamp)
                  && r.pkt.payload == if cut || length == 0 then [] else s[12..12 + length])
  {
    hide Decode, HeaderCrc, TypeField, TrField, WindowField, OfNativeU32, HostU32, TrailerChecks, Crc1Fits, Crc2Fits,
         IsFirstOctet, IsLittleEndian32;
    FieldsOfFirstOctet(s[0], ptype, tr, window);
    var n := if ptype == DATA then 8 else 6;
    Crc1AsChecked(s, n, tr);
    FourOctetsAsRead(s[n - 4..n]);
    var length := if Announced(s, ptype) <= 512 then Announced(s, ptype) else previous;
    if ptype == DATA && !tr && 0 < length <= 512 {
      Crc2AsChecked(s, length);
    }
    DecodingOfFields(s, previous, ptype, tr, length);
  }

  lemma Crc1AsChecked(s: seq<Octet>, n: nat, tr: bool)
    requires 0 < n && n + 4 <= |s| && TrField(s[0]) == tr
    ensures Crc1Fits(s, n, tr) <==> HeaderCrc(s[..n]) == HostU32(s[n..n + 4])
  {
    hide Crc, HostU32, IsNetwork32, TrField;
    FourOctetsAreOneNumber(s[n..n + 4], HeaderCrc(s[..n]));
  }

  lemma Crc2AsChecked(s: seq<Octet>, length: nat)
    requires |s| >= 16 + length
    ensures Crc2Fits(s, 12 + length) <==> TrailerChecks(s[12..], length)
    ensures s[12..][..length] == s[12..12 + length]
  {
    hide Crc, HostU32, IsNetwork32;
    var n := 12 + length;
    assert s[12..][length..length + 4] == s[n..n + 4] && s[12..][..length] == s[12..n];
    FourOctetsAreOneNumber(s[n..n + 4], Crc(s[12..n]));
  }

  lemma DecodingOfFields(s: seq<Octet>, previous: u16, ptype: bv2, tr: bool, length: int)
    requires |s| > 0 && TypeField(s[0]) == ptype && TrField(s[0]) == tr
    requires |s| >= Needed(ptype, tr, Announced(s, ptype))
    requires length == if Announced(s, ptype) <= 512 then Announced(s, ptype) else previous
    ensures var r, n := Decode(s, previous), if ptype == DATA then 8 else 6;
            var cut := tr && ptype == DATA;
            var checks := HeaderCrc(s[..n]) == HostU32(s[n..n + 4]);
            && (r.Overflow? <==> checks && !cut && length > 512)
            && (r.Accepted? <==>
                  checks && (cut || length == 0 || (length <= 512 && TrailerChecks(s[12..], length))))
            && (r.Accepted? ==>
                  r.pkt == Pkt(ptype, cut, WindowField(s[0]), length, s[n - 5] as int, OfNativeU32(s[n - 4..n]),
                               if cut || length == 0 then [] else s[12..][..length]))
  {
    hide Crc, HeaderCrc, TypeField, TrField, WindowField, OfNativeU32, HostU32, TrailerChecks;
  }

  // ---- the packet of `tests/packet_test.c`

  function HelloWorld(): seq<Octet> {
    [0x68, 0x65, 0x6C, 0x6C, 0x6F, 0x20, 0x77, 0x6F, 0x72, 0x6C, 0x64]
  }

  function TestHeader(): seq<Octet> {
    [0x5C, 0x00, 0x0B, 0x7B, 0x17, 0x00, 0x00, 0x00]
  }

  lemma TestHeaderIsEncoded(p: Pkt)
    requires p == Pkt(DATA, false, 28, 11, 0x7B, 0x17, HelloWorld())
    ensures Header(p) == TestHeader() && HeaderCrc(Header(p)) == Crc(TestHeader())
  {
    OctetIsItsValue(NetworkU16(11)[0], 0x00);
    OctetIsItsValue(NetworkU16(11)[1], 0x0B);
    OctetIsItsValue(OctetOf(0x7B), 0x7B);
    var t: seq<Octet> := [0x17, 0x00, 0x00, 0x00];
    assert OfNativeU32(t) == p.timestamp;
    NativeU32OfOfNativeU32(t);
    hide NativeU32, OfNativeU32;
  }

  lemma CrcOfTestHeader(h: seq<Octet>)
    requires h == [0x5C, 0x00, 0x0B, 0x7B, 0x17, 0x00, 0x00, 0x00]
    ensures Crc(h) == 0x4EA0_77DB
  {
    RunOne(0xFFFFFFFF, h);
    RunOne(0x4F200DAD, h[1..]);
    RunOne(0xA828FF58, h[2..]);
    RunOne(0xF2CA28B1, h[3..]);
    RunOne(0x7B43E186, h[4..]);
    RunOne(0x8773E033, h[5..]);
    RunOne(0xBF5712F6, h[6..]);
    RunOne(0x5461003B, h[7..]);
  }

  lemma RunOfHel(h: seq<Octet>)
    requires |h| >= 3 && h[0] == 0x68 && h[1] == 0x65 && h[2] == 0x6C
    ensures Run(0xFFFFFFFF, h) == Run(0x1AF40EE4, h[3..])
  {
    RunOne(0xFFFFFFFF, h);
    RunOne(0x6E94F918, h[1..]);
    RunOne(0x2EDA9978, h[2..]);
  }

  lemma RunOfLo(h: seq<Octet>)
    requires |h| >= 3 && h[0] == 0x6C && h[1] == 0x6F && h[2] == 0x20
    ensures Run(0x1AF40EE4, h) == Run(0x127E0609, h[3..])
  {
    RunOne(0x1AF40EE4, h);
    RunOne(0xE379FF1C, h[1..]);
    RunOne(0xC9EF5979, h[2..]);
  }

  lemma RunOfWorld(h: seq<Octet>)
    requires h == [0x77, 0x6F, 0x72, 0x6C, 0x64]
    ensures Run(0x127E0609, h) == !0x0D4A_1185
  {
    RunOne(0x127E0609, h);
    RunOne(0xB7AF223D, h[1..]);
    RunOne(0x85D29FFA, h[2..]);
    RunOne(0xE3E6D98D, h[3..]);
    RunOne(0xD7EE3437, h[4..]);
  }

  lemma CrcOfHelloWorld()
    ensures Crc(HelloWorld()) == 0x0D4A_1185
  {
    hide Run;
    var h := HelloWorld();
    RunOfHel(h);
    RunOfLo(h[3..]);
    assert h[3..][3..] == [0x77, 0x6F, 0x72, 0x6C, 0x64];
    RunOfWorld(h[3..][3..]);
  }

  lemma TestCrcsOnTheWire()
    ensures NetworkU32(0x4EA0_77DB) == [0x4E, 0xA0, 0x77, 0xDB] && NetworkU32(0x0D4A_1185) == [0x0D, 0x4A, 0x11, 0x85]
  {
  }

  /** The 27 octets of the test packet are the encoding of its fields, and decode to them. */
  lemma TestPacket(p: Pkt, s: seq<Octet>, previous: u16)
    requires p == Pkt(DATA, false, 28, 11, 0x7B, 0x17,
                      [0x68, 0x65, 0x6C, 0x6C, 0x6F, 0x20, 0x77, 0x6F, 0x72, 0x6C, 0x64])
    requires s == [0x5C, 0x00, 0x0B, 0x7B, 0x17, 0x00, 0x00, 0x00, 0x4E, 0xA0, 0x77, 0xDB,
                   0x68, 0x65, 0x6C, 0x6C, 0x6F, 0x20, 0x77, 0x6F, 0x72, 0x6C, 0x64, 0x0D, 0x4A, 0x11, 0x85]
    ensures Encoding(p) == s && Decode(s, previous) == Accepted(p)
  {
    hide Decode, Header, HeaderCrc, Crc, NetworkU32;
    TestHeaderIsEncoded(p);
    CrcOfTestHeader(TestHeader());
    CrcOfHelloWorld();
    TestCrcsOnTheWire();
    RoundTrip(p, [], previous);
    assert s == TestHeader() + [0x4E, 0xA0, 0x77, 0xDB] + (HelloWorld() + [0x0D, 0x4A, 0x11, 0x85]);
    assert Encoding(p) == s;
    assert s + [] == s;
  }
}
