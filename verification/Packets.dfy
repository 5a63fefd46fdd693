/** The packets whose checksums net.c computes: the echo reply and the outgoing UDP datagram. */
module Packets {
  import opened Checksum
  import opened Memory

  // ---------- Swapping the addresses ----------

  /** The header with its source (bytes 12 to 15) and destination (16 to 19) exchanged. */
  function AddressesSwapped(h: seq<u8>): (r: seq<u8>)
    requires |h| >= 20
    ensures |r| == |h|
  {
    h[..12] + h[16..20] + h[12..16] + h[20..]
  }

  /** The sum does not depend on the order of its words. */
  lemma SwapKeepsChecksum(h: seq<u8>)
    requires |h| >= 20
    ensures Cksum(AddressesSwapped(h)) == Cksum(h)
  {
    var a := SetWord(h, 6, h[16], h[17]);
    var b := SetWord(a, 7, h[18], h[19]);
    var c := SetWord(b, 8, h[12], h[13]);
    var d := SetWord(c, 9, h[14], h[15]);
    SetWordTotal(h, 6, h[16], h[17]);
    SetWordTotal(a, 7, h[18], h[19]);
    SetWordTotal(b, 8, h[12], h[13]);
    SetWordTotal(c, 9, h[14], h[15]);
    assert d == AddressesSwapped(h);
  }

  lemma SwappedAt(h: seq<u8>)
    requires |h| >= 20
    ensures forall x :: 0 <= x < |h| ==>
      AddressesSwapped(h)[x] == h[if 12 <= x < 16 then x + 4 else if 16 <= x < 20 then x - 4 else x]
  {
  }

  /** ipv4_ipswap on the header at offset `l3`. */
  method IpSwap(frame: array<u8>, l3: nat)
    requires l3 + 20 <= frame.Length
    modifies frame
    ensures frame[..] == Overwrite(old(frame[..]), l3, AddressesSwapped(old(frame[l3..l3 + 20])))
  {
    ghost var before := frame[..];
    ghost var src, dst := l3 + 12, l3 + 16;
    var count: u8 := 0;
    while count < 4
      invariant 0 <= count <= 4
      invariant forall x :: src <= x < src + count ==> frame[x] == before[x + 4]
      invariant forall x :: dst <= x < dst + count ==> frame[x] == before[x - 4]
      invariant forall x :: 0 <= x < frame.Length && !(src <= x < src + count) && !(dst <= x < dst + count) ==>
        frame[x] == before[x]
    {
      var tmp := frame[l3 + 12 + count];
      frame[l3 + 12 + count] := frame[l3 + 16 + count];
      frame[l3 + 16 + count] := tmp;
      count := count + 1;
    }
    SwappedInPlace(before, frame[..], l3);
  }

  lemma SwappedInPlace(before: seq<u8>, after: seq<u8>, l3: nat)
    requires l3 + 20 <= |before| == |after|
    requires forall x :: l3 + 12 <= x < l3 + 16 ==> after[x] == before[x + 4]
    requires forall x :: l3 + 16 <= x < l3 + 20 ==> after[x] == before[x - 4]
    requires forall x :: 0 <= x < |before| && !(l3 + 12 <= x < l3 + 20) ==> after[x] == before[x]
    ensures after == Overwrite(before, l3, AddressesSwapped(before[l3..l3 + 20]))
  {
    var h := before[l3..l3 + 20];
    SwappedAt(h);
    OverwriteAt(before, l3, AddressesSwapped(h));
    var want := Overwrite(before, l3, AddressesSwapped(h));
    forall x | 0 <= x < |before| ensures after[x] == want[x] {
      if l3 <= x < l3 + 20 { assert want[x] == AddressesSwapped(h)[x - l3]; }
    }
  }

  // ---------- The echo reply ----------

  /** The reply to an echo request: type 0, a fresh checksum, all else as it came. */
  function Echo(m: seq<u8>): (r: seq<u8>)
    requires |m| >= 4
    ensures |r| == |m|
  {
    Stored(m[0 := 0], 1)
  }

  /** The message that the checksum of the reply is computed over. */
  function BareEcho(m: seq<u8>): seq<u8>
    requires |m| >= 4
  {
    SetWord(m[0 := 0], 1, 0, 0)
  }

  /** The reply's header verifies, and its message exactly when the bytes read sum to the whole: always up to
      256 bytes. The identifier, sequence number and data come back unchanged. */
  lemma EchoVerifies(header: seq<u8>, m: seq<u8>)
    requires |header| >= 20 && Cksum(header) == 0 && |m| >= 4
    ensures Cksum(AddressesSwapped(header)) == 0
    ensures Cksum(Echo(m)) == 0 <==> ReadsEnough(BareEcho(m))
    ensures |m| <= 0x100 ==> Cksum(Echo(m)) == 0
    ensures Echo(m)[0] == 0 && Echo(m)[1] == m[1] && Echo(m)[4..] == m[4..]
  {
    SwapKeepsChecksum(header);
    StoredVerifiesIff(m[0 := 0], 1);
    if |m| <= 0x100 { StoredShort(m[0 := 0], 1); }
  }

  /** The frame after the ICMP statements of the echo branch, whatever the message's length. */
  function EchoFrame(f: seq<u8>, l4: nat, len: u16): (r: seq<u8>)
    requires l4 + 4 <= |f| && l4 + len <= |f|
    ensures |r| == |f|
  {
    var z := PutWord(f[l4 := 0], l4 + 2, 0);
    PutWord(z, l4 + 2, Cksum(Covered(z, l4, len)))
  }

  /** The ICMP statements of the echo branch, on the message of `len` bytes at `l4`. */
  method MakeEcho(frame: array<u8>, l4: nat, len: u16)
    requires l4 + 4 <= frame.Length && l4 + len <= frame.Length
    modifies frame
    ensures frame[..] == EchoFrame(old(frame[..]), l4, len)
  {
    ghost var f := frame[..];
    frame[l4] := 0;
    frame[l4 + 2], frame[l4 + 3] := 0, 0;
    assert frame[..] == PutWord(f[l4 := 0], l4 + 2, 0);
    StoreChecksum(frame, l4, len, 1);
  }

  /** For a message that holds its checksum field, that is the echo in its place. */
  lemma EchoInPlace(f: seq<u8>, l4: nat, len: u16)
    requires 4 <= len && l4 + len <= |f|
    ensures EchoFrame(f, l4, len) == Overwrite(f, l4, Echo(f[l4..l4 + len]))
  {
    var m, z := f[l4..l4 + len], PutWord(f[l4 := 0], l4 + 2, 0);
    assert z[l4..l4 + len] == BareEcho(m);
    CoveredSlice(z, l4, len);
    var c := Cksum(Covered(z, l4, len));
    var e, r := Echo(m), EchoFrame(f, l4, len);
    assert SetWord(BareEcho(m), 1, 0, 0) == BareEcho(m);
    assert e == SetWord(BareEcho(m), 1, c / 0x100, c % 0x100);
    OverwriteAt(f, l4, e);
    var want := Overwrite(f, l4, e);
    forall x | 0 <= x < |f| ensures r[x] == want[x] {
      if l4 <= x < l4 + len { assert want[x] == e[x - l4]; }
    }
  }

  datatype Verdict = BadHeader | OtherProtocol | BadMessage | NotEcho | Replied

  /** The header length: four times the low nibble of the first byte. */
  function HeaderLen(f: seq<u8>, l3: nat): nat
    requires l3 < |f|
  {
    f[l3] % 0x10 * 4
  }

  /** What is left of the total length, as a 16-bit number. */
  function MessageLen(f: seq<u8>, l3: nat): u16
    requires l3 + 3 < |f|
  {
    (Word(f[l3 + 2], f[l3 + 3]) - HeaderLen(f, l3)) % 0x1_0000
  }

  /** The buffer holds the header and the message that its lengths announce. */
  predicate Fits(f: seq<u8>, l3: nat) {
    && l3 + 20 <= |f|
    && l3 + HeaderLen(f, l3) + 4 <= |f|
    && l3 + HeaderLen(f, l3) + MessageLen(f, l3) <= |f|
  }

  function HeaderBytes(f: seq<u8>, l3: nat): seq<u8>
    requires Fits(f, l3)
  {
    f[l3..l3 + HeaderLen(f, l3)]
  }

  function MessageBytes(f: seq<u8>, l3: nat): seq<u8>
    requires Fits(f, l3)
  {
    f[l3 + HeaderLen(f, l3)..l3 + HeaderLen(f, l3) + MessageLen(f, l3)]
  }

  /** An echo request whose header and message verify. */
  predicate GoodRequest(f: seq<u8>, l3: nat)
    requires Fits(f, l3)
  {
    && Cksum(HeaderBytes(f, l3)) == 0 && f[l3 + 9] == 1
    && Cksum(Covered(f, l3 + HeaderLen(f, l3), MessageLen(f, l3))) == 0
    && f[l3 + HeaderLen(f, l3)] == 8
  }

  /** The frame sent back for a header of `hl` bytes at `l3` and a message of `ml` bytes behind it. */
  function ReplyFrame(f: seq<u8>, l3: nat, hl: nat, ml: u16): (r: seq<u8>)
    requires l3 + 20 <= |f| && l3 + hl + 4 <= |f| && l3 + hl + ml <= |f|
    ensures |r| == |f|
  {
    var g := EchoFrame(f, l3 + hl, ml);
    Overwrite(g, l3, AddressesSwapped(g[l3..l3 + 20]))
  }

  method Reply(frame: array<u8>, l3: nat, hl: nat, ml: u16)
    requires l3 + 20 <= frame.Length && l3 + hl + 4 <= frame.Length && l3 + hl + ml <= frame.Length
    modifies frame
    ensures frame[..] == ReplyFrame(old(frame[..]), l3, hl, ml)
  {
    MakeEcho(frame, l3 + hl, ml);
    assert frame[..][l3..l3 + 20] == frame[l3..l3 + 20];
    IpSwap(frame, l3);
  }

  /**
   * The IPv4 case of efproc up to the end of the ICMP branch, on the frame
   * whose IPv4 header starts at `l3`.
   */
  method EchoBranch(frame: array<u8>, l3: nat) returns (v: Verdict)
    requires Fits(frame[..], l3)
    modifies frame
    ensures v.Replied? <==> old(GoodRequest(frame[..], l3))
    ensures !v.Replied? ==> frame[..] == old(frame[..])
    ensures v.Replied? ==>
      frame[..] == ReplyFrame(old(frame[..]), l3, old(HeaderLen(frame[..], l3)), old(MessageLen(frame[..], l3)))
  {
    var hl, ml;
    v, hl, ml := CheckRequest(frame, l3);
    if v.Replied? { Reply(frame, l3, hl, ml); }
  }

  /** The tests on the way to the echo branch, and the lengths they go by. */
  method CheckRequest(frame: array<u8>, l3: nat) returns (v: Verdict, hl: nat, ml: u16)
    requires Fits(frame[..], l3)
    ensures v.Replied? <==> GoodRequest(frame[..], l3)
    ensures v.BadHeader? <==> Cksum(HeaderBytes(frame[..], l3)) != 0
    ensures hl == HeaderLen(frame[..], l3) && ml == MessageLen(frame[..], l3)
  {
    hl, ml := HeaderLen(frame[..], l3), MessageLen(frame[..], l3);
    var cksum := ChecksumCalc(0, frame, l3, hl);
    CoveredIsWhole(frame[..], l3, hl);
    if cksum != 0 { return BadHeader, hl, ml; }
    if frame[l3 + 9] != 1 { return OtherProtocol, hl, ml; }
    cksum := ChecksumCalc(0, frame, l3 + hl, ml);
    if cksum != 0 { return BadMessage, hl, ml; }
    v := if frame[l3 + hl] != 8 then NotEcho else Replied;
  }

  lemma ReplyParts(f: seq<u8>, l3: nat, hl: nat, ml: u16)
    requires hl >= 20 && ml >= 4 && l3 + hl + ml <= |f|
    ensures var r := ReplyFrame(f, l3, hl, ml);
      && r[l3..l3 + hl] == AddressesSwapped(f[l3..l3 + hl])
      && r[l3 + hl..l3 + hl + ml] == Echo(f[l3 + hl..l3 + hl + ml])
      && (forall x :: 0 <= x < |f| && !(l3 <= x < l3 + hl + ml) ==> r[x] == f[x])
  {
    var e, s := Echo(f[l3 + hl..l3 + hl + ml]), AddressesSwapped(f[l3..l3 + 20]);
    ReplyOverwrites(f, l3, hl, ml);
    TwoOverwrites(f, l3, s, l3 + hl, e);
    SwappedHeader(f, ReplyFrame(f, l3, hl, ml), l3, hl);
  }

  lemma ReplyOverwrites(f: seq<u8>, l3: nat, hl: nat, ml: u16)
    requires hl >= 20 && ml >= 4 && l3 + hl + ml <= |f|
    ensures ReplyFrame(f, l3, hl, ml) ==
      Overwrite(Overwrite(f, l3 + hl, Echo(f[l3 + hl..l3 + hl + ml])), l3, AddressesSwapped(f[l3..l3 + 20]))
  {
    EchoInPlace(f, l3 + hl, ml);
    HeaderUntouched(f, l3, l3 + hl, Echo(f[l3 + hl..l3 + hl + ml]));
  }

  lemma SwappedHeader(f: seq<u8>, r: seq<u8>, l3: nat, hl: nat)
    requires hl >= 20 && l3 + hl <= |f| == |r|
    requires forall k :: l3 <= k < l3 + hl ==>
      r[k] == if k < l3 + 20 then AddressesSwapped(f[l3..l3 + 20])[k - l3] else f[k]
    ensures r[l3..l3 + hl] == AddressesSwapped(f[l3..l3 + hl])
  {
    var h, h' := f[l3..l3 + hl], r[l3..l3 + hl];
    SwappedAt(h);
    SwappedAt(f[l3..l3 + 20]);
    forall x | 0 <= x < hl ensures h'[x] == AddressesSwapped(h)[x] { assert h'[x] == r[l3 + x]; }
  }

  lemma HeaderUntouched(f: seq<u8>, l3: nat, l4: nat, e: seq<u8>)
    requires l3 + 20 <= l4 && l4 + |e| <= |f|
    ensures Overwrite(f, l4, e)[l3..l3 + 20] == f[l3..l3 + 20]
  {
    OverwriteAt(f, l4, e);
  }

  /** Overwriting two ranges that do not meet. */
  lemma TwoOverwrites(f: seq<u8>, a: nat, x: seq<u8>, b: nat, y: seq<u8>)
    requires a + |x| <= b && b + |y| <= |f|
    ensures var r := Overwrite(Overwrite(f, b, y), a, x);
      && r[b..b + |y|] == y
      && forall k :: 0 <= k < |f| && !(b <= k < b + |y|) ==> r[k] == if a <= k < a + |x| then x[k - a] else f[k]
  {
    OverwriteAt(f, b, y);
    OverwriteAt(Overwrite(f, b, y), a, x);
  }

  /**
   * RFC 791 and RFC 792 seen from whoever sent the request: the reply has
   * the same layout, the addresses are exchanged and the message is the
   * request but for type and checksum. Its header verifies, and its message
   * exactly when the bytes read sum to the whole, as they do up to 256.
   */
  lemma ReplyVerifies(f: seq<u8>, l3: nat)
    requires Fits(f, l3) && GoodRequest(f, l3) && HeaderLen(f, l3) >= 20 && 4 <= MessageLen(f, l3)
    ensures var r, m := ReplyFrame(f, l3, HeaderLen(f, l3), MessageLen(f, l3)), MessageBytes(f, l3);
      && Fits(r, l3) && Cksum(HeaderBytes(r, l3)) == 0
      && HeaderBytes(r, l3) == AddressesSwapped(HeaderBytes(f, l3)) && MessageBytes(r, l3) == Echo(m)
      && (Cksum(MessageBytes(r, l3)) == 0 <==> ReadsEnough(BareEcho(m)))
      && (|m| <= 0x100 ==> Cksum(MessageBytes(r, l3)) == 0)
  {
    var hl, ml := HeaderLen(f, l3), MessageLen(f, l3);
    ReplyParts(f, l3, hl, ml);
    LengthsKept(f, ReplyFrame(f, l3, hl, ml), l3, hl);
    PartsAre(f, ReplyFrame(f, l3, hl, ml), l3, hl, ml);
    EchoVerifies(HeaderBytes(f, l3), MessageBytes(f, l3));
  }

  /** The first twelve bytes of the header, lengths included, are not addresses. */
  lemma LengthsKept(f: seq<u8>, r: seq<u8>, l3: nat, hl: nat)
    requires hl >= 20 && l3 + hl <= |f| == |r| && r[l3..l3 + hl] == AddressesSwapped(f[l3..l3 + hl])
    ensures r[l3..l3 + 12] == f[l3..l3 + 12]
  {
    assert r[l3..l3 + 12] == r[l3..l3 + hl][..12] == f[l3..l3 + hl][..12] == f[l3..l3 + 12];
  }

  lemma PartsAre(f: seq<u8>, r: seq<u8>, l3: nat, hl: nat, ml: nat)
    requires Fits(f, l3) && HeaderLen(f, l3) == hl >= 20 && 4 <= ml == MessageLen(f, l3)
    requires |r| == |f| && r[l3..l3 + 12] == f[l3..l3 + 12]
    requires r[l3..l3 + hl] == AddressesSwapped(f[l3..l3 + hl])
    requires r[l3 + hl..l3 + hl + ml] == Echo(f[l3 + hl..l3 + hl + ml])
    ensures Fits(r, l3) && HeaderBytes(r, l3) == AddressesSwapped(HeaderBytes(f, l3))
    ensures MessageBytes(r, l3) == Echo(MessageBytes(f, l3))
  {
    SameLengths(f, r, l3);
  }

  lemma SameLengths(f: seq<u8>, r: seq<u8>, l3: nat)
    requires Fits(f, l3) && |r| == |f| && r[l3..l3 + 12] == f[l3..l3 + 12]
    ensures Fits(r, l3) && HeaderLen(r, l3) == HeaderLen(f, l3) && MessageLen(r, l3) == MessageLen(f, l3)
  {
    assert r[l3..l3 + 12][0] == f[l3..l3 + 12][0];
    assert r[l3..l3 + 12][2] == f[l3..l3 + 12][2];
    assert r[l3..l3 + 12][3] == f[l3..l3 + 12][3];
  }

  // ---------- What a request is ----------

  /** An IPv4 header as section 3.1 of RFC 791 lays it out: version and length in the first byte, the total
      length in bytes 2 and 3, the protocol in byte 9. */
  predicate IsHeader(h: seq<u8>, total: nat, protocol: u8) {
    && 20 <= |h| <= 60 && |h| % 4 == 0 && h[0] / 0x10 == 4 && h[0] % 0x10 == |h| / 4
    && (var high: nat, low: nat := h[2], h[3]; high * 0x100 + low == total)
    && h[9] == protocol && Cksum(h) == 0
  }

  /** An echo message of RFC 792: type 8, and a checksum that verifies. */
  predicate IsEchoRequest(m: seq<u8>) {
    |m| >= 8 && m[0] == 8 && Cksum(m) == 0
  }

  /** Every echo request so laid out is answered, wherever it is in the frame, if the bytes that the code reads
      of the message sum to the whole. */
  lemma StandardRequestIsGood(before: seq<u8>, header: seq<u8>, message: seq<u8>, behind: seq<u8>)
    requires |header| + |message| < 0x1_0000 && IsHeader(header, |header| + |message|, 1) && IsEchoRequest(message)
    ensures var f := before + header + message + behind;
      && Fits(f, |before|) && HeaderBytes(f, |before|) == header && MessageBytes(f, |before|) == message
      && (GoodRequest(f, |before|) <==> ReadsEnough(message))
      && (|message| <= 0x100 ==> GoodRequest(f, |before|))
  {
    var f, l3, hl, ml := before + header + message + behind, |before|, |header|, |message|;
    InFrame(before, header, message, behind);
    LengthsRead(f, l3, header, ml);
    CoveredSlice(f, l3 + hl, ml);
    ReadVerifies(message);
  }

  lemma InFrame(before: seq<u8>, header: seq<u8>, message: seq<u8>, behind: seq<u8>)
    requires |header| >= 20 && message != []
    ensures var f, l3, hl := before + header + message + behind, |before|, |header|;
      && |f| >= l3 + hl + |message| && f[l3..l3 + hl] == header && f[l3 + hl..l3 + hl + |message|] == message
      && f[l3] == header[0] && f[l3 + 2] == header[2] && f[l3 + 3] == header[3] && f[l3 + 9] == header[9]
      && f[l3 + hl] == message[0]
  {
  }

  lemma LengthsRead(f: seq<u8>, l3: nat, header: seq<u8>, ml: nat)
    requires l3 + 20 <= |f| && |header| + ml < 0x1_0000 && IsHeader(header, |header| + ml, 1)
    requires f[l3] == header[0] && f[l3 + 2] == header[2] && f[l3 + 3] == header[3]
    ensures HeaderLen(f, l3) == |header| && MessageLen(f, l3) == ml
  {
  }

  /** A message that verifies also does so as the code reads it exactly when the bytes read sum to the whole. */
  lemma ReadVerifies(m: seq<u8>)
    requires m != [] && Cksum(m) == 0 && m[0] != 0
    ensures Cksum(Covered(m, 0, |m|)) == 0 <==> ReadsEnough(m)
    ensures |m| <= 0x100 ==> ReadsEnough(m)
  {
    var c := Covered(m, 0, |m|);
    VerifiesIff(m);
    VerifiesIff(c);
    assert c[0] == m[0];
    if Total(c) == 0 && |m| > 1 { TotalZero(c, |c| / 2); }
    if |m| <= 0x100 { ReadWhole(m); }
  }
}
