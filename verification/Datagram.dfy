/** udp_send: the UDP header with its pseudo header, and the IPv4 header laid over the latter. */
module Datagram {
  import opened Checksum
  import opened Memory

  /** What udp_send reads of its socket. */
  datatype Socket = Socket(localport: u16, destport: u16, localip: seq<u8>, destip: seq<u8>) {
    predicate Valid() {
      |localip| == 4 && |destip| == 4
    }
  }

  function High(x: u16): u8 { x / 0x100 }
  function Low(x: u16): u8 { x % 0x100 }

  /** The pseudo header that the UDP checksum covers, for a segment of `len` bytes. */
  function Pseudo(sock: Socket, len: u16): (r: seq<u8>)
    requires sock.Valid()
    ensures |r| == 12
  {
    sock.localip + sock.destip + [0, 17, High(len), Low(len)]
  }

  function UdpHeader(sock: Socket, len: u16): (r: seq<u8>)
    ensures |r| == 8
  {
    [High(sock.localport), Low(sock.localport), High(sock.destport), Low(sock.destport), High(len), Low(len), 0, 0]
  }

  /** Pseudo header, UDP header and data, with the checksum in its place. */
  function Covering(sock: Socket, data: seq<u8>): (r: seq<u8>)
    requires sock.Valid() && |data| + 8 < 0x1_0000
    ensures |r| == 20 + |data|
  {
    Stored(Bare(sock, data), 9)
  }

  /** The same before the checksum is stored: what it is computed over. */
  function Bare(sock: Socket, data: seq<u8>): (r: seq<u8>)
    requires sock.Valid() && |data| + 8 < 0x1_0000
    ensures |r| == 20 + |data|
  {
    Pseudo(sock, |data| + 8) + UdpHeader(sock, |data| + 8) + data
  }

  /** The IPv4 header for `total` bytes, without and with its checksum. */
  function BareIpHeader(sock: Socket, total: u16): (r: seq<u8>)
    requires sock.Valid()
    ensures |r| == 20
  {
    [0x45, 0, High(total), Low(total), 0, 0, 0x40, 0, 64, 17, 0, 0] + sock.localip + sock.destip
  }

  function IpHeader(sock: Socket, total: u16): (r: seq<u8>)
    requires sock.Valid()
    ensures |r| == 20
  {
    Sealed(BareIpHeader(sock, total), 5)
  }

  /** The UDP segment: what remains when the pseudo header is dropped. */
  function Segment(sock: Socket, data: seq<u8>): (r: seq<u8>)
    requires sock.Valid() && |data| + 8 < 0x1_0000
    ensures |r| == 8 + |data|
  {
    Covering(sock, data)[12..]
  }

  /** The datagram handed to the Ethernet layer. */
  function Packet(sock: Socket, data: seq<u8>): (r: seq<u8>)
    requires sock.Valid() && |data| + 28 < 0x1_0000
    ensures |r| == 28 + |data|
  {
    IpHeader(sock, |data| + 28) + Segment(sock, data)
  }

  /** Version 4, a header of 20 bytes, not to be fragmented and not a fragment, 64 hops, UDP. */
  predicate HeaderRead(p: seq<u8>) {
    && |p| >= 20 && p[0] / 0x10 == 4 && p[0] % 0x10 * 4 == 20
    && p[6] / 0x20 == 2 && p[6] % 0x20 == 0 && p[7] == 0 && p[8] == 64 && p[9] == 17
  }

  /** What a receiver rebuilds from a packet to check the UDP checksum. */
  function Rebuilt(p: seq<u8>): seq<u8>
    requires 28 <= |p| < 0x1_0000
  {
    p[12..16] + p[16..20] + [0, p[9], High(|p| - 20), Low(|p| - 20)] + p[20..]
  }

  /**
   * A receiver finds the IPv4 checksum right, and the addresses, lengths and
   * data as sent. The UDP checksum is right exactly when the bytes read sum
   * to the whole, which they do for up to 236 bytes of data.
   */
  lemma PacketVerifies(sock: Socket, data: seq<u8>)
    requires sock.Valid() && |data| + 28 < 0x1_0000
    ensures var p := Packet(sock, data);
      && Cksum(p[..20]) == 0
      && (Cksum(Rebuilt(p)) == 0 <==> ReadsEnough(Bare(sock, data)))
      && (|data| <= 236 ==> Cksum(Rebuilt(p)) == 0)
      && HeaderRead(p) && p[12..16] == sock.localip && p[16..20] == sock.destip
      && Word(p[20], p[21]) == sock.localport && Word(p[22], p[23]) == sock.destport
      && Word(p[2], p[3]) == |p| && Word(p[24], p[25]) == |p| - 20
      && p[28..] == data
  {
    PacketFields(sock, data);
    RebuiltIsCovering(sock, data);
    SealVerifies(BareIpHeader(sock, |data| + 28), 5);
    CoveringVerifies(sock, data);
  }

  lemma CoveringVerifies(sock: Socket, data: seq<u8>)
    requires sock.Valid() && |data| + 8 < 0x1_0000
    ensures Cksum(Covering(sock, data)) == 0 <==> ReadsEnough(Bare(sock, data))
    ensures |data| <= 236 ==> Cksum(Covering(sock, data)) == 0
  {
    BareField(sock, data);
    StoredVerifiesIff(Bare(sock, data), 9);
    if |data| <= 236 { StoredShort(Bare(sock, data), 9); }
  }

  lemma PacketFields(sock: Socket, data: seq<u8>)
    requires sock.Valid() && |data| + 28 < 0x1_0000
    ensures var p := Packet(sock, data);
      && p[..20] == IpHeader(sock, |data| + 28) && p[20..] == Segment(sock, data) && p[28..] == data
      && HeaderRead(p) && p[12..16] == sock.localip && p[16..20] == sock.destip
      && Word(p[20], p[21]) == sock.localport && Word(p[22], p[23]) == sock.destport
      && Word(p[2], p[3]) == |p| && Word(p[24], p[25]) == |p| - 20
  {
    var p, h, c := Packet(sock, data), IpHeader(sock, |data| + 28), Covering(sock, data);
    HeaderParts(sock, |data| + 28);
    CoveringParts(sock, data);
    assert p[..20] == h && p[20..] == c[12..];
    assert p[12..16] == h[12..16] && p[16..20] == h[16..20];
    assert p[28..] == p[20..][8..] == c[12..][8..] == c[20..];
    assert p[20] == c[12] && p[21] == c[13] && p[22] == c[14] && p[23] == c[15];
    assert p[0] == h[0] && p[6] == h[6] && p[7] == h[7] && p[8] == h[8] && p[9] == h[9];
  }

  lemma RebuiltIsCovering(sock: Socket, data: seq<u8>)
    requires sock.Valid() && |data| + 28 < 0x1_0000
    ensures Rebuilt(Packet(sock, data)) == Covering(sock, data)
  {
    var p, c := Packet(sock, data), Covering(sock, data);
    PacketFields(sock, data);
    CoveringParts(sock, data);
    assert p[12..16] + p[16..20] + [0, p[9], High(|p| - 20), Low(|p| - 20)] == c[..12];
    assert c[..12] + c[12..] == c;
  }

  /** The checksum field is zero while the checksum is computed. */
  lemma BareField(sock: Socket, data: seq<u8>)
    requires sock.Valid() && |data| + 8 < 0x1_0000
    ensures SetWord(Bare(sock, data), 9, 0, 0) == Bare(sock, data)
  {
    var b := Bare(sock, data);
    assert b[18] == UdpHeader(sock, |data| + 8)[6] && b[19] == UdpHeader(sock, |data| + 8)[7];
  }

  /**
   * The UDP checksum sent is zero, which RFC 768 reads as "no checksum",
   * exactly when the bytes read sum to a multiple of 65535.
   */
  lemma ZeroUdpChecksum(sock: Socket, data: seq<u8>)
    requires sock.Valid() && |data| + 28 < 0x1_0000
    ensures WordAt(Packet(sock, data), 13) == 0 <==>
      Total(Covered(Bare(sock, data), 0, 20 + |data|)) % 0xFFFF == 0
  {
    var b := Bare(sock, data);
    var s := Covered(b, 0, |b|);
    BareField(sock, data);
    var c := Cksum(s);
    assert Covering(sock, data) == SetWord(b, 9, c / 0x100, c % 0x100);
    assert WordAt(Packet(sock, data), 13) == WordAt(Covering(sock, data), 9) == c;
    VerifiesIff(s);
    assert s[9] == b[9] == Pseudo(sock, |data| + 8)[9] == 17;
    if Total(s) == 0 { TotalZero(s, |s| / 2); }
  }

  /** It happens: for every socket, and any data but for its first two bytes. */
  lemma ZeroUdpChecksumHappens(sock: Socket, data: seq<u8>) returns (data': seq<u8>)
    requires sock.Valid() && 2 <= |data| <= 236
    ensures |data'| == |data| && data'[2..] == data[2..]
    ensures WordAt(Packet(sock, data'), 13) == 0
  {
    var b := Bare(sock, data);
    var s := Sealed(b, 10);
    data' := s[20..];
    assert s[..20] == b[..20] && b == b[..20] + data;
    assert Bare(sock, data') == s;
    assert s[22..] == b[22..] && data'[2..] == s[22..] && data[2..] == b[22..];
    SealVerifies(b, 10);
    VerifiesIff(s);
    ReadWhole(s);
    ZeroUdpChecksum(sock, data');
  }

  lemma HeaderParts(sock: Socket, total: u16)
    requires sock.Valid()
    ensures var h := IpHeader(sock, total);
      && h[12..16] == sock.localip && h[16..20] == sock.destip && Word(h[2], h[3]) == total
      && h[0] == 0x45 && h[6] == 0x40 && h[7] == 0 && h[8] == 64 && h[9] == 17
  {
    var h, b := IpHeader(sock, total), BareIpHeader(sock, total);
    assert h[..10] == b[..10] && h[12..] == b[12..];
    var tail := h[12..];
    assert tail == b[12..] == sock.localip + sock.destip;
    assert tail[..4] == sock.localip && tail[4..] == sock.destip;
    assert h[12..16] == tail[..4];
    assert h[16..20] == tail[4..];
  }

  lemma CoveringParts(sock: Socket, data: seq<u8>)
    requires sock.Valid() && |data| + 8 < 0x1_0000
    ensures var c := Covering(sock, data);
      && c[..12] == Pseudo(sock, |data| + 8) && c[20..] == data && Word(c[16], c[17]) == |data| + 8
      && Word(c[12], c[13]) == sock.localport && Word(c[14], c[15]) == sock.destport
  {
    var len := |data| + 8;
    var c, b := Covering(sock, data), Bare(sock, data);
    assert c[..18] == b[..18] && c[20..] == b[20..] == data;
    assert c[..12] == b[..12] == Pseudo(sock, len);
    var u := UdpHeader(sock, len);
    assert b[12..20] == u;
    forall k | 0 <= k < 6
      ensures c[12 + k] == u[k]
    {
      assert c[12 + k] == c[..18][12 + k] == b[..18][12 + k] == b[12 + k] == b[12..20][k];
    }
    assert c[12 + 0] == u[0] && c[12 + 1] == u[1] && c[12 + 2] == u[2];
    assert c[12 + 3] == u[3] && c[12 + 4] == u[4] && c[12 + 5] == u[5];
  }

  /** The UDP part of udp_send: pseudo header and UDP header before the data at `buff`. */
  method PutUdp(mem: array<u8>, buff: nat, len: u16, sock: Socket)
    requires sock.Valid() && buff >= 20 && 8 <= len && len + 12 < 0x1_0000 && buff - 8 + len <= mem.Length
    modifies mem
    ensures forall x :: 0 <= x < mem.Length && !(buff - 20 <= x < buff) ==> mem[x] == old(mem[x])
    ensures mem[buff - 8..buff - 8 + len] == Segment(sock, old(mem[buff..buff - 8 + len]))
  {
    ghost var data := mem[buff..buff - 8 + len];
    PutBare(mem, buff, len, sock);
    var at, covered := buff - 20, len + 12;
    ghost var bare := mem[at..at + covered];
    assert bare == Bare(sock, data);
    StoreChecksum(mem, at, covered, 9);
    assert mem[at..at + covered] == Stored(bare, 9);
    assert mem[buff - 8..buff - 8 + len] == mem[at..at + covered][12..];
  }

  method PutBare(mem: array<u8>, buff: nat, len: u16, sock: Socket)
    requires sock.Valid() && buff >= 20 && 8 <= len && buff - 8 + len <= mem.Length
    modifies mem
    ensures forall x :: 0 <= x < mem.Length && !(buff - 20 <= x < buff) ==> mem[x] == old(mem[x])
    ensures mem[buff - 20..buff - 8 + len] == Bare(sock, old(mem[buff..buff - 8 + len]))
    ensures mem[buff - 2] == mem[buff - 1] == 0
  {
    ghost var data := mem[buff..buff - 8 + len];
    PutUdpFields(mem, buff - 8, len, sock);
    ghost var u := mem[buff - 8..buff];
    assert u[6] == mem[buff - 2] && u[7] == mem[buff - 1];
    PutPseudoFields(mem, buff - 20, len, sock);
    assert mem[buff - 8..buff] == u && mem[buff..buff - 8 + len] == data;
    ThreeParts(mem, buff - 20, buff - 8, buff, buff - 8 + len);
  }

  lemma TwoParts(m: array<u8>, a: nat, b: nat, c: nat)
    requires a <= b <= c <= m.Length
    ensures m[a..c] == m[a..b] + m[b..c]
  {
  }

  lemma ThreeParts(m: array<u8>, a: nat, b: nat, c: nat, d: nat)
    requires a <= b <= c <= d <= m.Length
    ensures m[a..d] == m[a..b] + m[b..c] + m[c..d]
  {
  }

  method PutUdpFields(mem: array<u8>, udp: nat, len: u16, sock: Socket)
    requires udp + 8 <= mem.Length
    modifies mem
    ensures mem[udp..udp + 8] == UdpHeader(sock, len)
    ensures forall x :: 0 <= x < mem.Length && !(udp <= x < udp + 8) ==> mem[x] == old(mem[x])
  {
    mem[udp], mem[udp + 1] := High(sock.localport), Low(sock.localport);
    mem[udp + 2], mem[udp + 3] := High(sock.destport), Low(sock.destport);
    mem[udp + 4], mem[udp + 5] := High(len), Low(len);
    mem[udp + 6], mem[udp + 7] := 0, 0;
  }

  method PutPseudoFields(mem: array<u8>, pseudo: nat, len: u16, sock: Socket)
    requires sock.Valid() && pseudo + 12 <= mem.Length
    modifies mem
    ensures mem[pseudo..pseudo + 12] == Pseudo(sock, len)
    ensures forall x :: 0 <= x < mem.Length && !(pseudo <= x < pseudo + 12) ==> mem[x] == old(mem[x])
  {
    PutAddresses(mem, pseudo, sock);
    mem[pseudo + 8], mem[pseudo + 9] := 0, 17;
    mem[pseudo + 10], mem[pseudo + 11] := High(len), Low(len);
    ghost var want := Pseudo(sock, len);
    assert mem[pseudo..pseudo + 8] == want[..8];
    assert mem[pseudo..pseudo + 12] == want;
  }

  /** The two memcpy calls that store the addresses. */
  method PutAddresses(mem: array<u8>, at: nat, sock: Socket)
    requires sock.Valid() && at + 8 <= mem.Length
    modifies mem
    ensures mem[at..at + 8] == sock.localip + sock.destip
    ensures forall x :: 0 <= x < mem.Length && !(at <= x < at + 8) ==> mem[x] == old(mem[x])
  {
    ghost var m := mem[..];
    Memcpy(mem, at, sock.localip, 4);
    ghost var m' := mem[..];
    OverwriteAt(m, at, sock.localip[..4]);
    Memcpy(mem, at + 4, sock.destip, 4);
    OverwriteAt(m', at + 4, sock.destip[..4]);
    ghost var both, got := sock.localip + sock.destip, mem[at..at + 8];
    forall x | 0 <= x < 8 ensures got[x] == both[x] { assert got[x] == mem[..][at + x]; }
    forall x | 0 <= x < mem.Length && !(at <= x < at + 8) ensures mem[x] == m[x] { assert mem[x] == mem[..][x]; }
  }

  /** The IPv4 part of udp_send, over the pseudo header. */
  method PutIp(mem: array<u8>, ip: nat, total: u16, sock: Socket)
    requires sock.Valid() && ip + 20 <= mem.Length
    modifies mem
    ensures mem[ip..ip + 20] == IpHeader(sock, total)
    ensures forall x :: 0 <= x < mem.Length && !(ip <= x < ip + 20) ==> mem[x] == old(mem[x])
  {
    PutIpFields(mem, ip, total, sock);
    assert mem[ip..ip + 20][10] == mem[ip + 10] && mem[ip..ip + 20][11] == mem[ip + 11];
    StoreChecksum(mem, ip, 20, 5);
    StoredShort(BareIpHeader(sock, total), 5);
  }

  method PutIpFields(mem: array<u8>, ip: nat, total: u16, sock: Socket)
    requires sock.Valid() && ip + 20 <= mem.Length
    modifies mem
    ensures mem[ip..ip + 20] == BareIpHeader(sock, total)
    ensures forall x :: 0 <= x < mem.Length && !(ip <= x < ip + 20) ==> mem[x] == old(mem[x])
  {
    forall x | ip <= x < ip + 20 { mem[x] := 0; }
    PutIpFront(mem, ip, total);
    ghost var front := mem[ip..ip + 12];
    PutAddresses(mem, ip + 12, sock);
    assert mem[ip..ip + 12] == front;
    TwoParts(mem, ip, ip + 12, ip + 20);
  }

  method PutIpFront(mem: array<u8>, ip: nat, total: u16)
    requires ip + 12 <= mem.Length && forall x :: ip <= x < ip + 12 ==> mem[x] == 0
    modifies mem
    ensures mem[ip..ip + 12] == [0x45, 0, High(total), Low(total), 0, 0, 0x40, 0, 64, 17, 0, 0]
    ensures forall x :: 0 <= x < mem.Length && !(ip <= x < ip + 12) ==> mem[x] == old(mem[x])
  {
    mem[ip] := 4 * 0x10 + 5;
    mem[ip + 2], mem[ip + 3] := High(total), Low(total);
    mem[ip + 6] := 2 * 0x20;
    mem[ip + 8], mem[ip + 9] := 64, 17;
    mem[ip + 10], mem[ip + 11] := 0, 0;
  }

  /**
   * udp_send up to the Ethernet header, for `len0` bytes of data at `buff`:
   * short data is sent with the bytes that follow it. Returns the length of
   * the packet, which begins 28 bytes before the data.
   */
  method UdpSend(mem: array<u8>, buff: nat, len0: u16, sock: Socket) returns (total: u16)
    requires sock.Valid() && len0 + 28 + 14 < 0x1_0000
    requires buff >= 28 && buff + (if len0 < 18 then 18 else len0) <= mem.Length
    modifies mem
    ensures total == 28 + (if len0 < 18 then 18 else len0)
    ensures mem[buff - 28..buff - 28 + total] == Packet(sock, old(mem[buff..buff - 28 + total]))
    ensures forall x :: 0 <= x < mem.Length && !(buff - 28 <= x < buff) ==> mem[x] == old(mem[x])
  {
    var len := len0;
    if len < 18 {
      len := 18;
    }
    AddHeaders(mem, buff, len, sock);
    total := len + 28;
  }

  method AddHeaders(mem: array<u8>, buff: nat, n: u16, sock: Socket)
    requires sock.Valid() && n + 28 < 0x1_0000 && buff >= 28 && buff + n <= mem.Length
    modifies mem
    ensures mem[buff - 28..buff + n] == Packet(sock, old(mem[buff..buff + n]))
    ensures forall x :: 0 <= x < mem.Length && !(buff - 28 <= x < buff) ==> mem[x] == old(mem[x])
  {
    ghost var data := mem[buff..buff + n];
    var len := n + 8;
    PutUdp(mem, buff, len, sock);
    ghost var segment := mem[buff - 8..buff + n];
    len := len + 20;
    PutIp(mem, buff - 28, len, sock);
    assert mem[buff - 8..buff + n] == segment;
    TwoParts(mem, buff - 28, buff - 8, buff + n);
  }
}
