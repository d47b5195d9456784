/** Building and accepting UDP datagrams: `build_ip_hdr`, `build_udp_hdr`, `udpchksum` and
    the packet checks of `await_reply` in etherboot/core/nic.c. */
module UdpPacket {
  import opened Disk
  import opened Checksum

  const ETH_HLEN: nat := 14
  const ETH_MAX_MTU: nat := 1500
  const IP_HLEN: nat := 20
  const UDP_HLEN: nat := 8
  const IP_TYPE: nat := 0x0800
  const IP_UDP: byte := 17

  /** A 16-bit field in network order. */
  function Ntohs(s: seq<byte>, i: nat): (w: nat)
    requires i + 2 <= |s|
    ensures w < 0x1_0000
  {
    (s[i] as nat) * 0x100 + s[i + 1] as nat
  }

  /** The pseudo header of RFC 768 for the datagram whose IP header starts `ip`. */
  function Pseudo(ip: seq<byte>): (p: seq<byte>)
    requires |ip| >= IP_HLEN + UDP_HLEN
    ensures |p| == 12
  {
    ip[12..20] + [0, IP_UDP] + ip[24..26]
  }

  /** `udpchksum`. */
  function UdpChksum(ip: seq<byte>): (c: nat)
    requires |ip| >= IP_HLEN + UDP_HLEN && |ip| >= IP_HLEN + Ntohs(ip, 24)
    ensures c == Spec(Pseudo(ip) + ip[IP_HLEN..IP_HLEN + Ntohs(ip, 24)])
  {
    AddIsConcat(Pseudo(ip), ip[IP_HLEN..IP_HLEN + Ntohs(ip, 24)]);
    AddIpChksums(12, Spec(Pseudo(ip)), Spec(ip[IP_HLEN..IP_HLEN + Ntohs(ip, 24)]))
  }

  // ---------- accepting ----------

  datatype Verdict = Ignored | Delivered(udp: bool)

  /** `memory` starts with the receive buffer, of which `packetlen` bytes were received;
      IP options are cut out. */
  function WithoutOptions(memory: seq<byte>, packetlen: nat, iplen: nat): (m: seq<byte>)
    requires IP_HLEN <= iplen <= 60 && packetlen >= ETH_HLEN + IP_HLEN && packetlen + ETH_HLEN + 60 <= |memory|
    ensures |m| == |memory|
  {
    var opt := iplen - IP_HLEN;
    if opt == 0 then memory
    else
      var n := if packetlen < opt then 0 else packetlen - opt;
      var moved := memory[ETH_HLEN + iplen..ETH_HLEN + iplen + n];
      memory[..ETH_HLEN + IP_HLEN] + moved + memory[ETH_HLEN + IP_HLEN + |moved|..]
  }

  /** The checks of `await_reply` on a received frame. */
  function Check(memory: seq<byte>, packetlen: nat): Verdict
    requires packetlen <= 0x1_0000 && |memory| >= 0x2_0000
  {
    if packetlen < ETH_HLEN then Ignored
    else if Ntohs(memory, 12) != IP_TYPE || packetlen < ETH_HLEN + IP_HLEN then Delivered(false)
    else
      var ip := memory[ETH_HLEN..];
      if ip[0] < 0x45 || ip[0] > 0x4F then Ignored
      else
        var iplen: nat := (ip[0] as nat) % 16 * 4;
        if Spec(ip[..iplen]) != 0 then Ignored
        else if Ntohs(ip, 6) % 0x4000 != 0 then Ignored            // fragmented
        else if Ntohs(ip, 2) > ETH_MAX_MTU then Ignored
        else CheckUdp(WithoutOptions(memory, packetlen, iplen)[ETH_HLEN..], packetlen - (iplen - IP_HLEN), iplen)
  }

  function CheckUdp(ip: seq<byte>, packetlen: int, iplen: nat): Verdict
    requires |ip| >= 0x2_0000 - ETH_HLEN
  {
    if ip[9] != IP_UDP || packetlen < ETH_HLEN + IP_HLEN + UDP_HLEN then Delivered(false)
    else if Ntohs(ip, 24) > (Ntohs(ip, 2) - iplen) % 0x1_0000_0000 then Ignored  // unsigned subtraction
    else if (ip[26] != 0 || ip[27] != 0) && UdpChksum(ip) != 0 then Ignored
    else Delivered(true)
  }

  // ---------- building ----------

  lemma {:induction false} SumOfUpdate(s: seq<byte>, n: nat, off: nat, i: nat, v: byte)
    requires i < |s| && n <= |s|
    ensures Sum(s[i := v], n, off) == if i < n then Sum(s, n, off) - Value(s[i], off + i) + Value(v, off + i) else Sum(s, n, off)
    decreases n
  {
    if n > 0 { SumOfUpdate(s, n - 1, off, i, v); }
  }

  /** Storing the complement of the sum, or all ones for zero, makes the sum all ones:
      whoever checks it finds zero. */
  lemma {:induction false} ComplementCancels(s: seq<byte>, i: nat, c: nat)
    requires i + 1 < |s| && i % 2 == 0 && s[i] == 0 && s[i + 1] == 0
    requires c == Spec(s) || (Spec(s) == 0 && c == ONES)
    ensures c % 0x100 < 0x100 && c / 0x100 < 0x100
    ensures Spec(s[i := c % 0x100][i + 1 := c / 0x100]) == 0
  {
    var lo: byte, hi: byte := c % 0x100, c / 0x100;
    SumOfUpdate(s, |s|, 0, i, lo);
    SumOfUpdate(s[i := lo], |s|, 0, i + 1, hi);
    var total := Sum(s, |s|, 0);
    CanonOfCanon(total, c);
  }

  method PutHtons(buf: array<byte>, i: nat, w: nat)
    requires i + 2 <= buf.Length
    modifies buf
    ensures Ntohs(buf[..], i) == w % 0x1_0000
    ensures forall k :: 0 <= k < buf.Length && k != i && k != i + 1 ==> buf[k] == old(buf[k])
  {
    buf[i] := w / 0x100 % 0x100;
    buf[i + 1] := w % 0x100;
  }

  /** A 16-bit store in the byte order of the processor, low byte first. */
  method PutWord(buf: array<byte>, i: nat, w: nat)
    requires i + 2 <= buf.Length && w <= ONES
    modifies buf
    ensures buf[..] == old(buf[..])[i := w % 0x100][i + 1 := w / 0x100]
  {
    buf[i] := w % 0x100;
    buf[i + 1] := w / 0x100;
  }

  method PutBytes(buf: array<byte>, i: nat, s: seq<byte>)
    requires i + |s| <= buf.Length
    modifies buf
    ensures buf[i..i + |s|] == s
    ensures forall k :: 0 <= k < buf.Length && !(i <= k < i + |s|) ==> buf[k] == old(buf[k])
  {
    forall k | i <= k < i + |s| { buf[k] := s[k - i]; }
  }

  /** The fields `build_ip_hdr` leaves in the packet. */
  ghost predicate IpHeader(ip: seq<byte>, src: seq<byte>, dest: seq<byte>, ttl: byte, protocol: byte, optionLen: nat, len: nat)
    requires |ip| >= IP_HLEN + optionLen && |src| == |dest| == 4
  {
    && ip[0] as nat == 0x45 + optionLen / 4 && ip[1] == 0 && Ntohs(ip, 2) == len % 0x1_0000
    && ip[4] == ip[5] == ip[6] == ip[7] == 0
    && ip[8] == ttl && ip[9] == protocol
    && ip[12..16] == src && ip[16..20] == dest
    && Spec(ip[..IP_HLEN + optionLen]) == 0
  }

  /** `build_ip_hdr`. */
  method BuildIpHdr(buf: array<byte>, src: seq<byte>, dest: seq<byte>, ttl: byte, protocol: byte, optionLen: nat, len: nat)
    requires |src| == |dest| == 4 && optionLen % 4 == 0 && optionLen <= 40 && IP_HLEN + optionLen <= buf.Length
    modifies buf
    ensures IpHeader(buf[..], src, dest, ttl, protocol, optionLen, len)
    ensures forall k :: IP_HLEN <= k < buf.Length ==> buf[k] == old(buf[k])
  {
    buf[0] := 0x45;
    buf[0] := buf[0] + optionLen / 4;
    buf[1] := 0;
    PutHtons(buf, 2, len);
    buf[4], buf[5], buf[6], buf[7] := 0, 0, 0, 0;
    buf[8], buf[9] := ttl, protocol;
    buf[10], buf[11] := 0, 0;
    PutBytes(buf, 12, src);
    PutBytes(buf, 16, dest);
    ghost var before := buf[..];
    var n := IP_HLEN + optionLen;
    var chksum := IpChksum(buf[..n]);
    PutWord(buf, 10, chksum);
    ComplementCancels(before[..n], 10, chksum);
    assert buf[..][..n] == before[..n][10 := chksum % 0x100][11 := chksum / 0x100];
  }

  /** The fields `build_udp_hdr` leaves in the packet. */
  ghost predicate UdpHeader(ip: seq<byte>, srcsock: nat, destsock: nat, len: nat)
    requires |ip| >= IP_HLEN + UDP_HLEN
  {
    && Ntohs(ip, 20) == srcsock % 0x1_0000 && Ntohs(ip, 22) == destsock % 0x1_0000
    && Ntohs(ip, 24) == (len - IP_HLEN) % 0x1_0000
    && (ip[26] != 0 || ip[27] != 0)
    && (|ip| >= IP_HLEN + Ntohs(ip, 24) ==> UdpChksum(ip) == 0)
  }

  /** The IP header fields lie in its first 20 bytes. */
  lemma {:induction false} KeepsIpHeader(a: seq<byte>, b: seq<byte>, src: seq<byte>, dest: seq<byte>, ttl: byte, protocol: byte, len: nat)
    requires |a| >= IP_HLEN && |b| >= IP_HLEN && |src| == |dest| == 4 && a[..IP_HLEN] == b[..IP_HLEN]
    requires IpHeader(a, src, dest, ttl, protocol, 0, len)
    ensures IpHeader(b, src, dest, ttl, protocol, 0, len)
  {
    assert forall k :: 0 <= k < IP_HLEN ==> b[k] == a[..IP_HLEN][k];
    assert b[12..16] == a[12..16] && b[16..20] == a[16..20];
  }

  /** With its checksum stored the datagram sums to zero, also when the checksum was zero
      and is sent as all ones. */
  lemma {:induction false} ChksumStored(ip: seq<byte>, c: nat)
    requires |ip| >= IP_HLEN + UDP_HLEN && Ntohs(ip, 24) >= UDP_HLEN && |ip| >= IP_HLEN + Ntohs(ip, 24)
    requires ip[26] == 0 && ip[27] == 0
    requires c == if UdpChksum(ip) == 0 then ONES else UdpChksum(ip)
    ensures var after := ip[26 := c % 0x100][27 := c / 0x100];
      Ntohs(after, 24) == Ntohs(ip, 24) && UdpChksum(after) == 0 && (after[26] != 0 || after[27] != 0)
  {
    var after := ip[26 := c % 0x100][27 := c / 0x100];
    var n := Ntohs(ip, 24);
    var whole := Pseudo(ip) + ip[IP_HLEN..IP_HLEN + n];
    ComplementCancels(whole, 18, c);
    assert Pseudo(after) == Pseudo(ip);
    assert Pseudo(after) + after[IP_HLEN..IP_HLEN + n] == whole[18 := c % 0x100][19 := c / 0x100];
  }

  /** `build_udp_hdr`, for a datagram of `len` bytes that lies in the buffer. */
  method BuildUdpHdr(buf: array<byte>, src: seq<byte>, dest: seq<byte>, srcsock: nat, destsock: nat, ttl: byte, len: nat)
    requires |src| == |dest| == 4 && IP_HLEN + UDP_HLEN <= len <= buf.Length && len < 0x1_0000
    modifies buf
    ensures IpHeader(buf[..], src, dest, ttl, IP_UDP, 0, len)
    ensures UdpHeader(buf[..], srcsock, destsock, len)
    ensures forall k :: IP_HLEN + UDP_HLEN <= k < buf.Length ==> buf[k] == old(buf[k])
  {
    BuildIpHdr(buf, src, dest, ttl, IP_UDP, 0, len);
    ghost var ip := buf[..];
    PutUdpFields(buf, srcsock, destsock, len);
    StoreChksum(buf);
    assert forall k :: 0 <= k < IP_HLEN ==> buf[..][..IP_HLEN][k] == ip[..IP_HLEN][k];
    KeepsIpHeader(ip, buf[..], src, dest, ttl, IP_UDP, len);
  }

  /** The UDP header without its checksum. */
  method PutUdpFields(buf: array<byte>, srcsock: nat, destsock: nat, len: nat)
    requires IP_HLEN + UDP_HLEN <= len <= buf.Length
    modifies buf
    ensures Ntohs(buf[..], 20) == srcsock % 0x1_0000 && Ntohs(buf[..], 22) == destsock % 0x1_0000
    ensures Ntohs(buf[..], 24) == (len - IP_HLEN) % 0x1_0000 && buf[26] == 0 && buf[27] == 0
    ensures forall k :: 0 <= k < buf.Length && !(20 <= k < 28) ==> buf[k] == old(buf[k])
  {
    PutHtons(buf, 20, srcsock);
    PutHtons(buf, 22, destsock);
    PutHtons(buf, 24, len - IP_HLEN);
    buf[26], buf[27] := 0, 0;
  }

  /** The checksum of the datagram goes into its header. */
  method StoreChksum(buf: array<byte>)
    requires buf.Length >= IP_HLEN + UDP_HLEN && Ntohs(buf[..], 24) >= UDP_HLEN
    requires buf.Length >= IP_HLEN + Ntohs(buf[..], 24) && buf[26] == 0 && buf[27] == 0
    modifies buf
    ensures Ntohs(buf[..], 24) == old(Ntohs(buf[..], 24))
    ensures UdpChksum(buf[..]) == 0 && (buf[26] != 0 || buf[27] != 0)
    ensures forall k :: 0 <= k < buf.Length && k != 26 && k != 27 ==> buf[k] == old(buf[k])
  {
    var chksum := UdpChksum(buf[..]);
    if chksum == 0 { chksum := 0xffff; }
    ghost var before := buf[..];
    PutWord(buf, 26, chksum);
    ChksumStored(before, chksum);
    assert forall k :: 0 <= k < buf.Length && k != 26 && k != 27 ==> buf[..][k] == before[k];
  }

  lemma {:induction false} SameChksum(ip: seq<byte>, rx: seq<byte>, len: nat)
    requires IP_HLEN + UDP_HLEN <= len <= |ip| && len <= |rx| && len < 0x1_0000
    requires forall k :: 0 <= k < len ==> rx[k] == ip[k]
    requires Ntohs(ip, 24) == len - IP_HLEN
    ensures Ntohs(rx, 24) == len - IP_HLEN && UdpChksum(rx) == UdpChksum(ip)
  {
    assert Pseudo(rx) == Pseudo(ip);
    assert rx[IP_HLEN..len] == ip[IP_HLEN..len];
  }

  lemma {:induction false} UdpAccepted(rx: seq<byte>, srcsock: nat, destsock: nat, len: nat, packetlen: nat)
    requires |rx| >= 0x2_0000 - ETH_HLEN && IP_HLEN + UDP_HLEN <= len <= ETH_MAX_MTU && packetlen >= ETH_HLEN + len
    requires rx[9] == IP_UDP && Ntohs(rx, 2) == len && UdpHeader(rx, srcsock, destsock, len)
    ensures CheckUdp(rx, packetlen, IP_HLEN) == Delivered(true)
  {
  }

  lemma {:induction false} Received(memory: seq<byte>, ip: seq<byte>, len: nat)
    requires IP_HLEN <= len <= |ip| && ETH_HLEN + len <= |memory| && memory[ETH_HLEN..ETH_HLEN + len] == ip[..len]
    ensures var rx := memory[ETH_HLEN..];
      (forall k :: 0 <= k < len ==> rx[k] == ip[k]) && ip[..IP_HLEN] == rx[..IP_HLEN]
  {
    var rx := memory[ETH_HLEN..];
    forall k | 0 <= k < len ensures rx[k] == ip[k] {
      assert rx[k] == memory[ETH_HLEN..ETH_HLEN + len][k] && ip[k] == ip[..len][k];
    }
  }

  /** A frame with an IP header of 20 bytes that is in order goes to the UDP checks as it is. */
  lemma {:induction false} PlainHeader(memory: seq<byte>, packetlen: nat)
    requires ETH_HLEN + IP_HLEN <= packetlen <= 0x1_0000 && |memory| >= 0x2_0000 && Ntohs(memory, 12) == IP_TYPE
    requires var ip := memory[ETH_HLEN..];
      ip[0] == 0x45 && Spec(ip[..IP_HLEN]) == 0 && Ntohs(ip, 6) == 0 && Ntohs(ip, 2) <= ETH_MAX_MTU
    ensures Check(memory, packetlen) == CheckUdp(memory[ETH_HLEN..], packetlen, IP_HLEN)
  {
  }

  /** Every datagram of `build_udp_hdr` that fits the MTU is delivered by `await_reply`,
      whatever follows it in the receive buffer and however the frame was padded. */
  lemma {:induction false} BuiltIsAccepted(ip: seq<byte>, src: seq<byte>, dest: seq<byte>, srcsock: nat, destsock: nat,
      ttl: byte, len: nat, memory: seq<byte>, packetlen: nat)
    requires |src| == |dest| == 4 && IP_HLEN + UDP_HLEN <= len <= ETH_MAX_MTU && len <= |ip|
    requires IpHeader(ip, src, dest, ttl, IP_UDP, 0, len) && UdpHeader(ip, srcsock, destsock, len)
    requires ETH_HLEN + len <= packetlen <= 0x1_0000 && |memory| >= 0x2_0000
    requires Ntohs(memory, 12) == IP_TYPE && memory[ETH_HLEN..ETH_HLEN + len] == ip[..len]
    ensures Check(memory, packetlen) == Delivered(true)
  {
    var rx := memory[ETH_HLEN..];
    Received(memory, ip, len);
    KeepsIpHeader(ip, rx, src, dest, ttl, IP_UDP, len);
    SameChksum(ip, rx, len);
    PlainHeader(memory, packetlen);
    UdpAccepted(rx, srcsock, destsock, len, packetlen);
  }

  /** A frame whose IP header has no options, as the bytes of the receive buffer have it: an IP packet
      that is not a fragment, not longer than the MTU, and whose header sums up to zero, with a UDP
      datagram that ends inside it and sums up to zero if it has a checksum.  A total length of less
      than a header puts no limit on that of the datagram. */
  ghost predicate IsDatagram(memory: seq<byte>, packetlen: nat)
    requires |memory| >= 0x2_0000
  {
    var total, len := 0x100 * (memory[16] as int) + memory[17], 0x100 * (memory[38] as int) + memory[39];
    && 42 <= packetlen && memory[12] == 8 && memory[13] == 0 && memory[14] == 0x45 && Spec(memory[14..34]) == 0
    && memory[20] % 0x40 == 0 && memory[21] == 0 && total <= 1500 && memory[23] == 17
    && (len <= total - 20 || total < 20)
    && ((memory[40] == 0 && memory[41] == 0)
      || Spec(memory[26..34] + [0, 17] + memory[38..40] + memory[34..34 + len]) == 0)
  }

  /** Exactly these are delivered as datagrams. */
  lemma {:induction false} DeliveredExactly(memory: seq<byte>, packetlen: nat)
    requires packetlen <= 0x1_0000 && |memory| >= 0x2_0000 && memory[14] == 0x45
    ensures Check(memory, packetlen) == Delivered(true) <==> IsDatagram(memory, packetlen)
  {
    var ip := memory[ETH_HLEN..];
    var len := Ntohs(ip, 24);
    assert ip[..IP_HLEN] == memory[14..34];
    assert Pseudo(ip) + ip[IP_HLEN..IP_HLEN + len] == memory[26..34] + [0, 17] + memory[38..40] + memory[34..34 + len];
    Fragment(ip[6], ip[7]);
  }

  lemma {:induction false} Fragment(a: byte, b: byte)
    ensures ((a as nat) * 0x100 + b as nat) % 0x4000 == 0 <==> a % 0x40 == 0 && b == 0
  {
    var q := a as int / 0x40;
    assert (a as int) * 0x100 + b == 0x4000 * q + 0x100 * (a as int % 0x40) + b;
  }

  /** Of a frame with options the UDP checks see what it is without them. */
  lemma {:induction false} OptionsAreCut(head: seq<byte>, options: seq<byte>, rest: seq<byte>, packetlen: nat)
    requires |head| == ETH_HLEN + IP_HLEN && |options| <= 40 && |head| + |options| <= packetlen
    requires packetlen + ETH_HLEN + 60 <= |head| + |options| + |rest|
    ensures var m := WithoutOptions(head + options + rest, packetlen, IP_HLEN + |options|);
      m[..packetlen - |options|] == (head + rest)[..packetlen - |options|]
  {
    var memory, opt := head + options + rest, |options|;
    if opt == 0 {
      assert memory == head + rest;
    } else {
      var n := packetlen - opt;
      assert memory[ETH_HLEN + (IP_HLEN + opt)..ETH_HLEN + (IP_HLEN + opt) + n] == rest[..n];
      assert memory[..ETH_HLEN + IP_HLEN] == head;
      assert n - |head| <= n;
    }
  }

  // ---------- what the checksums see ----------

  /** Sums that differ by less than 65535 have different representatives. */
  lemma {:induction false} CanonTells(a: nat, b: nat)
    requires a < b < a + ONES
    ensures Canon(a) != Canon(b)
  {
    if a > ONES { CanonTells(a - ONES, b - ONES); }
  }

  /** One wrong byte, anywhere, makes a sum that was right wrong. */
  lemma {:induction false} ErrorIsSeen(s: seq<byte>, i: nat, v: byte)
    requires i < |s| && v != s[i] && Spec(s) == 0
    ensures Spec(s[i := v]) != 0
  {
    SumOfUpdate(s, |s|, 0, i, v);
    var a, b := Sum(s, |s|, 0), Sum(s[i := v], |s|, 0);
    if a < b { CanonTells(a, b); } else { CanonTells(b, a); }
  }

  /** The checksum of a datagram covers both addresses, both ports, itself, and all of the data. */
  lemma {:induction false} DatagramErrorIsSeen(ip: seq<byte>, k: nat, v: byte)
    requires |ip| >= IP_HLEN + UDP_HLEN && UDP_HLEN <= Ntohs(ip, 24) <= |ip| - IP_HLEN && UdpChksum(ip) == 0
    requires 12 <= k < 24 || 26 <= k < IP_HLEN + Ntohs(ip, 24)
    requires v != ip[k]
    ensures Ntohs(ip[k := v], 24) == Ntohs(ip, 24) && UdpChksum(ip[k := v]) != 0
  {
    var n, bad := Ntohs(ip, 24), ip[k := v];
    var whole := Pseudo(ip) + ip[IP_HLEN..IP_HLEN + n];
    var i := if k < 20 then k - 12 else k - 8;
    assert whole[i] == ip[k];
    ErrorIsSeen(whole, i, v);
    assert Pseudo(bad) + bad[IP_HLEN..IP_HLEN + n] == whole[i := v];
  }

  /** No frame with one wrong byte is delivered in place of one that would be, wherever a checksum
      covers that byte: in the IP header behind its first byte, in the ports, and in the data. */
  lemma {:induction false} WrongFrameIsRefused(memory: seq<byte>, packetlen: nat, k: nat, v: byte)
    requires packetlen <= 0x1_0000 && |memory| >= 0x2_0000 && Check(memory, packetlen) == Delivered(true)
    requires var ip := memory[ETH_HLEN..];
      && ip[0] == 0x45 && (ip[26] != 0 || ip[27] != 0) && Ntohs(ip, 24) >= UDP_HLEN
      && (1 <= k < 24 || 28 <= k < IP_HLEN + Ntohs(ip, 24))
    requires v != memory[ETH_HLEN + k]
    ensures Check(memory[ETH_HLEN + k := v], packetlen) != Delivered(true)
  {
    var bad := memory[ETH_HLEN + k := v];
    var ip := memory[ETH_HLEN..];
    assert bad[ETH_HLEN..] == ip[k := v];
    if k < IP_HLEN {
      assert ip[k := v][..IP_HLEN] == ip[..IP_HLEN][k := v];
      ErrorIsSeen(ip[..IP_HLEN], k, v);
    } else {
      assert ip[k := v][..IP_HLEN] == ip[..IP_HLEN];
      DatagramErrorIsSeen(ip, k, v);
    }
  }

  /** The example of section 3 of RFC 1071, with the words read low byte first. */
  lemma {:induction false} RfcExample()
    ensures Spec([0x00, 0x01, 0xf2, 0x03, 0xf4, 0xf5, 0xf6, 0xf7]) == 0x0d22
  {
    var s := [0x00, 0x01, 0xf2, 0x03, 0xf4, 0xf5, 0xf6, 0xf7];
    assert Sum(s, 4, 0) == 0x100 + 0xf2 + 0x300;
    assert Sum(s, 8, 0) == 0x100 + 0xf2 + 0x300 + 0xf4 + 0xf500 + 0xf6 + 0xf700;
  }

  /** A datagram of one byte from 192.168.0.99, port 2000, to 192.168.0.1, port 69. */
  const DATAGRAM: seq<byte> := [69, 0, 0, 29, 0, 0, 0, 0, 60, 17, 253, 27, 192, 168, 0, 99, 192, 168, 0, 1,
    7, 208, 0, 69, 0, 9, 21, 18, 97]

  lemma {:induction false} TwoWords(s: seq<byte>, n: nat, sum: nat, more: nat)
    requires n % 2 == 0 && n + 4 <= |s| && Sum(s, n, 0) == sum
    requires more == s[n] + 0x100 * (s[n + 1] as int) + s[n + 2] + 0x100 * (s[n + 3] as int)
    ensures Sum(s, n + 4, 0) == sum + more
  {
    assert Sum(s, n + 1, 0) == sum + s[n];
    assert Sum(s, n + 2, 0) == sum + s[n] + 0x100 * (s[n + 1] as int);
    assert Sum(s, n + 3, 0) == sum + s[n] + 0x100 * (s[n + 1] as int) + s[n + 2];
  }

  lemma {:induction false} HeaderSum(s: seq<byte>)
    requires s == [69, 0, 0, 29, 0, 0, 0, 0, 60, 17, 253, 27, 192, 168, 0, 99, 192, 168, 0, 1]
    ensures Spec(s) == 0
  {
    TwoWords(s, 0, 0, 7493);
    TwoWords(s, 4, 7493, 0);
    TwoWords(s, 8, 7493, 11577);
    TwoWords(s, 12, 19070, 68544);
    TwoWords(s, 16, 87614, 43456);
    assert Canon(131070) == Canon(65535) == ONES;
  }

  lemma {:induction false} DatagramSum(s: seq<byte>)
    requires s == [192, 168, 0, 99, 192, 168, 0, 1, 0, 17, 0, 9, 7, 208, 0, 69, 0, 9, 21, 18, 97]
    ensures Spec(s) == 0
  {
    TwoWords(s, 0, 0, 68544);
    TwoWords(s, 4, 68544, 43456);
    TwoWords(s, 8, 112000, 6656);
    TwoWords(s, 12, 118656, 70919);
    TwoWords(s, 16, 189575, 6933);
    assert Sum(s, 21, 0) == 196605;
    assert Canon(196605) == Canon(131070) == Canon(65535) == ONES;
  }

  lemma {:induction false} DatagramIsRight()
    ensures Spec(DATAGRAM[..IP_HLEN]) == 0 && Ntohs(DATAGRAM, 24) == 9 && UdpChksum(DATAGRAM) == 0
  {
    HeaderSum(DATAGRAM[..IP_HLEN]);
    DatagramSum(Pseudo(DATAGRAM) + DATAGRAM[IP_HLEN..IP_HLEN + 9]);
  }
}
