/** Setting the broadcast flag of a DHCP request in place, with an incremental update of the UDP checksum. */
module DhcpChecksum {
  import opened Common

  const ETH_HLEN := 14
  const UDP_HLEN := 8
  const ONES := 65535
  /** Offsets from the UDP header. */
  const CHECK := 6
  const FLAGS := 18
  const COOKIE := 244

  // ----- The frame ------------------------------------------------------------------------------

  /** A 16-bit word as the little-endian processor reads it. */
  function Word(b: seq<byte>, i: nat): (w: nat)
    requires i + 2 <= |b|
    ensures w <= ONES
  {
    b[i] + 256 * (b[i + 1] as int)
  }

  /** Where the UDP header is, from the header length field of the IP header. */
  function UdpAt(b: seq<byte>): nat
    requires |b| > ETH_HLEN
  {
    ETH_HLEN + 4 * (b[ETH_HLEN] % 16)
  }

  predicate IsIp(b: seq<byte>)
    requires |b| >= ETH_HLEN
  {
    b[12] == 0x08 && b[13] == 0x00
  }

  predicate IsUdp(b: seq<byte>)
    requires |b| >= ETH_HLEN + 20
  {
    b[ETH_HLEN + 9] == 17
  }

  /** From the client port 68 to the server port 67. */
  predicate IsRequest(b: seq<byte>)
    requires |b| > ETH_HLEN && |b| >= UdpAt(b) + UDP_HLEN
  {
    var u := UdpAt(b);
    b[u] == 0 && b[u + 1] == 68 && b[u + 2] == 0 && b[u + 3] == 67
  }

  predicate HasCookie(b: seq<byte>)
    requires |b| > ETH_HLEN && |b| >= UdpAt(b) + COOKIE + 4
  {
    b[UdpAt(b) + COOKIE..UdpAt(b) + COOKIE + 4] == [0x63, 0x82, 0x53, 0x63]
  }

  /** The fields that are looked at, one guard after the other, are inside the frame. The driver does not check it. */
  predicate Readable(b: seq<byte>)
  {
    && |b| >= ETH_HLEN
    && (IsIp(b) ==>
          && |b| >= ETH_HLEN + 20
          && (IsUdp(b) ==>
                && |b| >= UdpAt(b) + UDP_HLEN
                && (IsRequest(b) ==> |b| >= UdpAt(b) + COOKIE + 4)))
  }

  /** A DHCP request whose broadcast flag is not set. */
  predicate Applies(b: seq<byte>)
    requires Readable(b)
  {
    IsIp(b) && IsUdp(b) && IsRequest(b) && HasCookie(b) && b[UdpAt(b) + FLAGS] < 128
  }

  /** A number in network byte order. */
  function Net16(n: nat): seq<byte>
    requires n < 65536
  {
    [n / 256, n % 256]
  }

  /** A UDP datagram with a DHCP message (RFC 768, and section 2 of RFC 2131): ports, length and checksum, ten bytes up to
      the flags, 224 more up to the cookie, and the options. */
  datatype Datagram = Datagram(source: nat, dest: nat, lenCheck: seq<byte>, start: seq<byte>, flags: nat, middle: seq<byte>,
                               cookie: (nat, nat), options: seq<byte>)

  predicate Proper(d: Datagram)
  {
    && d.source < 65536 && d.dest < 65536 && d.flags < 65536 && d.cookie.0 < 65536 && d.cookie.1 < 65536
    && |d.lenCheck| == 4 && |d.start| == 10 && |d.middle| == 224
  }

  function Written(d: Datagram): seq<byte>
    requires Proper(d)
  {
    (Net16(d.source) + Net16(d.dest) + d.lenCheck + d.start + Net16(d.flags))
    + (d.middle + Net16(d.cookie.0) + Net16(d.cookie.1) + d.options)
  }

  lemma WrittenAt(d: Datagram)
    requires Proper(d)
    ensures var w := Written(d);
            && |w| >= 248 && w[..4] == Net16(d.source) + Net16(d.dest) && w[18..20] == Net16(d.flags)
            && w[244..248] == Net16(d.cookie.0) + Net16(d.cookie.1)
  {
    var fore := Net16(d.source) + Net16(d.dest) + d.lenCheck + d.start + Net16(d.flags);
    var aft := d.middle + Net16(d.cookie.0) + Net16(d.cookie.1) + d.options;
    assert fore[..4] == Net16(d.source) + Net16(d.dest) && fore[18..20] == Net16(d.flags);
    assert aft[224..228] == Net16(d.cookie.0) + Net16(d.cookie.1);
    assert Written(d) == fore + aft && |fore| == 20;
  }

  /** Which frames are changed: DHCP over UDP over IP, from port 68 to port 67, with the magic cookie 63825363 and the top
      bit of the flags clear, whatever options the IP header has. */
  lemma AppliesExactly(macs: seq<byte>, etherType: nat, ip: seq<byte>, d: Datagram)
    requires |macs| == 12 && etherType < 65536 && Proper(d)
    requires 20 <= |ip| && |ip| == 4 * (ip[0] % 16)
    ensures var b := macs + Net16(etherType) + ip + Written(d);
            && Readable(b) && UdpAt(b) == 14 + |ip|
            && (Applies(b) <==>
                  && etherType == 0x0800 && ip[9] == 17 && d.source == 68 && d.dest == 67
                  && d.cookie == (0x6382, 0x5363) && d.flags < 0x8000)
  {
    var b, w := macs + Net16(etherType) + ip + Written(d), Written(d);
    WrittenAt(d);
    var u := 14 + |ip|;
    assert b[12] == etherType / 256 && b[13] == etherType % 256 && b[14] == ip[0] && b[23] == ip[9];
    assert b[u..] == w;
    assert b[u] == w[..4][0] && b[u + 1] == w[..4][1] && b[u + 2] == w[..4][2] && b[u + 3] == w[..4][3];
    assert b[u + 18] == w[18..20][0];
    assert b[u + 244..u + 248] == w[244..248];
    assert HasCookie(b) <==> d.cookie == (0x6382, 0x5363) by {
      var c := w[244..248];
      assert c[0] == d.cookie.0 / 256 && c[1] == d.cookie.0 % 256 && c[2] == d.cookie.1 / 256 && c[3] == d.cookie.1 % 256;
    }
  }

  /** The flag is set, the checksum field takes up the new flags word, and nothing else changes. */
  ghost predicate Rewritten(b: seq<byte>, after: seq<byte>, u: nat)
    requires |b| >= u + COOKIE + 4
  {
    && |after| == |b|
    && (forall k :: 0 <= k < |b| && k != u + CHECK && k != u + CHECK + 1 && k != u + FLAGS ==> after[k] == b[k])
    && after[u + FLAGS] == (b[u + FLAGS] as int) + 128
    && Word(after, u + CHECK) < ONES
    && (Word(after, u + CHECK) + Word(after, u + FLAGS)) % ONES == Word(b, u + CHECK) % ONES
  }

  /** `dhcp_flag_bcast` */
  method DhcpFlagBcast(skb: array<byte>, disabled: bool)
    requires Readable(skb[..])
    modifies skb
    ensures if !disabled && Applies(old(skb[..])) then Rewritten(old(skb[..]), skb[..], UdpAt(old(skb[..])))
            else skb[..] == old(skb[..])
  {
    if disabled || !Applies(skb[..]) {
      return;
    }
    var u := UdpAt(skb[..]);
    skb[u + FLAGS] := skb[u + FLAGS] + 128;
    var check := skb[u + CHECK] + 256 * (skb[u + CHECK + 1] as int);
    var flags := skb[u + FLAGS] + 256 * (skb[u + FLAGS + 1] as int);
    var sum := Fold(ONES - check + flags);
    Complement(check, flags, sum);
    skb[u + CHECK] := (ONES - sum) % 256;
    skb[u + CHECK + 1] := (ONES - sum) / 256;
  }

  /** The loop that adds the carries back in: the sum modulo 2^16 - 1, in 16 bits, and zero only for zero. */
  method Fold(total: nat) returns (sum: nat)
    ensures sum <= ONES && sum % ONES == total % ONES && (sum == 0 <==> total == 0)
  {
    sum := total;
    while sum / 65536 != 0
      invariant sum % ONES == total % ONES && (sum == 0 <==> total == 0)
      decreases sum
    {
      CarryBack(sum);
      sum := sum % 65536 + sum / 65536;
    }
  }

  lemma CarryBack(sum: nat)
    ensures (sum % 65536 + sum / 65536) % ONES == sum % ONES
    ensures sum >= 65536 ==> 0 < sum % 65536 + sum / 65536 < sum
  {
    var q, r := sum / 65536, sum % 65536;
    assert sum == ONES * q + (r + q);
    SameResidue(r + q, sum, q);
  }

  lemma SameResidue(x: int, y: int, q: int)
    requires y == ONES * q + x
    ensures x % ONES == y % ONES
  {
  }

  lemma Complement(check: nat, flags: nat, sum: nat)
    requires check <= ONES && 0 < flags && sum <= ONES
    requires sum % ONES == (ONES - check + flags) % ONES && sum != 0
    ensures ONES - sum < ONES && (ONES - sum + flags) % ONES == check % ONES
  {
    var total := ONES - check + flags;
    var q := total / ONES - sum / ONES;
    assert total == sum + ONES * q;
    SameResidue(check, ONES - sum + flags, q);
  }

  // ----- The checksum (RFC 768 and section 2 of RFC 1071) -----------------------------------------

  /** The sum of 16-bit words in network byte order, an odd last byte padded with zero. */
  function NetSum(b: seq<byte>): nat
  {
    if |b| == 0 then 0
    else if |b| == 1 then 256 * b[0]
    else 256 * b[0] + b[1] + NetSum(b[2..])
  }

  /** The same in the byte order of the processor. */
  function HostSum(b: seq<byte>): nat
  {
    if |b| == 0 then 0
    else if |b| == 1 then b[0]
    else Word(b, 0) + HostSum(b[2..])
  }

  function FirstSum(b: seq<byte>): nat
  {
    if |b| == 0 then 0
    else if |b| == 1 then b[0]
    else b[0] + FirstSum(b[2..])
  }

  lemma {:induction false} ByteOrder(b: seq<byte>)
    ensures 256 * NetSum(b) == HostSum(b) + ONES * FirstSum(b)
  {
    if |b| > 1 {
      ByteOrder(b[2..]);
    }
  }

  /** The receiver accepts: the words of pseudo-header and datagram, checksum included, sum to zero. */
  predicate Verifies(pseudo: nat, datagram: seq<byte>)
  {
    (pseudo + NetSum(datagram)) % ONES == 0
  }

  /** It does not matter in which byte order the words are added (section 2(B) of RFC 1071). */
  lemma OrderIrrelevant(pseudo: nat, datagram: seq<byte>)
    ensures Verifies(pseudo, datagram) <==> (256 * pseudo + HostSum(datagram)) % ONES == 0
  {
    ByteOrder(datagram);
    var t, first := pseudo + NetSum(datagram), FirstSum(datagram);
    var h := 256 * pseudo + HostSum(datagram);
    assert 256 * t == h + ONES * first;
    if t % ONES == 0 {
      var q := t / ONES;
      SameResidue(0, h, 256 * q - first);
    }
    if h % ONES == 0 {
      var q := h / ONES;
      SameResidue(0, t, 256 * (q + first) - t);
    }
  }

  /** Changing one word changes the sum by as much. */
  lemma {:induction false} OneWord(a: seq<byte>, b: seq<byte>, i: nat)
    requires |a| == |b| && i % 2 == 0 && i + 2 <= |a|
    requires forall k :: 0 <= k < |a| && k != i && k != i + 1 ==> a[k] == b[k]
    ensures HostSum(b) == HostSum(a) + Word(b, i) - Word(a, i)
    decreases i
  {
    if i == 0 {
      assert a[2..] == b[2..];
    } else {
      OneWord(a[2..], b[2..], i - 2);
    }
  }

  /** Both changed words together move the sum of a datagram down by the old flags word. */
  lemma SumAfter(b: seq<byte>, after: seq<byte>, u: nat, end: nat) returns (q: int)
    requires u + FLAGS + 2 <= end <= |b| && |b| >= u + COOKIE + 4 && Rewritten(b, after, u)
    ensures HostSum(after[u..end]) + Word(b, u + FLAGS) == HostSum(b[u..end]) + ONES * q
  {
    var old', new' := b[u..end], after[u..end];
    var middle := old'[CHECK := new'[CHECK]][CHECK + 1 := new'[CHECK + 1]];
    OneWord(old', middle, CHECK);
    OneWord(middle, new', FLAGS);
    var c, c', f' := Word(b, u + CHECK), Word(after, u + CHECK), Word(after, u + FLAGS);
    q := (c' + f') / ONES - c / ONES;
    assert c' + f' == c + ONES * q;
  }

  /** A datagram that verified still does after the flag was set if and only if its flags field was all zero. */
  lemma ChecksumKept(b: seq<byte>, after: seq<byte>, u: nat, end: nat, pseudo: nat)
    requires u + FLAGS + 2 <= end <= |b| && |b| >= u + COOKIE + 4 && b[u + FLAGS] < 128
    requires Rewritten(b, after, u) && Verifies(pseudo, b[u..end])
    ensures Verifies(pseudo, after[u..end]) <==> Word(b, u + FLAGS) == 0
  {
    OrderIrrelevant(pseudo, b[u..end]);
    OrderIrrelevant(pseudo, after[u..end]);
    var q := SumAfter(b, after, u, end);
    var s, s' := 256 * pseudo + HostSum(b[u..end]), 256 * pseudo + HostSum(after[u..end]);
    var f, d := Word(b, u + FLAGS), s / ONES;
    assert s' + f == ONES * (d + q);
    SumsToZero(s', f, d + q);
  }

  /** A receiver accepts a datagram without a checksum, or one that verifies (RFC 768). */
  predicate Accepted(pseudo: nat, datagram: seq<byte>)
    requires |datagram| >= CHECK + 2
  {
    Word(datagram, CHECK) == 0 || Verifies(pseudo, datagram)
  }

  function WithoutFlags(datagram: seq<byte>): seq<byte>
    requires |datagram| >= FLAGS + 2
  {
    datagram[FLAGS := 0][FLAGS + 1 := 0]
  }

  /** Which datagrams are accepted after the flag was set, whether or not they were before: those whose checksum field
      equalled the new flags word, so that it is now zero, and those that verified had their flags been zero. So one
      that came without a checksum and with no flags gets the field 65407, and is accepted only if it happens to verify
      with the field zero. */
  lemma AcceptedExactly(b: seq<byte>, after: seq<byte>, u: nat, end: nat, pseudo: nat)
    requires u + FLAGS + 2 <= end <= |b| && |b| >= u + COOKIE + 4 && Rewritten(b, after, u)
    ensures Accepted(pseudo, after[u..end]) <==>
      || Word(b, u + CHECK) % ONES == (Word(b, u + FLAGS) + 128) % ONES
      || Verifies(pseudo, WithoutFlags(b[u..end]))
    ensures Word(b, u + CHECK) == Word(b, u + FLAGS) == 0 ==> Word(after, u + CHECK) == 65407
  {
    var none := WithoutFlags(b[u..end]);
    ChecksumLost(b, after, u);
    OneWord(b[u..end], none, FLAGS);
    OrderIrrelevant(pseudo, none);
    OrderIrrelevant(pseudo, after[u..end]);
    var q := SumAfter(b, after, u, end);
    SameResidue(256 * pseudo + HostSum(none), 256 * pseudo + HostSum(after[u..end]), q);
  }

  lemma SumsToZero(x: int, f: nat, q: int)
    requires x + f == ONES * q && f < ONES
    ensures x % ONES == 0 <==> f == 0
  {
    if f == 0 {
      SameResidue(0, x, q);
    } else {
      assert x == ONES * (q - 1) + (ONES - f);
      SameResidue(ONES - f, x, q - 1);
    }
  }

  /** The checksum field becomes zero, which says that there is no checksum, exactly if it was equal to the new flags
      word (modulo all ones); the sender should then have put all ones there. */
  lemma ChecksumLost(b: seq<byte>, after: seq<byte>, u: nat)
    requires |b| >= u + COOKIE + 4 && Rewritten(b, after, u)
    ensures Word(after, u + CHECK) == 0 <==> Word(b, u + CHECK) % ONES == Word(after, u + FLAGS) % ONES
  {
    Cancelled(Word(after, u + CHECK), Word(after, u + FLAGS), Word(b, u + CHECK));
  }

  lemma Cancelled(x: nat, f: nat, c: nat)
    requires x < ONES && (x + f) % ONES == c % ONES
    ensures x == 0 <==> c % ONES == f % ONES
  {
    if c % ONES == f % ONES {
      var q := (x + f) / ONES - f / ONES;
      assert x == ONES * q;
    }
  }
}
