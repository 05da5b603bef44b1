/** The transmit aggregate: frames laid end to end behind 4-byte headers, sent in whole 512-byte blocks. */
module Aggregate {
  import opened Common
  import opened Crc8

  datatype Chip = AIC8801 | AIC8800DC | AIC8800DW | AIC8800D80 | AIC8800D80X2
  {
    /** These chips are told the padded length; the others get the true length and a header CRC. */
    predicate PadsLength() { AIC8801? || AIC8800DC? || AIC8800DW? }
  }

  const BLOCK := 512
  const TAIL_LEN := 4

  function OctetOf(n: byte): Octet
  {
    Octet(n / 128 % 2 == 1, n / 64 % 2 == 1, n / 32 % 2 == 1, n / 16 % 2 == 1,
          n / 8 % 2 == 1, n / 4 % 2 == 1, n / 2 % 2 == 1, n % 2 == 1)
  }

  /** The bits under the checksum of a header are the binary digits of its bytes, most significant first. */
  lemma OctetBits(n: byte, j: nat)
    requires j < 8
    ensures BitsOf(OctetOf(n))[j] <==> n / Pow2(7 - j) % 2 == 1
  {
    assert Pow2(3) == 8 && Pow2(7) == 128;
  }

  function HeaderCrc(h: seq<byte>): byte
    requires |h| == 3
  {
    Value(Crc([OctetOf(h[0]), OctetOf(h[1]), OctetOf(h[2])]))
  }

  // ----- The layout -----------------------------------------------------------------------------

  /** A payload with its 0 to 3 zero pad bytes. */
  function Padded(p: seq<byte>): (b: seq<byte>)
    ensures |b| == RoundUp4(|p|) && p <= b
  {
    p + ZeroBytes(RoundUp4(|p|) - |p|)
  }

  /** The length a header announces. */
  function Announced(chip: Chip, p: seq<byte>): nat
  {
    if chip.PadsLength() then RoundUp4(|p|) else |p|
  }

  function Header(chip: Chip, p: seq<byte>): (h: seq<byte>)
    ensures |h| == 4
  {
    var n := Announced(chip, p);
    var h := [n % 256, n / 256 % 16, 1];
    h + [if chip.PadsLength() then 0 else HeaderCrc(h)]
  }

  function Record(chip: Chip, p: seq<byte>): (r: seq<byte>)
    ensures |r| == 4 + RoundUp4(|p|)
  {
    Header(chip, p) + Padded(p)
  }

  function Layout(chip: Chip, ps: seq<seq<byte>>): (bytes: seq<byte>)
    decreases |ps|, 0
  {
    if ps == [] then [] else LayoutOn(chip, ps[..|ps| - 1], ps[|ps| - 1])
  }

  /** The layout of `ps` with one more record behind it. */
  function LayoutOn(chip: Chip, ps: seq<seq<byte>>, p: seq<byte>): (bytes: seq<byte>)
    decreases |ps|, 1
  {
    Layout(chip, ps) + Record(chip, p)
  }

  // ----- The reader -----------------------------------------------------------------------------

  function LengthField(b0: byte, b1: byte): nat { b0 + 256 * (b1 as int % 16) }

  predicate HeaderOk(chip: Chip, h: seq<byte>)
    requires |h| == 4
  {
    chip.PadsLength() || h[3] == HeaderCrc(h[..3])
  }

  /** The payloads found by following the 12-bit lengths; a zero length, a header that fails its CRC
      or a record that runs past the end stops the walk. */
  function Walk(chip: Chip, bytes: seq<byte>): seq<seq<byte>>
    decreases |bytes|, 1
  {
    if |bytes| < 4 then [] else WalkRecord(chip, bytes, LengthField(bytes[0], bytes[1]))
  }

  function WalkRecord(chip: Chip, bytes: seq<byte>, n: nat): seq<seq<byte>>
    requires |bytes| >= 4
    decreases |bytes|, 0
  {
    if n == 0 || 4 + RoundUp4(n) > |bytes| || !HeaderOk(chip, bytes[..4]) then []
    else [bytes[4..4 + n]] + Walk(chip, bytes[4 + RoundUp4(n)..])
  }

  /** What a reader gets for a payload: the padded payload where the header announces the padding. */
  function Received(chip: Chip, p: seq<byte>): seq<byte>
  {
    if chip.PadsLength() then Padded(p) else p
  }

  function ReceivedAll(chip: Chip, ps: seq<seq<byte>>): (rs: seq<seq<byte>>)
    ensures |rs| == |ps| && forall k :: 0 <= k < |ps| ==> rs[k] == Received(chip, ps[k])
  {
    seq(|ps|, k requires 0 <= k < |ps| => Received(chip, ps[k]))
  }

  /** The longest payload whose length survives its 12-bit field: 4092 where the padding is counted, else 4095. */
  function MaxPayload(chip: Chip): nat { if chip.PadsLength() then 4092 else 4095 }

  predicate Fits(chip: Chip, p: seq<byte>) { 0 < |p| <= MaxPayload(chip) }

  lemma TwelveBits(n: nat)
    ensures n % 256 + 256 * (n / 256 % 16) == n % 4096
  {
    var q := n / 256;
    assert n == 4096 * (q / 16) + (256 * (q % 16) + n % 256);
  }

  lemma HeaderReads(chip: Chip, p: seq<byte>)
    ensures HeaderOk(chip, Header(chip, p))
    ensures var padded := chip in {AIC8801, AIC8800DC, AIC8800DW};
            && LengthField(Header(chip, p)[0], Header(chip, p)[1]) == (if padded then RoundUp4(|p|) else |p|) % 4096
            && Header(chip, p)[1] < 16 && Header(chip, p)[2] == 1
            && Header(chip, p)[3] == if padded then 0 else HeaderCrc(Header(chip, p)[..3])
  {
    var n, h := Announced(chip, p), Header(chip, p);
    assert h[0] == n % 256 && h[1] == n / 256 % 16;
    LengthReads(n);
    assert h[..3] == [n % 256, n / 256 % 16, 1];
  }

  lemma LengthReads(n: nat)
    ensures LengthField(n % 256, n / 256 % 16) == n % 4096
  {
    TwelveBits(n);
  }

  lemma AnnouncedReads(chip: Chip, p: seq<byte>)
    requires Fits(chip, p)
    ensures 0 < Announced(chip, p) == LengthField(Header(chip, p)[0], Header(chip, p)[1])
    ensures RoundUp4(Announced(chip, p)) == RoundUp4(|p|)
  {
    AnnouncedBound(chip, p);
    HeaderReads(chip, p);
  }

  lemma AnnouncedBound(chip: Chip, p: seq<byte>)
    requires Fits(chip, p)
    ensures 0 < Announced(chip, p) == Announced(chip, p) % 4096
    ensures RoundUp4(Announced(chip, p)) == RoundUp4(|p|)
  {
    RoundUp4Aligned(|p|);
    if chip.PadsLength() {
      RoundUp4Bound(|p|, 1023);
    }
  }

  lemma RecordReads(chip: Chip, p: seq<byte>, rest: seq<byte>)
    requires Fits(chip, p)
    ensures var b := Record(chip, p) + rest;
            var n := Announced(chip, p);
            && |b| == 4 + RoundUp4(n) + |rest|
            && b[..4] == Header(chip, p) && b[4..4 + n] == Received(chip, p) && b[4 + RoundUp4(n)..] == rest
  {
    RoundUp4Aligned(|p|);
    var b := Record(chip, p) + rest;
    assert b[4..] == Padded(p) + rest;
    assert b[4..4 + Announced(chip, p)] == Padded(p)[..Announced(chip, p)];
  }

  lemma WalkOne(chip: Chip, p: seq<byte>, rest: seq<byte>)
    requires Fits(chip, p)
    ensures Walk(chip, Record(chip, p) + rest) == [Received(chip, p)] + Walk(chip, rest)
  {
    var b := Record(chip, p) + rest;
    RecordReads(chip, p, rest);
    HeaderReads(chip, p);
    AnnouncedReads(chip, p);
    assert b[0] == b[..4][0] && b[1] == b[..4][1];
  }

  /** The bound is exact: a longer payload is not recovered. */
  lemma WalkOneExactly(chip: Chip, p: seq<byte>)
    requires p != []
    ensures Walk(chip, Record(chip, p)) == [Received(chip, p)] <==> Fits(chip, p)
  {
    var b := Record(chip, p);
    if Fits(chip, p) {
      WalkOne(chip, p, []);
      assert b + [] == b;
    } else {
      var n := LengthField(b[0], b[1]);
      assert n < 4096 <= |Received(chip, p)|;
      if Walk(chip, b) != [] {
        assert |Walk(chip, b)[0]| == n;
      }
    }
  }

  lemma {:induction false} WalkLayout(chip: Chip, ps: seq<seq<byte>>, rest: seq<byte>)
    requires forall k :: 0 <= k < |ps| ==> Fits(chip, ps[k])
    ensures Walk(chip, Layout(chip, ps) + rest) == ReceivedAll(chip, ps) + Walk(chip, rest)
    decreases |ps|
  {
    if ps == [] {
      assert Layout(chip, ps) + rest == rest;
    } else {
      var n := |ps| - 1;
      var more := Record(chip, ps[n]) + rest;
      WalkLayout(chip, ps[..n], more);
      WalkOne(chip, ps[n], rest);
      LayoutSplit(chip, ps, rest);
      ReceivedSplit(chip, ps, Walk(chip, rest));
    }
  }

  lemma LayoutSplit(chip: Chip, ps: seq<seq<byte>>, rest: seq<byte>)
    requires ps != []
    ensures var n := |ps| - 1;
            Layout(chip, ps) + rest == Layout(chip, ps[..n]) + (Record(chip, ps[n]) + rest)
  {
    var n := |ps| - 1;
    Assoc(Layout(chip, ps[..n]), Record(chip, ps[n]), rest);
  }

  lemma Assoc<T>(a: seq<T>, b: seq<T>, c: seq<T>)
    ensures (a + b) + c == a + (b + c)
  {
  }

  lemma ReceivedSplit(chip: Chip, ps: seq<seq<byte>>, w: seq<seq<byte>>)
    requires ps != []
    ensures var n := |ps| - 1;
            ReceivedAll(chip, ps) + w == ReceivedAll(chip, ps[..n]) + ([Received(chip, ps[n])] + w)
  {
    var n := |ps| - 1;
    assert ReceivedAll(chip, ps) == ReceivedAll(chip, ps[..n]) + [Received(chip, ps[n])];
  }

  function RoundUpBlock(n: nat): (r: nat)
    ensures r % BLOCK == 0 && n <= r < n + BLOCK
  {
    var k := (n + BLOCK - 1) / BLOCK;
    BLOCK * k
  }

  /** What may follow the layout in a transfer: nothing, or a zero word and then anything. */
  ghost predicate IsTrailer(rest: seq<byte>)
  {
    rest == [] || (|rest| >= 4 && rest[..4] == [0, 0, 0, 0])
  }

  /** The zero word hides the stale bytes: the reader recovers exactly the frames of the transfer. */
  lemma TransferRecovered(chip: Chip, ps: seq<seq<byte>>, rest: seq<byte>)
    requires forall k :: 0 <= k < |ps| ==> Fits(chip, ps[k])
    requires IsTrailer(rest)
    ensures Walk(chip, Layout(chip, ps) + rest) == ReceivedAll(chip, ps)
  {
    WalkStops(chip, rest);
    WalkLayout(chip, ps, rest);
  }

  lemma WalkStops(chip: Chip, rest: seq<byte>)
    requires IsTrailer(rest)
    ensures Walk(chip, rest) == []
  {
    if rest != [] {
      assert rest[0] == rest[..4][0] && rest[1] == rest[..4][1];
    }
  }

  // ----- The buffer -----------------------------------------------------------------------------

  /** A frame of the queue: its descriptor and its data. */
  datatype Packet = Packet(desc: seq<byte>, data: seq<byte>)
  {
    function Payload(): seq<byte> { desc + data }
  }

  class AggrBuf {
    const chip: Chip
    const buf: array<byte>
    var tail: nat
    var count: nat
    /** The payloads appended since the last reset. */
    ghost var payloads: seq<seq<byte>>

    ghost predicate Valid()
      reads this, buf
    {
      && buf.Length % BLOCK == 0
      && tail <= buf.Length && tail % 4 == 0
      && count == |payloads| && (count == 0 <==> tail == 0)
      && buf[..tail] == Layout(chip, payloads)
    }

    constructor (chip: Chip, blocks: nat)
      ensures Valid() && fresh(buf) && buf.Length == BLOCK * blocks && this.chip == chip && payloads == []
    {
      this.chip := chip;
      buf := new byte[BLOCK * blocks];
      tail, count, payloads := 0, 0, [];
    }

    method Reset()
      requires buf.Length % BLOCK == 0
      modifies this
      ensures Valid() && payloads == [] && tail == 0 == count
    {
      tail, count, payloads := 0, 0, [];
    }

    /** The header as it is first written. */
    method MakeHeader(len: nat) returns (header: seq<byte>)
      ensures |header| == 4 && header[..3] == [len % 256, len / 256 % 16, 1]
      ensures header[3] == if chip.PadsLength() then 0 else HeaderCrc(header[..3])
    {
      var start: seq<byte> := [len % 256, len / 256 % 16, 1];
      header := start + [if chip.PadsLength() then 0 else HeaderCrc(start)];
      assert header[..3] == start;
    }

    /** Append one frame: header, descriptor, data, alignment, and on the chips that count it the
        padded length written back into the header. */
    method Aggr(pkt: Packet)
      requires Valid() && tail + 4 + RoundUp4(|pkt.Payload()|) <= buf.Length
      modifies this, buf
      ensures Valid() && payloads == old(payloads) + [pkt.desc + pkt.data]
      ensures tail == old(tail) + 4 + RoundUp4(|pkt.Payload()|)
    {
      WriteRecord(pkt);
      LayoutNext(chip, payloads, pkt.Payload());
      count := count + 1;
      payloads := payloads + [pkt.Payload()];
    }

    /** The record is laid behind the tail. */
    method WriteRecord(pkt: Packet)
      requires tail + 4 + RoundUp4(|pkt.Payload()|) <= buf.Length && tail % 4 == 0
      modifies this`tail, buf
      ensures tail == old(tail) + 4 + RoundUp4(|pkt.Payload()|) <= buf.Length && tail % 4 == 0
      ensures buf[..tail] == old(buf[..tail]) + Record(chip, pkt.Payload())
    {
      ghost var p, layout := pkt.Payload(), buf[..tail];
      var start := tail;
      var header := MakeHeader(|pkt.desc| + |pkt.data|);
      AppendRecord(header, pkt);
      var n := tail - start - 4;
      WriteBack(chip, layout, header, p);
      if chip.PadsLength() {
        Rewrite(start, n);
      }
    }

    /** Hand over the buffer in whole blocks. A zero word is laid after the last record unless the records
        fill their blocks exactly; what follows it is whatever the buffer held before. */
    method AggrSend() returns (block: seq<byte>)
      requires Valid()
      modifies this, buf
      ensures Valid() && payloads == [] && tail == 0
      ensures |block| % BLOCK == 0 && Layout(chip, old(payloads)) <= block
      ensures (forall k :: 0 <= k < |old(payloads)| ==> Fits(chip, old(payloads)[k])) ==>
        Walk(chip, block) == ReceivedAll(chip, old(payloads))
    {
      ghost var layout, word := buf[..tail], [];
      ZeroWordFits(tail, buf.Length);
      if tail % BLOCK != 0 {
        word := [0, 0, 0, 0];
        Append([0, 0, 0, 0]);
      }
      var len := RoundUpBlock(tail);
      TransferShape(buf[..], layout, word, len);
      block := buf[..len];
      if forall k :: 0 <= k < |payloads| ==> Fits(chip, payloads[k]) {
        TransferRecovered(chip, payloads, block[|layout|..]);
      }
      Reset();
    }

    /** Replace the length of the header at `start`. */
    method Rewrite(start: nat, n: nat)
      requires start + 4 <= tail <= buf.Length
      modifies buf
      ensures buf[..tail] == old(buf[..tail])[start := n % 256][start + 1 := n / 256 % 16]
    {
      buf[start] := n % 256;
      buf[start + 1] := n / 256 % 16;
    }

    /** The four copies of `Aggr`: header, descriptor, data and, if the end is not aligned, zeros. */
    method AppendRecord(header: seq<byte>, pkt: Packet)
      requires |header| == 4 && tail % 4 == 0 && tail + 4 + RoundUp4(|pkt.Payload()|) <= buf.Length
      modifies `tail, buf
      ensures tail == old(tail) + 4 + RoundUp4(|pkt.Payload()|) && tail % 4 == 0
      ensures buf[..tail] == old(buf[..tail]) + (header + Padded(pkt.desc + pkt.data))
    {
      ghost var layout := buf[..tail];
      PadAligned(tail, |pkt.Payload()|);
      Append(header);
      Append(pkt.desc);
      Append(pkt.data);
      assert buf[..tail] == layout + (header + pkt.Payload());
      var currLen := tail;
      if currLen % 4 != 0 {
        Append(ZeroBytes(RoundUp4(currLen) - currLen));
      }
      assert header + Padded(pkt.Payload()) == header + pkt.Payload() + ZeroBytes(RoundUp4(|pkt.Payload()|) - |pkt.Payload()|);
    }

    /** `memcpy` at the tail, which then moves past it. */
    method Append(bytes: seq<byte>)
      requires tail + |bytes| <= buf.Length
      modifies `tail, buf
      ensures tail == old(tail) + |bytes| && buf[..tail] == old(buf[..tail]) + bytes
    {
      Memcpy(buf, tail, bytes);
      tail := tail + |bytes|;
    }
  }

  lemma TransferShape(s: seq<byte>, layout: seq<byte>, word: seq<byte>, len: nat)
    requires |layout| + |word| <= len <= |s| && s[..|layout| + |word|] == layout + word
    requires if word == [] then len == |layout| else word == [0, 0, 0, 0]
    ensures s[..len] == layout + s[..len][|layout|..] && IsTrailer(s[..len][|layout|..])
  {
    var t := s[..|layout| + |word|];
    assert forall k :: 0 <= k < |t| ==> s[k] == t[k];
    assert forall k :: 0 <= k < |layout| ==> t[k] == layout[k];
    assert forall k :: 0 <= k < |word| ==> t[|layout| + k] == word[k];
    assert s[..len][..|layout|] == layout;
    if word != [] {
      assert s[..len][|layout|..][..4] == word;
    }
  }

  /** A partly filled block has room for the zero word, so it never costs another block. */
  lemma ZeroWordFits(tail: nat, length: nat)
    requires tail % 4 == 0 && tail <= length && length % BLOCK == 0
    ensures RoundUpBlock(tail) <= length
    ensures tail % BLOCK != 0 ==> tail + TAIL_LEN <= RoundUpBlock(tail) == RoundUpBlock(tail + TAIL_LEN) <= length
    ensures tail % BLOCK == 0 ==> RoundUpBlock(tail) == tail
  {
    var k, q, r := length / BLOCK, tail / BLOCK, tail % BLOCK;
    assert tail == BLOCK * q + r && length == BLOCK * k;
    WordsInBlock(q, r);
    if r == 0 {
      Quotient(tail + BLOCK - 1, q);
    } else {
      assert q < k;
      Quotient(tail + BLOCK - 1, q + 1);
      Quotient(tail + TAIL_LEN + BLOCK - 1, q + 1);
    }
  }

  lemma WordsInBlock(q: nat, r: nat)
    requires (BLOCK * q + r) % 4 == 0 && r < BLOCK
    ensures r <= BLOCK - 4
  {
    var w := (BLOCK * q + r) / 4;
    assert r == 4 * (w - 128 * q);
  }

  lemma Quotient(n: nat, q: nat)
    requires BLOCK * q <= n < BLOCK * q + BLOCK
    ensures n / BLOCK == q
  {
  }

  /** Writing the padded length back into the header completes the record. */
  lemma WriteBack(chip: Chip, layout: seq<byte>, header: seq<byte>, p: seq<byte>)
    requires |header| == 4 && header[..3] == [|p| % 256, |p| / 256 % 16, 1]
    requires header[3] == if chip.PadsLength() then 0 else HeaderCrc(header[..3])
    ensures var n, at, s := RoundUp4(|p|), |layout|, layout + (header + Padded(p));
            layout + Record(chip, p) == if chip.PadsLength() then s[at := n % 256][at + 1 := n / 256 % 16] else s
  {
    var n, at, s := RoundUp4(|p|), |layout|, layout + (header + Padded(p));
    if chip.PadsLength() {
      assert header[0 := n % 256][1 := n / 256 % 16] == Header(chip, p);
      assert s[at := n % 256][at + 1 := n / 256 % 16] == layout + (header[0 := n % 256][1 := n / 256 % 16] + Padded(p));
    } else {
      assert header == Header(chip, p);
    }
  }

  lemma LayoutNext(chip: Chip, ps: seq<seq<byte>>, p: seq<byte>)
    ensures Layout(chip, ps + [p]) == Layout(chip, ps) + Record(chip, p)
  {
    assert (ps + [p])[..|ps|] == ps;
  }

  lemma PadAligned(start: nat, n: nat)
    requires start % 4 == 0
    ensures (start + 4 + RoundUp4(n)) % 4 == 0
    ensures var end := start + 4 + n;
            (if end % 4 != 0 then RoundUp4(end) - end else 0) == RoundUp4(n) - n
  {
    var k := start / 4;
    assert (4 * k + 4 + n + 3) / 4 == k + 1 + (n + 3) / 4;
  }
}
