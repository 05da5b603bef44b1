/** Reassembly of Bluetooth HCI packets from a byte stream that arrives in arbitrary chunks. */
module HciReassembly {
  import opened Common

  const ACLDATA := 2
  const SCODATA := 3
  const EVENT := 4
  const NUM_REASSEMBLY := 4
  const EILSEQ := 84
  const ENOMEM := 12

  predicate IsType(t: int) { ACLDATA <= t <= EVENT }

  function HdrSize(t: int): nat
  {
    if t == ACLDATA then 4 else if t == SCODATA then 3 else 2
  }

  /** What `bt_skb_alloc` is asked for. */
  function MaxSize(t: int): nat
  {
    if t == ACLDATA then 1028 else if t == SCODATA then 255 else 260
  }

  /** The payload length a complete header declares: 16 bits for ACL data, 8 for the others. */
  function Declared(t: int, b: seq<byte>): nat
    requires |b| >= HdrSize(t)
  {
    if t == ACLDATA then b[2] + 256 * (b[3] as int) else if t == SCODATA then b[2] else b[1]
  }

  // ----- One-shot parsing -----------------------------------------------------------------------

  /** What the front of a stream holds. */
  datatype Front = Incomplete | Oversize | Frame(len: nat)

  /** The first packet of `s`, when a buffer has `slack` bytes beyond those asked for. */
  function FrontOf(t: int, slack: nat, s: seq<byte>): (f: Front)
    ensures f.Frame? ==> 0 < f.len <= |s|
  {
    var h := HdrSize(t);
    if |s| < h then Incomplete
    else
      var d := Declared(t, s);
      if h + d > MaxSize(t) + slack then Oversize
      else if |s| < h + d then Incomplete
      else Frame(h + d)
  }

  /** The packets of a stream, what is left of an incomplete one, and whether an oversize header stopped the parse. */
  datatype Parse = Parse(frames: seq<seq<byte>>, rest: seq<byte>, oversize: bool)

  function OneShot(t: int, slack: nat, s: seq<byte>): Parse
    decreases |s|
  {
    match FrontOf(t, slack, s)
    case Incomplete => Parse([], s, false)
    case Oversize => Parse([], [], true)
    case Frame(n) =>
      var r := OneShot(t, slack, s[n..]);
      Parse([s[..n]] + r.frames, r.rest, r.oversize)
  }

  lemma FrontStable(t: int, slack: nat, a: seq<byte>, b: seq<byte>)
    requires !FrontOf(t, slack, a).Incomplete?
    ensures FrontOf(t, slack, a + b) == FrontOf(t, slack, a)
  {
  }

  lemma {:induction false} RestIncomplete(t: int, slack: nat, s: seq<byte>)
    ensures FrontOf(t, slack, OneShot(t, slack, s).rest).Incomplete?
    decreases |s|
  {
    var f := FrontOf(t, slack, s);
    if f.Frame? {
      RestIncomplete(t, slack, s[f.len..]);
    }
  }

  /** Parsing may stop after `a` and resume on what was left of it. */
  lemma {:induction false} OneShotConcat(t: int, slack: nat, a: seq<byte>, b: seq<byte>)
    ensures var p := OneShot(t, slack, a);
            if p.oversize then OneShot(t, slack, a + b).oversize
            else
              var q := OneShot(t, slack, p.rest + b);
              OneShot(t, slack, a + b) == Parse(p.frames + q.frames, q.rest, q.oversize)
    decreases |a|
  {
    var f := FrontOf(t, slack, a);
    if !f.Incomplete? {
      FrontStable(t, slack, a, b);
      if f.Frame? {
        var n := f.len;
        assert (a + b)[n..] == a[n..] + b;
        assert (a + b)[..n] == a[..n];
        OneShotConcat(t, slack, a[n..], b);
        var p := OneShot(t, slack, a[n..]);
        var q := OneShot(t, slack, p.rest + b);
        assert [a[..n]] + (p.frames + q.frames) == ([a[..n]] + p.frames) + q.frames;
      }
    }
  }

  // ----- What a sender writes -------------------------------------------------------------------

  /** A packet as the core specification of Bluetooth lays it out (volume 4, part E, section 5.4). */
  datatype HciPacket =
    | Acl(handle0: byte, handle1: byte, data: seq<byte>)
    | Sco(handle0: byte, handle1: byte, data: seq<byte>)
    | Event(code: byte, data: seq<byte>)

  /** The length field can hold the length. */
  type Packet = p: HciPacket | |p.data| < (if p.Acl? then 65536 else 256) witness Event(0, [])

  /** The buffer that is asked for, with its slack, holds the packet. */
  predicate Fits(p: Packet, t: int, slack: nat)
  {
    match p
    case Acl(_, _, data) => t == ACLDATA && 4 + |data| <= 1028 + slack
    case Sco(_, _, data) => t == SCODATA && 3 + |data| <= 255 + slack
    case Event(_, data) => t == EVENT && 2 + |data| <= 260 + slack
  }

  function Written(p: Packet): seq<byte>
  {
    match p
    case Acl(h0, h1, data) => [h0, h1, |data| % 256, |data| / 256] + data
    case Sco(h0, h1, data) => [h0, h1, |data|] + data
    case Event(code, data) => [code, |data|] + data
  }

  function AllWritten(packets: seq<Packet>): (frames: seq<seq<byte>>)
    ensures |frames| == |packets|
  {
    seq(|packets|, k requires 0 <= k < |packets| => Written(packets[k]))
  }

  /** A stream of whole packets and the beginning of one more. */
  ghost predicate Carries(t: int, slack: nat, packets: seq<Packet>, next: Packet, tail: seq<byte>, s: seq<byte>)
  {
    && (forall p :: p in packets ==> Fits(p, t, slack))
    && Fits(next, t, slack) && tail < Written(next)
    && s == Flatten(AllWritten(packets)) + tail
  }

  lemma FrontWritten(p: Packet, t: int, slack: nat, rest: seq<byte>)
    requires Fits(p, t, slack)
    ensures FrontOf(t, slack, Written(p) + rest) == Frame(|Written(p)|)
  {
    var s := Written(p) + rest;
    assert s[..2] == Written(p)[..2];
    match p
    case Acl(h0, h1, data) => assert s[2] == |data| % 256 && s[3] == |data| / 256;
    case Sco(_, _, data) => assert s[2] == |data|;
    case Event(_, data) => assert s[1] == |data|;
  }

  lemma FrontBegun(p: Packet, t: int, slack: nat, tail: seq<byte>)
    requires Fits(p, t, slack) && tail < Written(p)
    ensures FrontOf(t, slack, tail) == Incomplete
  {
    if |tail| >= 2 {
      assert tail[1] == Written(p)[1];
    }
    if |tail| >= 4 {
      assert tail[2] == Written(p)[2] && tail[3] == Written(p)[3];
    } else if |tail| >= 3 {
      assert tail[2] == Written(p)[2];
    }
  }

  /** Parsing inverts writing: out come the packets, in order, and what has begun of the next. */
  lemma {:induction false} ParseInverts(t: int, slack: nat, packets: seq<Packet>, next: Packet, tail: seq<byte>, s: seq<byte>)
    requires Carries(t, slack, packets, next, tail, s)
    ensures OneShot(t, slack, s) == Parse(AllWritten(packets), tail, false)
  {
    if packets == [] {
      assert s == tail;
      FrontBegun(next, t, slack, tail);
    } else {
      var p, more := packets[0], packets[1..];
      var rest := Flatten(AllWritten(more)) + tail;
      FirstWritten(packets);
      AppendAssociative(Written(p), Flatten(AllWritten(more)), tail);
      FrontWritten(p, t, slack, rest);
      assert s[|Written(p)|..] == rest && s[..|Written(p)|] == Written(p);
      ParseInverts(t, slack, more, next, tail, rest);
    }
  }

  lemma FirstWritten(packets: seq<Packet>)
    requires packets != []
    ensures AllWritten(packets) == [Written(packets[0])] + AllWritten(packets[1..])
    ensures Flatten(AllWritten(packets)) == Written(packets[0]) + Flatten(AllWritten(packets[1..]))
  {
    assert AllWritten(packets)[1..] == AllWritten(packets[1..]);
  }

  /** A packet that does not fit the buffer is refused by its header, and no other is. */
  lemma RefusedExactly(p: Packet, slack: nat)
    ensures var t := if p.Acl? then ACLDATA else if p.Sco? then SCODATA else EVENT;
            OneShot(t, slack, Written(p)).oversize <==> !Fits(p, t, slack)
  {
    var t, s := if p.Acl? then ACLDATA else if p.Sco? then SCODATA else EVENT, Written(p);
    if Fits(p, t, slack) {
      FrontWritten(p, t, slack, []);
      assert s + [] == s && s[|s|..] == [];
    } else if p.Acl? {
      assert s[2] == |p.data| % 256 && s[3] == |p.data| / 256;
    }
  }

  // ----- Chunk by chunk -------------------------------------------------------------------------

  /** The packets delivered and the bytes left after these chunks of one type: each is parsed behind what the one before
      it left, which is nothing when an oversize header stopped it. */
  function Fed(t: int, slack: nat, chunks: seq<seq<byte>>): (seq<seq<byte>>, seq<byte>)
  {
    if chunks == [] then ([], [])
    else
      var (frames, left) := Fed(t, slack, chunks[..|chunks| - 1]);
      var p := OneShot(t, slack, left + chunks[|chunks| - 1]);
      (frames + p.frames, p.rest)
  }

  function Whole(t: int, slack: nat, s: seq<byte>): (seq<seq<byte>>, seq<byte>)
  {
    (OneShot(t, slack, s).frames, OneShot(t, slack, s).rest)
  }

  /** No oversize header is complete before the last byte. */
  predicate OversizeAtMostLast(t: int, slack: nat, s: seq<byte>)
  {
    s == [] || !OneShot(t, slack, s[..|s| - 1]).oversize
  }

  lemma NothingMore(t: int, slack: nat, s: seq<byte>)
    ensures var rest := OneShot(t, slack, s).rest; OneShot(t, slack, rest) == Parse([], rest, false)
  {
    RestIncomplete(t, slack, s);
  }

  lemma PrefixNotOversize(t: int, slack: nat, s: seq<byte>, n: nat)
    requires n <= |s| && !OneShot(t, slack, s).oversize
    ensures !OneShot(t, slack, s[..n]).oversize
  {
    assert s == s[..n] + s[n..];
    OneShotConcat(t, slack, s[..n], s[n..]);
  }

  /** One more chunk of a stream that was parsed as a whole so far. */
  lemma FedOneMore(t: int, slack: nat, chunks: seq<seq<byte>>, chunk: seq<byte>, s: seq<byte>)
    requires Fed(t, slack, chunks) == Whole(t, slack, s)
    requires chunk == [] || !OneShot(t, slack, s).oversize
    ensures Fed(t, slack, chunks + [chunk]) == Whole(t, slack, s + chunk)
  {
    var p := OneShot(t, slack, s);
    FedNext(t, slack, chunks, chunk);
    if chunk == [] {
      assert s + chunk == s && p.rest + chunk == p.rest;
      NothingMore(t, slack, s);
      assert p.frames + [] == p.frames;
    } else {
      OneShotConcat(t, slack, s, chunk);
    }
  }

  lemma {:induction false} FedWhole(t: int, slack: nat, chunks: seq<seq<byte>>)
    requires OversizeAtMostLast(t, slack, Flatten(chunks))
    ensures Fed(t, slack, chunks) == Whole(t, slack, Flatten(chunks))
  {
    if chunks != [] {
      var init, last := chunks[..|chunks| - 1], chunks[|chunks| - 1];
      var before, s := Flatten(init), Flatten(chunks);
      assert chunks == init + [last];
      FlattenAppend(init, last);
      if last == [] {
        assert s == before;
      } else {
        assert before == s[..|s| - 1][..|before|];
        PrefixNotOversize(t, slack, s[..|s| - 1], |before|);
        if before != [] {
          PrefixNotOversize(t, slack, before, |before| - 1);
        }
      }
      FedWhole(t, slack, init);
      FedOneMore(t, slack, init, last, before);
    }
  }

  /** How a stream is cut into chunks never matters if and only if no oversize header is complete before its last byte.
      Otherwise cutting off that byte makes the difference: it stays pending, while in one chunk it is thrown away. */
  lemma ChunksMatterExactly(t: int, slack: nat, s: seq<byte>)
    ensures OversizeAtMostLast(t, slack, s) <==>
      forall chunks: seq<seq<byte>> :: Flatten(chunks) == s ==> Fed(t, slack, chunks) == Whole(t, slack, s)
  {
    if OversizeAtMostLast(t, slack, s) {
      forall chunks: seq<seq<byte>> | Flatten(chunks) == s
        ensures Fed(t, slack, chunks) == Whole(t, slack, s)
      {
        FedWhole(t, slack, chunks);
      }
    } else {
      var a, b := s[..|s| - 1], s[|s| - 1..];
      CutOffLast(t, slack, a, b);
      assert s == a + b;
    }
  }

  lemma WholePackets(t: int, slack: nat, packets: seq<Packet>, next: Packet, tail: seq<byte>, s: seq<byte>)
    requires Carries(t, slack, packets, next, tail, s)
    ensures OversizeAtMostLast(t, slack, s) && Whole(t, slack, s) == (AllWritten(packets), tail)
  {
    ParseInverts(t, slack, packets, next, tail, s);
    if s != [] {
      PrefixNotOversize(t, slack, s, |s| - 1);
    }
  }

  lemma CutOffLast(t: int, slack: nat, a: seq<byte>, b: seq<byte>)
    requires |b| == 1 && OneShot(t, slack, a).oversize
    ensures Flatten([a, b]) == a + b
    ensures Fed(t, slack, [a, b]).1 == b && Whole(t, slack, a + b).1 == []
  {
    assert [a, b] == [a] + [b] && [a] == [] + [a];
    FlattenAppend([a], b);
    FlattenAppend([], a);
    FedOneMore(t, slack, [], a, []);
    FedNext(t, slack, [a], b);
    OneShotConcat(t, slack, a, b);
    OversizeLeavesNothing(t, slack, a);
    OversizeLeavesNothing(t, slack, a + b);
    assert [] + a == a && [] + b == b;
  }

  /** Such a stream: an ACL header that declares 65535 bytes, and one byte more. */
  lemma OversizeWitness(slack: nat)
    requires slack < 60000
    ensures !OversizeAtMostLast(ACLDATA, slack, [0, 0, 255, 255, 7])
  {
    var s: seq<byte> := [0, 0, 255, 255, 7];
    var header: seq<byte> := [0, 0, 255, 255];
    assert s[..|s| - 1] == header;
    assert FrontOf(ACLDATA, slack, header).Oversize?;
    assert OneShot(ACLDATA, slack, header).oversize;
  }

  lemma {:induction false} OversizeLeavesNothing(t: int, slack: nat, s: seq<byte>)
    requires OneShot(t, slack, s).oversize
    ensures OneShot(t, slack, s).rest == []
    decreases |s|
  {
    var f := FrontOf(t, slack, s);
    if f.Frame? {
      OversizeLeavesNothing(t, slack, s[f.len..]);
    }
  }

  // ----- The device -----------------------------------------------------------------------------

  /** A packet being assembled. */
  datatype Partial = Partial(bytes: seq<byte>, wanted: nat)

  /** How many bytes the packet that starts with `b` still needs, as far as its header tells. */
  function Needed(t: int, b: seq<byte>): int
  {
    var h := HdrSize(t);
    if |b| < h then h - |b| else h + Declared(t, b) - |b|
  }

  ghost predicate Pending(t: int, slack: nat, p: Partial)
  {
    && p.bytes != [] && 0 < p.wanted == Needed(t, p.bytes)
    && FrontOf(t, slack, p.bytes).Incomplete?
  }

  class HciDev {
    const slack: nat
    const reassembly: array<Option<Partial>>
    /** The packets handed to `hci_recv_frame`, with their types. */
    ghost var delivered: seq<(int, seq<byte>)>

    ghost predicate Valid()
      reads this, reassembly
    {
      && reassembly.Length == NUM_REASSEMBLY
      && forall t :: IsType(t) && reassembly[t - 1].Some? ==> Pending(t, slack, reassembly[t - 1].value)
    }

    ghost function Left(t: int): seq<byte>
      requires Valid() && IsType(t)
      reads this, reassembly
    {
      if reassembly[t - 1].Some? then reassembly[t - 1].value.bytes else []
    }

    constructor (slack: nat)
      ensures Valid() && fresh(reassembly) && this.slack == slack && delivered == []
      ensures forall t :: IsType(t) ==> Left(t) == []
    {
      this.slack := slack;
      reassembly := new Option<Partial>[NUM_REASSEMBLY](_ => None);
      delivered := [];
    }

    /** `hci_reassembly`: take bytes until one packet is complete or the data is used up.
        At least one byte is consumed, because a stored packet always expects more. */
    method Reassembly(t: int, data: seq<byte>) returns (remain: int)
      requires Valid() && IsType(t) && data != []
      modifies this, reassembly
      ensures Valid() && remain < |data|
      ensures forall u :: IsType(u) && u != t ==> Left(u) == old(Left(u))
      ensures var s := old(Left(t)) + data;
              match FrontOf(t, slack, s)
              case Incomplete => remain == 0 && Left(t) == s && delivered == old(delivered)
              case Oversize => remain == -ENOMEM && Left(t) == [] && delivered == old(delivered)
              case Frame(n) => remain == |s| - n && Left(t) == [] && delivered == old(delivered) + [(t, s[..n])]
    {
      ghost var s := Left(t) + data;
      var skb := if reassembly[t - 1].Some? then reassembly[t - 1].value else Partial([], HdrSize(t));
      var rest := data;
      while rest != []
        invariant Valid() && delivered == old(delivered)
        invariant |rest| <= |data| && skb.bytes + rest == s
        invariant 0 < skb.wanted == Needed(t, skb.bytes) && FrontOf(t, slack, skb.bytes).Incomplete?
        invariant rest != data ==> reassembly[t - 1] == Some(skb) && skb.bytes != []
        invariant forall u :: IsType(u) && u != t ==> Left(u) == old(Left(u))
        decreases |rest|
      {
        var len := if skb.wanted < |rest| then skb.wanted else |rest|;
        MovePiece(skb.bytes, rest, len);
        var fed, front := Feed(t, slack, skb, rest[..len]);
        skb, rest := fed, rest[len..];
        if front.Incomplete? {
          reassembly[t - 1] := Some(skb);
        } else {
          FrontStable(t, slack, skb.bytes, rest);
          reassembly[t - 1] := None;
          if front.Oversize? {
            return -ENOMEM;
          }
          assert s[..|skb.bytes|] == skb.bytes;
          delivered := delivered + [(t, skb.bytes)];
          return |rest|;
        }
      }
      assert skb.bytes == s;
      remain := 0;
    }

    /** `hci_recv_fragment`: one chunk of one packet type. What is delivered and what stays pending is the one-shot
        parse of everything pending plus the chunk; an oversize header ends the call, drops the rest of the chunk
        and is reported. */
    method RecvFragment(t: int, data: seq<byte>) returns (rem: int)
      requires Valid()
      modifies this, reassembly
      ensures Valid()
      ensures !IsType(t) ==> rem == -EILSEQ && delivered == old(delivered) && unchanged(reassembly)
      ensures IsType(t) ==>
        var p := OneShot(t, slack, old(Left(t)) + data);
        && (rem < 0 <==> p.oversize)
        && Left(t) == p.rest
        && delivered == old(delivered) + Tagged(t, p.frames)
      ensures forall u :: IsType(u) && u != t ==> Left(u) == old(Left(u))
    {
      rem := 0;
      if !IsType(t) {
        return -EILSEQ;
      }
      var rest := data;
      ghost var whole, done := OneShot(t, slack, Left(t) + data), [];
      while rest != []
        invariant Valid() && rem >= 0
        invariant forall u :: IsType(u) && u != t ==> Left(u) == old(Left(u))
        invariant delivered == old(delivered) + Tagged(t, done)
        invariant Continues(t, slack, whole, done, Left(t) + rest)
        decreases |rest|
      {
        rem, rest, done := RecvPacket(t, rest, old(delivered), whole, done);
        if rem < 0 {
          return;
        }
      }
      PendingIncomplete(t);
      assert Left(t) + rest == Left(t);
    }

    /** One call of `hci_reassembly` on what is left of a chunk. */
    method RecvPacket(t: int, data: seq<byte>, ghost before: seq<(int, seq<byte>)>, ghost whole: Parse, ghost done: seq<seq<byte>>)
      returns (rem: int, rest: seq<byte>, ghost more: seq<seq<byte>>)
      requires Valid() && IsType(t) && data != []
      requires delivered == before + Tagged(t, done) && Continues(t, slack, whole, done, Left(t) + data)
      modifies this, reassembly
      ensures Valid() && |rest| < |data|
      ensures forall u :: IsType(u) && u != t ==> Left(u) == old(Left(u))
      ensures delivered == before + Tagged(t, more)
      ensures if rem < 0 then whole == Parse(more, [], true) && Left(t) == [] else Continues(t, slack, whole, more, Left(t) + rest)
    {
      ghost var s := Left(t) + data;
      ghost var f := FrontOf(t, slack, s);
      ShotStep(t, slack, s, whole, done);
      rem := Reassembly(t, data);
      more, rest := done, [];
      if rem < 0 {
        return;
      }
      rest := data[|data| - rem..];
      if f.Frame? {
        assert s[f.len..] == Left(t) + rest;
        TaggedNext(t, done, s[..f.len]);
        AppendAssociative(before, Tagged(t, done), [(t, s[..f.len])]);
        more := done + [s[..f.len]];
      } else {
        assert Left(t) + rest == s;
      }
    }

    lemma PendingIncomplete(t: int)
      requires Valid() && IsType(t)
      ensures FrontOf(t, slack, Left(t)).Incomplete?
    {
    }

    /** What was delivered and what is pending for one type is what these chunks give. */
    ghost predicate Parsed(t: int, chunks: seq<seq<byte>>)
      requires Valid() && IsType(t)
      reads this, reassembly
    {
      (FramesOf(t, delivered), Left(t)) == Fed(t, slack, chunks)
    }

    method RecvNext(ghost events: seq<(int, seq<byte>)>, t: int, data: seq<byte>)
      requires Valid() && forall u :: IsType(u) ==> Parsed(u, ChunksOf(u, events))
      modifies this, reassembly
      ensures Valid() && forall u :: IsType(u) ==> Parsed(u, ChunksOf(u, events + [(t, data)]))
    {
      ghost var before, left := delivered, if IsType(t) then Left(t) else [];
      var rem := RecvFragment(t, data);
      forall u | IsType(u)
        ensures Parsed(u, ChunksOf(u, events + [(t, data)]))
      {
        ChunksNext(u, events, t, data);
        if IsType(t) {
          ghost var frames := OneShot(t, slack, left + data).frames;
          FramesConcat(u, before, Tagged(t, frames));
          FramesTagged(u, t, frames);
          if u == t {
            FedNext(t, slack, ChunksOf(t, events), data);
          } else {
            assert FramesOf(u, delivered) == FramesOf(u, before);
          }
        } else {
          assert t != u;
        }
      }
    }

    /** Any number of chunks of any types in any order: each type delivers and keeps pending what its own chunks give,
        whatever comes in between. That is the one-shot parse of its stream unless an oversize header is complete
        before the last byte. So if it is a stream of packets that fit, these are delivered, whatever the chunks. */
    method RecvAll(events: seq<(int, seq<byte>)>)
      requires Valid() && delivered == [] && forall t :: IsType(t) ==> Left(t) == []
      modifies this, reassembly
      ensures Valid() && forall t :: IsType(t) ==> Parsed(t, ChunksOf(t, events))
      ensures forall t :: IsType(t) && OversizeAtMostLast(t, slack, StreamOf(t, events)) ==>
        (FramesOf(t, delivered), Left(t)) == Whole(t, slack, StreamOf(t, events))
      ensures forall t, packets, next, tail :: IsType(t) && Carries(t, slack, packets, next, tail, StreamOf(t, events)) ==>
        FramesOf(t, delivered) == AllWritten(packets) && Left(t) == tail
    {
      for k := 0 to |events|
        invariant Valid() && forall t :: IsType(t) ==> Parsed(t, ChunksOf(t, events[..k]))
      {
        assert events[..k] + [(events[k].0, events[k].1)] == events[..k + 1];
        RecvNext(events[..k], events[k].0, events[k].1);
      }
      assert events[..|events|] == events;
      forall t | IsType(t) && OversizeAtMostLast(t, slack, StreamOf(t, events))
        ensures (FramesOf(t, delivered), Left(t)) == Whole(t, slack, StreamOf(t, events))
      {
        FedWhole(t, slack, ChunksOf(t, events));
      }
      forall t, packets, next, tail | IsType(t) && Carries(t, slack, packets, next, tail, StreamOf(t, events))
        ensures FramesOf(t, delivered) == AllWritten(packets) && Left(t) == tail
      {
        WholePackets(t, slack, packets, next, tail, StreamOf(t, events));
      }
    }
  }

  /** `whole` is what was parsed so far followed by the parse of `s`. */
  predicate Continues(t: int, slack: nat, whole: Parse, done: seq<seq<byte>>, s: seq<byte>)
  {
    var next := OneShot(t, slack, s);
    whole == Parse(done + next.frames, next.rest, next.oversize)
  }

  lemma ShotStep(t: int, slack: nat, s: seq<byte>, whole: Parse, done: seq<seq<byte>>)
    requires Continues(t, slack, whole, done, s)
    ensures match FrontOf(t, slack, s)
            case Incomplete => whole == Parse(done, s, false)
            case Oversize => whole == Parse(done, [], true)
            case Frame(n) => Continues(t, slack, whole, done + [s[..n]], s[n..])
  {
  }

  lemma TaggedNext(t: int, done: seq<seq<byte>>, frame: seq<byte>)
    ensures Tagged(t, done) + [(t, frame)] == Tagged(t, done + [frame])
  {
  }

  lemma MovePiece(a: seq<byte>, b: seq<byte>, n: nat)
    requires n <= |b|
    ensures (a + b[..n]) + b[n..] == a + b
  {
  }

  function Tagged(t: int, frames: seq<seq<byte>>): (tagged: seq<(int, seq<byte>)>)
    ensures |tagged| == |frames|
  {
    seq(|frames|, k requires 0 <= k < |frames| => (t, frames[k]))
  }

  /** The chunks of one packet type among chunks of all types. */
  function ChunksOf(t: int, events: seq<(int, seq<byte>)>): seq<seq<byte>>
  {
    if events == [] then []
    else
      var last := events[|events| - 1];
      ChunksOf(t, events[..|events| - 1]) + (if last.0 == t then [last.1] else [])
  }

  function StreamOf(t: int, events: seq<(int, seq<byte>)>): seq<byte>
  {
    Flatten(ChunksOf(t, events))
  }

  lemma ChunksNext(u: int, events: seq<(int, seq<byte>)>, t: int, data: seq<byte>)
    ensures ChunksOf(u, events + [(t, data)]) == if t == u then ChunksOf(u, events) + [data] else ChunksOf(u, events)
  {
    assert (events + [(t, data)])[..|events|] == events;
  }

  lemma FedNext(t: int, slack: nat, chunks: seq<seq<byte>>, chunk: seq<byte>)
    ensures var (frames, left) := Fed(t, slack, chunks);
            var p := OneShot(t, slack, left + chunk);
            Fed(t, slack, chunks + [chunk]) == (frames + p.frames, p.rest)
  {
    assert (chunks + [chunk])[..|chunks|] == chunks;
  }

  /** The packets of one type among packets of all types. */
  function FramesOf(t: int, delivered: seq<(int, seq<byte>)>): seq<seq<byte>>
  {
    if delivered == [] then []
    else (if delivered[0].0 == t then [delivered[0].1] else []) + FramesOf(t, delivered[1..])
  }

  lemma {:induction false} FramesConcat(t: int, a: seq<(int, seq<byte>)>, b: seq<(int, seq<byte>)>)
    ensures FramesOf(t, a + b) == FramesOf(t, a) + FramesOf(t, b)
  {
    if a == [] {
      assert a + b == b;
    } else {
      FramesConcat(t, a[1..], b);
      var first := if a[0].0 == t then [a[0].1] else [];
      assert FramesOf(t, a + b) == first + FramesOf(t, a[1..] + b) by {
        assert (a + b)[1..] == a[1..] + b;
      }
    }
  }

  lemma {:induction false} FramesTagged(u: int, t: int, frames: seq<seq<byte>>)
    ensures FramesOf(u, Tagged(t, frames)) == if u == t then frames else []
  {
    if frames != [] {
      FramesTagged(u, t, frames[1..]);
      assert Tagged(t, frames)[1..] == Tagged(t, frames[1..]);
    }
  }

  /** One copy into the buffer of a packet: at most as many bytes as it still wants. A header that becomes
      complete sets the new goal and is checked against the room left. */
  method Feed(t: int, slack: nat, skb: Partial, piece: seq<byte>) returns (fed: Partial, front: Front)
    requires IsType(t) && 0 < |piece| <= skb.wanted == Needed(t, skb.bytes) && FrontOf(t, slack, skb.bytes).Incomplete?
    ensures fed.bytes == skb.bytes + piece && front == FrontOf(t, slack, fed.bytes)
    ensures front.Incomplete? ==> 0 < fed.wanted == Needed(t, fed.bytes)
    ensures front.Frame? ==> front.len == |fed.bytes|
  {
    fed := Partial(skb.bytes + piece, skb.wanted - |piece|);
    if |fed.bytes| == HdrSize(t) {
      fed := fed.(wanted := Declared(t, fed.bytes));
      if MaxSize(t) + slack - |fed.bytes| < fed.wanted {
        return fed, Oversize;
      }
    } else {
      HeaderKept(t, skb.bytes, fed.bytes);
    }
    front := if fed.wanted == 0 then Frame(|fed.bytes|) else Incomplete;
  }

  /** Bytes behind a complete header do not change what it declares. */
  lemma HeaderKept(t: int, b: seq<byte>, b': seq<byte>)
    requires b <= b' && |b'| != HdrSize(t) && (|b| < HdrSize(t) ==> |b'| < HdrSize(t))
    ensures Needed(t, b') == Needed(t, b) - (|b'| - |b|)
  {
  }
}
