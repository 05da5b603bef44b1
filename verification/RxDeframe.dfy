/** Taking apart the receive buffers: data and configuration records, each padded to four bytes. */
module RxDeframe {
  import opened Common

  const RX_HWHRD_LEN := 60
  const SDIO_TYPE_CFG_CMD_RSP := 0x11
  const SDIO_TYPE_CFG_DATA_CFM := 0x12
  const SDIO_TYPE_CFG_PRINT := 0x13
  const EBADE := 52
  const TWO_16 := 65536

  // ----- Records --------------------------------------------------------------------------------

  /** A record as it lies in a buffer, without its padding: length, type, and what belongs to it. */
  type Record = r: seq<byte> | |r| >= 4 witness [1, 0, 0x10, 0]

  function Length(b: seq<byte>): nat
    requires |b| >= 2
  {
    b[0] + 256 * (b[1] as int)
  }

  /** The bit `SDIO_TYPE_CFG` of the type. */
  predicate IsConfig(b: seq<byte>)
    requires |b| >= 3
  {
    b[2] / 16 % 2 == 1
  }

  /** The size of a record with this length field. */
  function Size(config: bool, len: nat): (n: nat)
    ensures n >= 4
  {
    if config then len + 4 else len + RX_HWHRD_LEN
  }

  predicate InRange(config: bool, len: nat)
  {
    0 < len <= if config then 65532 else 65472
  }

  /** How far the read pointer moves; `aggr_len` and `adjust_len` are 16 bits wide. */
  function Advance(config: bool, len: nat): nat
  {
    if config then RoundUp4(len) % TWO_16 + 4 else RoundUp4((len + RX_HWHRD_LEN) % TWO_16) % TWO_16
  }

  /** The pointer moves past the record, padding included, exactly if the length is small enough. For the four data
      lengths above that it does not move at all, and the loop never ends. */
  lemma AdvanceExactly(config: bool, len: nat)
    requires 0 < len < TWO_16
    ensures Advance(config, len) == RoundUp4(Size(config, len)) <==> InRange(config, len)
    ensures Advance(config, len) == 0 <==> !config && 65473 <= len <= 65476
  {
    if config {
      assert RoundUp4(len + 4) == RoundUp4(len) + 4;
    }
  }

  /** `aggr_len` and `adjust_len` as they are computed. */
  method Adjust(aggrLen: nat) returns (adjustLen: nat)
    requires aggrLen < TWO_16
    ensures adjustLen == RoundUp4(aggrLen) % TWO_16
  {
    if aggrLen % 4 != 0 {
      adjustLen := RoundUp4(aggrLen) % TWO_16;
    } else {
      adjustLen := aggrLen;
    }
  }

  /** A record that its sender may write. */
  predicate WellFormed(r: Record)
  {
    InRange(IsConfig(r), Length(r)) && |r| == Size(IsConfig(r), Length(r))
  }

  // ----- Walking through a buffer ---------------------------------------------------------------

  function Rest(b: seq<byte>, n: nat): seq<byte>
  {
    if n < |b| then b[n..] else []
  }

  /** The records of a buffer, up to its end or to a zero length; none if one is out of range or cut off. */
  function Records(b: seq<byte>): (records: Option<seq<Record>>)
    ensures records.Some? ==> forall r :: r in records.value ==> WellFormed(r)
    decreases |b|
  {
    if |b| == 0 then Some([])
    else if |b| < 2 then None
    else if Length(b) == 0 then Some([])
    else if |b| < 4 then None
    else
      var size := Size(IsConfig(b), Length(b));
      if !InRange(IsConfig(b), Length(b)) || size > |b| then None
      else
        var more := Records(Rest(b, RoundUp4(size)));
        if more.None? then None else Some([b[..size]] + more.value)
  }

  /** What a sender puts into a buffer: records, each followed by padding that fills up the last word. */
  datatype Padded = Padded(record: Record, pad: seq<byte>)

  predicate Fits(p: Padded)
  {
    WellFormed(p.record) && |p.record + p.pad| == RoundUp4(|p.record|)
  }

  /** What may lie behind the last record: nothing, or something that begins with a zero length. */
  predicate Ending(tail: seq<byte>)
  {
    tail == [] || (|tail| >= 2 && Length(tail) == 0)
  }

  function Layout(padded: seq<Padded>, tail: seq<byte>): seq<byte>
  {
    if padded == [] then tail else padded[0].record + padded[0].pad + Layout(padded[1..], tail)
  }

  function Bare(padded: seq<Padded>): seq<Record>
  {
    if padded == [] then [] else [padded[0].record] + Bare(padded[1..])
  }

  /** De-framing inverts the layout: the walk finds the records, in order, whatever the padding holds, and stops at
      the end of the buffer or at a zero length. */
  lemma {:induction false} WalkInvertsLayout(padded: seq<Padded>, tail: seq<byte>)
    requires forall p :: p in padded ==> Fits(p)
    requires Ending(tail)
    ensures Records(Layout(padded, tail)) == Some(Bare(padded))
  {
    if padded != [] {
      assert Fits(padded[0]);
      WalkInvertsLayout(padded[1..], tail);
      FirstRecord(padded[0].record, padded[0].pad, Layout(padded[1..], tail));
    }
  }

  lemma FirstRecord(r: Record, pad: seq<byte>, rest: seq<byte>)
    requires Fits(Padded(r, pad)) && Records(rest).Some?
    ensures Records(r + pad + rest) == Some([r] + Records(rest).value)
  {
    var b := r + pad + rest;
    assert b[..|r|] == r;
    assert b[|r + pad|..] == rest && Rest(b, |r + pad|) == rest;
    assert Length(b) == Length(r) && IsConfig(b) == IsConfig(r);
  }

  // ----- What becomes of the records ------------------------------------------------------------

  datatype Delivery =
    | ToNet(frame: seq<byte>)
    | Response(msg: seq<byte>)
    | TxConfirm(msg: seq<byte>)
    | Print(msg: seq<byte>)

  /** A configuration record goes by the seven low bits of its type; responses only while the bus is up. */
  function Dispatch(r: Record, busUp: bool): seq<Delivery>
  {
    var t := r[2] % 128;
    if t == SDIO_TYPE_CFG_CMD_RSP then (if busUp then [Response(r[4..])] else [])
    else if t == SDIO_TYPE_CFG_DATA_CFM then [TxConfirm(r[4..])]
    else if t == SDIO_TYPE_CFG_PRINT then [Print(r[4..])]
    else []
  }

  /** What was handed on, the allocations made, and whether one for a configuration record failed. */
  datatype Outcome = Outcome(out: seq<Delivery>, allocs: nat, failed: bool)

  /** Data without memory is skipped; a configuration record without memory ends the processing. */
  function Handle(records: seq<Record>, busUp: bool, memory: nat -> bool, k: nat): Outcome
  {
    if records == [] then Outcome([], k, false)
    else
      var r := records[0];
      if IsConfig(r) && !memory(k) then Outcome([], k + 1, true)
      else
        var later := Handle(records[1..], busUp, memory, k + 1);
        Outcome(Now(r, busUp, memory(k)) + later.out, later.allocs, later.failed)
  }

  /** What becomes of one record. */
  function Now(r: Record, busUp: bool, memory: bool): seq<Delivery>
  {
    if !memory then [] else if IsConfig(r) then Dispatch(r, busUp) else [ToNet(r)]
  }

  function Expected(records: seq<Record>, busUp: bool): seq<Delivery>
  {
    if records == [] then []
    else (if IsConfig(records[0]) then Dispatch(records[0], busUp) else [ToNet(records[0])]) + Expected(records[1..], busUp)
  }

  lemma {:induction false} EnoughMemory(records: seq<Record>, busUp: bool, memory: nat -> bool, k: nat)
    requires forall j: nat :: memory(j)
    ensures Handle(records, busUp, memory, k) == Outcome(Expected(records, busUp), k + |records|, false)
  {
    if records != [] {
      EnoughMemory(records[1..], busUp, memory, k + 1);
    }
  }

  /** The allocation for some configuration record fails; every record tries one, in turn from `k` on. */
  ghost predicate MessageFails(records: seq<Record>, memory: nat -> bool, k: nat)
  {
    exists i :: 0 <= i < |records| && IsConfig(records[i]) && !memory(k + i)
  }

  /** The processing ends early exactly if the allocation for a configuration record fails. Failures for data records
      never matter, however many there are. */
  lemma {:induction false} FailsExactly(records: seq<Record>, busUp: bool, memory: nat -> bool, k: nat)
    ensures Handle(records, busUp, memory, k).failed <==> MessageFails(records, memory, k)
    ensures !MessageFails(records, memory, k) ==> Handle(records, busUp, memory, k).allocs == k + |records|
  {
    if records != [] {
      var later := records[1..];
      FailsExactly(later, busUp, memory, k + 1);
      if MessageFails(records, memory, k) {
        var i :| 0 <= i < |records| && IsConfig(records[i]) && !memory(k + i);
        if i > 0 {
          assert IsConfig(later[i - 1]) && !memory(k + 1 + (i - 1));
        }
      }
      if MessageFails(later, memory, k + 1) {
        var i :| 0 <= i < |later| && IsConfig(later[i]) && !memory(k + 1 + i);
        assert IsConfig(records[i + 1]) && !memory(k + (i + 1));
      }
      assert IsConfig(records[0]) && !memory(k + 0) ==> MessageFails(records, memory, k);
    }
  }

  /** Two lists of records handled one after the other. */
  lemma {:induction false} HandleConcat(a: seq<Record>, b: seq<Record>, busUp: bool, memory: nat -> bool, k: nat)
    ensures var first := Handle(a, busUp, memory, k);
            if first.failed then Handle(a + b, busUp, memory, k) == first
            else Continues(Handle(a + b, busUp, memory, k), first.out, Handle(b, busUp, memory, first.allocs))
  {
    if a == [] {
      assert a + b == b;
    } else {
      assert (a + b)[1..] == a[1..] + b && (a + b)[0] == a[0];
      HandleConcat(a[1..], b, busUp, memory, k + 1);
      HandleFirst(a, busUp, memory, k);
      HandleFirst(a + b, busUp, memory, k);
      var first := Handle(a[1..], busUp, memory, k + 1);
      AppendAssociative(Now(a[0], busUp, memory(k)), first.out, Handle(b, busUp, memory, first.allocs).out);
    }
  }

  lemma HandleFirst(records: seq<Record>, busUp: bool, memory: nat -> bool, k: nat)
    requires records != []
    ensures var r := records[0];
            var later := Handle(records[1..], busUp, memory, k + 1);
            Handle(records, busUp, memory, k) ==
            if IsConfig(r) && !memory(k) then Outcome([], k + 1, true)
            else Outcome(Now(r, busUp, memory(k)) + later.out, later.allocs, later.failed)
  {
  }

  /** `aicwf_another_ptk_1` */
  method AnotherPtk(data: seq<byte>, read: nat, ghost records: seq<Record>) returns (another: bool)
    requires StandsAt(data, read, records)
    ensures another <==> records != []
    ensures another ==> |data| >= read + 2 && Length(data[read..]) != 0
  {
    if read >= |data| {
      return false;
    }
    var aggrLen := data[read] + 256 * (data[read + 1] as int);
    another := aggrLen != 0;
  }

  /** One turn of the loop, for the record `b` begins with. */
  method HandleRecord(b: seq<byte>, busUp: bool, memory: bool) returns (now: seq<Delivery>, step: nat, failed: bool)
    requires Records(b).Some? && |b| >= 2 && Length(b) != 0
    ensures Records(b).value != [] && Records(Rest(b, step)) == Some(Records(b).value[1..])
    ensures step > 0 && step % 4 == 0
    ensures var r := Records(b).value[0];
            && failed == (IsConfig(r) && !memory)
            && now == Now(r, busUp, memory)
  {
    var pktLen := b[0] + 256 * (b[1] as int);
    var config := b[2] / 16 % 2 == 1;
    FirstOf(b);
    step := Step(config, pktLen);
    now, failed := [], config && !memory;
    if memory {
      now := if config then Dispatch(b[..pktLen + 4], busUp) else [ToNet(b[..(pktLen + RX_HWHRD_LEN) % TWO_16])];
    }
  }

  /** How far `buffer->read` moves. */
  method Step(config: bool, pktLen: nat) returns (step: nat)
    requires InRange(config, pktLen)
    ensures step == RoundUp4(Size(config, pktLen)) && step > 0 && step % 4 == 0
  {
    AdvanceExactly(config, pktLen);
    var aggrLen := if config then pktLen else (pktLen + RX_HWHRD_LEN) % TWO_16;
    var adjustLen := Adjust(aggrLen);
    step := if config then adjustLen + 4 else adjustLen;
  }

  /** The read pointer stands at the first of these records. */
  predicate StandsAt(data: seq<byte>, read: nat, records: seq<Record>)
  {
    read % 4 == 0 && Records(Rest(data, read)) == Some(records)
  }

  method Turn(data: seq<byte>, read: nat, busUp: bool, memory: bool, ghost records: seq<Record>)
    returns (now: seq<Delivery>, next: nat, stop: bool)
    requires StandsAt(data, read, records) && |data| >= read + 2 && Length(data[read..]) != 0
    ensures next > read && records != [] && StandsAt(data, next, records[1..])
    ensures stop == (IsConfig(records[0]) && !memory)
    ensures now == Now(records[0], busUp, memory)
  {
    var step;
    assert Rest(data, read) == data[read..];
    now, step, stop := HandleRecord(data[read..], busUp, memory);
    next := read + step;
    assert next % 4 == 0 by {
      MultiplesAdd(read, step);
    }
    assert Rest(data[read..], step) == Rest(data, next) by {
      Moved(data, read, step);
    }
  }

  /** The loop of `aicwf_process_rxframes` over one preallocated buffer. */
  method ProcessBuffer(data: seq<byte>, busUp: bool, memory: nat -> bool, first: nat)
    returns (out: seq<Delivery>, allocs: nat, failed: bool)
    requires Records(data).Some?
    ensures Outcome(out, allocs, failed) == Handle(Records(data).value, busUp, memory, first)
  {
    var read := 0;
    out, allocs, failed := [], first, false;
    assert Rest(data, 0) == data;
    ghost var records := Records(data).value;
    ghost var whole := Handle(records, busUp, memory, first);
    while true
      invariant StandsAt(data, read, records) && !failed
      invariant Continues(whole, out, Handle(records, busUp, memory, allocs))
      decreases |data| - read
    {
      var another := AnotherPtk(data, read, records);
      if !another {
        return;
      }
      Onwards(whole, out, records, busUp, memory, allocs);
      var now;
      now, read, failed := Turn(data, read, busUp, memory(allocs), records);
      out, allocs, records := out + now, allocs + 1, records[1..];
      if failed {
        return;
      }
    }
  }

  lemma Onwards(whole: Outcome, out: seq<Delivery>, records: seq<Record>, busUp: bool, memory: nat -> bool, k: nat)
    requires records != []
    requires Continues(whole, out, Handle(records, busUp, memory, k))
    ensures var config := IsConfig(records[0]);
            if config && !memory(k) then whole == Outcome(out, k + 1, true)
            else Continues(whole, out + Now(records[0], busUp, memory(k)), Handle(records[1..], busUp, memory, k + 1))
  {
  }

  lemma FirstOf(b: seq<byte>)
    requires Records(b).Some? && |b| >= 2 && Length(b) != 0
    ensures |b| >= 4 && InRange(IsConfig(b), Length(b)) && Size(IsConfig(b), Length(b)) <= |b|
    ensures var records, size := Records(b).value, Size(IsConfig(b), Length(b));
            && records != [] && records[0] == b[..size]
            && Records(Rest(b, RoundUp4(size))) == Some(records[1..])
  {
    var size := Size(IsConfig(b), Length(b));
    assert Records(b).value == [b[..size]] + Records(Rest(b, RoundUp4(size))).value;
  }

  lemma MultiplesAdd(a: nat, b: nat)
    requires a % 4 == 0 && b % 4 == 0
    ensures (a + b) % 4 == 0
  {
  }

  predicate Continues(whole: Outcome, out: seq<Delivery>, later: Outcome)
  {
    whole == Outcome(out + later.out, later.allocs, later.failed)
  }

  lemma Moved(data: seq<byte>, read: nat, n: nat)
    requires read < |data|
    ensures Rest(data[read..], n) == Rest(data, read + n)
  {
  }

  // ----- The queue of buffers -------------------------------------------------------------------

  function Parsed(buffers: seq<seq<byte>>): (parsed: seq<seq<Record>>)
    requires forall b :: b in buffers ==> Records(b).Some?
    ensures |parsed| == |buffers|
  {
    if buffers == [] then [] else [Records(buffers[0]).value] + Parsed(buffers[1..])
  }

  /** What was handed on from these buffers, and how many are still queued when memory for a message runs out. */
  datatype Batch = Batch(out: seq<Delivery>, left: nat, failed: bool)

  function HandleAll(parsed: seq<seq<Record>>, busUp: bool, memory: nat -> bool, k: nat): Batch
  {
    if parsed == [] then Batch([], 0, false)
    else
      var first := Handle(parsed[0], busUp, memory, k);
      if first.failed then Batch(first.out, |parsed| - 1, true)
      else
        var later := HandleAll(parsed[1..], busUp, memory, first.allocs);
        Batch(first.out + later.out, later.left, later.failed)
  }

  function AllExpected(parsed: seq<seq<Record>>, busUp: bool): seq<Delivery>
  {
    if parsed == [] then [] else Expected(parsed[0], busUp) + AllExpected(parsed[1..], busUp)
  }

  /** With memory, all records of all buffers are delivered, in order. */
  lemma {:induction false} EverythingDelivered(parsed: seq<seq<Record>>, busUp: bool, memory: nat -> bool, k: nat)
    requires forall j: nat :: memory(j)
    ensures HandleAll(parsed, busUp, memory, k) == Batch(AllExpected(parsed, busUp), 0, false)
  {
    if parsed != [] {
      EnoughMemory(parsed[0], busUp, memory, k);
      EverythingDelivered(parsed[1..], busUp, memory, k + |parsed[0]|);
    }
  }

  /** How the records are spread over buffers does not matter for what is handed on, nor for whether the processing ends
      early: exactly if the allocation for a configuration record fails, counted over all buffers. Then the buffers
      before the one that holds this record have been handled, and those behind it stay queued. */
  lemma {:induction false} BatchExactly(parsed: seq<seq<Record>>, busUp: bool, memory: nat -> bool, k: nat)
    ensures var all, flat := HandleAll(parsed, busUp, memory, k), Handle(Flatten(parsed), busUp, memory, k);
            all.out == flat.out && all.failed == flat.failed
    ensures HandleAll(parsed, busUp, memory, k).failed <==> MessageFails(Flatten(parsed), memory, k)
  {
    FailsExactly(Flatten(parsed), busUp, memory, k);
    if parsed != [] {
      HandleConcat(parsed[0], Flatten(parsed[1..]), busUp, memory, k);
      BatchExactly(parsed[1..], busUp, memory, Handle(parsed[0], busUp, memory, k).allocs);
    }
  }

  /** The buffer at which the processing ends holds the first configuration record that gets no memory: none before it
      does, it does. Without such a record nothing stays queued. */
  lemma {:induction false} LeftExactly(parsed: seq<seq<Record>>, busUp: bool, memory: nat -> bool, k: nat)
    ensures var all := HandleAll(parsed, busUp, memory, k);
            if all.failed then
              var n := |parsed| - 1 - all.left;
              && 0 <= n
              && !HandleAll(parsed[..n], busUp, memory, k).failed
              && HandleAll(parsed[..n + 1], busUp, memory, k).failed
            else all.left == 0
  {
    if parsed != [] {
      var first, later := Handle(parsed[0], busUp, memory, k), parsed[1..];
      if first.failed {
        assert parsed[..1] == [parsed[0]];
      } else {
        LeftExactly(later, busUp, memory, first.allocs);
        var all := HandleAll(later, busUp, memory, first.allocs);
        if all.failed {
          var n := |later| - 1 - all.left;
          assert parsed[..n + 1] == [parsed[0]] + later[..n];
          assert parsed[..n + 2] == [parsed[0]] + later[..n + 1];
          assert parsed[..n + 1][1..] == later[..n] && parsed[..n + 2][1..] == later[..n + 1];
        }
      }
    }
  }

  /** Buffers filled by a sender, each to its end or up to a zero length, parse to its records. */
  lemma {:induction false} ParsedAsSent(layouts: seq<seq<Padded>>, tails: seq<seq<byte>>, buffers: seq<seq<byte>>)
    requires |buffers| == |layouts| == |tails|
    requires forall i :: 0 <= i < |layouts| ==>
      buffers[i] == Layout(layouts[i], tails[i]) && Ending(tails[i]) && forall p :: p in layouts[i] ==> Fits(p)
    ensures forall b :: b in buffers ==> Records(b).Some?
    ensures |Parsed(buffers)| == |layouts| && forall i :: 0 <= i < |layouts| ==> Parsed(buffers)[i] == Bare(layouts[i])
  {
    if layouts != [] {
      assert Records(buffers[0]) == Some(Bare(layouts[0])) by {
        WalkInvertsLayout(layouts[0], tails[0]);
      }
      ParsedAsSent(layouts[1..], tails[1..], buffers[1..]);
      assert forall b :: b in buffers <==> b == buffers[0] || b in buffers[1..];
    }
  }

  lemma Behind<T>(s: seq<T>, n: nat)
    requires n < |s|
    ensures s[n..][1..] == s[n + 1..]
  {
  }

  // ----- What the firmware sends ----------------------------------------------------------------

  /** A received frame behind its 60-byte header, of which the first two bytes hold the length of the frame; or a message
      with a four-byte header, whose type is in the seven low bits of the third byte. */
  datatype Sending =
    | Data(header: seq<byte>, frame: seq<byte>)
    | Config(kind: byte, filler: byte, msg: seq<byte>)

  predicate Proper(s: Sending)
  {
    match s
    case Data(header, frame) =>
      |header| == 60 && 0 < |frame| <= 65472 && header[..2] == [|frame| % 256, |frame| / 256] && header[2] / 16 % 2 == 0
    case Config(kind, _, msg) => 0 < |msg| <= 65532 && kind / 16 % 2 == 1
  }

  function RecordOf(s: Sending): Record
    requires Proper(s)
  {
    match s
    case Data(header, frame) => header + frame
    case Config(kind, filler, msg) => [|msg| % 256, |msg| / 256, kind, filler] + msg
  }

  /** To whom it goes: frames to the network, messages 0x11, 0x12 and 0x13 to their handlers, others to none. */
  function Due(s: Sending, busUp: bool): seq<Delivery>
  {
    match s
    case Data(header, frame) => [ToNet(header + frame)]
    case Config(kind, _, msg) =>
      if kind == 0x11 || kind == 0x91 then (if busUp then [Response(msg)] else [])
      else if kind == 0x12 || kind == 0x92 then [TxConfirm(msg)]
      else if kind == 0x13 || kind == 0x93 then [Print(msg)]
      else []
  }

  function RecordsOf(sent: seq<Sending>): seq<Record>
    requires forall s :: s in sent ==> Proper(s)
  {
    if sent == [] then [] else [RecordOf(sent[0])] + RecordsOf(sent[1..])
  }

  function AllDue(sent: seq<Sending>, busUp: bool): seq<Delivery>
  {
    if sent == [] then [] else Due(sent[0], busUp) + AllDue(sent[1..], busUp)
  }

  lemma OneDelivered(s: Sending, busUp: bool)
    requires Proper(s)
    ensures var r := RecordOf(s);
            WellFormed(r) && Due(s, busUp) == (if IsConfig(r) then Dispatch(r, busUp) else [ToNet(r)])
  {
    var r := RecordOf(s);
    match s
    case Data(header, frame) =>
      assert r[0] == header[..2][0] && r[1] == header[..2][1] && r[2] == header[2];
    case Config(kind, _, msg) =>
      assert r[4..] == msg;
  }

  lemma {:induction false} ExpectedIsDue(sent: seq<Sending>, busUp: bool)
    requires forall s :: s in sent ==> Proper(s)
    ensures Expected(RecordsOf(sent), busUp) == AllDue(sent, busUp)
  {
    if sent != [] {
      OneDelivered(sent[0], busUp);
      ExpectedIsDue(sent[1..], busUp);
    }
  }

  /** What the firmware put into the buffers, padded in any way, reaches those it is for, in order. */
  lemma {:induction false} SentIsDelivered(sent: seq<seq<Sending>>, layouts: seq<seq<Padded>>, tails: seq<seq<byte>>,
                                           buffers: seq<seq<byte>>, busUp: bool, memory: nat -> bool, k: nat)
    requires |sent| == |layouts| == |tails| == |buffers| && forall j: nat :: memory(j)
    requires forall i :: 0 <= i < |sent| ==>
      && (forall s :: s in sent[i] ==> Proper(s)) && Bare(layouts[i]) == RecordsOf(sent[i])
      && buffers[i] == Layout(layouts[i], tails[i]) && Ending(tails[i]) && forall p :: p in layouts[i] ==> Fits(p)
    ensures forall b :: b in buffers ==> Records(b).Some?
    ensures HandleAll(Parsed(buffers), busUp, memory, k) == Batch(AllDue(Flatten(sent), busUp), 0, false)
  {
    ParsedAsSent(layouts, tails, buffers);
    EverythingDelivered(Parsed(buffers), busUp, memory, k);
    EachDue(sent, Parsed(buffers), busUp);
  }

  lemma {:induction false} EachDue(sent: seq<seq<Sending>>, parsed: seq<seq<Record>>, busUp: bool)
    requires |sent| == |parsed|
    requires forall i :: 0 <= i < |sent| ==> (forall s :: s in sent[i] ==> Proper(s)) && parsed[i] == RecordsOf(sent[i])
    ensures AllExpected(parsed, busUp) == AllDue(Flatten(sent), busUp)
  {
    if sent != [] {
      ExpectedIsDue(sent[0], busUp);
      EachDue(sent[1..], parsed[1..], busUp);
      DueConcat(sent[0], Flatten(sent[1..]), busUp);
    }
  }

  lemma {:induction false} DueConcat(a: seq<Sending>, b: seq<Sending>, busUp: bool)
    ensures AllDue(a + b, busUp) == AllDue(a, busUp) + AllDue(b, busUp)
  {
    if a == [] {
      assert a + b == b;
    } else {
      assert (a + b)[1..] == a[1..] + b && (a + b)[0] == a[0];
      DueConcat(a[1..], b, busUp);
      AppendAssociative(Due(a[0], busUp), AllDue(a[1..], busUp), AllDue(b, busUp));
    }
  }

  // ----- The queue and its loop -----------------------------------------------------------------

  predicate Ahead(all: Batch, out: seq<Delivery>, later: Batch)
  {
    all == Batch(out + later.out, later.left, later.failed)
  }

  lemma AllAhead(all: Batch)
    ensures Ahead(all, [], all)
  {
  }

  lemma NextBuffer(all: Batch, out: seq<Delivery>, parsed: seq<seq<Record>>, busUp: bool, memory: nat -> bool, k: nat)
    requires parsed != []
    requires Ahead(all, out, HandleAll(parsed, busUp, memory, k))
    ensures var first := Handle(parsed[0], busUp, memory, k);
            if first.failed then all == Batch(out + first.out, |parsed| - 1, true)
            else Ahead(all, out + first.out, HandleAll(parsed[1..], busUp, memory, first.allocs))
  {
  }

  class RxPriv {
    var rxq: seq<seq<byte>>
    var rxCnt: int

    /** `aicwf_process_rxframes` with preallocated buffers. When it gives up, the buffer it was at is freed but stays
        counted. */
    method ProcessRxFrames(busUp: bool, memory: nat -> bool) returns (ret: int, out: seq<Delivery>)
      requires forall b :: b in rxq ==> Records(b).Some?
      modifies this
      ensures var all := HandleAll(Parsed(old(rxq)), busUp, memory, 0);
              && out == all.out && ret == (if all.failed then -EBADE else 0)
              && all.left <= |old(rxq)| && rxq == old(rxq)[|old(rxq)| - all.left..]
              && rxCnt == old(rxCnt) - (|old(rxq)| - |rxq|) + (if all.failed then 1 else 0)
      ensures ret != 0 <==> MessageFails(Flatten(Parsed(old(rxq))), memory, 0)
    {
      out, ret := [], 0;
      var allocs := 0;
      ghost var parsed := Parsed(rxq);
      ghost var all := HandleAll(parsed, busUp, memory, 0);
      BatchExactly(parsed, busUp, memory, 0);
      AllAhead(all);
      ghost var whole, n := rxq, 0;
      while rxq != []
        invariant n <= |whole| && rxq == whole[n..]
        invariant (forall b :: b in rxq ==> Records(b).Some?) && parsed == Parsed(rxq)
        invariant rxCnt == old(rxCnt) - n
        invariant Ahead(all, out, HandleAll(parsed, busUp, memory, allocs))
        decreases |rxq|
      {
        NextBuffer(all, out, parsed, busUp, memory, allocs);
        Behind(whole, n);
        n := n + 1;
        var buffer := rxq[0];
        rxq := rxq[1..];
        parsed := parsed[1..];
        var now, failed;
        now, allocs, failed := ProcessBuffer(buffer, busUp, memory, allocs);
        out := out + now;
        if failed {
          return -EBADE, out;
        }
        rxCnt := rxCnt - 1;
      }
    }
  }
}
