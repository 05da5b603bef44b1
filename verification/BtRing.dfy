/** The ring of packets between the Bluetooth driver and the readers of its character device. */
module BtRing {
  import opened Common

  const QUEUE_SIZE := 500
  const ERESTARTSYS := 512
  const EFAULT := 14

  // ----- What became of the bytes ---------------------------------------------------------------

  /** Bytes that left the ring together, and whether they reached the reader. */
  datatype Chunk = Chunk(bytes: seq<byte>, received: bool)

  function Left(log: seq<Chunk>): seq<byte>
  {
    if log == [] then [] else log[0].bytes + Left(log[1..])
  }

  function Received(log: seq<Chunk>): seq<byte>
  {
    if log == [] then [] else (if log[0].received then log[0].bytes else []) + Received(log[1..])
  }

  lemma {:induction false} LeftAppend(log: seq<Chunk>, c: Chunk)
    ensures Left(log + [c]) == Left(log) + c.bytes
    ensures Received(log + [c]) == Received(log) + (if c.received then c.bytes else [])
  {
    if log == [] {
      assert log + [c] == [c] && [c][1..] == [];
    } else {
      LeftAppend(log[1..], c);
      assert (log + [c])[1..] == log[1..] + [c] && (log + [c])[0] == log[0];
      AppendAssociative(log[0].bytes, Left(log[1..]), c.bytes);
      AppendAssociative(if log[0].received then log[0].bytes else [], Received(log[1..]), if c.received then c.bytes else []);
    }
  }

  /** The reader gets every byte that leaves exactly when nothing but empty chunks fails to reach it. */
  lemma {:induction false} NothingFailed(log: seq<Chunk>)
    ensures |Received(log)| <= |Left(log)|
    ensures Received(log) == Left(log) <==> forall c :: c in log && !c.received ==> c.bytes == []
  {
    if log != [] {
      var c, rest := log[0], log[1..];
      NothingFailed(rest);
      assert forall d :: d in log <==> d == c || d in rest;
      if c.received || c.bytes == [] {
        assert Received(log) == c.bytes + Received(rest);
        assert Received(log)[|c.bytes|..] == Received(rest) && Left(log)[|c.bytes|..] == Left(rest);
      } else {
        assert c in log && |Received(log)| < |Left(log)|;
      }
    }
  }

  // ----- Taking bytes from the head packet ------------------------------------------------------

  function Cut(head: seq<byte>, count: nat): seq<byte>
  {
    if count < |head| then head[..count] else head
  }

  /** The queue without the first `count` bytes of its head packet, which goes when nothing of it remains. */
  function Without(frames: seq<seq<byte>>, count: nat): seq<seq<byte>>
    requires frames != []
  {
    (if count < |frames[0]| then [frames[0][count..]] else []) + frames[1..]
  }

  lemma CutWithout(frames: seq<seq<byte>>, count: nat)
    requires frames != []
    ensures Flatten(frames) == Cut(frames[0], count) + Flatten(Without(frames, count))
  {
    var head, rest := frames[0], frames[1..];
    var after := Without(frames, count);
    if count < |head| {
      assert after[0] == head[count..] && after[1..] == rest;
      CutInTwo(head, count, Flatten(rest));
    } else {
      assert after == rest;
    }
  }

  lemma CutInTwo(head: seq<byte>, count: nat, rest: seq<byte>)
    requires count <= |head|
    ensures head[..count] + (head[count..] + rest) == head + rest
  {
  }

  // ----- What happens to the ring ---------------------------------------------------------------

  datatype Event =
    | Frame(bytes: seq<byte>)  // the driver queues a packet
    | Signal                   // a signal interrupts the waiting reader
    | Wake(copied: bool)       // the reader runs, and a copy of a packet, should it need one, can be made or not

  datatype Request =
    | Queue(bytes: seq<byte>)
    | Read(count: nat, script: seq<Event>, writable: bool)
    | Clear

  /** A call in which every copy succeeds and nothing is thrown away. */
  predicate Harmless(r: Request)
  {
    match r
    case Queue(_) => true
    case Read(_, script, writable) => writable && Wake(false) !in script
    case Clear => false
  }

  // ----- What a read returns --------------------------------------------------------------------

  /** The outcome of a read: what stays queued, the bytes that left, what is returned (`None` if the script ends while the
      reader still waits) and the bytes the reader gets. */
  datatype Outcome = Outcome(queued: seq<seq<byte>>, chunks: seq<Chunk>, ret: Option<int>, data: seq<byte>)

  /** What one event does to a waiting reader of `count` bytes, and whether it ends the read. A copy that cannot be made
      sends the reader back to wait, its bytes gone. */
  function React(queued: seq<seq<byte>>, count: nat, e: Event, writable: bool): (Outcome, bool)
  {
    match e
    case Frame(bytes) => (Outcome(if |queued| < QUEUE_SIZE - 1 then queued + [bytes] else queued, [], None, []), false)
    case Signal => if queued == [] then (Outcome([], [], Some(-ERESTARTSYS), []), true) else (Outcome(queued, [], None, []), false)
    case Wake(copied) =>
      if queued == [] then (Outcome([], [], None, []), false)
      else
        var cut, left := Cut(queued[0], count), Without(queued, count);
        if !copied && count < |queued[0]| then (Outcome(left, [Chunk(cut, false)], None, []), false)
        else if !writable then (Outcome(left, [Chunk(cut, false)], Some(-EFAULT), []), true)
        else (Outcome(left, [Chunk(cut, true)], Some(|cut|), cut), true)
  }

  function Reading(queued: seq<seq<byte>>, count: nat, script: seq<Event>, writable: bool): Outcome
    decreases |script|
  {
    if script == [] then Outcome(queued, [], None, [])
    else
      var (o, stop) := React(queued, count, script[0], writable);
      if stop then o else Later(o.chunks, Reading(o.queued, count, script[1..], writable))
  }

  /** The outcome when these bytes left before. */
  function Later(chunks: seq<Chunk>, o: Outcome): Outcome
  {
    o.(chunks := chunks + o.chunks)
  }

  /** The whole read is what left so far followed by the read of the events from `i` on. */
  ghost predicate Goes(whole: Outcome, left: seq<Chunk>, queued: seq<seq<byte>>, count: nat, script: seq<Event>, i: nat, writable: bool)
    requires i <= |script|
  {
    whole == Later(left, Reading(queued, count, script[i..], writable))
  }

  lemma GoesFromStart(queued: seq<seq<byte>>, count: nat, script: seq<Event>, writable: bool)
    ensures Goes(Reading(queued, count, script, writable), [], queued, count, script, 0, writable)
  {
    assert script[0..] == script;
  }

  lemma GoesOn(whole: Outcome, left: seq<Chunk>, queued: seq<seq<byte>>, count: nat, script: seq<Event>, i: nat, writable: bool)
    requires i < |script| && Goes(whole, left, queued, count, script, i, writable)
    ensures var (o, stop) := React(queued, count, script[i], writable);
            if stop then whole == Later(left, o)
            else Goes(whole, left + o.chunks, o.queued, count, script, i + 1, writable)
  {
    var (o, _) := React(queued, count, script[i], writable);
    assert script[i..][0] == script[i] && script[i..][1..] == script[i + 1..];
    var rest := Reading(o.queued, count, script[i + 1..], writable);
    assert left + (o.chunks + rest.chunks) == (left + o.chunks) + rest.chunks;
  }

  /** At most the last bytes that leave reach the reader; then they are what it is given, and otherwise it is given
      nothing. Without failures it gets the front of the packet at the head. */
  ghost predicate Delivers(o: Outcome, queued: seq<seq<byte>>, count: nat, script: seq<Event>, writable: bool)
  {
    var done := o.ret.Some? && o.ret.value >= 0;
    && (forall k :: 0 <= k < |o.chunks| ==> (o.chunks[k].received <==> done && k == |o.chunks| - 1))
    && (if done then o.ret.value == |o.data| <= count && o.chunks != [] && o.chunks[|o.chunks| - 1] == Chunk(o.data, true)
        else o.data == [])
    && (writable && Wake(false) !in script ==>
          (forall k :: 0 <= k < |o.chunks| ==> o.chunks[k].received)
          && (queued != [] && Wake(true) in script ==> o.data == Cut(queued[0], count) && o.ret == Some(|o.data|)))
  }

  lemma DeliversLater(later: Outcome, queued: seq<seq<byte>>, count: nat, script: seq<Event>, writable: bool)
    requires count > 0 && script != []
    requires Delivers(later, React(queued, count, script[0], writable).0.queued, count, script[1..], writable)
    ensures var (o, stop) := React(queued, count, script[0], writable);
            Delivers(if stop then o else Later(o.chunks, later), queued, count, script, writable)
  {
    assert forall e :: e in script <==> e == script[0] || e in script[1..];
  }

  lemma {:induction false} ReadingDelivers(queued: seq<seq<byte>>, count: nat, script: seq<Event>, writable: bool)
    requires count > 0
    ensures Delivers(Reading(queued, count, script, writable), queued, count, script, writable)
    decreases |script|
  {
    if script != [] {
      var rest := script[1..];
      var (o, stop) := React(queued, count, script[0], writable);
      ReadingDelivers(o.queued, count, rest, writable);
      DeliversLater(Reading(o.queued, count, rest, writable), queued, count, script, writable);
    }
  }

  /** The packets that arrive during these events. */
  function Arrivals(script: seq<Event>): seq<seq<byte>>
  {
    if script == [] then []
    else (if script[0].Frame? then [script[0].bytes] else []) + Arrivals(script[1..])
  }

  /** While there is room, no byte is lost from sight: what was queued and what arrived until the read ended at event `n` is
      what left and what is queued. */
  lemma {:induction false} ReadingConserves(queued: seq<seq<byte>>, count: nat, script: seq<Event>, writable: bool) returns (n: nat)
    requires |queued| + |Arrivals(script)| < QUEUE_SIZE
    ensures n <= |script|
    ensures var o := Reading(queued, count, script, writable);
            && (if o.ret == None then n == |script| else n > 0 && !script[n - 1].Frame?)
            && Flatten(queued + Arrivals(script[..n])) == Left(o.chunks) + Flatten(o.queued)
    decreases |script|
  {
    var none: seq<Event> := script[..0];
    n := 0;
    if script == [] {
      assert queued + Arrivals(script[..n]) == queued;
    } else {
      var (o, stop) := React(queued, count, script[0], writable);
      OneEventConserves(queued, count, script[0], writable);
      if stop {
        n := 1;
        assert script[..1][1..] == none;
      } else {
        var rest := script[1..];
        var m := ReadingConserves(o.queued, count, rest, writable);
        n := m + 1;
        assert script[..n][0] == script[0] && script[..n][1..] == rest[..m];
        var later := Reading(o.queued, count, rest, writable);
        ConservedOn(queued, if script[0].Frame? then [script[0].bytes] else [], Arrivals(rest[..m]), o, later);
      }
    }
  }

  lemma ConservedOn(queued: seq<seq<byte>>, came: seq<seq<byte>>, more: seq<seq<byte>>, o: Outcome, later: Outcome)
    requires Flatten(queued + came) == Left(o.chunks) + Flatten(o.queued)
    requires Flatten(o.queued + more) == Left(later.chunks) + Flatten(later.queued)
    ensures Flatten(queued + (came + more)) == Left(o.chunks + later.chunks) + Flatten(later.queued)
  {
    LeftConcat(o.chunks, later.chunks);
    AppendAssociative(queued, came, more);
    FlattenConcat(queued + came, more);
    FlattenConcat(o.queued, more);
    AppendAssociative(Left(o.chunks), Flatten(o.queued), Flatten(more));
    AppendAssociative(Left(o.chunks), Left(later.chunks), Flatten(later.queued));
  }

  lemma OneEventConserves(queued: seq<seq<byte>>, count: nat, e: Event, writable: bool)
    requires e.Frame? ==> |queued| < QUEUE_SIZE - 1
    ensures var o := React(queued, count, e, writable).0;
            Flatten(queued + if e.Frame? then [e.bytes] else []) == Left(o.chunks) + Flatten(o.queued)
    ensures |React(queued, count, e, writable).0.queued| <= |queued| + (if e.Frame? then 1 else 0)
  {
    assert queued + [] == queued;
    var o := React(queued, count, e, writable).0;
    if e.Wake? && queued != [] {
      CutWithout(queued, count);
      assert o.chunks[1..] == [];
    }
  }

  lemma {:induction false} LeftConcat(a: seq<Chunk>, b: seq<Chunk>)
    ensures Left(a + b) == Left(a) + Left(b)
  {
    if a == [] {
      assert a + b == b;
    } else {
      assert (a + b)[1..] == a[1..] + b && (a + b)[0] == a[0];
      LeftConcat(a[1..], b);
      AppendAssociative(a[0].bytes, Left(a[1..]), Left(b));
    }
  }

  /** A reader that is not interrupted and finds a packet when it is woken, one that was queued or one that came meanwhile,
      gets the front of the oldest. */
  lemma {:induction false} ReadingOldest(queued: seq<seq<byte>>, count: nat, script: seq<Event>, writable: bool, k: nat)
    requires count > 0 && writable && Wake(false) !in script && Signal !in script
    requires k < |script| && script[k] == Wake(true) && queued + Arrivals(script[..k]) != []
    ensures var o, data := Reading(queued, count, script, writable), Cut((queued + Arrivals(script[..k]))[0], count);
            o.data == data && o.ret == Some(|data|)
    decreases |script|
  {
    if queued != [] {
      ReadingDelivers(queued, count, script, writable);
    } else {
      var rest := script[1..];
      assert k > 0;
      assert script[..k][0] == script[0] && script[..k][1..] == rest[..k - 1];
      assert forall e :: e in rest ==> e in script;
      assert script[0] in script;
      var next := React(queued, count, script[0], writable).0.queued;
      assert next + Arrivals(rest[..k - 1]) == queued + Arrivals(script[..k]);
      ReadingOldest(next, count, rest, writable, k - 1);
    }
  }

  /** What these calls leave in the ring and what has left it, when `start` was queued before. */
  function Served(start: seq<seq<byte>>, requests: seq<Request>): (seq<seq<byte>>, seq<Chunk>)
  {
    if requests == [] then (start, [])
    else
      var (queued, log) := Served(start, requests[..|requests| - 1]);
      match requests[|requests| - 1]
      case Queue(bytes) => (if |queued| < QUEUE_SIZE - 1 then queued + [bytes] else queued, log)
      case Read(count, script, writable) =>
        if count == 0 then (queued, log)
        else
          var o := Reading(queued, count, script, writable);
          (o.queued, log + o.chunks)
      case Clear => ([], log + [Chunk(Flatten(queued), false)])
  }

  /** The packets queued by these calls. */
  function Queued(requests: seq<Request>): seq<seq<byte>>
  {
    if requests == [] then []
    else
      var last := requests[|requests| - 1];
      Queued(requests[..|requests| - 1]) + (if last.Queue? then [last.bytes] else [])
  }

  /** While there is room, and no packet arrives during a read, the bytes that left and those still queued are those of the
      packets queued, in order. */
  lemma {:induction false} AllInOrder(start: seq<seq<byte>>, requests: seq<Request>)
    requires |start| + |Queued(requests)| < QUEUE_SIZE
    requires forall r :: r in requests && r.Read? ==> Arrivals(r.script) == []
    ensures var (queued, log) := Served(start, requests);
            && Left(log) + Flatten(queued) == Flatten(start + Queued(requests))
            && |queued| <= |start| + |Queued(requests)|
  {
    if requests == [] {
      assert start + [] == start;
    } else {
      var before, r := requests[..|requests| - 1], requests[|requests| - 1];
      AllInOrder(start, before);
      var (queued, log) := Served(start, before);
      var all := start + Queued(before);
      match r
      case Queue(bytes) =>
        assert start + Queued(requests) == all + [bytes];
        FlattenAppend(all, bytes);
        FlattenAppend(queued, bytes);
        AppendAssociative(Left(log), Flatten(queued), bytes);
      case Read(count, script, writable) =>
        assert Queued(requests) == Queued(before);
        if count > 0 {
          ReadKeepsBytes(queued, count, script, writable);
          var o := Reading(queued, count, script, writable);
          LeftConcat(log, o.chunks);
          AppendAssociative(Left(log), Left(o.chunks), Flatten(o.queued));
        }
      case Clear =>
        assert Queued(requests) == Queued(before);
        LeftAppend(log, Chunk(Flatten(queued), false));
    }
  }

  lemma ReadKeepsBytes(queued: seq<seq<byte>>, count: nat, script: seq<Event>, writable: bool)
    requires |queued| < QUEUE_SIZE && Arrivals(script) == []
    ensures var o := Reading(queued, count, script, writable);
            Flatten(queued) == Left(o.chunks) + Flatten(o.queued) && |o.queued| <= |queued|
  {
    var n := ReadingConserves(queued, count, script, writable);
    NoneArrives(script, n);
    assert queued + Arrivals(script[..n]) == queued;
    NoMoreQueued(queued, count, script, writable);
  }

  lemma {:induction false} NoneArrives(script: seq<Event>, n: nat)
    requires n <= |script| && Arrivals(script) == []
    ensures Arrivals(script[..n]) == []
  {
    if n > 0 {
      NoneArrives(script[1..], n - 1);
      assert script[..n][1..] == script[1..][..n - 1];
    }
  }

  lemma {:induction false} NoMoreQueued(queued: seq<seq<byte>>, count: nat, script: seq<Event>, writable: bool)
    requires Arrivals(script) == []
    ensures |Reading(queued, count, script, writable).queued| <= |queued|
    decreases |script|
  {
    if script != [] {
      NoMoreQueued(React(queued, count, script[0], writable).0.queued, count, script[1..], writable);
    }
  }

  // ----- The occupied slots ---------------------------------------------------------------------

  function Next(i: nat): nat
  {
    (i + 1) % QUEUE_SIZE
  }

  /** The slots from `front` up to `rear`, around the end if need be. */
  function Live<T>(slots: seq<T>, front: nat, rear: nat): (live: seq<T>)
    requires |slots| == QUEUE_SIZE && front < QUEUE_SIZE && rear < QUEUE_SIZE
    ensures |live| == if front <= rear then rear - front else rear + QUEUE_SIZE - front
  {
    if front <= rear then slots[front..rear] else slots[front..] + slots[..rear]
  }

  lemma LiveAt<T>(slots: seq<T>, front: nat, rear: nat)
    requires |slots| == QUEUE_SIZE && front < QUEUE_SIZE && rear < QUEUE_SIZE
    ensures var live := Live(slots, front, rear);
            forall k :: 0 <= k < |live| ==> live[k] == slots[if front + k < QUEUE_SIZE then front + k else front + k - QUEUE_SIZE]
  {
  }

  lemma LivePush<T>(slots: seq<T>, front: nat, rear: nat, x: T)
    requires |slots| == QUEUE_SIZE && front < QUEUE_SIZE && rear < QUEUE_SIZE && front != Next(rear)
    ensures Live(slots[rear := x], front, Next(rear)) == Live(slots, front, rear) + [x]
  {
    var pushed := slots[rear := x];
    if front <= rear {
      assert pushed[front..rear + 1] == slots[front..rear] + [x];
    } else {
      assert pushed[front..] == slots[front..] && pushed[..rear + 1] == slots[..rear] + [x];
    }
  }

  lemma LivePop<T>(slots: seq<T>, front: nat, rear: nat)
    requires |slots| == QUEUE_SIZE && front < QUEUE_SIZE && rear < QUEUE_SIZE && front != rear
    ensures Live(slots, front, rear) == [slots[front]] + Live(slots, Next(front), rear)
  {
    var live, rest := Live(slots, front, rear), Live(slots, Next(front), rear);
    LiveAt(slots, front, rear);
    LiveAt(slots, Next(front), rear);
    assert |live| == 1 + |rest| && live[0] == slots[front];
    assert live[1..] == rest;
    assert live == [live[0]] + live[1..];
  }

  lemma LiveHead<T>(slots: seq<T>, front: nat, rear: nat, x: T)
    requires |slots| == QUEUE_SIZE && front < QUEUE_SIZE && rear < QUEUE_SIZE && front != rear
    ensures Live(slots[front := x], front, rear) == [x] + Live(slots, Next(front), rear)
  {
    LivePop(slots[front := x], front, rear);
    assert slots[front := x][front + 1..] == slots[front + 1..];
  }

  class Ring {
    const slots: array<seq<byte>>
    var front: nat
    var rear: nat
    /** Every byte ever accepted, in order, and every byte that left. */
    ghost var accepted: seq<byte>
    ghost var log: seq<Chunk>

    ghost predicate Shape()
      reads this
    {
      slots.Length == QUEUE_SIZE && front < QUEUE_SIZE && rear < QUEUE_SIZE
    }

    ghost function Contents(): (frames: seq<seq<byte>>)
      requires Shape()
      reads this, slots
      ensures |frames| < QUEUE_SIZE
    {
      Live(slots[..], front, rear)
    }

    /** No byte is lost from sight, repeated or reordered: what left, followed by what is queued, is what came. */
    ghost predicate Valid()
      reads this, slots
    {
      Shape() && Left(log) + Flatten(Contents()) == accepted
    }

    constructor ()
      ensures Valid() && fresh(slots) && Contents() == [] && accepted == [] && log == []
    {
      slots := new seq<byte>[QUEUE_SIZE](_ => []);
      front, rear := 0, 0;
      accepted, log := [], [];
    }

    /** `aic_enqueue` */
    method Enqueue(skb: seq<byte>) returns (ret: int)
      requires Valid()
      modifies this, slots
      ensures Valid() && log == old(log)
      ensures ret == if |old(Contents())| == QUEUE_SIZE - 1 then -1 else 0
      ensures if ret == 0 then Contents() == old(Contents()) + [skb] && accepted == old(accepted) + skb
              else Contents() == old(Contents()) && accepted == old(accepted)
    {
      if front == Next(rear) {
        ret := -1;
      } else {
        LivePush(slots[..], front, rear, skb);
        FlattenAppend(Contents(), skb);
        slots[rear] := skb;
        rear := Next(rear);
        accepted := accepted + skb;
        ret := 0;
      }
    }

    /** `aic_dequeue_try`: the head packet if it fits in `deqLen`, else a copy of it and the head loses its
        first `deqLen` bytes. The bytes are gone from the ring whether or not the copy could be made. */
    method DequeueTry(deqLen: nat, copied: bool) returns (skb: Option<seq<byte>>)
      requires Shape()
      modifies this`front, slots
      ensures Shape()
      ensures old(Contents()) == [] ==> skb == None && Contents() == []
      ensures old(Contents()) != [] ==>
        var head := old(Contents())[0];
        && skb == (if copied || |head| <= deqLen then Some(head) else None)
        && Contents() == Without(old(Contents()), deqLen)
    {
      if front == rear {
        return None;
      }
      var head := slots[front];
      LivePop(slots[..], front, rear);
      if deqLen >= |head| {
        front := Next(front);
        return Some(head);
      }
      skb := if copied then Some(head) else None;
      LiveHead(slots[..], front, rear, head[deqLen..]);
      slots[front] := head[deqLen..];
    }

    /** `aic_clear_queue` */
    method Clear()
      requires Valid()
      modifies this`front, this`log, slots
      ensures Valid() && Contents() == []
      ensures log == old(log) + [Chunk(Flatten(old(Contents())), false)]
    {
      ghost var gone := Chunk(Flatten(Contents()), false);
      LeftAppend(log, gone);
      while front != rear
        invariant Shape() && log == old(log)
        decreases |Contents()|
      {
        slots[front] := [];
        front := Next(front);
      }
      log := log + [gone];
      assert Contents() == [] && Left(log) + [] == Left(log);
    }

    /** `aic_queue_cnt` */
    method QueueCnt() returns (cnt: int)
      requires Shape()
      ensures cnt == |Contents()|
    {
      if front == rear {
        cnt := 0;
      } else if rear > front {
        cnt := rear - front;
      } else {
        cnt := rear + QUEUE_SIZE - front;
      }
    }

    /** One attempt of a reader: the bytes removed are logged, received unless the copy or the write to user
        space failed. */
    method Take(count: nat, copied: bool, writable: bool) returns (skb: Option<seq<byte>>)
      requires Valid() && Contents() != [] && count > 0
      modifies this`front, this`log, slots
      ensures Valid()
      ensures var head := old(Contents())[0];
              && skb == (if copied || |head| <= count then Some(head) else None)
              && log == old(log) + [Chunk(Cut(head, count), skb.Some? && writable)]
              && Contents() == Without(old(Contents()), count)
    {
      ghost var before := Contents();
      skb := DequeueTry(count, copied);
      ghost var c := Chunk(Cut(before[0], count), skb.Some? && writable);
      CutWithout(before, count);
      LeftAppend(log, c);
      calc {
        accepted;
        Left(log) + (c.bytes + Flatten(Contents()));
        (Left(log) + c.bytes) + Flatten(Contents());
        Left(log + [c]) + Flatten(Contents());
      }
      log := log + [c];
    }

    /** The woken reader: an empty ring sends it back to wait, and so does a copy that fails. */
    method Attempt(count: nat, copied: bool, writable: bool) returns (stop: bool, ret: int, data: seq<byte>)
      requires Valid() && count > 0
      modifies this`front, this`log, slots
      ensures Valid()
      ensures old(Contents()) == [] ==> !stop && data == [] && log == old(log) && Contents() == []
      ensures old(Contents()) != [] ==>
        var head := old(Contents())[0];
        && stop == (copied || |head| <= count) && Contents() == Without(old(Contents()), count)
        && log == old(log) + [Chunk(Cut(head, count), stop && writable)]
        && data == (if stop && writable then Cut(head, count) else [])
      ensures stop ==> ret == if writable then |data| else -EFAULT
    {
      stop, ret, data := false, 0, [];
      if front != rear {
        var skb := Take(count, copied, writable);
        if skb.Some? {
          stop, ret := true, -EFAULT;
          if writable {
            data := Cut(skb.value, count);
            ret := |data|;
          }
        }
      }
    }

    method OnEvent(e: Event, count: nat, writable: bool)
      returns (stop: bool, ret: Option<int>, data: seq<byte>, ghost left: seq<Chunk>)
      requires Valid() && count > 0
      modifies this, slots
      ensures Valid() && log == old(log) + left && (!stop ==> ret == None && data == [])
      ensures (Outcome(Contents(), left, ret, data), stop) == React(old(Contents()), count, e, writable)
    {
      stop, ret, data, left := false, None, [], [];
      match e
      case Frame(bytes) =>
        var _ := Enqueue(bytes);
      case Signal =>
        if front == rear {
          stop, ret := true, Some(-ERESTARTSYS);
        }
      case Wake(copied) =>
        ghost var was := log;
        var n;
        stop, n, data := Attempt(count, copied, writable);
        left := log[|was|..];
        ret := if stop then Some(n) else None;
    }

    /** `btchr_read`: wait for a packet, take at most `count` bytes of it, try again if it could not be copied.
        `None` means that the script ends while the reader still waits. */
    method Read(count: nat, script: seq<Event>, writable: bool) returns (ret: Option<int>, data: seq<byte>, ghost left: seq<Chunk>)
      requires Valid()
      modifies this, slots
      ensures Valid() && log == old(log) + left
      ensures count == 0 ==> ret == Some(0) && data == [] && unchanged(this) && unchanged(slots)
      ensures count > 0 ==>
        var o := Outcome(Contents(), left, ret, data);
        o == Reading(old(Contents()), count, script, writable) && Delivers(o, old(Contents()), count, script, writable)
    {
      ret, data, left := Some(0), [], [];
      if count == 0 {
        return;
      }
      ReadingDelivers(Contents(), count, script, writable);
      ret, data, left := Wait(count, script, writable);
    }

    method Wait(count: nat, script: seq<Event>, writable: bool) returns (ret: Option<int>, data: seq<byte>, ghost left: seq<Chunk>)
      requires Valid() && count > 0
      modifies this, slots
      ensures Valid() && log == old(log) + left
      ensures Outcome(Contents(), left, ret, data) == Reading(old(Contents()), count, script, writable)
    {
      ret, data, left := None, [], [];
      ghost var whole := Reading(Contents(), count, script, writable);
      GoesFromStart(Contents(), count, script, writable);
      for i := 0 to |script|
        invariant Valid() && log == old(log) + left && ret == None && data == []
        invariant Goes(whole, left, Contents(), count, script, i, writable)
      {
        GoesOn(whole, left, Contents(), count, script, i, writable);
        ghost var now;
        var stop;
        stop, ret, data, now := OnEvent(script[i], count, writable);
        AppendAssociative(old(log), left, now);
        left := left + now;
        if stop {
          return;
        }
      }
    }

    /** Any calls in any order, for reads of any sizes. */
    method Run(requests: seq<Request>)
      requires Valid() && log == []
      modifies this, slots
      ensures Valid()
      ensures (Contents(), log) == Served(old(Contents()), requests)
      ensures (forall r :: r in requests ==> Harmless(r)) ==> Received(log) + Flatten(Contents()) == accepted
    {
      for i := 0 to |requests|
        invariant Valid() && (Contents(), log) == Served(old(Contents()), requests[..i])
        invariant (forall r :: r in requests ==> Harmless(r)) ==> forall c :: c in log ==> c.received
      {
        assert requests[i] in requests;
        assert requests[..i + 1][..i] == requests[..i];
        match requests[i]
        case Queue(bytes) =>
          var _ := Enqueue(bytes);
        case Read(count, script, writable) =>
          var _, _, left := Read(count, script, writable);
          assert forall c :: c in left ==> exists k :: 0 <= k < |left| && left[k] == c;
        case Clear =>
          Clear();
      }
      assert requests[..|requests|] == requests;
      if forall r :: r in requests ==> Harmless(r) {
        NothingFailed(log);
      }
    }
  }

  /** A concrete run: a reader asks for 2 bytes, its copy cannot be made, and when it wakes again it gets byte 3. */
  method FailedCopyLosesBytes() returns (ret: Option<int>, data: seq<byte>)
    ensures ret == Some(1) && data == [3]
  {
    var ring := new Ring();
    var _ := ring.Enqueue([1, 2, 3]);
    ThirdByte();
    ghost var left;
    ret, data, left := ring.Read(2, [Wake(false), Wake(true)], true);
  }

  lemma ThirdByte()
    ensures var o := Reading([[1, 2, 3]], 2, [Wake(false), Wake(true)], true);
            o.ret == Some(1) && o.data == [3]
  {
    var script := [Wake(false), Wake(true)];
    var rest: seq<byte> := [3];
    assert script[1..] == [Wake(true)];
    assert Without([[1, 2, 3]], 2) == [rest];
    assert Reading([rest], 2, [Wake(true)], true).data == rest;
  }
}
