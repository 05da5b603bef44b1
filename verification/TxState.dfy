/** The transmit loop on values: what every step does to the queue, the aggregate, the credit and the history, and
    what that keeps and achieves over whole runs. */
module TxState {
  import opened Common
  import opened FrameQueues
  import opened Aggregate

  /** Buffers the firmware keeps back: data is sent only above this many. */
  const FLOW_CTRL_THRESH := 2
  const CLASSES := 8

  /** The chip, `tx_aggr_counter`, the longest record the buffer is dimensioned for, and the size of the queue. */
  datatype Config = Config(chip: Chip, limit: nat, maxRecord: nat, qmax: nat)

  /** The outcome of polling the credit register, one byte wide. */
  datatype CreditRead = ReadFailed | Register(fc: byte)

  /** The buffers the register announces: on the older chips its low seven bits. */
  function FreeBuffers(fc: byte, cfg: Config): nat
  {
    if cfg.chip.PadsLength() then fc % 128 else fc
  }

  /** `aicwf_sdio_flow_ctrl`: the credit is clamped to the module's limit; a low one is reported negated. Credit to send
      with is there exactly if more than the reserve is announced, and then it is no more than announced and allowed. */
  function FlowCtrl(read: CreditRead, cfg: Config): (credit: int)
    ensures credit > 0 <==>
      read.Register? && cfg.limit > 0 && (if cfg.chip in {AIC8801, AIC8800DC, AIC8800DW} then read.fc % 128 else read.fc) > FLOW_CTRL_THRESH
    ensures credit > 0 ==>
      var free := if cfg.chip in {AIC8801, AIC8800DC, AIC8800DW} then read.fc % 128 else read.fc;
      credit <= free && credit <= cfg.limit && (credit == free || credit == cfg.limit)
  {
    match read
    case ReadFailed => -1
    case Register(r) =>
      var fc: int := FreeBuffers(r, cfg);
      if fc > FLOW_CTRL_THRESH then (if fc > cfg.limit then cfg.limit else fc) else -fc
  }

  /** The credit register allows data to be sent. */
  predicate Grants(read: CreditRead, cfg: Config)
  {
    FlowCtrl(read, cfg) > FLOW_CTRL_THRESH
  }

  /** What the rest of the driver may do between two steps of the loop. */
  datatype Act = Enqueue(pkt: Packet, priority: nat) | NewCommand | BusDown

  /** One round of the loop: what happens at each point where other threads can run, the credit it would read, and
      whether a write to the bus would succeed. */
  datatype Turn = Turn(atTop: seq<Act>, afterCheck: seq<Act>, beforeDequeue: seq<Act>, beforeCount: seq<Act>,
                       beforeWrite: seq<Act>, credit: CreditRead, written: bool)

  /** A command becomes pending in this round. */
  predicate CommandIn(t: Turn)
  {
    || NewCommand in t.atTop || NewCommand in t.afterCheck || NewCommand in t.beforeDequeue
    || NewCommand in t.beforeCount || NewCommand in t.beforeWrite
  }

  predicate CommandDuring(first: seq<Act>, script: seq<Turn>)
  {
    NewCommand in first || exists k :: 0 <= k < |script| && CommandIn(script[k])
  }

  function Payloads(pkts: seq<Packet>): (ps: seq<seq<byte>>)
    ensures |ps| == |pkts| && forall k :: 0 <= k < |pkts| ==> ps[k] == pkts[k].Payload()
  {
    seq(|pkts|, k requires 0 <= k < |pkts| => pkts[k].Payload())
  }

  /** A frame within the length its header can announce and the record length the buffer is dimensioned for. */
  predicate Small(pkt: Packet, cfg: Config)
  {
    Fits(cfg.chip, pkt.Payload()) && 4 + RoundUp4(|pkt.Payload()|) <= cfg.maxRecord
  }

  predicate Possible(acts: seq<Act>, cfg: Config)
  {
    forall k :: 0 <= k < |acts| && acts[k].Enqueue? ==> Small(acts[k].pkt, cfg)
  }

  predicate PossibleTurn(t: Turn, cfg: Config)
  {
    && Possible(t.atTop, cfg) && Possible(t.afterCheck, cfg) && Possible(t.beforeDequeue, cfg)
    && Possible(t.beforeCount, cfg) && Possible(t.beforeWrite, cfg)
  }

  /** Nothing new is queued. */
  predicate Quiet(acts: seq<Act>)
  {
    forall k :: 0 <= k < |acts| ==> !acts[k].Enqueue?
  }

  predicate QuietTurn(t: Turn)
  {
    Quiet(t.atTop) && Quiet(t.afterCheck) && Quiet(t.beforeDequeue) && Quiet(t.beforeCount) && Quiet(t.beforeWrite)
  }

  // ----- History --------------------------------------------------------------------------------

  /** Frames handed to the bus together; they are lost if the write fails. */
  datatype Handover = Handover(frames: seq<Packet>, written: bool)

  function Frames(hs: seq<Handover>): seq<Packet>
  {
    if hs == [] then [] else Frames(hs[..|hs| - 1]) + hs[|hs| - 1].frames
  }

  function Sent(hs: seq<Handover>): seq<Packet>
  {
    if hs == [] then [] else Sent(hs[..|hs| - 1]) + (if hs[|hs| - 1].written then hs[|hs| - 1].frames else [])
  }

  predicate NoneEmpty(hs: seq<Handover>)
  {
    forall k :: 0 <= k < |hs| ==> hs[k].frames != []
  }

  predicate NoneFailed(hs: seq<Handover>)
  {
    forall k :: 0 <= k < |hs| ==> hs[k].written
  }

  /** Everything handed over was sent exactly if no write failed. */
  lemma {:induction false} SentExactly(hs: seq<Handover>)
    requires NoneEmpty(hs)
    ensures |Sent(hs)| <= |Frames(hs)|
    ensures Sent(hs) == Frames(hs) <==> NoneFailed(hs)
  {
    if hs != [] {
      var before, h := hs[..|hs| - 1], hs[|hs| - 1];
      SentExactly(before);
      assert NoneFailed(hs) <==> NoneFailed(before) && h.written;
      if h.written && Sent(hs) == Frames(hs) {
        assert |Sent(before)| == |Frames(before)|;
        assert Sent(hs)[..|Sent(before)|] == Sent(before) && Frames(hs)[..|Sent(before)|] == Frames(before);
      }
    }
  }

  lemma HandedNext(hs: seq<Handover>, h: Handover)
    ensures Frames(hs + [h]) == Frames(hs) + h.frames
    ensures Sent(hs + [h]) == Sent(hs) + (if h.written then h.frames else [])
  {
    assert (hs + [h])[..|hs|] == hs;
  }

  // ----- States ---------------------------------------------------------------------------------

  datatype State = State(
    queue: seq<seq<Packet>>,     // the eight classes
    accepted: multiset<Packet>,  // every frame the queue ever accepted
    pending: bool,               // a command waits
    up: bool,                    // the bus is up
    avail: int,                  // the credit left
    credit: int,                 // the credit last read
    spent: nat,                  // frames handed over since
    dequeued: seq<Packet>,       // frames taken from the queue, in order
    held: seq<Packet>,           // those in the aggregate buffer
    handed: seq<Handover>)       // the transfers, written or failed

  function Start(cfg: Config): State
  {
    State(seq(CLASSES, _ => []), multiset{}, false, true, 0, 0, 0, [], [], [])
  }

  predicate AllSmall(ls: seq<seq<Packet>>, cfg: Config)
  {
    forall c, k :: 0 <= c < |ls| && 0 <= k < |ls[c]| ==> Small(ls[c][k], cfg)
  }

  /** Every frame fits a record, and the credit the buffer. */
  predicate Fit(st: State, cfg: Config)
  {
    && |st.queue| == CLASSES && AllSmall(st.queue, cfg)
    && (forall k :: 0 <= k < |st.held| ==> Small(st.held[k], cfg))
    && (st.avail <= cfg.limit || st.avail <= 0)
  }

  /** Order and conservation: what was accepted was dequeued or is queued, what was dequeued was handed over, in order,
      or is held. Frames handed over since the last credit was read leave the reserve untouched. */
  ghost predicate Sound(st: State, cfg: Config)
  {
    && Fit(st, cfg)
    && st.accepted == multiset(st.dequeued) + Bag(st.queue)
    && st.dequeued == Frames(st.handed) + st.held && NoneEmpty(st.handed)
    && st.spent + st.avail == st.credit && (st.spent == 0 || st.spent + FLOW_CTRL_THRESH <= st.credit)
  }

  /** Between two rounds held frames have credit, and successors queued. */
  predicate AtRest(st: State)
  {
    |st.queue| == CLASSES && (st.held != [] ==> Total(st.queue) > 0 && |st.held| + FLOW_CTRL_THRESH < st.avail)
  }

  /** An act of another thread, atomic under its own lock. `aicwf_sdio_bus_txdata` queues a frame at the end of its
      class, unless the bus is down or the queue is full. */
  function Acted(st: State, a: Act, cfg: Config): (after: State)
    requires |st.queue| == CLASSES
    ensures |after.queue| == CLASSES
  {
    match a
    case Enqueue(pkt, priority) =>
      var prio := priority % CLASSES;
      if st.up && Total(st.queue) < cfg.qmax then
        st.(queue := st.queue[prio := st.queue[prio] + [pkt]], accepted := st.accepted + multiset{pkt})
      else st
    case NewCommand => st.(pending := true)
    case BusDown => st.(up := false)
  }

  function After(st: State, acts: seq<Act>, cfg: Config): (after: State)
    requires |st.queue| == CLASSES
    ensures |after.queue| == CLASSES
  {
    if acts == [] then st else Acted(After(st, acts[..|acts| - 1], cfg), acts[|acts| - 1], cfg)
  }

  /** The other threads leave the loop's own state alone; frames join the ends of their classes and none leaves. */
  ghost predicate Followed(st: State, acts: seq<Act>, after: State)
  {
    && |st.queue| == |after.queue| == CLASSES
    && after == st.(queue := after.queue, accepted := after.accepted, pending := after.pending, up := after.up)
    && after.pending == (st.pending || NewCommand in acts) && after.up == (st.up && BusDown !in acts)
    && (forall c :: 0 <= c < CLASSES ==> st.queue[c] <= after.queue[c])
    && Total(after.queue) >= Total(st.queue) && st.accepted <= after.accepted
    && (Quiet(acts) ==> after.queue == st.queue && after.accepted == st.accepted)
  }

  lemma {:induction false} AfterFollows(st: State, acts: seq<Act>, cfg: Config)
    requires |st.queue| == CLASSES
    ensures Followed(st, acts, After(st, acts, cfg))
  {
    if acts != [] {
      var before, a := acts[..|acts| - 1], acts[|acts| - 1];
      AfterFollows(st, before, cfg);
      OneAct(st, before, After(st, before, cfg), a, cfg);
      assert acts == before + [a];
    }
  }

  /** The frames that these acts offer to class `c`, named by the low three bits of a priority. */
  function Offered(acts: seq<Act>, c: nat): seq<Packet>
  {
    if acts == [] then []
    else
      var last := acts[|acts| - 1];
      Offered(acts[..|acts| - 1], c) + (if last.Enqueue? && last.priority % 8 == c then [last.pkt] else [])
  }

  ghost predicate Joined(st: State, acts: seq<Act>, after: State)
  {
    && |st.queue| == |after.queue| == CLASSES && Total(after.queue) <= Total(st.queue) + |acts|
    && forall c :: 0 <= c < CLASSES ==> after.queue[c] == st.queue[c] + Offered(acts, c)
  }

  /** With the bus up and room for all of them, the frames offered join their classes, in order; with the bus down or a full
      queue none does. */
  lemma {:induction false} AfterJoins(st: State, acts: seq<Act>, cfg: Config)
    requires |st.queue| == CLASSES && st.up && BusDown !in acts && Total(st.queue) + |acts| <= cfg.qmax
    ensures Joined(st, acts, After(st, acts, cfg))
  {
    if acts != [] {
      var before, a := acts[..|acts| - 1], acts[|acts| - 1];
      AfterJoins(st, before, cfg);
      AfterFollows(st, before, cfg);
      assert acts == before + [a];
      OneJoins(st, before, After(st, before, cfg), a, cfg);
    }
  }

  lemma OneJoins(st: State, acts: seq<Act>, mid: State, a: Act, cfg: Config)
    requires Joined(st, acts, mid) && mid.up && Total(mid.queue) < cfg.qmax
    ensures Joined(st, acts + [a], Acted(mid, a, cfg))
  {
    assert (acts + [a])[..|acts|] == acts;
    if a.Enqueue? {
      var prio := a.priority % CLASSES;
      TotalUpdate(mid.queue, prio, mid.queue[prio] + [a.pkt]);
      AppendAssociative(st.queue[prio], Offered(acts, prio), [a.pkt]);
    }
  }

  lemma {:induction false} AfterRefuses(st: State, acts: seq<Act>, cfg: Config)
    requires |st.queue| == CLASSES && (!st.up || Total(st.queue) >= cfg.qmax)
    ensures After(st, acts, cfg).queue == st.queue
  {
    if acts != [] {
      AfterRefuses(st, acts[..|acts| - 1], cfg);
      AfterFollows(st, acts[..|acts| - 1], cfg);
    }
  }

  lemma {:induction false} AfterSound(st: State, acts: seq<Act>, cfg: Config)
    requires Sound(st, cfg) && Possible(acts, cfg)
    ensures Sound(After(st, acts, cfg), cfg)
  {
    if acts != [] {
      AfterSound(st, acts[..|acts| - 1], cfg);
      ActedSound(After(st, acts[..|acts| - 1], cfg), acts[|acts| - 1], cfg);
    }
  }

  lemma OneAct(st: State, acts: seq<Act>, mid: State, a: Act, cfg: Config)
    requires Followed(st, acts, mid)
    ensures Followed(st, acts + [a], Acted(mid, a, cfg))
  {
    if Quiet(acts + [a]) {
      assert (acts + [a])[|acts|] == a;
      assert forall k :: 0 <= k < |acts| ==> (acts + [a])[k] == acts[k];
    }
    if a.Enqueue? {
      var prio := a.priority % CLASSES;
      TotalUpdate(mid.queue, prio, mid.queue[prio] + [a.pkt]);
    }
  }

  lemma {:induction false} AfterFit(st: State, acts: seq<Act>, cfg: Config)
    requires Fit(st, cfg) && Possible(acts, cfg)
    ensures Fit(After(st, acts, cfg), cfg)
  {
    if acts != [] {
      AfterFit(st, acts[..|acts| - 1], cfg);
      ActedFit(After(st, acts[..|acts| - 1], cfg), acts[|acts| - 1], cfg);
    }
  }

  lemma ActedSound(st: State, a: Act, cfg: Config)
    requires Sound(st, cfg) && (a.Enqueue? ==> Small(a.pkt, cfg))
    ensures Sound(Acted(st, a, cfg), cfg)
  {
    if a.Enqueue? {
      BagUpdate(st.queue, a.priority % CLASSES, a.pkt);
      ActedFit(st, a, cfg);
    }
  }

  lemma ActedFit(st: State, a: Act, cfg: Config)
    requires Fit(st, cfg) && (a.Enqueue? ==> Small(a.pkt, cfg))
    ensures Fit(Acted(st, a, cfg), cfg)
  {
  }

  /** The first frame of the priority order moves from the queue into the aggregate. */
  function Taken(st: State): (after: State)
    requires Total(st.queue) > 0
    ensures |after.queue| == |st.queue|
  {
    var c := Highest(st.queue);
    st.(queue := st.queue[c := st.queue[c][1..]], dequeued := st.dequeued + [st.queue[c][0]], held := st.held + [st.queue[c][0]])
  }

  lemma TakenSound(st: State, cfg: Config)
    requires Sound(st, cfg) && Total(st.queue) > 0
    ensures Sound(Taken(st), cfg)
  {
    var c := Highest(st.queue);
    var pkt := st.queue[c][0];
    TakenFit(st, cfg);
    BagTaken(st.queue, c);
    OneMoreCounted(st.dequeued, pkt, st.accepted, Bag(st.queue), Bag(Taken(st).queue));
    AppendAssociative(Frames(st.handed), st.held, [pkt]);
  }

  lemma TakenFit(st: State, cfg: Config)
    requires Fit(st, cfg) && Total(st.queue) > 0
    ensures Fit(Taken(st), cfg)
  {
  }

  lemma OneMoreCounted(dequeued: seq<Packet>, pkt: Packet, accepted: multiset<Packet>, queued: multiset<Packet>, left: multiset<Packet>)
    requires accepted == multiset(dequeued) + queued && queued == multiset{pkt} + left
    ensures accepted == multiset(dequeued + [pkt]) + left
  {
  }

  lemma TakenFirst(st: State)
    requires Total(st.queue) > 0
    ensures var after := Taken(st);
            && Total(after.queue) == Total(st.queue) - 1
            && ByPriority(st.queue) == [after.held[|st.held|]] + ByPriority(after.queue)
  {
    var c := Highest(st.queue);
    TotalUpdate(st.queue, c, st.queue[c][1..]);
    ServedFirst(st.queue, c);
  }

  /** `aicwf_sdio_aggr_send` with the write to the bus: a write that fails is not repeated, its credit stays spent. */
  function Handed(st: State, ok: bool): State
  {
    st.(avail := st.avail - |st.held|, spent := st.spent + |st.held|, held := [], handed := st.handed + [Handover(st.held, st.up && ok)])
  }

  lemma HandedSound(st: State, ok: bool, cfg: Config)
    requires Sound(st, cfg) && st.held != [] && |st.held| + FLOW_CTRL_THRESH <= st.avail
    ensures Sound(Handed(st, ok), cfg)
  {
    HandedNext(st.handed, Handover(st.held, st.up && ok));
    assert Frames(st.handed) + st.held + [] == Frames(st.handed) + st.held;
  }

  function WithCredit(st: State, read: CreditRead, cfg: Config): State
  {
    st.(avail := FlowCtrl(read, cfg), credit := FlowCtrl(read, cfg), spent := 0)
  }

  // ----- One call of the sender -----------------------------------------------------------------

  /** The aggregate goes out with the last queued frame, before a command, or when it has used up the credit. */
  predicate GoesOut(st: State, txNow: bool)
  {
    Total(st.queue) == 0 || txNow || |st.held| == st.avail - FLOW_CTRL_THRESH
  }

  function Concluded(st: State, txNow: bool, t: Turn, cfg: Config): (after: State)
    requires |st.queue| == CLASSES
    ensures |after.queue| == CLASSES
  {
    if GoesOut(st, txNow) then Handed(After(st, t.beforeWrite, cfg), t.written) else st
  }

  lemma ConcludedSound(st: State, txNow: bool, t: Turn, cfg: Config)
    requires Sound(st, cfg) && Possible(t.beforeWrite, cfg) && st.held != [] && |st.held| + FLOW_CTRL_THRESH <= st.avail
    ensures Sound(Concluded(st, txNow, t, cfg), cfg)
  {
    AfterSound(st, t.beforeWrite, cfg);
    AfterFollows(st, t.beforeWrite, cfg);
    HandedSound(After(st, t.beforeWrite, cfg), t.written, cfg);
  }

  /** `aicwf_sdio_send` */
  function SendOnce(st: State, txNow: bool, t: Turn, cfg: Config): (after: State)
    requires |st.queue| == CLASSES
    ensures |after.queue| == CLASSES
  {
    if |st.held| == st.avail - FLOW_CTRL_THRESH then (if st.held != [] then Handed(st, t.written) else st)
    else if Total(st.queue) == 0 then st
    else Concluded(After(Taken(st), t.beforeCount, cfg), txNow, t, cfg)
  }

  /** At most one transfer more, with the outcome of the write. */
  predicate OneMore(was: seq<Handover>, now: seq<Handover>, written: bool)
  {
    was <= now && (now == was || (|now| == |was| + 1 && now[|was|].written == written))
  }

  lemma OneMoreWritten(was: seq<Handover>, now: seq<Handover>)
    requires OneMore(was, now, true) && NoneFailed(was)
    ensures NoneFailed(now)
  {
    assert forall k :: 0 <= k < |was| ==> now[k] == was[k];
  }

  /** The frame a call takes goes out with those held before it. */
  ghost predicate WentOut(st: State, after: State, written: bool)
    requires ByPriority(st.queue) != []
  {
    && after.handed == st.handed + [Handover(st.held + [ByPriority(st.queue)[0]], after.up && written)]
    && after.held == [] && after.avail == st.avail - |st.held| - 1
  }

  ghost predicate Stayed(st: State, after: State)
    requires ByPriority(st.queue) != []
  {
    after.handed == st.handed && after.held == st.held + [ByPriority(st.queue)[0]] && after.avail == st.avail
  }

  /** From rest with credit and a frame queued, a call takes exactly the first frame of the priority order, comes to rest
      again, and holds nothing back from a command. The aggregate goes out before a command, when it has used up the
      credit, or with the last frame, and otherwise it stays. */
  lemma SendTakes(st: State, txNow: bool, t: Turn, cfg: Config)
    requires AtRest(st) && st.avail > FLOW_CTRL_THRESH && Total(st.queue) > 0
    ensures var after := SendOnce(st, txNow, t, cfg);
            && AtRest(after) && (after.up ==> st.up)
            && (st.pending ==> after.pending) && (after.pending ==> st.pending || CommandIn(t))
            && ByPriority(st.queue) != [] && after.dequeued == st.dequeued + [ByPriority(st.queue)[0]]
            && (WentOut(st, after, t.written) || Stayed(st, after))
            && (txNow || |st.held| + 1 + FLOW_CTRL_THRESH == st.avail ==> WentOut(st, after, t.written))
            && (QuietTurn(t) && Total(st.queue) == 1 ==> WentOut(st, after, t.written))
            && (!txNow && |st.held| + 1 + FLOW_CTRL_THRESH != st.avail && Total(st.queue) > 1 ==> Stayed(st, after))
            && st.accepted <= after.accepted
            && (QuietTurn(t) ==>
                  && after.accepted == st.accepted && ByPriority(after.queue) == ByPriority(st.queue)[1..]
                  && Total(after.queue) == Total(st.queue) - 1)
  {
    SendTransfers(st, txNow, t, cfg);
    TakenFirst(st);
    var taken := Taken(st);
    AfterFollows(taken, t.beforeCount, cfg);
    var counted := After(taken, t.beforeCount, cfg);
    AfterFollows(counted, t.beforeWrite, cfg);
  }

  lemma SendTransfers(st: State, txNow: bool, t: Turn, cfg: Config)
    requires AtRest(st) && st.avail > FLOW_CTRL_THRESH && Total(st.queue) > 0
    ensures var after := SendOnce(st, txNow, t, cfg);
            && ByPriority(st.queue) != []
            && (WentOut(st, after, t.written) || Stayed(st, after))
            && (txNow || |st.held| + 1 + FLOW_CTRL_THRESH == st.avail ==> WentOut(st, after, t.written))
            && (QuietTurn(t) && Total(st.queue) == 1 ==> WentOut(st, after, t.written))
            && (!txNow && |st.held| + 1 + FLOW_CTRL_THRESH != st.avail && Total(st.queue) > 1 ==> Stayed(st, after))
  {
    TakenFirst(st);
    var taken := Taken(st);
    AfterFollows(taken, t.beforeCount, cfg);
    AfterFollows(After(taken, t.beforeCount, cfg), t.beforeWrite, cfg);
  }

  lemma SendSound(st: State, txNow: bool, t: Turn, cfg: Config)
    requires Sound(st, cfg) && AtRest(st) && st.avail > FLOW_CTRL_THRESH && Total(st.queue) > 0 && PossibleTurn(t, cfg)
    ensures Sound(SendOnce(st, txNow, t, cfg), cfg)
  {
    var taken := Taken(st);
    var counted := After(taken, t.beforeCount, cfg);
    TakenSound(st, cfg);
    AfterSound(taken, t.beforeCount, cfg);
    AfterFollows(taken, t.beforeCount, cfg);
    ConcludedSound(counted, txNow, t, cfg);
  }

  // ----- Rounds and runs ------------------------------------------------------------------------

  /** One round of the loop on a queue found not empty, and whether it leaves the loop. */
  function Round(st: State, t: Turn, cfg: Config): (r: (State, bool))
    requires |st.queue| == CLASSES
    ensures |r.0.queue| == CLASSES
  {
    var top := After(st, t.atTop, cfg);
    if !top.up then (top, true)
    else
      var checked := After(top, t.afterCheck, cfg);
      if checked.avail <= FLOW_CTRL_THRESH then
        if checked.pending then (checked, true) else (WithCredit(checked, t.credit, cfg), false)
      else (SendOnce(After(checked, t.beforeDequeue, cfg), checked.pending, t, cfg), checked.pending)
  }

  /** A round stops for a bus that is down or a command, with nothing held back from the command; with credit it takes
      exactly one frame, without it reads the credit. */
  ghost predicate Moved(st: State, t: Turn, after: State, stop: bool, cfg: Config)
  {
    var down := !st.up || BusDown in t.atTop;
    var taken := if !down && st.avail > FLOW_CTRL_THRESH then 1 else 0;
    && stop == (down || st.pending || NewCommand in t.atTop || NewCommand in t.afterCheck)
    && (after.up ==> st.up) && (down ==> !after.up)
    && (st.pending ==> after.pending) && (after.pending ==> st.pending || CommandIn(t))
    && (stop && !down ==> after.pending && after.held == [])
    && |after.dequeued| == |st.dequeued| + taken
    && st.dequeued <= after.dequeued && OneMore(st.handed, after.handed, after.up && t.written)
    && (!stop && st.avail <= FLOW_CTRL_THRESH ==> after.avail == FlowCtrl(t.credit, cfg))
    && st.accepted <= after.accepted
    && (QuietTurn(t) ==> after.accepted == st.accepted && Total(after.queue) == Total(st.queue) - taken)
  }

  lemma RoundMoves(st: State, t: Turn, cfg: Config)
    requires AtRest(st) && Total(st.queue) > 0
    ensures var (after, stop) := Round(st, t, cfg);
            AtRest(after) && Moved(st, t, after, stop, cfg)
  {
    var top := After(st, t.atTop, cfg);
    var checked := After(top, t.afterCheck, cfg);
    var ready := After(checked, t.beforeDequeue, cfg);
    AfterFollows(st, t.atTop, cfg);
    AfterFollows(top, t.afterCheck, cfg);
    if top.up && checked.avail > FLOW_CTRL_THRESH {
      AfterFollows(checked, t.beforeDequeue, cfg);
      SendTakes(ready, checked.pending, t, cfg);
    }
  }

  lemma RoundSound(st: State, t: Turn, cfg: Config)
    requires Sound(st, cfg) && AtRest(st) && Total(st.queue) > 0 && PossibleTurn(t, cfg)
    ensures Sound(Round(st, t, cfg).0, cfg)
  {
    var top := After(st, t.atTop, cfg);
    var checked := After(top, t.afterCheck, cfg);
    AfterSound(st, t.atTop, cfg);
    AfterFollows(st, t.atTop, cfg);
    if top.up {
      AfterSound(top, t.afterCheck, cfg);
      AfterFollows(top, t.afterCheck, cfg);
      if checked.avail > FLOW_CTRL_THRESH {
        AfterSound(checked, t.beforeDequeue, cfg);
        AfterFollows(checked, t.beforeDequeue, cfg);
        SendSound(After(checked, t.beforeDequeue, cfg), checked.pending, t, cfg);
      }
    }
  }

  /** The loop, over as many rounds as the script gives, and whether it ended by itself. */
  function Rounds(st: State, script: seq<Turn>, cfg: Config): (r: (State, bool))
    requires |st.queue| == CLASSES
    ensures |r.0.queue| == CLASSES
    decreases |script|
  {
    if Total(st.queue) == 0 then (st, true)
    else if script == [] then (st, false)
    else
      var (after, stop) := Round(st, script[0], cfg);
      if stop then (after, true) else Rounds(after, script[1..], cfg)
  }

  /** Before the loop: a pending command goes first, and a non-empty queue has its credit read. */
  function Begun(st: State, cmdSent: bool, first: seq<Act>, read: CreditRead, cfg: Config): (after: State)
    requires |st.queue| == CLASSES
    ensures |after.queue| == CLASSES
  {
    var start := After(st.(pending := st.pending && !cmdSent), first, cfg);
    if Total(start.queue) > 0 then WithCredit(start, read, cfg) else start
  }

  /** `aicwf_sdio_tx_process` */
  function Process(st: State, cmdSent: bool, first: seq<Act>, read: CreditRead, script: seq<Turn>, cfg: Config): (r: (State, bool))
    requires |st.queue| == CLASSES
  {
    if !st.up then (st, true) else Rounds(Begun(st, cmdSent, first, read, cfg), script, cfg)
  }

  predicate AllPossible(script: seq<Turn>, cfg: Config)
  {
    forall k :: 0 <= k < |script| ==> PossibleTurn(script[k], cfg)
  }

  predicate AllGrant(script: seq<Turn>, cfg: Config)
  {
    forall k :: 0 <= k < |script| ==> Grants(script[k].credit, cfg)
  }

  predicate AllQuiet(script: seq<Turn>)
  {
    forall k :: 0 <= k < |script| ==> QuietTurn(script[k])
  }

  predicate AllWritten(script: seq<Turn>)
  {
    forall k :: 0 <= k < |script| ==> script[k].written
  }

  /** Every run keeps order, conservation and credit, and a loop that ended with the bus up holds nothing back; it ended
      for a command or because nothing is queued. */
  lemma {:induction false} RoundsSound(st: State, script: seq<Turn>, cfg: Config)
    requires Sound(st, cfg) && AtRest(st) && AllPossible(script, cfg)
    ensures var (after, finished) := Rounds(st, script, cfg);
            && Sound(after, cfg) && AtRest(after)
            && (finished && after.up ==> after.held == [] && (after.pending || Total(after.queue) == 0))
    decreases |script|
  {
    if Total(st.queue) > 0 && script != [] {
      RoundSound(st, script[0], cfg);
      RoundMoves(st, script[0], cfg);
      if !Round(st, script[0], cfg).1 {
        RoundsSound(Round(st, script[0], cfg).0, script[1..], cfg);
      }
    }
  }

  /** History only grows. */
  ghost predicate Grown(st: State, after: State)
  {
    (after.up ==> st.up) && st.dequeued <= after.dequeued && st.handed <= after.handed && st.accepted <= after.accepted
  }

  lemma {:induction false} RoundsGrow(st: State, script: seq<Turn>, cfg: Config)
    requires AtRest(st)
    ensures Grown(st, Rounds(st, script, cfg).0)
    decreases |script|
  {
    if Total(st.queue) > 0 && script != [] {
      var (next, stop) := Round(st, script[0], cfg);
      RoundMoves(st, script[0], cfg);
      assert Grown(st, next);
      if !stop {
        RoundsGrow(next, script[1..], cfg);
      }
    }
  }

  /** With a bus that stays up a transfer fails only if its write does. */
  lemma {:induction false} RoundsWritten(st: State, script: seq<Turn>, cfg: Config)
    requires AtRest(st) && NoneFailed(st.handed) && AllWritten(script) && Rounds(st, script, cfg).0.up
    ensures NoneFailed(Rounds(st, script, cfg).0.handed)
    decreases |script|
  {
    if Total(st.queue) > 0 && script != [] {
      var (next, stop) := Round(st, script[0], cfg);
      RoundMoves(st, script[0], cfg);
      if !stop {
        RoundsGrow(next, script[1..], cfg);
      }
      assert next.up;
      OneMoreWritten(st.handed, next.handed);
      if !stop {
        RoundsWritten(next, script[1..], cfg);
      }
    }
  }

  function Progress(st: State): nat
  {
    2 * |st.dequeued| + (if st.avail > FLOW_CTRL_THRESH then 1 else 0)
  }

  /** While credit is granted, two rounds that do not end the loop take at least one frame, whatever else happens. */
  lemma {:induction false} RoundsProgress(st: State, script: seq<Turn>, cfg: Config)
    requires AtRest(st) && AllGrant(script, cfg)
    ensures var (after, finished) := Rounds(st, script, cfg);
            !finished ==> Progress(after) >= Progress(st) + |script|
    decreases |script|
  {
    if Total(st.queue) > 0 && script != [] {
      RoundMoves(st, script[0], cfg);
      if !Round(st, script[0], cfg).1 {
        RoundsProgress(Round(st, script[0], cfg).0, script[1..], cfg);
      }
    }
  }

  /** So without new frames the loop ends. */
  lemma {:induction false} RoundsEnd(st: State, script: seq<Turn>, cfg: Config)
    requires AtRest(st) && AllGrant(script, cfg) && AllQuiet(script)
    requires |script| >= 2 * Total(st.queue) + (if st.avail > FLOW_CTRL_THRESH then 0 else 1)
    ensures Rounds(st, script, cfg).1
    decreases |script|
  {
    if Total(st.queue) > 0 && script != [] {
      RoundMoves(st, script[0], cfg);
      if !Round(st, script[0], cfg).1 {
        RoundsEnd(Round(st, script[0], cfg).0, script[1..], cfg);
      }
    }
  }

  /** A command waits after a run only if it waited before or came during the run. */
  lemma {:induction false} RoundsPending(st: State, script: seq<Turn>, cfg: Config)
    requires AtRest(st)
    ensures var after := Rounds(st, script, cfg).0;
            && (st.pending ==> after.pending)
            && (after.pending ==> st.pending || exists k :: 0 <= k < |script| && CommandIn(script[k]))
    decreases |script|
  {
    if Total(st.queue) > 0 && script != [] {
      var (next, stop) := Round(st, script[0], cfg);
      RoundMoves(st, script[0], cfg);
      if !stop {
        var rest := script[1..];
        RoundsPending(next, rest, cfg);
        if exists k :: 0 <= k < |rest| && CommandIn(rest[k]) {
          var k :| 0 <= k < |rest| && CommandIn(rest[k]);
          assert CommandIn(script[k + 1]);
        }
      }
    }
  }

  /** Nothing but the loop acts. */
  predicate Calm(t: Turn)
  {
    t.atTop == t.afterCheck == t.beforeDequeue == t.beforeCount == t.beforeWrite == []
  }

  /** Frames for which there is credit go out together: left alone, a loop with credit for everything queued hands over
      what it holds and all of the queue, in priority order, in a single transfer, and ends. */
  lemma {:induction false} OneTransfer(st: State, script: seq<Turn>, cfg: Config)
    requires AtRest(st) && st.up && !st.pending && Total(st.queue) > 0
    requires |st.held| + Total(st.queue) + FLOW_CTRL_THRESH <= st.avail
    requires |script| >= Total(st.queue) && forall k :: 0 <= k < |script| ==> Calm(script[k])
    ensures Rounds(st, script, cfg).1
    ensures var after, written := Rounds(st, script, cfg).0, script[Total(st.queue) - 1].written;
            && after.handed == st.handed + [Handover(st.held + ByPriority(st.queue), written)]
            && after.held == [] && Total(after.queue) == 0 && after.up && !after.pending
    decreases |script|
  {
    var t, order := script[0], ByPriority(st.queue);
    CalmRound(st, t, cfg);
    SendTakes(st, false, t, cfg);
    var next := SendOnce(st, false, t, cfg);
    if Total(st.queue) == 1 {
      EmptyTotal(next.queue);
      NothingLeft(next.queue);
      assert order == [order[0]];
    } else {
      assert next.held + order[1..] == st.held + order;
      OneTransfer(next, script[1..], cfg);
    }
  }

  /** So does a whole call of the transmit loop, once a pending command was sent. */
  lemma CalmCall(st: State, cmdSent: bool, read: CreditRead, script: seq<Turn>, cfg: Config)
    requires AtRest(st) && st.up && st.held == [] && (st.pending ==> cmdSent) && Total(st.queue) > 0
    requires Total(st.queue) + FLOW_CTRL_THRESH <= FlowCtrl(read, cfg)
    requires |script| >= Total(st.queue) && forall k :: 0 <= k < |script| ==> Calm(script[k])
    ensures var (after, finished) := Process(st, cmdSent, [], read, script, cfg);
            && finished && !after.pending && Total(after.queue) == 0 && after.held == []
            && after.handed == st.handed + [Handover(ByPriority(st.queue), script[Total(st.queue) - 1].written)]
  {
    var begun := Begun(st, cmdSent, [], read, cfg);
    OneTransfer(begun, script, cfg);
    assert [] + ByPriority(st.queue) == ByPriority(st.queue);
  }

  lemma CalmRound(st: State, t: Turn, cfg: Config)
    requires |st.queue| == CLASSES && st.up && !st.pending && st.avail > FLOW_CTRL_THRESH && Calm(t)
    ensures Round(st, t, cfg) == (SendOnce(st, false, t, cfg), false)
    ensures QuietTurn(t) && !CommandIn(t) && SendOnce(st, false, t, cfg).up
  {
  }

  lemma BegunSound(st: State, cmdSent: bool, first: seq<Act>, read: CreditRead, cfg: Config)
    requires Sound(st, cfg) && AtRest(st) && st.held == [] && Possible(first, cfg)
    ensures var after := Begun(st, cmdSent, first, read, cfg);
            && Sound(after, cfg) && AtRest(after) && after.held == [] && after.dequeued == st.dequeued
            && after.handed == st.handed && st.accepted <= after.accepted && (after.up ==> st.up)
            && (Quiet(first) ==> after.queue == st.queue)
            && (after.pending <==> (st.pending && !cmdSent) || NewCommand in first)
            && after.avail == (if Total(after.queue) > 0 then FlowCtrl(read, cfg) else st.avail)
  {
    var sent := st.(pending := st.pending && !cmdSent);
    assert Sound(sent, cfg);
    AfterSound(sent, first, cfg);
    AfterFollows(sent, first, cfg);
  }

  /** The outcome of a run that ended with the bus up: everything dequeued was handed over once, in order, and all of it
      was sent if and only if no write failed; if moreover no command waits, that is everything ever accepted. A command
      waits only if it waited before and was not sent, or came during the run. */
  lemma RunOutcome(st: State, cmdSent: bool, first: seq<Act>, read: CreditRead, script: seq<Turn>, cfg: Config)
    requires Sound(st, cfg) && AtRest(st) && (st.up ==> st.held == []) && Possible(first, cfg) && AllPossible(script, cfg)
    ensures var (after, finished) := Process(st, cmdSent, first, read, script, cfg);
            && Sound(after, cfg) && AtRest(after)
            && Grown(st, after)
            && (finished && after.up ==>
                  && after.held == [] && after.dequeued == Frames(after.handed)
                  && (Sent(after.handed) == after.dequeued <==> NoneFailed(after.handed))
                  && (!after.pending ==> multiset(after.dequeued) == after.accepted))
            && (if !st.up then after == st
                else
                  && ((st.pending && !cmdSent) || NewCommand in first ==> after.pending)
                  && (after.pending ==> (st.pending && !cmdSent) || CommandDuring(first, script)))
            && (after.up && NoneFailed(st.handed) && AllWritten(script) ==> NoneFailed(after.handed))
  {
    var (after, finished) := Process(st, cmdSent, first, read, script, cfg);
    if st.up {
      var begun := Begun(st, cmdSent, first, read, cfg);
      BegunSound(st, cmdSent, first, read, cfg);
      RoundsSound(begun, script, cfg);
      RoundsGrow(begun, script, cfg);
      RoundsPending(begun, script, cfg);
      if after.up && NoneFailed(st.handed) && AllWritten(script) {
        RoundsWritten(begun, script, cfg);
      }
    }
    SentExactly(after.handed);
    if Total(after.queue) == 0 {
      EmptyTotal(after.queue);
      EmptyBag(after.queue);
    }
  }

  /** With credit in every round, a run that has not ended has taken a frame in at least every other round; without new
      frames, two rounds a frame are enough for it to end. */
  lemma RunProgress(st: State, cmdSent: bool, first: seq<Act>, read: CreditRead, script: seq<Turn>, cfg: Config)
    requires Sound(st, cfg) && AtRest(st) && (st.up ==> st.held == []) && Possible(first, cfg) && AllGrant(script, cfg)
    ensures var (after, finished) := Process(st, cmdSent, first, read, script, cfg);
            && (!finished ==> 2 * (|after.dequeued| - |st.dequeued|) + 1 >= |script|)
            && (Quiet(first) && AllQuiet(script) && |script| > 2 * Total(st.queue) ==> finished)
  {
    if st.up {
      var begun := Begun(st, cmdSent, first, read, cfg);
      BegunSound(st, cmdSent, first, read, cfg);
      RoundsProgress(begun, script, cfg);
      assert Progress(begun) <= 2 * |st.dequeued| + 1;
      if Quiet(first) && AllQuiet(script) && |script| > 2 * Total(st.queue) {
        QuietRunEnds(st, cmdSent, first, read, script, cfg);
      }
    }
  }

  lemma QuietRunEnds(st: State, cmdSent: bool, first: seq<Act>, read: CreditRead, script: seq<Turn>, cfg: Config)
    requires Sound(st, cfg) && AtRest(st) && st.up && st.held == [] && Possible(first, cfg) && AllGrant(script, cfg)
    requires Quiet(first) && AllQuiet(script) && |script| > 2 * Total(st.queue)
    ensures Process(st, cmdSent, first, read, script, cfg).1
  {
    var begun := Begun(st, cmdSent, first, read, cfg);
    BegunSound(st, cmdSent, first, read, cfg);
    RoundsEnd(begun, script, cfg);
  }

  // ----- The life of the driver -----------------------------------------------------------------

  /** What happens to the transmit path: other threads act while its thread sleeps, or the thread is woken. */
  datatype Call =
    | Outside(acts: seq<Act>)
    | Woken(cmdSent: bool, first: seq<Act>, read: CreditRead, script: seq<Turn>)

  predicate PossibleCall(c: Call, cfg: Config)
  {
    match c
    case Outside(acts) => Possible(acts, cfg)
    case Woken(_, first, _, script) => Possible(first, cfg) && AllPossible(script, cfg)
  }

  /** What one call makes of the state, and whether it ended. */
  function Called(st: State, c: Call, cfg: Config): (r: (State, bool))
    requires |st.queue| == CLASSES
    ensures |r.0.queue| == CLASSES
  {
    match c
    case Outside(acts) => (After(st, acts, cfg), true)
    case Woken(cmdSent, first, read, script) => Process(st, cmdSent, first, read, script, cfg)
  }

  /** All calls in turn, up to one that has not ended. */
  function Life(st: State, calls: seq<Call>, cfg: Config): (r: (State, bool))
    requires |st.queue| == CLASSES
    ensures |r.0.queue| == CLASSES
    decreases |calls|
  {
    if calls == [] then (st, true)
    else
      var (next, ended) := Called(st, calls[0], cfg);
      if ended then Life(next, calls[1..], cfg) else (next, false)
  }

  /** Between two calls nothing is held, unless the bus went down. */
  ghost predicate Asleep(st: State, cfg: Config)
  {
    Sound(st, cfg) && AtRest(st) && (st.up ==> st.held == [])
  }

  /** Whether a command may wait after a call: it waited and was not sent, or came during the call. */
  predicate Waits(waiting: bool, c: Call)
  {
    match c
    case Outside(acts) => waiting || NewCommand in acts
    case Woken(cmdSent, first, _, script) => (waiting && !cmdSent) || CommandDuring(first, script)
  }

  predicate WaitsAfter(waiting: bool, calls: seq<Call>)
    decreases |calls|
  {
    if calls == [] then waiting else WaitsAfter(Waits(waiting, calls[0]), calls[1..])
  }

  lemma {:induction false} WaitsMore(waiting: bool, calls: seq<Call>)
    ensures WaitsAfter(false, calls) ==> WaitsAfter(waiting, calls)
    decreases |calls|
  {
    if calls != [] {
      WaitsMore(Waits(waiting, calls[0]), calls[1..]);
      WaitsMore(Waits(false, calls[0]), calls[1..]);
    }
  }

  predicate WrittenCall(c: Call)
  {
    c.Woken? ==> AllWritten(c.script)
  }

  lemma CalledSound(st: State, c: Call, cfg: Config)
    requires Asleep(st, cfg) && PossibleCall(c, cfg)
    ensures var (after, ended) := Called(st, c, cfg);
            && Sound(after, cfg) && AtRest(after) && Grown(st, after) && (ended ==> Asleep(after, cfg))
            && (after.up && NoneFailed(st.handed) && WrittenCall(c) ==> NoneFailed(after.handed))
            && (after.up && after.pending ==> Waits(st.pending, c))
  {
    match c
    case Outside(acts) =>
      AfterSound(st, acts, cfg);
      AfterFollows(st, acts, cfg);
    case Woken(cmdSent, first, read, script) =>
      RunOutcome(st, cmdSent, first, read, script, cfg);
  }

  /** Over any calls, order, conservation and the reserve hold, and the history only grows. While the transmit thread
      sleeps with the bus up, everything ever dequeued was handed over, in order, and all of it was sent if and only if no
      write ever failed; what was accepted and not dequeued is still queued. */
  lemma {:induction false} LifeOutcome(st: State, calls: seq<Call>, cfg: Config)
    requires Asleep(st, cfg) && forall c :: c in calls ==> PossibleCall(c, cfg)
    ensures var (after, idle) := Life(st, calls, cfg);
            && Sound(after, cfg) && AtRest(after) && Grown(st, after)
            && (idle ==> Asleep(after, cfg))
            && (idle && after.up ==>
                  && after.dequeued == Frames(after.handed)
                  && (Sent(after.handed) == after.dequeued <==> NoneFailed(after.handed))
                  && after.accepted == multiset(Frames(after.handed)) + Bag(after.queue))
            && (after.up && NoneFailed(st.handed) && (forall c :: c in calls ==> WrittenCall(c)) ==> NoneFailed(after.handed))
    decreases |calls|
  {
    if calls == [] {
      SentExactly(st.handed);
    } else {
      var (next, ended) := Called(st, calls[0], cfg);
      CalledSound(st, calls[0], cfg);
      if ended {
        LifeOutcome(next, calls[1..], cfg);
      }
    }
  }

  /** A command waits while the transmit thread sleeps with the bus up only if it was not sent since it came. */
  lemma {:induction false} LifePending(st: State, calls: seq<Call>, cfg: Config)
    requires Asleep(st, cfg) && forall c :: c in calls ==> PossibleCall(c, cfg)
    ensures var (after, idle) := Life(st, calls, cfg);
            idle && after.up && after.pending ==> WaitsAfter(st.pending, calls)
    decreases |calls|
  {
    if calls != [] {
      var c, rest := calls[0], calls[1..];
      var (next, ended) := Called(st, c, cfg);
      CalledSound(st, c, cfg);
      if ended {
        LifePending(next, rest, cfg);
        LifeOutcome(next, rest, cfg);
        if !next.pending {
          WaitsMore(Waits(st.pending, c), rest);
        }
      }
    }
  }
}
