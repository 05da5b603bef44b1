/** The transmit loop: frames leave the priority queue into the aggregate and go out under firmware credit,
    while the network stack enqueues, commands become pending and the bus may go down at any point. Every method does
    to the driver's fields what its namesake in `TxState` does to the state. */
module TxScheduler {
  import opened Common
  import opened FrameQueues
  import opened Aggregate
  import opened TxState

  class TxPriv {
    const cfg: Config
    const txq: FrameQueue<Packet>
    const aggr: AggrBuf
    var fwAvail: int
    var txPktCnt: int
    var cmdPending: bool
    var busUp: bool
    ghost var st: State
    /** What the device has read out of the blocks written to the bus. */
    ghost var readOut: seq<seq<byte>>

    constructor (cfg: Config, blockCount: nat)
      requires cfg.limit * cfg.maxRecord <= BLOCK * blockCount
      ensures Tied() && Counted() && this.cfg == cfg && st == Start(cfg) && Sound(st, cfg) && AtRest(st)
      ensures fresh(txq) && fresh(txq.queuelist) && fresh(aggr) && fresh(aggr.buf)
    {
      this.cfg := cfg;
      txq := new FrameQueue<Packet>(CLASSES, cfg.qmax);
      aggr := new AggrBuf(cfg.chip, blockCount);
      fwAvail, txPktCnt, cmdPending, busUp := 0, 0, false, true;
      st, readOut := Start(cfg), [];
      new;
      EmptyBag(st.queue);
    }

    /** The aggregate buffer holds the held frames, and the device has read exactly the frames sent. */
    ghost predicate Buffered()
      reads `st, `readOut, aggr, aggr.buf
    {
      && aggr.Valid() && aggr.chip == cfg.chip && aggr.payloads == Payloads(st.held)
      && cfg.limit * cfg.maxRecord <= aggr.buf.Length && aggr.tail <= |st.held| * cfg.maxRecord
      && readOut == ReceivedAll(cfg.chip, Payloads(Sent(st.handed)))
    }

    ghost predicate Queued()
      reads `st, txq, txq.queuelist
    {
      txq.Valid() && txq.qmax == cfg.qmax && txq.queuelist[..] == st.queue && |st.queue| == CLASSES
    }

    /** The fields hold the state. */
    ghost predicate Tied()
      reads this, txq, txq.queuelist, aggr, aggr.buf
    {
      Buffered() && Queued() && fwAvail == st.avail && cmdPending == st.pending && busUp == st.up
    }

    /** Between two calls of the sender the packet counter is the length of the queue. */
    ghost predicate Counted()
      reads `txPktCnt, txq
    {
      txPktCnt == txq.qcnt
    }

    /** `aicwf_sdio_bus_txdata`: queue the frame and count it under one lock; a bus that is down or a full queue refuses it. */
    method BusTxData(pkt: Packet, priority: nat) returns (ok: bool)
      requires Tied()
      modifies `txPktCnt, `st, txq, txq.queuelist
      ensures Tied() && st == Acted(old(st), Enqueue(pkt, priority), cfg)
      ensures ok == (busUp && old(txq.qcnt) < txq.qmax)
      ensures var was, prio := old(txq.queuelist[..]), priority % 8;
              && |was| == 8
              && txq.queuelist[..] == (if ok then was[prio := was[prio] + [pkt]] else was)
              && st.accepted == old(st).accepted + (if ok then multiset{pkt} else multiset{})
      ensures txPktCnt - txq.qcnt == old(txPktCnt) - old(txq.qcnt)
    {
      if !busUp {
        return false;
      }
      ok := txq.Enq(pkt, priority % CLASSES);
      if ok {
        txPktCnt := txPktCnt + 1;
      }
      st := Acted(st, Enqueue(pkt, priority), cfg);
    }

    /** An act of another thread. */
    method Act(a: Act)
      requires Tied()
      modifies `txPktCnt, `cmdPending, `busUp, `st, txq, txq.queuelist
      ensures Tied() && st == Acted(old(st), a, cfg)
      ensures txPktCnt - txq.qcnt == old(txPktCnt) - old(txq.qcnt)
    {
      match a
      case Enqueue(pkt, priority) =>
        var _ := BusTxData(pkt, priority);
      case NewCommand =>
        cmdPending := true;
        st := st.(pending := true);
      case BusDown =>
        busUp := false;
        st := st.(up := false);
    }

    method Environment(acts: seq<Act>)
      requires Tied()
      modifies `txPktCnt, `cmdPending, `busUp, `st, txq, txq.queuelist
      ensures Tied() && st == After(old(st), acts, cfg)
      ensures txPktCnt - txq.qcnt == old(txPktCnt) - old(txq.qcnt)
    {
      for k := 0 to |acts|
        invariant Tied() && st == After(old(st), acts[..k], cfg)
        invariant txPktCnt - txq.qcnt == old(txPktCnt) - old(txq.qcnt)
      {
        assert acts[..k + 1][..k] == acts[..k];
        Act(acts[k]);
      }
      assert acts[..|acts|] == acts;
    }

    /** The emptiness test of the loop. */
    method NothingQueued() returns (empty: bool)
      requires Queued()
      ensures empty <==> Total(st.queue) == 0
    {
      empty := txq.IsEmpty();
    }

    /** `aicwf_sdio_aggr_send` with the write to the bus; if the write succeeds, the device reads the held frames. */
    method Transfer(ok: bool)
      requires Tied() && Fit(st, cfg) && st.held != []
      modifies `fwAvail, `st, `readOut, aggr, aggr.buf
      ensures Tied() && st == Handed(old(st), ok)
    {
      ghost var was, h := st, Handover(st.held, st.up && ok);
      fwAvail := fwAvail - aggr.count;
      WriteOut(ok, h);
      SentNext(cfg.chip, was.handed, h);
      st := Handed(was, ok);
      assert st.handed == was.handed + [h] && st.held == [];
      assert Payloads(st.held) == [];
    }

    method WriteOut(ok: bool, ghost h: Handover)
      requires Buffered() && h == Handover(st.held, busUp && ok) && forall k :: 0 <= k < |st.held| ==> Small(st.held[k], cfg)
      modifies `readOut, aggr, aggr.buf
      ensures aggr.Valid() && aggr.payloads == [] && aggr.tail == 0
      ensures readOut == old(readOut) + ReadBack(cfg.chip, h)
    {
      var block := aggr.AggrSend();
      if busUp && ok {
        readOut := readOut + Walk(aggr.chip, block);
      }
    }

    method ReadCredit(read: CreditRead)
      requires Tied()
      modifies `fwAvail, `st
      ensures Tied() && st == WithCredit(old(st), read, cfg)
    {
      fwAvail := FlowCtrl(read, cfg);
      st := WithCredit(st, read, cfg);
    }

    /** Move the first frame of the priority order, if there is one, from the queue into the aggregate; credit and
        dimensions leave room for it. */
    method HoldNext() returns (taken: bool)
      requires Tied() && Fit(st, cfg) && |st.held| + FLOW_CTRL_THRESH < st.avail
      modifies `st, txq, txq.queuelist, aggr, aggr.buf
      ensures Tied() && taken == (Total(old(st).queue) > 0) && st == (if taken then Taken(old(st)) else old(st))
      ensures txq.qcnt == old(txq.qcnt) - (if taken then 1 else 0)
    {
      ghost var was := st;
      var p := txq.Dequeue();
      taken := p.Some?;
      if taken {
        SameHighest(was.queue, Highest(was.queue), txq.hiPrio);
        Hold(p.value);
        st := Taken(was);
      }
    }

    /** `aicwf_sdio_aggr` on a frame there is credit for. */
    method Hold(pkt: Packet)
      requires Buffered() && Small(pkt, cfg) && |st.held| < cfg.limit
      modifies `st, aggr, aggr.buf
      ensures Buffered() && st == old(st).(held := old(st).held + [pkt])
    {
      Room(|st.held|, cfg.limit, cfg.maxRecord);
      PayloadsNext(st.held, pkt);
      aggr.Aggr(pkt);
      st := st.(held := st.held + [pkt]);
    }

    /** `aicwf_sdio_send` */
    method Send(txNow: bool, t: Turn)
      requires Tied() && Counted() && Fit(st, cfg) && st.avail > FLOW_CTRL_THRESH && PossibleTurn(t, cfg)
      requires |st.held| + FLOW_CTRL_THRESH <= st.avail
      modifies this, txq, txq.queuelist, aggr, aggr.buf
      ensures Tied() && Counted() && st == SendOnce(old(st), txNow, t, cfg)
    {
      // The resynchronisation of a counter and buffer that disagree is never needed.
      assert aggr.count == 0 <==> aggr.tail == 0;
      if aggr.count == fwAvail - FLOW_CTRL_THRESH {
        if aggr.count > 0 {
          Transfer(t.written);
        }
      } else {
        SendNext(txNow, t);
      }
    }

    method SendNext(txNow: bool, t: Turn)
      requires Tied() && Counted() && Fit(st, cfg) && PossibleTurn(t, cfg) && |st.held| + FLOW_CTRL_THRESH < st.avail
      modifies this, txq, txq.queuelist, aggr, aggr.buf
      ensures Tied() && Counted() && st == SendOnce(old(st), txNow, t, cfg)
    {
      ghost var was := st;
      var taken := HoldNext();
      if !taken {
        return;
      }
      TakenFit(was, cfg);
      AfterFit(st, t.beforeCount, cfg);
      AfterFollows(st, t.beforeCount, cfg);
      Environment(t.beforeCount);
      Conclude(txNow, t);
      txPktCnt := txPktCnt - 1;
    }

    /** The last decision of a send. */
    method Conclude(txNow: bool, t: Turn)
      requires Tied() && Fit(st, cfg) && txPktCnt == txq.qcnt + 1 && st.held != [] && PossibleTurn(t, cfg)
      modifies this, txq, txq.queuelist, aggr, aggr.buf
      ensures Tied() && txPktCnt == txq.qcnt + 1 && st == Concluded(old(st), txNow, t, cfg)
    {
      if txPktCnt == 1 || txNow || aggr.count == fwAvail - FLOW_CTRL_THRESH {
        AfterFit(st, t.beforeWrite, cfg);
        AfterFollows(st, t.beforeWrite, cfg);
        Environment(t.beforeWrite);
        Transfer(t.written);
      }
    }

    /** One round of the loop on a queue found not empty; `stop` says it leaves the loop. */
    method OneRound(t: Turn) returns (stop: bool)
      requires Tied() && Counted() && Fit(st, cfg) && AtRest(st) && Total(st.queue) > 0 && PossibleTurn(t, cfg)
      modifies this, txq, txq.queuelist, aggr, aggr.buf
      ensures Tied() && Counted() && (st, stop) == Round(old(st), t, cfg)
    {
      AfterFit(st, t.atTop, cfg);
      AfterFollows(st, t.atTop, cfg);
      Environment(t.atTop);
      if !busUp {
        return true;
      }
      AfterFit(st, t.afterCheck, cfg);
      AfterFollows(st, t.afterCheck, cfg);
      Environment(t.afterCheck);
      if fwAvail <= FLOW_CTRL_THRESH {
        if cmdPending {
          return true;
        }
        ReadCredit(t.credit);
        stop := false;
      } else {
        stop := cmdPending;
        AfterFit(st, t.beforeDequeue, cfg);
        AfterFollows(st, t.beforeDequeue, cfg);
        Environment(t.beforeDequeue);
        Send(stop, t);
      }
    }

    /** Before the loop: a pending command goes first, and a non-empty queue has its credit read. */
    method Begin(cmdSent: bool, first: seq<Act>, read: CreditRead)
      requires Tied() && Counted()
      modifies this, txq, txq.queuelist
      ensures Tied() && Counted() && st == Begun(old(st), cmdSent, first, read, cfg)
    {
      if cmdPending && cmdSent {
        cmdPending := false;
      }
      st := st.(pending := cmdPending);
      Environment(first);
      var empty := NothingQueued();
      if !empty {
        ReadCredit(read);
      }
    }

    /** The guard of the loop and one round; `ended` says that either of them ends it. */
    method Iterate(t: Turn) returns (ended: bool)
      requires Ready() && PossibleTurn(t, cfg)
      modifies this, txq, txq.queuelist, aggr, aggr.buf
      ensures Ready() && (st, ended) == Iterated(old(st), t, cfg)
    {
      var empty := NothingQueued();
      if empty {
        return true;
      }
      RoundKeeps(st, t, cfg);
      ended := OneRound(t);
    }

    ghost predicate Ready()
      reads this, txq, txq.queuelist, aggr, aggr.buf
    {
      Tied() && Counted() && Sound(st, cfg) && AtRest(st)
    }

    method Loop(script: seq<Turn>) returns (finished: bool)
      requires Ready() && AllPossible(script, cfg)
      modifies this, txq, txq.queuelist, aggr, aggr.buf
      ensures Ready() && (st, finished) == Rounds(old(st), script, cfg)
    {
      assert script[0..] == script;
      for k := 0 to |script|
        invariant Ready() && Rounds(st, script[k..], cfg) == Rounds(old(st), script, cfg)
      {
        RoundsNext(st, script, k, cfg);
        finished := Iterate(script[k]);
        if finished {
          return;
        }
      }
      finished := NothingQueued();
    }

    /** `aicwf_sdio_tx_process`, over as many rounds as the script gives: `finished` says the loop ended by itself.
        Every step of every run is a step of some script, so what `RunOutcome` and `RunProgress` say of `Process` holds
        of every run of the driver. */
    method TxProcess(cmdSent: bool, first: seq<Act>, read: CreditRead, script: seq<Turn>) returns (finished: bool)
      requires Ready() && (busUp ==> st.held == [])
      requires Possible(first, cfg) && AllPossible(script, cfg)
      modifies this, txq, txq.queuelist, aggr, aggr.buf
      ensures Ready() && (st, finished) == Process(old(st), cmdSent, first, read, script, cfg)
      ensures finished && busUp && NoneFailed(st.handed) ==> readOut == ReceivedAll(cfg.chip, Payloads(st.dequeued))
    {
      RunOutcome(st, cmdSent, first, read, script, cfg);
      if !busUp {
        return true;
      }
      BegunSound(st, cmdSent, first, read, cfg);
      Begin(cmdSent, first, read);
      finished := Loop(script);
    }

    /** One call into the transmit path. */
    method Call(c: Call) returns (ended: bool)
      requires Ready() && (busUp ==> st.held == []) && PossibleCall(c, cfg)
      modifies this, txq, txq.queuelist, aggr, aggr.buf
      ensures Ready() && (st, ended) == Called(old(st), c, cfg) && (ended && busUp ==> st.held == [])
    {
      CalledSound(st, c, cfg);
      match c
      case Outside(acts) =>
        Environment(acts);
        ended := true;
      case Woken(cmdSent, first, read, script) =>
        ended := TxProcess(cmdSent, first, read, script);
    }

    /** The life of the driver: any calls in turn, so what `LifeOutcome` says of `Life` holds at every point of it at which
        the transmit thread sleeps, and while it does not, what `Sound` says. */
    method Live(calls: seq<Call>) returns (idle: bool)
      requires Ready() && (busUp ==> st.held == []) && forall c :: c in calls ==> PossibleCall(c, cfg)
      modifies this, txq, txq.queuelist, aggr, aggr.buf
      ensures Ready() && (st, idle) == Life(old(st), calls, cfg)
      ensures idle && busUp && NoneFailed(st.handed) ==> readOut == ReceivedAll(cfg.chip, Payloads(st.dequeued))
    {
      LifeOutcome(st, calls, cfg);
      assert calls[0..] == calls;
      for k := 0 to |calls|
        invariant Ready() && (busUp ==> st.held == []) && Life(st, calls[k..], cfg) == Life(old(st), calls, cfg)
      {
        assert calls[k..][0] == calls[k] && calls[k..][1..] == calls[k + 1..];
        idle := Call(calls[k]);
        if !idle {
          return;
        }
      }
      idle := true;
    }
  }

  lemma RoundKeeps(st: State, t: Turn, cfg: Config)
    requires Sound(st, cfg) && AtRest(st) && Total(st.queue) > 0 && PossibleTurn(t, cfg)
    ensures Fit(st, cfg) && Sound(Round(st, t, cfg).0, cfg) && AtRest(Round(st, t, cfg).0)
  {
    RoundSound(st, t, cfg);
    RoundMoves(st, t, cfg);
  }

  function Iterated(st: State, t: Turn, cfg: Config): (State, bool)
    requires |st.queue| == CLASSES
  {
    if Total(st.queue) == 0 then (st, true) else Round(st, t, cfg)
  }

  lemma RoundsNext(st: State, script: seq<Turn>, k: nat, cfg: Config)
    requires |st.queue| == CLASSES && k < |script|
    ensures var (after, ended) := Iterated(st, script[k], cfg);
            Rounds(st, script[k..], cfg) == if ended then (after, true) else Rounds(after, script[k + 1..], cfg)
  {
    assert script[k..][0] == script[k] && script[k..][1..] == script[k + 1..];
  }

  /** What a device reads of a transfer. */
  function ReadBack(chip: Chip, h: Handover): seq<seq<byte>>
  {
    if h.written then ReceivedAll(chip, Payloads(h.frames)) else []
  }

  lemma PayloadsNext(pkts: seq<Packet>, pkt: Packet)
    ensures Payloads(pkts + [pkt]) == Payloads(pkts) + [pkt.Payload()]
  {
  }

  lemma SentNext(chip: Chip, hs: seq<Handover>, h: Handover)
    ensures ReceivedAll(chip, Payloads(Sent(hs + [h]))) ==
      ReceivedAll(chip, Payloads(Sent(hs))) + ReadBack(chip, h)
  {
    HandedNext(hs, h);
    if h.written {
      assert Payloads(Sent(hs) + h.frames) == Payloads(Sent(hs)) + Payloads(h.frames);
    }
  }

  lemma SameHighest(ls: seq<seq<Packet>>, c: nat, d: nat)
    requires IsHighest(ls, c) && IsHighest(ls, d)
    ensures c == d
  {
  }

  lemma Room(count: nat, limit: nat, maxRecord: nat)
    requires count < limit
    ensures (count + 1) * maxRecord == count * maxRecord + maxRecord <= limit * maxRecord
  {
    var spare := limit - count - 1;
    NotNegative(spare, maxRecord);
    assert limit * maxRecord == (count + 1 + spare) * maxRecord == (count + 1) * maxRecord + spare * maxRecord;
  }

  lemma NotNegative(a: nat, b: nat)
    ensures a * b >= 0
  {
  }
}
