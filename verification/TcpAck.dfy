/** The filter that withholds, replaces and releases outgoing TCP acknowledgements. */
module TcpAck {
  import opened Common

  const TCP_ACK_NUM := 32
  const TCP_ACK_DROP_CNT := 10

  // ----- Sequence numbers modulo 2^32 (section 3.4 of RFC 9293) ----------------------------------

  /** The order is total. It is antisymmetric except for numbers exactly half the circle apart. */
  lemma BeforeEitherWay(a: u32, b: u32)
    ensures U32Before(a, b) || U32Before(b, a)
    ensures U32Before(a, b) && U32Before(b, a) <==> a == b || Minus(a, b) == HALF
  {
  }

  predicate InWindow(base: u32, x: u32) { Minus(x, base) < HALF }

  /** Within half the circle from `base` on, the comparison is that of the distances from `base`. */
  lemma BeforeInWindow(base: u32, a: u32, b: u32)
    requires InWindow(base, a) && InWindow(base, b)
    ensures U32Before(a, b) <==> Minus(a, base) <= Minus(b, base)
  {
  }

  /** What a slot has recorded after these acknowledgement numbers, the oldest first. */
  function Latest(acks: seq<u32>): u32
    requires acks != []
  {
    var last := acks[|acks| - 1];
    if |acks| == 1 then last
    else
      var before := Latest(acks[..|acks| - 1]);
      if U32Before(before, last) then last else before
  }

  /** If all numbers of a flow lie within half the circle, the recorded one is the newest of them. */
  lemma {:induction false} LatestIsNewest(base: u32, acks: seq<u32>)
    requires acks != [] && forall x :: x in acks ==> InWindow(base, x)
    ensures Latest(acks) in acks && forall x :: x in acks ==> Minus(x, base) <= Minus(Latest(acks), base)
  {
    if |acks| > 1 {
      var before, last := acks[..|acks| - 1], acks[|acks| - 1];
      LatestIsNewest(base, before);
      BeforeInWindow(base, Latest(before), last);
      assert forall x :: x in acks <==> x in before || x == last;
    }
  }

  lemma LatestNext(acks: seq<u32>, x: u32)
    requires acks != []
    ensures Latest(acks + [x]) == if U32Before(Latest(acks), x) then x else Latest(acks)
  {
    assert (acks + [x])[..|acks|] == acks;
  }

  /** More than `timeout` ticks have gone by since then, but at most half the circle more. */
  predicate Overdue(since: u32, now: u32, timeout: u32)
  {
    var ticks := Minus(now, since);
    timeout < ticks <= timeout + HALF || timeout < ticks + TWO_32 <= timeout + HALF
  }

  lemma OverdueExactly(since: u32, now: u32, timeout: u32)
    ensures TimeAfter(now, (since + timeout) % TWO_32) <==> Overdue(since, now, timeout)
  {
    assert (since + timeout) % TWO_32 == if since + timeout < TWO_32 then since + timeout else since + timeout - TWO_32;
  }

  /** A slot after the silent flows were dropped, if a sweep was `due`: only the mark of its being in use goes. */
  function Dropped(was: AckInfo, due: bool, now: u32, timeout: u32): AckInfo
  {
    if due && was.busy && Overdue(was.lastTime, now, timeout) then was.(busy := false) else was
  }

  // ----- Messages -------------------------------------------------------------------------------

  /** The identity of a message buffer. */
  type Msg = nat

  datatype Key = Key(source: nat, dest: nat, saddr: int, daddr: int)

  /** What the headers of a packet say. */
  datatype Check = NotAck | Ack(key: Key, ackSeq: u32, winScale: nat)

  /** Why a message was freed unsent. */
  datatype Cause =
    | Superseded(newer: u32) // while held, by a later acknowledgement of its flow
    | Behind(recorded: u32)  // on arrival, being older than what its flow had recorded
    | Stale                  // left in a slot that another flow took over
    | Shutdown

  datatype Fate = Passed | Held(slot: nat) | Sent | Freed(why: Cause)

  datatype Entry = Entry(check: Check, fate: Fate)

  type Book = map<Msg, Entry>

  /** Nothing is freed in favour of an older acknowledgement. */
  predicate Justified(e: Entry)
  {
    && (e.fate.Freed? && e.fate.why.Superseded? ==> e.check.Ack? && U32Before(e.check.ackSeq, e.fate.why.newer))
    && (e.fate.Freed? && e.fate.why.Behind? ==> e.check.Ack? && U32Before(e.check.ackSeq, e.fate.why.recorded))
  }

  /** What happened to a message is final, unless it was held. */
  ghost predicate Progress(before: Book, after: Book)
  {
    forall m :: m in before ==>
      m in after && after[m].check == before[m].check && (before[m].fate.Held? || after[m] == before[m])
  }

  // ----- Slots ----------------------------------------------------------------------------------

  datatype AckInfo = AckInfo(
    busy: bool, key: Key, ackSeq: u32, lastTime: u32,
    dropCnt: int, pshFlag: bool, pshSeq: u32, winScale: nat, timer: bool,
    msgbuf: Option<Msg>, inSendMsg: Option<Msg>)

  /** What a slot has seen since its flow took it: the acknowledgement numbers, the last message transmitted, the
      message it inherited, how many messages it withheld since it last released one, if it did, and in which order
      pushes and acknowledgements came. */
  datatype Log = Log(acks: seq<u32>, lastOut: Option<Msg>, stale: Option<Msg>, withheld: nat, released: bool, story: seq<Happening>)

  datatype Happening =
    | Pushed(to: u32)
    | Heard(ackSeq: u32, accepted: bool, released: bool)

  /** The acknowledgement is accepted and goes past what the peer has pushed. */
  predicate GoesPast(h: Happening, pushed: u32)
  {
    h.Heard? && h.accepted && !U32Before(h.ackSeq, pushed)
  }

  /** The last push, unless an accepted acknowledgement has gone past it. */
  function Awaiting(story: seq<Happening>): Option<u32>
  {
    if story == [] then None
    else
      var last, before := story[|story| - 1], Awaiting(story[..|story| - 1]);
      if last.Pushed? then Some(last.to)
      else if before.Some? && GoesPast(last, before.value) then None
      else before
  }

  /** Whatever went past an awaited push was released. */
  predicate Prompt(story: seq<Happening>)
  {
    if story == [] then true
    else
      var last, before := story[|story| - 1], story[..|story| - 1];
      Prompt(before) && (Awaiting(before).Some? && GoesPast(last, Awaiting(before).value) ==> last.released)
  }

  lemma StoryNext(story: seq<Happening>, h: Happening)
    ensures Prompt(story + [h]) <==>
      Prompt(story) && (Awaiting(story).Some? && GoesPast(h, Awaiting(story).value) ==> h.released)
    ensures Awaiting(story + [h]) ==
      if h.Pushed? then Some(h.to)
      else if Awaiting(story).Some? && GoesPast(h, Awaiting(story).value) then None
      else Awaiting(story)
  {
    assert (story + [h])[..|story|] == story;
  }

  lemma {:induction false} PromptSoFar(story: seq<Happening>, n: nat)
    requires Prompt(story) && n <= |story|
    ensures Prompt(story[..n])
  {
    if n == |story| {
      assert story[..n] == story;
    } else {
      PromptSoFar(story[..|story| - 1], n);
      assert story[..|story| - 1][..n] == story[..n];
    }
  }

  /** A push stays awaited until another push comes or an acknowledgement goes past it. */
  lemma {:induction false} StillAwaited(story: seq<Happening>, k: nat, n: nat)
    requires k < n <= |story| && story[k].Pushed?
    requires forall j :: k < j < n ==> !story[j].Pushed? && !GoesPast(story[j], story[k].to)
    ensures Awaiting(story[..n]) == Some(story[k].to)
    decreases n
  {
    assert story[..n] == story[..n - 1] + [story[n - 1]];
    StoryNext(story[..n - 1], story[n - 1]);
    if k < n - 1 {
      StillAwaited(story, k, n - 1);
    }
  }

  function BusyCount(slots: seq<AckInfo>): (n: nat)
    ensures n <= |slots|
  {
    if slots == [] then 0 else BusyCount(slots[..|slots| - 1]) + (if slots[|slots| - 1].busy then 1 else 0)
  }

  lemma {:induction false} BusyCountUpdate(slots: seq<AckInfo>, i: nat, x: AckInfo)
    requires i < |slots|
    ensures BusyCount(slots[i := x]) == BusyCount(slots) - (if slots[i].busy then 1 else 0) + (if x.busy then 1 else 0)
  {
    var n := |slots| - 1;
    if i < n {
      BusyCountUpdate(slots[..n], i, x);
      assert slots[i := x][..n] == slots[..n][i := x];
    } else {
      assert slots[i := x][..n] == slots[..n];
    }
  }

  lemma {:induction false} AllBusy(slots: seq<AckInfo>)
    ensures BusyCount(slots) == |slots| <==> forall i :: 0 <= i < |slots| ==> slots[i].busy
  {
    if slots != [] {
      AllBusy(slots[..|slots| - 1]);
    }
  }

  /** `max_num` counts the busy slots and a free index names a slot that is not busy. */
  ghost predicate Counted(slots: seq<AckInfo>, maxNum: int, freeIndex: int)
  {
    && maxNum == BusyCount(slots)
    && -1 <= freeIndex < |slots| && (freeIndex >= 0 ==> !slots[freeIndex].busy)
  }

  ghost predicate Unique(slots: seq<AckInfo>)
  {
    forall i, j :: 0 <= i < j < |slots| && slots[i].busy && slots[j].busy ==> slots[i].key != slots[j].key
  }

  /** A message is held when one slot has it, and by that slot only. */
  ghost predicate Owned(slots: seq<AckInfo>, book: Book)
  {
    && (forall i :: 0 <= i < |slots| && slots[i].msgbuf.Some? ==>
          slots[i].msgbuf.value in book && book[slots[i].msgbuf.value].fate == Held(i))
    && (forall m :: m in book && book[m].fate.Held? ==>
          book[m].fate.slot < |slots| && slots[book[m].fate.slot].msgbuf == Some(m))
    && (forall m :: m in book ==> Justified(book[m]))
  }

  /** A message of the flow with the recorded number is still held or was the last one transmitted. */
  ghost predicate Safe(info: AckInfo, log: Log, book: Book)
  {
    var newest := if info.msgbuf.Some? && info.msgbuf != log.stale then info.msgbuf else log.lastOut;
    && newest.Some? && newest.value in book
    && book[newest.value].check.Ack? && book[newest.value].check.key == info.key && book[newest.value].check.ackSeq == info.ackSeq
    && (newest == info.msgbuf || book[newest.value].fate in {Passed, Sent})
  }

  /** The slot remembers exactly the push that is awaited. */
  predicate Remembers(info: AckInfo, story: seq<Happening>)
  {
    Prompt(story) && Awaiting(story) == if info.pshFlag then Some(info.pshSeq) else None
  }

  ghost predicate Served(info: AckInfo, log: Log, book: Book, maxDropCnt: nat)
  {
    && log.acks != [] && info.ackSeq == Latest(log.acks)
    && info.dropCnt == log.withheld + (if log.released then 0 else maxDropCnt)
    && (log.stale.Some? ==> log.stale.value in book)
    && Safe(info, log, book)
    && Remembers(info, log.story)
  }

  ghost predicate AllServed(slots: seq<AckInfo>, logs: seq<Log>, book: Book, maxDropCnt: nat)
  {
    |slots| == |logs| && forall i :: 0 <= i < |slots| && slots[i].busy ==> Served(slots[i], logs[i], book, maxDropCnt)
  }

  predicate NoneHeld(slots: seq<AckInfo>)
  {
    forall i :: 0 <= i < |slots| ==> slots[i].msgbuf == None
  }

  lemma OthersServed(slots: seq<AckInfo>, logs: seq<Log>, book: Book, i: nat, info: AckInfo, log: Log, after: Book, maxDropCnt: nat)
    requires AllServed(slots, logs, book, maxDropCnt) && i < |slots| && Progress(book, after)
    requires info.busy ==> Served(info, log, after, maxDropCnt)
    ensures AllServed(slots[i := info], logs[i := log], after, maxDropCnt)
  {
    forall k | 0 <= k < |slots| && k != i && slots[k].busy
      ensures Served(slots[k], logs[k], after, maxDropCnt)
    {
      ServedKept(slots[k], logs[k], book, after, maxDropCnt);
    }
  }

  /** A slot that took over a message from an earlier flow, and a message freed as such, are recorded. */
  ghost predicate Recorded(logs: seq<Log>, book: Book, inherited: set<Msg>)
  {
    && (forall i :: 0 <= i < |logs| && logs[i].stale.Some? ==> logs[i].stale.value in inherited)
    && (forall m :: m in book && book[m].fate == Freed(Stale) ==> m in inherited)
  }

  ghost predicate TidyOn(slots: seq<AckInfo>, logs: seq<Log>, book: Book, inherited: set<Msg>, maxNum: int, freeIndex: int)
  {
    && |slots| == TCP_ACK_NUM == |logs|
    && Counted(slots, maxNum, freeIndex)
    && Unique(slots)
    && Owned(slots, book)
    && Recorded(logs, book, inherited)
  }

  /** While the filter is enabled every busy slot serves its flow; afterwards nothing is held. */
  ghost predicate Good(slots: seq<AckInfo>, logs: seq<Log>, book: Book, inherited: set<Msg>, maxNum: int, freeIndex: int,
                       enable: bool, maxDropCnt: nat)
  {
    && TidyOn(slots, logs, book, inherited, maxNum, freeIndex)
    && (if enable then AllServed(slots, logs, book, maxDropCnt) else NoneHeld(slots))
  }

  class Manager {
    const slots: array<AckInfo>
    const timeout: u32
    const maxDropCnt: nat
    var enable: bool
    var maxNum: int
    var freeIndex: int
    var lastTime: u32
    /** Every message offered, and what became of it. */
    ghost var book: Book
    ghost var logs: seq<Log>
    /** The messages that a slot still held when it was given to another flow. */
    ghost var inherited: set<Msg>

    ghost predicate Tidy()
      reads this, slots
    {
      TidyOn(slots[..], logs, book, inherited, maxNum, freeIndex)
    }

    ghost predicate Valid()
      reads this, slots
    {
      Good(slots[..], logs, book, inherited, maxNum, freeIndex, enable, maxDropCnt)
    }

    /** `tcp_ack_init` */
    constructor (now: u32, timeout: u32)
      ensures Valid() && enable && fresh(slots) && maxDropCnt == TCP_ACK_DROP_CNT && book == map[] && this.timeout == timeout
      ensures inherited == {} && maxNum == 0 && freeIndex == 0 && lastTime == now
      ensures forall i :: 0 <= i < TCP_ACK_NUM ==>
        !slots[i].busy && slots[i].msgbuf == None && slots[i].inSendMsg == None && !slots[i].timer
    {
      var empty := AckInfo(false, Key(0, 0, 0, 0), 0, now, 0, false, 0, 0, false, None, None);
      slots := new AckInfo[TCP_ACK_NUM](_ => empty);
      this.timeout, maxDropCnt := timeout, TCP_ACK_DROP_CNT;
      enable, maxNum, freeIndex, lastTime := true, 0, 0, now;
      inherited, book, logs := {}, map[], seq(TCP_ACK_NUM, _ => Log([], None, None, 0, false, []));
      new;
      NoneBusy(slots[..]);
    }

    /** `tcp_ack_match` */
    method Match(key: Key) returns (ret: int)
      requires slots.Length == TCP_ACK_NUM
      ensures -1 <= ret < TCP_ACK_NUM
      ensures ret == -1 ==> forall i :: 0 <= i < TCP_ACK_NUM && slots[i].busy ==> slots[i].key != key
      ensures ret >= 0 ==> slots[ret].busy && slots[ret].key == key
    {
      for i := 0 to TCP_ACK_NUM
        invariant forall k :: 0 <= k < i && slots[k].busy ==> slots[k].key != key
      {
        if slots[i].busy && slots[i].key == key {
          return i;
        }
      }
      ret := -1;
    }

    predicate Expires(info: AckInfo, now: u32)
    {
      info.busy && Overdue(info.lastTime, now, timeout)
    }

    /** `tcp_ack_update`: from time to time, free the slots of flows that were silent for too long. What such a
        slot holds stays in it. */
    method Update(now: u32)
      requires Valid()
      modifies this`maxNum, this`freeIndex, this`lastTime, slots
      ensures Valid()
      ensures slots[..] == old(Refreshed(slots[..], now))
      ensures freeIndex == old(FreeThen(slots[..], now)) && lastTime == if old(Aged(now)) then now else old(lastTime)
      ensures var due := Overdue(old(lastTime), now, timeout);
              && lastTime == (if due then now else old(lastTime))
              && forall i :: 0 <= i < TCP_ACK_NUM ==> slots[i] == Dropped(old(slots[i]), due, now, timeout)
    {
      OverdueExactly(lastTime, now, timeout);
      if TimeAfter(now, (lastTime + timeout) % TWO_32) {
        lastTime := now;
        ExpireOld(now);
      }
    }

    method ExpireOld(now: u32)
      requires Valid()
      modifies this`maxNum, this`freeIndex, slots
      ensures Valid() && freeIndex == old(LowestExpired(slots[..], now, 0, freeIndex))
      ensures forall k :: 0 <= k < TCP_ACK_NUM ==> slots[k] == Idled(old(slots[k]), now)
    {
      ghost var was := slots[..];
      var i := TCP_ACK_NUM;
      while i > 0
        invariant 0 <= i <= TCP_ACK_NUM && Swept(was, slots[..], now, i)
        invariant Counted(slots[..], maxNum, freeIndex)
        invariant freeIndex == LowestExpired(was, now, i, old(freeIndex))
      {
        i := i - 1;
        SweepNext(was, slots[..], now, i, maxNum, freeIndex);
        OverdueExactly(slots[i].lastTime, now, timeout);
        if slots[i].busy && TimeAfter(now, (slots[i].lastTime + timeout) % TWO_32) {
          freeIndex := i;
          maxNum := maxNum - 1;
          slots[i] := slots[i].(busy := false);
        }
      }
      SweptAll(was, slots[..], now);
      OwnedIdled(was, slots[..], book);
    }

    /** The slots from `i` on have been looked at. */
    ghost predicate Swept(was: seq<AckInfo>, slots: seq<AckInfo>, now: u32, i: nat)
    {
      |slots| == |was| && forall k :: 0 <= k < |was| ==> slots[k] == if k < i then was[k] else Idled(was[k], now)
    }

    lemma SweepNext(was: seq<AckInfo>, slots: seq<AckInfo>, now: u32, i: nat, maxNum: int, freeIndex: int)
      requires i < |was| && Swept(was, slots, now, i + 1) && Counted(slots, maxNum, freeIndex)
      ensures slots[i] == was[i]
      ensures if Expires(was[i], now) then
                var after := slots[i := slots[i].(busy := false)];
                Swept(was, after, now, i) && Counted(after, maxNum - 1, i)
              else Swept(was, slots, now, i)
    {
      BusyCountUpdate(slots, i, slots[i].(busy := false));
    }

    lemma SweptAll(was: seq<AckInfo>, slots: seq<AckInfo>, now: u32)
      requires Swept(was, slots, now, 0)
      ensures OnlyIdled(was, slots)
    {
    }

    function Idled(info: AckInfo, now: u32): AckInfo
    {
      Dropped(info, true, now, timeout)
    }

    /** The lowest slot from `i` on whose flow expires, `otherwise` if there is none. */
    function LowestExpired(slots: seq<AckInfo>, now: u32, i: nat, otherwise: int): int
      requires i <= |slots|
      decreases |slots| - i
    {
      if i == |slots| then otherwise
      else if Expires(slots[i], now) then i
      else LowestExpired(slots, now, i + 1, otherwise)
    }

    /** The slot noted as free once old flows are gone. */
    ghost function FreeThen(slots: seq<AckInfo>, now: u32): int
      reads this`lastTime, this`freeIndex
    {
      if Aged(now) then LowestExpired(slots, now, 0, freeIndex) else freeIndex
    }

    predicate Aged(now: u32)
      reads this`lastTime
    {
      Overdue(lastTime, now, timeout)
    }

    /** `tcp_ack_alloc_index`: no index only if all slots are busy. */
    method AllocIndex() returns (ret: int)
      requires slots.Length == TCP_ACK_NUM && Counted(slots[..], maxNum, freeIndex)
      modifies this`maxNum, this`freeIndex
      ensures -1 <= ret < TCP_ACK_NUM
      ensures ret == -1 <==> forall i :: 0 <= i < TCP_ACK_NUM ==> slots[i].busy
      ensures ret == -1 ==> maxNum == old(maxNum) && freeIndex == old(freeIndex)
      ensures ret >= 0 ==> !slots[ret].busy && maxNum == old(maxNum) + 1 && freeIndex == -1
      ensures old(freeIndex) >= 0 ==> ret == old(freeIndex)
    {
      AllBusy(slots[..]);
      if maxNum == TCP_ACK_NUM {
        assert forall i :: 0 <= i < TCP_ACK_NUM ==> slots[..][i].busy;
        return -1;
      }
      if freeIndex >= 0 {
        ret := freeIndex;
        freeIndex, maxNum := -1, maxNum + 1;
        return;
      }
      for i := 0 to TCP_ACK_NUM
        invariant maxNum == old(maxNum) && freeIndex == old(freeIndex)
        invariant forall k :: 0 <= k < i ==> slots[..][k].busy
      {
        if !slots[i].busy {
          freeIndex, maxNum := -1, maxNum + 1;
          return i;
        }
      }
      ret := -1;
    }

    /** `tcp_ack_handle_new`: what happens to the slot is told by `Handled`; the only message freed is the one
        dropped at the end. */
    method HandleNew(msg: Msg, i: nat, check: Check, now: u32)
      returns (ret: bool, drop: Option<Msg>)
      requires Valid() && enable && i < TCP_ACK_NUM && slots[i].busy
      requires check.Ack? && check.key == slots[i].key && msg !in book
      modifies this`book, this`logs, slots
      ensures Valid()
      ensures slots[..] == old(slots[..])[i := slots[i]] && logs == old(logs)[i := logs[i]]
      ensures Handled(old(slots[i]), slots[i], msg, check.ackSeq, now, ret, maxDropCnt)
      ensures book == Settled(old(book), old(slots[i]), old(logs[i]), i, msg, check, ret)
      ensures logs[i] == Logged(old(logs[i]), old(slots[i]), msg, check.ackSeq, ret)
      ensures OnlyFreed(old(book), book, drop)
    {
      ghost var was, log := slots[i], logs[i];
      var info;
      info, drop, ret := Accept(slots[i], msg, check.ackSeq, now, maxDropCnt);
      ghost var before := slots[..];
      HandledGood(before, logs, book, inherited, maxNum, freeIndex, maxDropCnt, i, info, msg, check, now, ret);
      SettledFrees(book, was, log, i, msg, check, ret);
      slots[i] := info;
      book := Settled(book, was, log, i, msg, check, ret);
      logs := logs[i := Logged(log, was, msg, check.ackSeq, ret)];
      assert slots[..] == before[i := info];
    }

    /** A message that no slot has to do with goes to the transmit path. */
    ghost method Pass(msg: Msg, check: Check)
      requires Valid() && msg !in book
      modifies this`book
      ensures Valid() && Progress(old(book), book) && book == old(book)[msg := Entry(check, Passed)]
    {
      book := book[msg := Entry(check, Passed)];
    }

    /** The end of `filter_send_tcp_ack`: an idle slot, if there is one, starts to serve a new flow. It keeps the
        message and the transmission that its last flow may have left in it. */
    method Claim(ghost msg: Msg, check: Check, now: u32) returns (index: int)
      requires Valid() && msg in book && check.Ack? && book[msg] == Entry(check, Passed)
      requires forall i :: 0 <= i < TCP_ACK_NUM && slots[i].busy ==> slots[i].key != check.key
      modifies this`maxNum, this`freeIndex, this`logs, this`inherited, slots
      ensures Valid()
      ensures -1 <= index < TCP_ACK_NUM
      ensures inherited == old(inherited) + (if index >= 0 then Members(old(slots[..])[index].msgbuf) else {})
      ensures index == -1 ==> slots[..] == old(slots[..]) && logs == old(logs) && forall i :: 0 <= i < TCP_ACK_NUM ==> slots[i].busy
      ensures index >= 0 ==>
        var was := old(slots[..])[index];
        && !was.busy && slots[..] == old(slots[..])[index := Claimed(was, check, now, maxDropCnt)]
        && logs == old(logs)[index := Log([check.ackSeq], Some(msg), was.msgbuf, 0, false, [])]
        && freeIndex == -1
      ensures index == -1 ==> freeIndex == old(freeIndex)
      ensures old(freeIndex) >= 0 ==> index == old(freeIndex)
    {
      index := AllocIndex();
      if index >= 0 {
        var info := slots[index].(
          busy := true, pshFlag := false, lastTime := now, dropCnt := maxDropCnt,
          winScale := if check.winScale != 0 then check.winScale else 1,
          key := check.key, ackSeq := check.ackSeq);
        ghost var before := slots[..];
        ClaimedGood(before, logs, book, inherited, maxNum - 1, maxDropCnt, enable, index, info, msg, check, now);
        slots[index] := info;
        logs := logs[index := Log([check.ackSeq], Some(msg), info.msgbuf, 0, false, [])];
        inherited := inherited + Members(info.msgbuf);
        assert slots[..] == before[index := info];
      }
    }

    method Rescale(slot: nat, check: Check)
      requires Valid() && check.Ack? && slot < TCP_ACK_NUM
      modifies slots
      ensures Valid() && slots[..] == old(slots[..])[slot := Scaled(old(slots[..])[slot], check)]
    {
      if check.winScale != 0 && slots[slot].winScale != check.winScale {
        Put(slot, slots[slot].(winScale := check.winScale));
      }
    }

    /** `filter_send_tcp_ack` for a flow that a slot serves, after its window scale was noted. */
    method Known(msg: Msg, slot: nat, check: Check, now: u32) returns (ret: bool)
      requires Valid() && msg !in book && check.Ack? && slot < TCP_ACK_NUM && Serves(slots[slot], check.key)
      modifies this`book, this`logs, slots
      ensures Valid()
      ensures slots[..] == old(slots[..])[slot := slots[slot]] && logs == old(logs)[slot := logs[slot]]
      ensures if enable then
                && Handled(old(slots[slot]), slots[slot], msg, check.ackSeq, now, ret, maxDropCnt)
                && logs[slot] == Logged(old(logs)[slot], old(slots[slot]), msg, check.ackSeq, ret)
              else slots[slot] == old(slots[slot]) && !ret
      ensures book == Noted(old(book), old(slots[slot]), old(logs)[slot], slot, msg, check, enable, ret)
    {
      ret := false;
      if enable {
        var drop;
        ret, drop := HandleNew(msg, slot, check, now);
      } else {
        Pass(msg, check);
      }
    }

    /** The same with the window scale. */
    method Serve(msg: Msg, slot: nat, check: Check, now: u32) returns (ret: bool)
      requires Valid() && msg !in book && check.Ack? && slot < TCP_ACK_NUM && Serves(slots[slot], check.key)
      modifies this`book, this`logs, slots
      ensures Valid()
      ensures slots[..] == old(slots[..])[slot := slots[slot]] && logs == old(logs)[slot := logs[slot]]
      ensures Outcome(old(slots[slot]), slots[slot], old(logs)[slot], logs[slot], msg, check, now, ret)
      ensures book == Noted(old(book), old(slots[slot]), old(logs)[slot], slot, msg, check, enable, ret)
    {
      ghost var first, before, log := slots[..], book, logs[slot];
      Rescale(slot, check);
      ret := Known(msg, slot, check, now);
      NotedScaled(before, first[slot], log, slot, msg, check, enable, ret);
      StoredTwice(first, slot, Scaled(first[slot], check), slots[slot]);
    }

    /** `filter_send_tcp_ack` once old flows are gone: what it does to the slot of the flow, if there is one. */
    method Filter(msg: Msg, check: Check, now: u32) returns (ret: bool, slot: int)
      requires Valid() && msg !in book && check.Ack?
      modifies this`book, this`logs, this`maxNum, this`freeIndex, this`inherited, slots
      ensures Valid() && inherited == old(inherited) + Inherits(old(slots[..]), check.key, slot)
      ensures -1 <= slot < TCP_ACK_NUM
      ensures slot == -1 ==> slots[..] == old(slots[..]) && forall i :: 0 <= i < TCP_ACK_NUM ==> slots[i].busy && slots[i].key != check.key
      ensures slot == -1 ==> !ret && book == old(book)[msg := Entry(check, Passed)]
      ensures slot >= 0 ==>
        && slots[..] == old(slots[..])[slot := slots[slot]] && logs == old(logs)[slot := logs[slot]]
        && Outcome(old(slots[..])[slot], slots[slot], old(logs)[slot], logs[slot], msg, check, now, ret)
        && book == Noted(old(book), old(slots[..])[slot], old(logs)[slot], slot, msg, check, enable, ret)
      ensures Taken(old(slots[..]), old(freeIndex), check.key, slot, freeIndex)
    {
      slot := Match(check.key);
      if slot >= 0 {
        ret := Serve(msg, slot, check, now);
      } else {
        ret := false;
        Pass(msg, check);
        slot := Claim(msg, check, now);
      }
    }

    /** What becomes of the slot: it goes on with its flow, or it starts with this one. */
    ghost predicate Outcome(was: AckInfo, info: AckInfo, log: Log, after: Log, msg: Msg, check: Check, now: u32, ret: bool)
      requires check.Ack?
      reads this`enable
    {
      if !Serves(was, check.key) then
        !ret && !was.busy && info == Claimed(was, check, now, maxDropCnt) && after == Log([check.ackSeq], Some(msg), was.msgbuf, 0, false, [])
      else if enable then
        && Handled(Scaled(was, check), info, msg, check.ackSeq, now, ret, maxDropCnt)
        && after == Logged(log, Scaled(was, check), msg, check.ackSeq, ret)
      else !ret && info == Scaled(was, check)
    }

    /** `filter_send_tcp_ack`: false lets the caller transmit the message, true takes it over. The slot that
        serves the flow afterwards, if there is one, is `slot`; only when all are busy with other flows there is none. */
    method FilterSend(msg: Msg, check: Check, now: u32) returns (ret: bool, slot: int)
      requires Valid() && msg !in book
      modifies this, slots
      ensures Valid() && enable == old(enable)
      ensures inherited == old(inherited) + (if check.Ack? then Inherits(old(Refreshed(slots[..], now)), check.key, slot) else {})
      ensures Progress(old(book), book) && Decided(old(book), book, msg, check, enable, ret)
      ensures -1 <= slot < TCP_ACK_NUM && (check.NotAck? ==> slot == -1)
      ensures slot == -1 ==> slots[..] == old(Refreshed(slots[..], now))
      ensures check.Ack? && slot == -1 ==> forall i :: 0 <= i < TCP_ACK_NUM ==> slots[i].busy && slots[i].key != check.key
      ensures slot >= 0 ==>
        var before := old(Refreshed(slots[..], now));
        && slots[..] == before[slot := slots[slot]] && logs == old(logs)[slot := logs[slot]]
        && Outcome(before[slot], slots[slot], old(logs)[slot], logs[slot], msg, check, now, ret)
        && book == Noted(old(book), before[slot], old(logs)[slot], slot, msg, check, enable, ret)
      ensures slot == -1 ==> book == old(book)[msg := Entry(check, Passed)]
      ensures check.Ack? ==>
        Taken(old(Refreshed(slots[..], now)), old(FreeThen(slots[..], now)), check.key, slot, freeIndex)
      ensures lastTime == if old(Aged(now)) then now else old(lastTime)
      ensures var due := Overdue(old(lastTime), now, timeout);
              && (forall i :: 0 <= i < TCP_ACK_NUM && i != slot ==> slots[i] == Dropped(old(slots[i]), due, now, timeout))
              && forall i :: 0 <= i < TCP_ACK_NUM && check.Ack? && Serves(Dropped(old(slots[i]), due, now, timeout), check.key) ==>
                   slot == i && Continued(old(slots[i]), slots[i], msg, check, now, enable, ret, maxDropCnt)
    {
      Update(now);
      if check.NotAck? {
        Pass(msg, check);
        return false, -1;
      }
      ret, slot := Sift(msg, check, now);
    }

    /** The same with what it means for the message and for the flow. */
    method Sift(msg: Msg, check: Check, now: u32) returns (ret: bool, slot: int)
      requires Valid() && msg !in book && check.Ack?
      modifies this`book, this`logs, this`maxNum, this`freeIndex, this`inherited, slots
      ensures Valid() && inherited == old(inherited) + Inherits(old(slots[..]), check.key, slot)
      ensures Progress(old(book), book) && Decided(old(book), book, msg, check, enable, ret)
      ensures -1 <= slot < TCP_ACK_NUM
      ensures slot == -1 ==> slots[..] == old(slots[..]) && forall i :: 0 <= i < TCP_ACK_NUM ==> slots[i].busy && slots[i].key != check.key
      ensures slot == -1 ==> book == old(book)[msg := Entry(check, Passed)]
      ensures slot >= 0 ==>
        && slots[..] == old(slots[..])[slot := slots[slot]] && logs == old(logs)[slot := logs[slot]]
        && Outcome(old(slots[..])[slot], slots[slot], old(logs)[slot], logs[slot], msg, check, now, ret)
        && book == Noted(old(book), old(slots[..])[slot], old(logs)[slot], slot, msg, check, enable, ret)
      ensures Taken(old(slots[..]), old(freeIndex), check.key, slot, freeIndex)
      ensures forall i :: 0 <= i < TCP_ACK_NUM && Serves(old(slots[i]), check.key) ==>
        slot == i && Continued(old(slots[i]), slots[i], msg, check, now, enable, ret, maxDropCnt)
    {
      ghost var before, log, noted := slots[..], logs, book;
      ret, slot := Filter(msg, check, now);
      forall i | 0 <= i < TCP_ACK_NUM && Serves(before[i], check.key)
        ensures slot == i
      {
        OneServes(before, slots[..], i, slot, check.key);
      }
      if slot >= 0 {
        NotedDecides(noted, before[slot], slots[slot], log[slot], slot, msg, check, now, enable, ret, maxDropCnt);
      }
    }

    /** The slots without the flows that were silent for too long. */
    ghost function Refreshed(slots: seq<AckInfo>, now: u32): (left: seq<AckInfo>)
      reads this`lastTime
      ensures |left| == |slots|
    {
      var aged := Aged(now);
      seq(|slots|, i requires 0 <= i < |slots| => Dropped(slots[i], aged, now, timeout))
    }

    /** Store fields of a slot that do not concern what it counts, serves and holds. */
    method Put(i: nat, info: AckInfo)
      requires Valid() && i < TCP_ACK_NUM
      requires info == slots[i].(lastTime := info.lastTime, winScale := info.winScale, timer := info.timer, inSendMsg := info.inSendMsg)
      modifies slots
      ensures Valid() && slots[..] == old(slots[..])[i := info]
    {
      ghost var before := slots[..];
      PutGood(before, logs, book, inherited, maxNum, freeIndex, enable, maxDropCnt, i, info);
      slots[i] := info;
      assert slots[..] == before[i := info];
    }

    /** `filter_rx_tcp_ack`: note how far the peer has pushed data on this flow. */
    method FilterRx(key: Key, pushed: u32)
      requires Valid()
      modifies this`logs, slots
      ensures Valid()
      ensures forall i :: 0 <= i < TCP_ACK_NUM ==>
        if enable && Serves(old(slots[i]), key) then
          slots[i] == old(slots[i]).(pshFlag := true, pshSeq := pushed)
          && logs[i] == old(logs)[i].(story := old(logs)[i].story + [Pushed(pushed)])
        else slots[i] == old(slots[i]) && logs[i] == old(logs)[i]
    {
      if !enable {
        return;
      }
      var index := Match(key);
      if index >= 0 {
        NotePush(index, pushed);
      }
    }

    method NotePush(i: nat, pushed: u32)
      requires Valid() && enable && i < TCP_ACK_NUM && slots[i].busy
      modifies this`logs, slots
      ensures Valid()
      ensures slots[..] == old(slots[..])[i := old(slots[i]).(pshFlag := true, pshSeq := pushed)]
      ensures logs == old(logs)[i := old(logs)[i].(story := old(logs)[i].story + [Pushed(pushed)])]
    {
      var info := slots[i].(pshFlag := true, pshSeq := pushed);
      ghost var before := slots[..];
      PushedGood(before, logs, book, inherited, maxNum, freeIndex, maxDropCnt, i, pushed);
      slots[i] := info;
      logs := logs[i := logs[i].(story := logs[i].story + [Pushed(pushed)])];
      assert slots[..] == before[i := info];
    }

    /** After a push was noted for a slot, the first accepted acknowledgement that goes past it is released, whatever was
        heard on that slot in between. */
    lemma ReleasedPastPush(i: nat, k: nat, n: nat)
      requires Valid() && enable && i < TCP_ACK_NUM && slots[i].busy
      requires k < n < |logs[i].story| && logs[i].story[k].Pushed?
      requires forall j :: k < j < n ==> !logs[i].story[j].Pushed? && !GoesPast(logs[i].story[j], logs[i].story[k].to)
      requires GoesPast(logs[i].story[n], logs[i].story[k].to)
      ensures logs[i].story[n].released
    {
      var story := logs[i].story;
      StillAwaited(story, k, n);
      PromptSoFar(story, n + 1);
      assert story[..n + 1] == story[..n] + [story[n]];
      StoryNext(story[..n], story[n]);
    }

    /** `tcp_ack_timeout`: the timer of a slot runs out. What is held goes out, unless the slot is idle or an
        earlier message is still being sent: then it stays, and no timer runs for it any more. */
    method Timeout(i: nat) returns (ghost sent: Option<Msg>)
      requires Valid() && i < TCP_ACK_NUM
      modifies this`book, this`logs, slots
      ensures Valid() && Progress(old(book), book) && book.Keys == old(book.Keys)
      ensures sent == if old(slots[i]).busy && old(slots[i]).inSendMsg == None then old(slots[i]).msgbuf else None
      ensures var stopped := old(slots[i]).(timer := false);
              slots[i] == if sent.Some? then stopped.(msgbuf := None, dropCnt := 0, inSendMsg := sent) else stopped
      ensures book == if sent.Some? then old(book)[sent.value := old(book)[sent.value].(fate := Sent)] else old(book)
      ensures slots[..] == old(slots[..])[i := slots[i]]
      ensures logs == if sent.Some? then old(logs)[i := Released(old(logs)[i], sent.value)] else old(logs)
    {
      sent := None;
      Put(i, slots[i].(timer := false));
      var info := slots[i];
      if info.busy && info.msgbuf.Some? && info.inSendMsg.None? {
        sent := info.msgbuf;
        SendHeld(i);
      }
    }

    method SendHeld(i: nat)
      requires Valid() && i < TCP_ACK_NUM && slots[i].busy && slots[i].msgbuf.Some?
      modifies this`book, this`logs, slots
      ensures Valid() && Progress(old(book), book) && book.Keys == old(book.Keys)
      ensures slots[..] == old(slots[..])[i := old(slots[i]).(msgbuf := None, dropCnt := 0, inSendMsg := old(slots[i]).msgbuf)]
      ensures var msg := old(slots[i]).msgbuf.value;
              book == old(book)[msg := old(book)[msg].(fate := Sent)] && logs == old(logs)[i := Released(old(logs)[i], msg)]
    {
      var msg := slots[i].msgbuf.value;
      var info := slots[i].(msgbuf := None, dropCnt := 0, inSendMsg := Some(msg));
      ghost var before := slots[..];
      SentGood(before, logs, book, inherited, maxNum, freeIndex, enable, maxDropCnt, i, info);
      slots[i] := info;
      book := book[msg := book[msg].(fate := Sent)];
      logs := logs[i := Released(logs[i], msg)];
      assert slots[..] == before[i := info];
    }

    /** `move_tcpack_msg`: the message is no longer being sent. */
    method MoveMsg(msg: Msg)
      requires Valid()
      modifies slots
      ensures Valid()
      ensures forall i :: 0 <= i < TCP_ACK_NUM ==>
        var was := old(slots[i]);
        slots[i] == if enable && was.busy && was.inSendMsg == Some(msg) then was.(inSendMsg := None) else was
    {
      if !enable {
        return;
      }
      for i := 0 to TCP_ACK_NUM
        invariant Valid()
        invariant forall k :: i <= k < TCP_ACK_NUM ==> slots[k] == old(slots[k])
        invariant forall k :: 0 <= k < i ==>
          var was := old(slots[k]);
          slots[k] == if was.busy && was.inSendMsg == Some(msg) then was.(inSendMsg := None) else was
      {
        if slots[i].busy && slots[i].inSendMsg == Some(msg) {
          Put(i, slots[i].(inSendMsg := None));
        }
      }
    }

    /** `tcp_ack_deinit`: nothing is held any more, and nothing ever will be. */
    method Deinit()
      requires Valid()
      modifies this, slots
      ensures Valid() && !enable && Progress(old(book), book) && book.Keys == old(book.Keys) && inherited == old(inherited)
      ensures forall m :: m in book ==> book[m] == if old(book)[m].fate.Held? then old(book)[m].(fate := Freed(Shutdown)) else old(book)[m]
      ensures forall i :: 0 <= i < TCP_ACK_NUM ==> slots[i] == old(slots[i]).(msgbuf := None, timer := false)
    {
      enable := false;
      for i := 0 to TCP_ACK_NUM
        invariant Tidy() && !enable && book.Keys == old(book.Keys) && inherited == old(inherited)
        invariant forall k :: 0 <= k < TCP_ACK_NUM ==>
          slots[k] == if k < i then old(slots[k]).(msgbuf := None, timer := false) else old(slots[k])
        invariant forall m :: m in book ==>
          book[m] == if old(book)[m].fate.Held? && old(book)[m].fate.slot < i then old(book)[m].(fate := Freed(Shutdown)) else old(book)[m]
      {
        DropHeld(i);
      }
    }

    /** While a flow is served, its newest acknowledgement is never lost: the message that carries it is held by the
        slot or was transmitted. */
    lemma NewestNotLost(i: nat, base: u32)
      requires Valid() && enable && i < TCP_ACK_NUM && slots[i].busy
      requires forall x :: x in logs[i].acks ==> InWindow(base, x)
      ensures exists m :: m in book && Carries(book[m], slots[i].key, i, logs[i].acks, base)
    {
      LatestIsNewest(base, logs[i].acks);
      var info, log := slots[i], logs[i];
      var m := (if info.msgbuf.Some? && info.msgbuf != log.stale then info.msgbuf else log.lastOut).value;
      assert book[m].check.ackSeq == info.ackSeq;
    }

    /** Any interleaving of the calls, each message offered once. Its fate, once it is not held, is settled for good,
        and after the filter is taken down nothing is held. */
    method Run(events: seq<Event>)
      requires Valid() && enable
      requires forall k :: 0 <= k < |events| && events[k].Send? ==> events[k].msg !in book && events[k].msg !in Offered(events[..k])
      modifies this, slots
      ensures Valid() && Progress(old(book), book)
      ensures book.Keys == old(book.Keys) + Offered(events)
      ensures Down in events ==> forall m :: m in book ==> !book[m].fate.Held?
      ensures old(inherited) <= inherited && forall m :: m in book && book[m].fate == Freed(Stale) ==> m in inherited
    {
      for n := 0 to |events|
        invariant Valid() && Progress(old(book), book) && enable == (Down !in events[..n]) && old(inherited) <= inherited
        invariant book.Keys == old(book.Keys) + Offered(events[..n])
      {
        OfferedNext(events, n);
        Step(events[n]);
      }
      assert events[..|events|] == events;
    }

    method Step(e: Event)
      requires Valid() && (e.Send? ==> e.msg !in book)
      modifies this, slots
      ensures Valid() && Progress(old(book), book)
      ensures book.Keys == old(book.Keys) + (if e.Send? then {e.msg} else {})
      ensures enable == (old(enable) && e != Down)
      ensures if e.Send? then old(inherited) <= inherited else inherited == old(inherited)
      ensures e.Send? ==> book[e.msg].check == e.check
      ensures e.Receive? && enable ==>
        forall i :: 0 <= i < TCP_ACK_NUM && Serves(slots[i], e.key) ==> slots[i].pshFlag && slots[i].pshSeq == e.pushed
      ensures e.Expire? && e.slot < TCP_ACK_NUM && old(slots[..])[e.slot].busy && old(slots[..])[e.slot].inSendMsg == None ==>
        slots[e.slot].msgbuf == None
        && (old(slots[..])[e.slot].msgbuf.Some? ==> book[old(slots[..])[e.slot].msgbuf.value].fate == Sent)
      ensures e.Done? && enable ==> forall i :: 0 <= i < TCP_ACK_NUM && slots[i].busy ==> slots[i].inSendMsg != Some(e.done)
      ensures e.Down? ==> NoneHeld(slots[..])
    {
      match e
      case Send(msg, check, now) =>
        var _, _ := FilterSend(msg, check, now);
      case Receive(key, pushed) =>
        FilterRx(key, pushed);
      case Expire(i) =>
        if i < TCP_ACK_NUM {
          ghost var _ := Timeout(i);
        }
      case Done(msg) =>
        MoveMsg(msg);
      case Down =>
        Deinit();
    }

    method DropHeld(i: nat)
      requires Tidy() && i < TCP_ACK_NUM
      modifies this`book, slots
      ensures Tidy() && slots[..] == old(slots[..])[i := old(slots[i]).(msgbuf := None, timer := false)]
      ensures book.Keys == old(book.Keys)
      ensures forall m :: m in book ==>
        book[m] == if old(book)[m].fate == Held(i) then old(book)[m].(fate := Freed(Shutdown)) else old(book)[m]
    {
      var drop := slots[i].msgbuf;
      var info := slots[i].(msgbuf := None, timer := false);
      BusyCountUpdate(slots[..], i, info);
      OwnedRelease(slots[..], book, i, info, Freed(Shutdown));
      slots[i] := info;
      if drop.Some? {
        book := book[drop.value := book[drop.value].(fate := Freed(Shutdown))];
      }
    }
  }

  /** A message of the flow, held by slot `i` or transmitted, whose number is the newest of `acks`. */
  ghost predicate Carries(e: Entry, key: Key, i: nat, acks: seq<u32>, base: u32)
  {
    && e.check.Ack? && e.check.key == key && e.fate in {Held(i), Passed, Sent}
    && forall x :: x in acks ==> Minus(x, base) <= Minus(e.check.ackSeq, base)
  }

  datatype Event =
    | Send(msg: Msg, check: Check, now: u32)
    | Receive(key: Key, pushed: u32)
    | Expire(slot: nat)
    | Done(done: Msg)
    | Down

  /** The messages offered in these events. */
  function Offered(events: seq<Event>): set<Msg>
  {
    set e | e in events && e.Send? :: e.msg
  }

  lemma OfferedNext(events: seq<Event>, n: nat)
    requires n < |events|
    ensures Offered(events[..n + 1]) == Offered(events[..n]) + (if events[n].Send? then {events[n].msg} else {})
    ensures Down in events[..n + 1] <==> Down in events[..n] || events[n] == Down
  {
    assert events[..n + 1] == events[..n] + [events[n]];
    assert forall e :: e in events[..n + 1] <==> e in events[..n] || e == events[n];
  }

  /** Some slots have become idle, and nothing else has changed. */
  ghost predicate OnlyIdled(was: seq<AckInfo>, slots: seq<AckInfo>)
  {
    |slots| == |was| && forall k :: 0 <= k < |was| ==> slots[k] == was[k] || slots[k] == was[k].(busy := false)
  }

  lemma OwnedIdled(was: seq<AckInfo>, slots: seq<AckInfo>, book: Book)
    requires OnlyIdled(was, slots) && Unique(was) && Owned(was, book)
    ensures Unique(slots) && Owned(slots, book)
  {
  }

  /** What the caller of the filter may do with its message. */
  ghost predicate Decided(before: Book, after: Book, msg: Msg, check: Check, enable: bool, ret: bool)
  {
    && after.Keys == before.Keys + {msg} && after[msg].check == check
    && (if ret then enable && (after[msg].fate.Held? || after[msg].fate.Freed?) else after[msg].fate == Passed)
  }

  /** A flow that no slot serves gets the slot noted as free, if one is; then none is noted. */
  ghost predicate Taken(slots: seq<AckInfo>, freeIndex: int, key: Key, slot: int, freeAfter: int)
  {
    if (exists i :: 0 <= i < |slots| && Serves(slots[i], key)) || slot == -1 then freeAfter == freeIndex
    else freeAfter == -1 && (freeIndex >= 0 ==> slot == freeIndex)
  }

  /** `drop`, if there is one, is freed and no other message is. */
  ghost predicate OnlyFreed(before: Book, after: Book, drop: Option<Msg>)
  {
    forall m :: m in after ==>
      (after[m].fate.Freed? && (m in before ==> !before[m].fate.Freed?) <==> drop == Some(m))
  }

  predicate Serves(info: AckInfo, key: Key)
  {
    info.busy && info.key == key
  }

  // ----- One acknowledgement of a flow ----------------------------------------------------------

  /** An acknowledgement that is not older than the recorded one takes the place of the held one. It is released
      if it goes past a pushed segment, whatever is being sent, or if nothing is being sent and enough were withheld;
      otherwise it is held and a timer runs. */
  ghost predicate Handled(was: AckInfo, info: AckInfo, msg: Msg, ackSeq: u32, now: u32, ret: bool, maxDropCnt: nat)
  {
    var newer := U32Before(was.ackSeq, ackSeq);
    var past := was.pshFlag && !U32Before(ackSeq, was.pshSeq);
    && info.lastTime == now && info.busy == was.busy && info.key == was.key && info.pshSeq == was.pshSeq && info.winScale == was.winScale
    && (ret <==> !newer || !(past || (was.inSendMsg == None && was.dropCnt + 1 >= maxDropCnt)))
    && (!newer ==> info == was.(lastTime := now))
    && (newer ==> info.ackSeq == ackSeq && info.pshFlag == (was.pshFlag && !past))
    && (newer && ret ==>
          info.msgbuf == Some(msg) && info.timer && info.inSendMsg == was.inSendMsg && info.dropCnt == was.dropCnt + 1)
    && (newer && !ret ==>
          info.msgbuf == None && !info.timer && info.inSendMsg == Some(msg) && info.dropCnt == 0)
  }

  /** A slot goes on with its flow: by the release rule, or as it is once the filter is disabled. */
  ghost predicate Continued(was: AckInfo, info: AckInfo, msg: Msg, check: Check, now: u32, enable: bool, ret: bool, maxDropCnt: nat)
    requires check.Ack?
  {
    if enable then Handled(Scaled(was, check), info, msg, check.ackSeq, now, ret, maxDropCnt) else !ret && info == Scaled(was, check)
  }

  /** The locked region of `tcp_ack_handle_new`. */
  method Accept(slot: AckInfo, msg: Msg, ackSeq: u32, now: u32, maxDropCnt: nat)
    returns (info: AckInfo, drop: Option<Msg>, ret: bool)
    ensures Handled(slot, info, msg, ackSeq, now, ret, maxDropCnt)
    ensures drop == if U32Before(slot.ackSeq, ackSeq) then slot.msgbuf else Some(msg)
  {
    info, drop, ret := slot.(lastTime := now), None, false;
    if U32Before(info.ackSeq, ackSeq) {
      if info.msgbuf.Some? {
        drop := info.msgbuf;
        info := info.(msgbuf := None);
      }
      var quick := false;
      if info.pshFlag && !U32Before(ackSeq, info.pshSeq) {
        info := info.(pshFlag := false);
        quick := true;
      } else {
        info := info.(dropCnt := info.dropCnt + 1);
      }
      info := info.(ackSeq := ackSeq);
      if quick || (info.inSendMsg.None? && info.dropCnt >= maxDropCnt) {
        info := info.(dropCnt := 0, inSendMsg := Some(msg), timer := false);
      } else {
        ret := true;
        info := info.(msgbuf := Some(msg), timer := true);
      }
    } else {
      drop := Some(msg);
      ret := true;
    }
  }

  /** A slot as a new flow takes it over: what may be held, in transmission or running in it stays. */
  function Claimed(was: AckInfo, check: Check, now: u32, maxDropCnt: nat): AckInfo
    requires check.Ack?
  {
    AckInfo(true, check.key, check.ackSeq, now, maxDropCnt, false, was.pshSeq,
            if check.winScale != 0 then check.winScale else 1, was.timer, was.msgbuf, was.inSendMsg)
  }

  function Scaled(was: AckInfo, check: Check): AckInfo
    requires check.Ack?
  {
    if check.winScale != 0 then was.(winScale := check.winScale) else was
  }

  /** The fates after an acknowledgement was handled. */
  function Settled(book: Book, was: AckInfo, log: Log, i: nat, msg: Msg, check: Check, ret: bool): Book
    requires check.Ack? && (was.msgbuf.Some? ==> was.msgbuf.value in book)
  {
    if !U32Before(was.ackSeq, check.ackSeq) then book[msg := Entry(check, Freed(Behind(was.ackSeq)))]
    else
      var cause := if was.msgbuf == log.stale then Stale else Superseded(check.ackSeq);
      var freed := if was.msgbuf.None? then book
                   else book[was.msgbuf.value := book[was.msgbuf.value].(fate := Freed(cause))];
      freed[msg := Entry(check, if ret then Held(i) else Passed)]
  }

  /** The fates after a message met the slot that serves its flow then. */
  function Noted(book: Book, was: AckInfo, log: Log, i: nat, msg: Msg, check: Check, enable: bool, ret: bool): Book
    requires check.Ack? && (was.msgbuf.Some? ==> was.msgbuf.value in book)
  {
    if enable && Serves(was, check.key) then Settled(book, was, log, i, msg, check, ret)
    else book[msg := Entry(check, Passed)]
  }

  lemma StoredTwice<T>(s: seq<T>, i: nat, x: T, y: T)
    requires i < |s|
    ensures s[i := x][i] == x && s[i := x][i := y] == s[i := y]
  {
  }

  lemma NotedScaled(book: Book, was: AckInfo, log: Log, i: nat, msg: Msg, check: Check, enable: bool, ret: bool)
    requires check.Ack? && (was.msgbuf.Some? ==> was.msgbuf.value in book)
    ensures Noted(book, Scaled(was, check), log, i, msg, check, enable, ret) == Noted(book, was, log, i, msg, check, enable, ret)
  {
  }

  /** An inherited message that goes out is not one of the flow. */
  function Released(log: Log, msg: Msg): Log
  {
    log.(withheld := 0, released := true, lastOut := if log.stale == Some(msg) then log.lastOut else Some(msg))
  }

  function Logged(log: Log, was: AckInfo, msg: Msg, ackSeq: u32, ret: bool): Log
  {
    var heard := log.(acks := log.acks + [ackSeq], story := log.story + [Heard(ackSeq, U32Before(was.ackSeq, ackSeq), !ret)]);
    if !U32Before(was.ackSeq, ackSeq) then heard
    else if ret then heard.(withheld := log.withheld + 1)
    else heard.(withheld := 0, released := true, lastOut := Some(msg))
  }

  lemma HandledOwned(slots: seq<AckInfo>, book: Book, i: nat, info: AckInfo, log: Log, msg: Msg, check: Check, now: u32,
                     ret: bool, maxDropCnt: nat)
    requires Owned(slots, book) && i < |slots| && msg !in book && check.Ack?
    requires Handled(slots[i], info, msg, check.ackSeq, now, ret, maxDropCnt)
    requires slots[i].msgbuf.Some? && slots[i].msgbuf != log.stale ==> Safe(slots[i], log, book)
    ensures Owned(slots[i := info], Settled(book, slots[i], log, i, msg, check, ret))
    ensures Progress(book, Settled(book, slots[i], log, i, msg, check, ret))
  {
    var was := slots[i];
    if U32Before(was.ackSeq, check.ackSeq) {
      var none, cause := was.(msgbuf := None), if was.msgbuf == log.stale then Stale else Superseded(check.ackSeq);
      var freed := if was.msgbuf.None? then book else book[was.msgbuf.value := book[was.msgbuf.value].(fate := Freed(cause))];
      OwnedRelease(slots, book, i, none, Freed(cause));
      OwnedAdded(slots[i := none], freed, i, info, msg, Entry(check, if ret then Held(i) else Passed));
      assert slots[i := none][i := info] == slots[i := info];
    } else {
      BeforeEitherWay(was.ackSeq, check.ackSeq);
      OwnedAdded(slots, book, i, info, msg, Entry(check, Freed(Behind(was.ackSeq))));
    }
  }

  /** A new message is held by a slot that held nothing, or by none. */
  lemma OwnedAdded(slots: seq<AckInfo>, book: Book, i: nat, info: AckInfo, msg: Msg, e: Entry)
    requires Owned(slots, book) && i < |slots| && msg !in book && Justified(e)
    requires if e.fate.Held? then e.fate == Held(i) && slots[i].msgbuf == None && info.msgbuf == Some(msg)
             else info.msgbuf == slots[i].msgbuf
    ensures Owned(slots[i := info], book[msg := e]) && Progress(book, book[msg := e])
  {
  }

  lemma Restored(slots: seq<AckInfo>, book: Book, i: nat, info: AckInfo)
    requires Unique(slots) && Owned(slots, book) && i < |slots| && info.msgbuf == slots[i].msgbuf
    requires info.busy ==> forall k :: 0 <= k < |slots| && k != i && slots[k].busy ==> slots[k].key != info.key
    ensures Unique(slots[i := info]) && Owned(slots[i := info], book)
  {
  }

  /** Another slot `i`, log and book that are in order. */
  lemma StoredGood(slots: seq<AckInfo>, logs: seq<Log>, book: Book, inherited: set<Msg>, maxNum: int, freeIndex: int,
                   enable: bool, maxDropCnt: nat, i: nat, info: AckInfo, log: Log, after: Book)
    requires Good(slots, logs, book, inherited, maxNum, freeIndex, enable, maxDropCnt) && i < TCP_ACK_NUM
    requires info.busy == slots[i].busy && info.key == slots[i].key && (!enable ==> info.msgbuf == None)
    requires Owned(slots[i := info], after) && Progress(book, after)
    requires enable && info.busy ==> Served(info, log, after, maxDropCnt)
    requires log.stale == logs[i].stale && Recorded(logs, after, inherited)
    ensures Good(slots[i := info], logs[i := log], after, inherited, maxNum, freeIndex, enable, maxDropCnt)
  {
    BusyCountUpdate(slots, i, info);
    if enable {
      OthersServed(slots, logs, book, i, info, log, after, maxDropCnt);
    }
  }

  lemma HandledGood(slots: seq<AckInfo>, logs: seq<Log>, book: Book, inherited: set<Msg>, maxNum: int, freeIndex: int,
                    maxDropCnt: nat, i: nat, info: AckInfo, msg: Msg, check: Check, now: u32, ret: bool)
    requires Good(slots, logs, book, inherited, maxNum, freeIndex, true, maxDropCnt) && i < TCP_ACK_NUM && slots[i].busy
    requires check.Ack? && check.key == slots[i].key && msg !in book
    requires Handled(slots[i], info, msg, check.ackSeq, now, ret, maxDropCnt)
    ensures slots[i].msgbuf.Some? ==> slots[i].msgbuf.value in book && book[slots[i].msgbuf.value].fate == Held(i)
    ensures Good(slots[i := info], logs[i := Logged(logs[i], slots[i], msg, check.ackSeq, ret)],
                 Settled(book, slots[i], logs[i], i, msg, check, ret), inherited, maxNum, freeIndex, true, maxDropCnt)
  {
    var was, log := slots[i], logs[i];
    HandledOwned(slots, book, i, info, log, msg, check, now, ret, maxDropCnt);
    HandledServed(was, info, log, book, i, msg, check, now, ret, maxDropCnt);
    StoredGood(slots, logs, book, inherited, maxNum, freeIndex, true, maxDropCnt, i, info,
               Logged(log, was, msg, check.ackSeq, ret), Settled(book, was, log, i, msg, check, ret));
  }

  lemma PutGood(slots: seq<AckInfo>, logs: seq<Log>, book: Book, inherited: set<Msg>, maxNum: int, freeIndex: int,
                enable: bool, maxDropCnt: nat, i: nat, info: AckInfo)
    requires Good(slots, logs, book, inherited, maxNum, freeIndex, enable, maxDropCnt) && i < TCP_ACK_NUM
    requires info == slots[i].(lastTime := info.lastTime, winScale := info.winScale, timer := info.timer, inSendMsg := info.inSendMsg)
    ensures Good(slots[i := info], logs, book, inherited, maxNum, freeIndex, enable, maxDropCnt)
  {
    Restored(slots, book, i, info);
    StoredGood(slots, logs, book, inherited, maxNum, freeIndex, enable, maxDropCnt, i, info, logs[i], book);
    assert logs[i := logs[i]] == logs;
  }

  lemma PushedGood(slots: seq<AckInfo>, logs: seq<Log>, book: Book, inherited: set<Msg>, maxNum: int, freeIndex: int,
                   maxDropCnt: nat, i: nat, pushed: u32)
    requires Good(slots, logs, book, inherited, maxNum, freeIndex, true, maxDropCnt) && i < TCP_ACK_NUM && slots[i].busy
    ensures Good(slots[i := slots[i].(pshFlag := true, pshSeq := pushed)],
                 logs[i := logs[i].(story := logs[i].story + [Pushed(pushed)])],
                 book, inherited, maxNum, freeIndex, true, maxDropCnt)
  {
    var info, log := slots[i].(pshFlag := true, pshSeq := pushed), logs[i].(story := logs[i].story + [Pushed(pushed)]);
    Restored(slots, book, i, info);
    StoryNext(logs[i].story, Pushed(pushed));
    StoredGood(slots, logs, book, inherited, maxNum, freeIndex, true, maxDropCnt, i, info, log, book);
  }

  lemma SentGood(slots: seq<AckInfo>, logs: seq<Log>, book: Book, inherited: set<Msg>, maxNum: int, freeIndex: int,
                 enable: bool, maxDropCnt: nat, i: nat, info: AckInfo)
    requires Good(slots, logs, book, inherited, maxNum, freeIndex, enable, maxDropCnt) && i < TCP_ACK_NUM
    requires slots[i].busy && slots[i].msgbuf.Some?
    requires info == slots[i].(msgbuf := None, dropCnt := 0, inSendMsg := slots[i].msgbuf)
    ensures var msg := slots[i].msgbuf.value;
            && msg in book && Progress(book, book[msg := book[msg].(fate := Sent)])
            && Good(slots[i := info], logs[i := Released(logs[i], msg)], book[msg := book[msg].(fate := Sent)],
                    inherited, maxNum, freeIndex, enable, maxDropCnt)
  {
    var msg := slots[i].msgbuf.value;
    OwnedRelease(slots, book, i, info, Sent);
    StoredGood(slots, logs, book, inherited, maxNum, freeIndex, enable, maxDropCnt, i, info,
               Released(logs[i], msg), book[msg := book[msg].(fate := Sent)]);
  }

  lemma ClaimedGood(slots: seq<AckInfo>, logs: seq<Log>, book: Book, inherited: set<Msg>, maxNum: int, maxDropCnt: nat,
                    enable: bool, i: nat, info: AckInfo, msg: Msg, check: Check, now: u32)
    requires Good(slots, logs, book, inherited, maxNum, -1, enable, maxDropCnt) && i < TCP_ACK_NUM && !slots[i].busy
    requires msg in book && check.Ack? && book[msg] == Entry(check, Passed)
    requires forall k :: 0 <= k < TCP_ACK_NUM && slots[k].busy ==> slots[k].key != check.key
    requires info == Claimed(slots[i], check, now, maxDropCnt)
    ensures Good(slots[i := info], logs[i := Log([check.ackSeq], Some(msg), info.msgbuf, 0, false, [])], book,
                 inherited + Members(info.msgbuf), maxNum + 1, -1, enable, maxDropCnt)
  {
    var log := Log([check.ackSeq], Some(msg), info.msgbuf, 0, false, []);
    BusyCountUpdate(slots, i, info);
    Restored(slots, book, i, info);
    if enable {
      OthersServed(slots, logs, book, i, info, log, book, maxDropCnt);
    }
  }

  /** What slot `slot` takes over with this flow, if it does not serve it already. */
  function Inherits(slots: seq<AckInfo>, key: Key, slot: int): set<Msg>
  {
    if 0 <= slot < |slots| && !Serves(slots[slot], key) then Members(slots[slot].msgbuf) else {}
  }

  function Members(m: Option<Msg>): set<Msg>
  {
    if m.Some? then {m.value} else {}
  }

  lemma OwnedRelease(slots: seq<AckInfo>, book: Book, i: nat, info: AckInfo, fate: Fate)
    requires Owned(slots, book) && i < |slots| && info.msgbuf == None && !fate.Held?
    requires slots[i].msgbuf.Some? ==> Justified(book[slots[i].msgbuf.value].(fate := fate))
    ensures var msg := slots[i].msgbuf;
            var after := if msg.Some? then book[msg.value := book[msg.value].(fate := fate)] else book;
            Owned(slots[i := info], after) && Progress(book, after)
  {
  }

  lemma HandledServed(was: AckInfo, info: AckInfo, log: Log, book: Book, i: nat, msg: Msg, check: Check, now: u32,
                      ret: bool, maxDropCnt: nat)
    requires Served(was, log, book, maxDropCnt) && (was.msgbuf.Some? ==> was.msgbuf.value in book && book[was.msgbuf.value].fate == Held(i))
    requires msg !in book && check.Ack? && check.key == was.key
    requires Handled(was, info, msg, check.ackSeq, now, ret, maxDropCnt)
    ensures Served(info, Logged(log, was, msg, check.ackSeq, ret), Settled(book, was, log, i, msg, check, ret), maxDropCnt)
  {
    LatestNext(log.acks, check.ackSeq);
    StoryNext(log.story, Heard(check.ackSeq, U32Before(was.ackSeq, check.ackSeq), !ret));
  }

  /** With nothing being sent, a slot that withholds an acknowledgement has withheld fewer than the limit in a row. */
  lemma WithheldInARow(was: AckInfo, info: AckInfo, log: Log, book: Book, msg: Msg, ackSeq: u32, now: u32, maxDropCnt: nat)
    requires Served(was, log, book, maxDropCnt) && Handled(was, info, msg, ackSeq, now, true, maxDropCnt)
    requires was.inSendMsg == None && U32Before(was.ackSeq, ackSeq)
    ensures log.released && Logged(log, was, msg, ackSeq, true).withheld < maxDropCnt
  {
    assert info.dropCnt == was.dropCnt + 1 < maxDropCnt;
  }

  /** A held message is freed unsent by the next accepted acknowledgement of the slot, and by no other: as superseded,
      or as stale if the slot inherited it from an earlier flow. */
  lemma HeldThenFreed(book: Book, was: AckInfo, log: Log, i: nat, msg: Msg, check: Check, ret: bool)
    requires check.Ack? && was.msgbuf.Some? && was.msgbuf.value in book && book[was.msgbuf.value].fate == Held(i) && msg !in book
    ensures var fate := Settled(book, was, log, i, msg, check, ret)[was.msgbuf.value].fate;
            && (fate == Held(i) <==> !U32Before(was.ackSeq, check.ackSeq))
            && (fate == Freed(Stale) <==> U32Before(was.ackSeq, check.ackSeq) && was.msgbuf == log.stale)
            && (fate == Freed(Superseded(check.ackSeq)) <==> U32Before(was.ackSeq, check.ackSeq) && was.msgbuf != log.stale)
  {
  }

  /** An acknowledgement of a flow that slot `i` serves, when no flows are due to expire. */
  method SendServed(m: Manager, i: nat, msg: Msg, check: Check, now: u32) returns (ret: bool)
    requires m.Valid() && m.enable && !m.Aged(now) && msg !in m.book && check.Ack?
    requires i < TCP_ACK_NUM && Serves(m.slots[i], check.key)
    modifies m, m.slots
    ensures m.Valid() && m.enable && m.lastTime == old(m.lastTime) && m.freeIndex == old(m.freeIndex)
    ensures m.slots[..] == old(m.slots[..])[i := m.slots[i]]
    ensures Handled(Scaled(old(m.slots[i]), check), m.slots[i], msg, check.ackSeq, now, ret, m.maxDropCnt)
    ensures m.book == Settled(old(m.book), old(m.slots[i]), old(m.logs)[i], i, msg, check, ret)
    ensures m.logs[i].stale == old(m.logs)[i].stale
  {
    ghost var was := m.slots[..];
    assert m.Refreshed(was, now) == was;
    var slot;
    ret, slot := m.FilterSend(msg, check, now);
    OneServes(was, m.slots[..], i, slot, check.key);
  }

  /** The slot that serves a flow afterwards is the one that served it before. */
  lemma OneServes(was: seq<AckInfo>, slots: seq<AckInfo>, i: nat, slot: int, key: Key)
    requires i < |was| && Serves(was[i], key) && Unique(slots) && -1 <= slot < |slots|
    requires slot == -1 ==> slots == was && forall k :: 0 <= k < |slots| ==> slots[k].key != key
    requires slot >= 0 ==> slot < |was| && slots == was[slot := slots[slot]] && Serves(slots[slot], key)
    ensures slot == i
  {
    var before, after := was[i], slots[i];
    assert slot == i || after == before;
  }

  /** An acknowledgement of a new flow, when slot `i` is the one that is free then. */
  method SendNew(m: Manager, i: nat, msg: Msg, check: Check, now: u32)
    requires m.Valid() && m.enable && msg !in m.book && check.Ack?
    requires i == m.FreeThen(m.slots[..], now) < TCP_ACK_NUM
    requires forall k :: 0 <= k < TCP_ACK_NUM ==> !m.Refreshed(m.slots[..], now)[k].busy
    modifies m, m.slots
    ensures m.Valid() && m.enable && m.freeIndex == -1 && m.lastTime == if old(m.Aged(now)) then now else old(m.lastTime)
    ensures forall k :: 0 <= k < TCP_ACK_NUM && k != i ==> !m.slots[k].busy
    ensures m.slots[i] == Claimed(old(m.slots[i]), check, now, m.maxDropCnt) && m.logs[i].stale == old(m.slots[i]).msgbuf
    ensures m.book == old(m.book)[msg := Entry(check, Passed)]
  {
    ghost var before := m.Refreshed(m.slots[..], now);
    var ret, slot := m.FilterSend(msg, check, now);
    assert slot == i;
    assert Claimed(before[i], check, now, m.maxDropCnt) == Claimed(old(m.slots[i]), check, now, m.maxDropCnt);
  }

  /** The first two messages of the run below: both go out, and the second one is being sent. */
  method SecondInFlight(timeout: u32, a: Key) returns (m: Manager)
    requires timeout < HALF
    ensures fresh(m) && fresh(m.slots) && m.Valid() && m.enable && m.timeout == timeout && m.lastTime == 0
    ensures m.maxDropCnt == TCP_ACK_DROP_CNT
    ensures m.book == map[1 := Entry(Ack(a, 1, 0), Passed), 2 := Entry(Ack(a, 2, 0), Passed)]
    ensures forall k :: 0 < k < TCP_ACK_NUM ==> !m.slots[k].busy
    ensures var info := m.slots[0];
            && info.busy && info.key == a && info.ackSeq == 2 && info.dropCnt == 0 && !info.pshFlag
            && info.msgbuf == None && info.inSendMsg == Some(2)
  {
    m := new Manager(0, timeout);
    assert m.Refreshed(m.slots[..], 0) == m.slots[..];
    SendNew(m, 0, 1, Ack(a, 1, 0), 0);
    var ret := SendServed(m, 0, 2, Ack(a, 2, 0), 0);
    assert !ret;
  }

  /** The first half of the run below: message 3 is held behind message 2, its timer has run out for nothing, and message
      2 is gone. */
  method HeldWithoutTimer(timeout: u32, a: Key) returns (m: Manager)
    requires timeout < HALF - 1
    ensures fresh(m) && fresh(m.slots) && m.Valid() && m.enable && m.timeout == timeout && m.lastTime == 0
    ensures m.maxDropCnt == TCP_ACK_DROP_CNT
    ensures m.book == map[1 := Entry(Ack(a, 1, 0), Passed), 2 := Entry(Ack(a, 2, 0), Passed), 3 := Entry(Ack(a, 3, 0), Held(0))]
    ensures forall k :: 0 < k < TCP_ACK_NUM ==> !m.slots[k].busy
    ensures var info := m.slots[0];
            info.busy && info.key == a && info.lastTime == 0 && info.msgbuf == Some(3) && info.inSendMsg == None && !info.timer
  {
    m := SecondInFlight(timeout, a);
    var ret := SendServed(m, 0, 3, Ack(a, 3, 0), 0);
    assert ret;
    ghost var sent := m.Timeout(0);
    m.MoveMsg(2);
  }

  /** The run until flow `b` has taken over the slot, and message 3 with it. */
  method TakenOver(timeout: u32, a: Key, b: Key) returns (m: Manager)
    requires timeout < HALF - 1 && a != b
    ensures fresh(m) && fresh(m.slots) && m.Valid() && m.enable && m.timeout == timeout && m.lastTime == timeout + 1
    ensures m.maxDropCnt == TCP_ACK_DROP_CNT
    ensures m.book == map[
      1 := Entry(Ack(a, 1, 0), Passed), 2 := Entry(Ack(a, 2, 0), Passed), 3 := Entry(Ack(a, 3, 0), Held(0)),
      4 := Entry(Ack(b, 1, 0), Passed)]
    ensures var info := m.slots[0];
            && info.busy && info.key == b && info.ackSeq == 1 && info.dropCnt == TCP_ACK_DROP_CNT && !info.pshFlag
            && info.msgbuf == m.logs[0].stale == Some(3) && info.inSendMsg == None
  {
    m := HeldWithoutTimer(timeout, a);
    var now: u32 := timeout + 1;
    assert m.Aged(now) && m.Expires(m.slots[0], now);
    SendNew(m, 0, 4, Ack(b, 1, 0), now);
  }

  /** A concrete run: flow `a` sends acknowledgements 1, 2 and 3. While 2 is being sent 3 is held, and its timer runs out
      for nothing. Flow `a` falls silent, flow `b` takes over its slot, and the next acknowledgement of `b` frees message
      3: the newest one of flow `a` is never sent. */
  method InheritedIsLost(timeout: u32, a: Key, b: Key) returns (m: Manager)
    requires timeout < HALF - 1 && a != b
    ensures fresh(m) && m.Valid()
    ensures m.book == map[
      1 := Entry(Ack(a, 1, 0), Passed), 2 := Entry(Ack(a, 2, 0), Passed), 3 := Entry(Ack(a, 3, 0), Freed(Stale)),
      4 := Entry(Ack(b, 1, 0), Passed), 5 := Entry(Ack(b, 2, 0), Passed)]
  {
    m := TakenOver(timeout, a, b);
    var ret := SendServed(m, 0, 5, Ack(b, 2, 0), timeout + 1);
    assert !ret;
  }

  lemma SettledFrees(book: Book, was: AckInfo, log: Log, i: nat, msg: Msg, check: Check, ret: bool)
    requires was.msgbuf.Some? ==> was.msgbuf.value in book && book[was.msgbuf.value].fate == Held(i)
    requires msg !in book && check.Ack?
    ensures OnlyFreed(book, Settled(book, was, log, i, msg, check, ret),
                      if U32Before(was.ackSeq, check.ackSeq) then was.msgbuf else Some(msg))
  {
  }

  lemma NotedDecides(book: Book, was: AckInfo, info: AckInfo, log: Log, i: nat, msg: Msg, check: Check, now: u32,
                     enable: bool, ret: bool, maxDropCnt: nat)
    requires check.Ack? && msg !in book
    requires was.msgbuf.Some? ==> was.msgbuf.value in book && book[was.msgbuf.value].fate == Held(i)
    requires if enable && Serves(was, check.key) then Handled(Scaled(was, check), info, msg, check.ackSeq, now, ret, maxDropCnt) else !ret
    ensures var after := Noted(book, was, log, i, msg, check, enable, ret);
            Progress(book, after) && Decided(book, after, msg, check, enable, ret)
  {
  }

  lemma ServedKept(info: AckInfo, log: Log, book: Book, after: Book, maxDropCnt: nat)
    requires Served(info, log, book, maxDropCnt) && Progress(book, after)
    ensures Served(info, log, after, maxDropCnt)
  {
  }

  lemma {:induction false} NoneBusy(slots: seq<AckInfo>)
    requires forall i :: 0 <= i < |slots| ==> !slots[i].busy
    ensures BusyCount(slots) == 0
  {
    if slots != [] {
      NoneBusy(slots[..|slots| - 1]);
    }
  }
}
