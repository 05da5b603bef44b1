/** Commands to the firmware: queued, confirmed by its messages, or timed out. */
module CmdManager {
  import opened Common

  const RWNX_CMD_MAX_QUEUED := 8
  const RWNX_CMD_E2AMSG_LEN_MAX := 1024
  const EINTR := 4
  const ENOMEM := 12
  const EPIPE := 32
  const ETIMEDOUT := 110

  datatype State = Deinit | Inited | Crashed

  class Cmd {
    const reqid: nat
    const nonblock: bool
    const reqCfm: bool
    const wantsAnswer: bool
    var waitPush: bool
    var waitAck: bool
    var waitCfm: bool
    var done: bool
    var tkn: u32
    var result: int
    var completed: bool
    var answer: seq<byte>
    /** The caller of a blocking command waits for its completion. */
    var waiting: bool

    /** `RWNX_CMD_WAIT_COMPLETE` */
    predicate WaitComplete()
      reads this
    {
      !waitAck && !waitCfm
    }

    /** As allocated by the senders of commands: no flag of the manager is set. */
    predicate New()
      reads this
    {
      !waitPush && !waitAck && !waitCfm && !done && !completed && !waiting
    }
  }

  datatype Msg = Msg(id: nat, param: seq<byte>)

  // ----- The list -------------------------------------------------------------------------------

  ghost predicate NoRepeats(s: seq<Cmd>)
  {
    forall i, j :: 0 <= i < j < |s| ==> s[i] != s[j]
  }

  /** What is left of the commands queued, in order, when some are gone. */
  ghost function Without(queued: seq<Cmd>, gone: set<Cmd>): seq<Cmd>
  {
    if queued == [] then []
    else (if queued[0] in gone then [] else [queued[0]]) + Without(queued[1..], gone)
  }

  lemma {:induction false} WithoutIn(queued: seq<Cmd>, gone: set<Cmd>)
    requires NoRepeats(queued)
    ensures forall c :: c in Without(queued, gone) <==> c in queued && c !in gone
    ensures NoRepeats(Without(queued, gone))
  {
    if queued != [] {
      WithoutIn(queued[1..], gone);
      assert forall c :: c in queued <==> c == queued[0] || c in queued[1..];
    }
  }

  lemma {:induction false} WithoutNext(queued: seq<Cmd>, gone: set<Cmd>, c: Cmd)
    requires c !in gone
    ensures Without(queued + [c], gone) == Without(queued, gone) + [c]
  {
    if queued == [] {
      assert queued + [c] == [c] && [c][1..] == [];
      assert Without([], gone) == [];
    } else {
      WithoutNext(queued[1..], gone, c);
      assert (queued + [c])[1..] == queued[1..] + [c];
    }
  }

  lemma {:induction false} WithoutOther(queued: seq<Cmd>, gone: set<Cmd>, c: Cmd)
    requires c !in queued
    ensures Without(queued, gone + {c}) == Without(queued, gone)
  {
    if queued != [] {
      WithoutOther(queued[1..], gone, c);
    }
  }

  /** One more that goes is missing from the list, and nothing else changes. */
  lemma {:induction false} WithoutOneMore(queued: seq<Cmd>, gone: set<Cmd>, k: nat)
    requires NoRepeats(queued) && k < |Without(queued, gone)|
    ensures var cmds := Without(queued, gone);
            Without(queued, gone + {cmds[k]}) == cmds[..k] + cmds[k + 1..]
  {
    assert queued != [];
    var cmds, rest := Without(queued, gone), Without(queued[1..], gone);
    var head := if queued[0] in gone then [] else [queued[0]];
    assert cmds == head + rest;
    WithoutIn(queued[1..], gone);
    assert queued[0] !in queued[1..] && queued[0] !in rest;
    if head != [] && k == 0 {
      WithoutOther(queued[1..], gone, queued[0]);
      assert cmds[..k] + cmds[k + 1..] == rest;
    } else {
      var j := k - |head|;
      WithoutOneMore(queued[1..], gone, j);
      assert cmds[k] == rest[j];
      Shifted(head, rest, j);
    }
  }

  lemma Shifted<T>(head: seq<T>, rest: seq<T>, j: nat)
    requires j < |rest|
    ensures var all, k := head + rest, j + |head|;
            all[..k] + all[k + 1..] == head + (rest[..j] + rest[j + 1..])
  {
  }

  class CmdMgr {
    var state: State
    var nextTkn: u32
    var queueSz: int
    const maxQueueSz: nat
    var cmds: seq<Cmd>
    /** Every command ever put on the list, and those that left it, both in order. */
    ghost var queued: seq<Cmd>
    ghost var removed: seq<Cmd>

    ghost function Gone(): set<Cmd>
      reads this
    {
      set c | c in removed
    }

    /** The list holds what was queued and has not left, in order; its size is counted and bounded; nothing left twice. */
    ghost predicate Listed()
      reads this
    {
      && NoRepeats(queued) && NoRepeats(removed)
      && (forall c :: c in removed ==> c in queued)
      && cmds == Without(queued, Gone())
      && queueSz == |cmds| <= maxQueueSz && maxQueueSz > 0
      && |queued| == |cmds| + |removed|
    }

    ghost predicate Waiting(c: Cmd)
      reads c
    {
      !c.done && !c.completed && !c.waitPush && !c.waitAck && c.waitCfm == c.reqCfm && c.waiting == !c.nonblock && c.result == -EINTR
    }

    /** A blocking command that left was confirmed, and then its caller is woken, or it timed out in a crash. */
    ghost predicate Settled(c: Cmd)
      reads this, c
    {
      c.done && (c.nonblock ==> !c.waiting) && (!c.nonblock ==>
        && c.completed == !c.waitCfm
        && c.result == (if c.completed then 0 else -ETIMEDOUT)
        && (!c.completed ==> state == Crashed && !c.waiting))
    }

    ghost predicate Valid()
      reads this, queued
    {
      && Listed()
      && (forall c :: c in queued ==> if c in removed then Settled(c) else Waiting(c))
    }

    /** `rwnx_cmd_mgr_init` */
    constructor ()
      ensures Valid() && state == Inited && queued == [] && maxQueueSz == RWNX_CMD_MAX_QUEUED && nextTkn == 0
    {
      state, nextTkn, queueSz, maxQueueSz := Inited, 0, 0, RWNX_CMD_MAX_QUEUED;
      cmds, queued, removed := [], [], [];
    }

    /** `list_del` and what goes with it. */
    method Unlist(cmd: Cmd, ghost k: nat)
      requires Listed() && k < |cmds| && cmds[k] == cmd
      modifies this`cmds, this`queueSz, this`removed
      ensures Listed() && cmds == old(cmds[..k] + cmds[k + 1..]) && removed == old(removed) + [cmd]
      ensures cmd in queued && cmd !in old(removed)
    {
      WithoutIn(queued, Gone());
      WithoutOneMore(queued, Gone(), k);
      ghost var gone := Gone();
      cmds := Delete(cmds, cmd, k);
      queueSz := queueSz - 1;
      removed := removed + [cmd];
      assert Gone() == gone + {cmd};
    }

    /** `cmd_complete` */
    method Complete(cmd: Cmd, ghost k: nat)
      requires Listed() && k < |cmds| && cmds[k] == cmd
      modifies this`cmds, this`queueSz, this`removed, cmd`done, cmd`result, cmd`completed
      ensures Listed() && cmds == old(cmds[..k] + cmds[k + 1..]) && removed == old(removed) + [cmd]
      ensures cmd in queued && cmd !in old(removed)
      ensures cmd.done
      ensures if !cmd.nonblock && cmd.WaitComplete() then cmd.result == 0 && cmd.completed
              else cmd.result == old(cmd.result) && cmd.completed == old(cmd.completed)
    {
      Unlist(cmd, k);
      cmd.done := true;
      if !cmd.nonblock && cmd.WaitComplete() {
        cmd.result := 0;
        cmd.completed := true;
      }
    }

    /** The locked region of `cmd_mgr_queue`; only a command that is pushed at once goes on to wait. */
    method Queue(cmd: Cmd) returns (err: int, push: bool)
      requires Valid() && cmd.New() && cmd !in queued
      modifies this`nextTkn, this`queueSz, this`cmds, this`queued, cmd`waitPush, cmd`waitCfm, cmd`tkn, cmd`result, cmd`waiting
      ensures Valid()
      ensures err == if state == Crashed then -EPIPE else if old(queueSz) == maxQueueSz then -ENOMEM else 0
      ensures err != 0 ==> queued == old(queued) && cmds == old(cmds) && cmd.result == err && cmd.New() && nextTkn == old(nextTkn)
      ensures err == 0 ==>
        && push && queued == old(queued) + [cmd] && cmds == old(cmds) + [cmd]
        && cmd.tkn == old(nextTkn) && nextTkn == (old(nextTkn) + 1) % TWO_32
    {
      push := false;
      if state == Crashed {
        cmd.result := -EPIPE;
        return -EPIPE, push;
      }
      var defer := false;
      if cmds != [] {
        if queueSz == maxQueueSz {
          cmd.result := -ENOMEM;
          return -ENOMEM, push;
        }
        var last := cmds[|cmds| - 1];
        OnList(last);
        defer := last.waitAck || last.waitPush;
        cmd.waitPush := cmd.waitPush || defer;
      }
      Admit(cmd);
      err, push := 0, !defer;
    }

    lemma OnList(c: Cmd)
      requires Valid() && c in cmds
      ensures c in queued && c !in removed && Waiting(c)
    {
      WithoutIn(queued, Gone());
    }

    method Admit(cmd: Cmd)
      requires Valid() && cmd.New() && cmd !in queued && queueSz < maxQueueSz
      modifies this`nextTkn, this`queueSz, this`cmds, this`queued, cmd`waitCfm, cmd`tkn, cmd`result, cmd`waiting
      ensures Valid() && queued == old(queued) + [cmd] && cmds == old(cmds) + [cmd]
      ensures cmd.tkn == old(nextTkn) && nextTkn == (old(nextTkn) + 1) % TWO_32
    {
      Enlist(cmd);
      if cmd.reqCfm {
        cmd.waitCfm := true;
      }
      cmd.tkn := nextTkn;
      nextTkn := (nextTkn + 1) % TWO_32;
      cmd.result := -EINTR;
      cmd.waiting := !cmd.nonblock;
      assert Waiting(cmd) && cmd !in removed;
    }

    /** `list_add_tail` and what goes with it. */
    method Enlist(cmd: Cmd)
      requires Listed() && cmd !in queued && queueSz < maxQueueSz
      modifies this`cmds, this`queueSz, this`queued
      ensures Listed() && cmds == old(cmds) + [cmd] && queued == old(queued) + [cmd]
    {
      WithoutNext(queued, Gone(), cmd);
      cmds := cmds + [cmd];
      queueSz := queueSz + 1;
      queued := queued + [cmd];
    }

    /** The locked region after the wait of a blocking command ran out: from now on nothing is queued. A confirmation
        that came in between has already taken the command off the list. */
    method TimedOut(cmd: Cmd) returns (err: int)
      requires Valid() && cmd in queued && !cmd.nonblock && cmd.waiting
      modifies this`state, this`cmds, this`queueSz, this`removed, cmd`done, cmd`result, cmd`completed, cmd`waiting
      ensures Valid() && state == Crashed && err == -ETIMEDOUT && !cmd.waiting && cmd.done
      ensures removed == if old(cmd.done) then old(removed) else old(removed) + [cmd]
      ensures old(cmd.done) ==> cmds == old(cmds)
      ensures cmd.result == if old(cmd.done) || !cmd.reqCfm then 0 else -ETIMEDOUT
    {
      if !cmd.done {
        ghost var k := Place(cmd);
        GiveUp(cmd, k);
      } else {
        state := Crashed;
        cmd.waiting := false;
      }
      err := -ETIMEDOUT;
    }

    method GiveUp(cmd: Cmd, ghost k: nat)
      requires Valid() && k < |cmds| && cmds[k] == cmd && !cmd.nonblock
      modifies this`state, this`cmds, this`queueSz, this`removed, cmd`done, cmd`result, cmd`completed, cmd`waiting
      ensures Valid() && state == Crashed && !cmd.waiting
      ensures cmd.done && removed == old(removed) + [cmd] && cmd.result == if cmd.reqCfm then -ETIMEDOUT else 0
    {
      OnList(cmd);
      state := Crashed;
      cmd.result := -ETIMEDOUT;
      Complete(cmd, k);
      cmd.waiting := false;
    }

    lemma Place(c: Cmd) returns (k: nat)
      requires Valid() && c in queued && !c.done
      ensures k < |cmds| && cmds[k] == c
    {
      WithoutIn(queued, Gone());
      k :| 0 <= k < |cmds| && cmds[k] == c;
    }

    /** The caller of a confirmed command goes on and frees it. */
    method Woken(cmd: Cmd) returns (err: int)
      requires Valid() && cmd in queued && !cmd.nonblock && cmd.completed && cmd.waiting
      modifies cmd`waiting
      ensures Valid() && err == 0 && cmd.result == 0 && cmd.done && cmd !in cmds && !cmd.waiting
    {
      OffList(cmd);
      cmd.waiting := false;
      err := 0;
    }

    lemma OffList(c: Cmd)
      requires Valid() && c in queued && c.completed
      ensures c in removed && c !in cmds
    {
      WithoutIn(queued, Gone());
    }

    /** `cmd_mgr_msgind`: the oldest command that waits for this message and whose callback accepts it is confirmed. */
    method MsgInd(msg: Msg, accepts: Cmd -> bool) returns (found: Option<Cmd>)
      requires Valid()
      modifies this`cmds, this`queueSz, this`removed, queued
      ensures Valid() && queued == old(queued)
      ensures found == None ==>
        && cmds == old(cmds) && removed == old(removed)
        && forall c :: c in old(cmds) ==> !(c.reqid == msg.id && old(c.waitCfm) && accepts(c))
      ensures found.Some? ==>
        && found.value in old(cmds) && found.value.reqid == msg.id && old(found.value.waitCfm) && accepts(found.value)
        && removed == old(removed) + [found.value]
        && forall k :: 0 <= k < |old(cmds)| && old(cmds)[k] == found.value ==>
             && cmds == old(cmds)[..k] + old(cmds)[k + 1..]
             && forall j :: 0 <= j < k ==>
                  !(old(cmds)[j].reqid == msg.id && old(cmds[j].waitCfm) && accepts(old(cmds)[j]))
      ensures found.Some? && !found.value.nonblock ==> found.value.completed && found.value.result == 0
      ensures found.Some? && found.value.wantsAnswer && msg.param != [] ==>
        found.value.answer == if |msg.param| > RWNX_CMD_E2AMSG_LEN_MAX then msg.param[..RWNX_CMD_E2AMSG_LEN_MAX] else msg.param
      ensures forall c :: c in queued && Some(c) != found ==> unchanged(c)
    {
      found := None;
      WithoutIn(queued, Gone());
      for k := 0 to |cmds|
        invariant forall j :: 0 <= j < k ==> !Takes(cmds[j], msg, accepts)
      {
        var cmd := cmds[k];
        if Takes(cmd, msg, accepts) {
          OnList(cmd);
          Confirm(cmd, k, msg.param);
          return Some(cmd);
        }
      }
    }

    predicate Takes(c: Cmd, msg: Msg, accepts: Cmd -> bool)
      reads c
    {
      c.reqid == msg.id && c.waitCfm && accepts(c)
    }

    method Confirm(cmd: Cmd, ghost k: nat, param: seq<byte>)
      requires Valid() && k < |cmds| && cmds[k] == cmd && cmd.waitCfm
      modifies this`cmds, this`queueSz, this`removed, cmd`waitCfm, cmd`answer, cmd`done, cmd`result, cmd`completed
      ensures Valid() && cmds == old(cmds[..k] + cmds[k + 1..]) && removed == old(removed) + [cmd]
      ensures !cmd.nonblock ==> cmd.completed && cmd.result == 0
      ensures cmd.wantsAnswer && param != [] ==>
        cmd.answer == if |param| > RWNX_CMD_E2AMSG_LEN_MAX then param[..RWNX_CMD_E2AMSG_LEN_MAX] else param
    {
      OnList(cmd);
      cmd.waitCfm := false;
      var answer := if |param| > RWNX_CMD_E2AMSG_LEN_MAX then param[..RWNX_CMD_E2AMSG_LEN_MAX] else param;
      if cmd.wantsAnswer && answer != [] {
        cmd.answer := answer;
      }
      if cmd.WaitComplete() {
        Complete(cmd, k);
      }
    }

    /** `cmd_mgr_drain`: the end. Every command still listed is taken off, and blocked callers are let go. */
    method Drain()
      requires Valid()
      modifies this`cmds, this`queueSz, this`removed, queued`completed
      ensures Listed() && cmds == [] && queueSz == 0 && removed == old(removed) + old(cmds)
      ensures forall c :: c in old(cmds) && !c.nonblock ==> c.completed
    {
      assert forall k :: 0 <= k < |cmds| ==> cmds[k] in queued by {
        WithoutIn(queued, Gone());
      }
      ghost var n := 0;
      while cmds != []
        invariant Listed() && 0 <= n <= |old(cmds)|
        invariant cmds == old(cmds)[n..] && removed == old(removed) + old(cmds)[..n]
        invariant forall k :: 0 <= k < n && !old(cmds)[k].nonblock ==> old(cmds)[k].completed
        decreases |cmds|
      {
        OneFurther(old(removed), old(cmds), n);
        Release(cmds[0]);
        n := n + 1;
      }
    }

    method Release(cur: Cmd)
      requires Listed() && cmds != [] && cmds[0] == cur
      modifies this`cmds, this`queueSz, this`removed, cur`completed
      ensures Listed() && cmds == old(cmds)[1..] && removed == old(removed) + [cur]
      ensures cur.completed == (old(cur.completed) || !cur.nonblock)
    {
      Unlist(cur, 0);
      if !cur.nonblock {
        cur.completed := true;
      }
    }

    /** What every step of every party keeps: nothing queued or removed is forgotten, and after a crash nothing
        more is queued. A caller that waits may run out of time at any moment, even just after its command was confirmed,
        and is woken once it was. */
    method Step(e: Event, ghost pool: set<Cmd>)
      requires Valid() && Ready(pool) && e.Within(pool) && (e.Submit? ==> e.cmd !in queued)
      modifies this, pool, queued
      ensures Valid() && Ready(pool)
      ensures old(removed) <= removed
      ensures queued == old(queued) + if e.Submit? && old(state) != Crashed && old(|cmds|) < maxQueueSz then [e.cmd] else []
      ensures e.Expiry? && old(e.late.waiting) ==> state == Crashed && !e.late.waiting && e.late in removed
      ensures e.Wake? && old(e.woken.waiting && e.woken.completed) ==> !e.woken.waiting
      ensures e.Confirmation? ==>
        |removed| == |old(removed)|
          + if exists c :: c in old(cmds) && c.reqid == e.msg.id && old(c.waitCfm) && e.accepts(c) then 1 else 0
      ensures nextTkn == (old(nextTkn) + |queued| - |old(queued)|) % TWO_32
      ensures old(state) == Crashed ==> state == Crashed && queued == old(queued)
    {
      match e
      case Submit(c) =>
        var _, _ := Queue(c);
      case Confirmation(msg, accepts) =>
        var _ := MsgInd(msg, accepts);
      case Expiry(c) =>
        if c.waiting {
          var _ := TimedOut(c);
        }
      case Wake(c) =>
        if c.waiting && c.completed {
          var _ := Woken(c);
        }
    }

    /** Any interleaving of new commands, messages, timeouts and wake-ups, each command queued at most once. Nothing is
        forgotten or renumbered, after a crash nothing is queued any more, and while there was none, a caller that has
        returned got the confirmation of its command. */
    method Run(events: seq<Event>, ghost pool: set<Cmd>)
      requires Valid() && Ready(pool)
      requires forall k :: 0 <= k < |events| ==> events[k].Within(pool)
      requires forall k :: 0 <= k < |events| && events[k].Submit? ==>
        events[k].cmd !in queued && Submit(events[k].cmd) !in events[..k]
      modifies this, pool, queued
      ensures Valid() && Ready(pool)
      ensures old(queued) <= queued && old(removed) <= removed && forall c :: c in queued ==> c in old(queued) || Submit(c) in events
      ensures nextTkn == (old(nextTkn) + |queued| - |old(queued)|) % TWO_32
      ensures old(state) == Crashed ==> state == Crashed && queued == old(queued)
      ensures forall c :: c in queued && !c.nonblock && !c.waiting ==>
        c.done && c !in cmds && (state != Crashed ==> c.completed && c.result == 0)
    {
      for n := 0 to |events|
        invariant Valid() && Ready(pool)
        invariant old(queued) <= queued && old(removed) <= removed
        invariant forall c :: c in queued ==> c in old(queued) || (c in pool && Submit(c) in events[..n])
        invariant nextTkn == (old(nextTkn) + |queued| - |old(queued)|) % TWO_32
        invariant old(state) == Crashed ==> state == Crashed && queued == old(queued)
      {
        assert events[..n + 1] == events[..n] + [events[n]];
        ghost var more := |queued| - |old(queued)|;
        Step(events[n], pool);
        TokensAdd(old(nextTkn), more, |queued| - |old(queued)| - more);
      }
      assert events[..|events|] == events;
      WithoutIn(queued, Gone());
    }

    /** Commands that were allocated and not queued yet. */
    ghost predicate Ready(pool: set<Cmd>)
      reads this, pool
    {
      forall c :: c in pool && c !in queued ==> c.New()
    }
  }

  datatype Event =
    | Submit(cmd: Cmd)
    | Confirmation(msg: Msg, accepts: Cmd -> bool)
    | Expiry(late: Cmd)
    | Wake(woken: Cmd)
  {
    /** The event is about a command of the pool, or about none. */
    ghost predicate Within(pool: set<Cmd>)
    {
      match this
      case Submit(c) => c in pool
      case Confirmation(_, _) => true
      case Expiry(c) => c in pool
      case Wake(c) => c in pool
    }
  }

  lemma TokensAdd(tkn: u32, m: nat, n: nat)
    ensures ((tkn + m) % TWO_32 + n) % TWO_32 == (tkn + (m + n)) % TWO_32
  {
    var k := (tkn + m) / TWO_32;
    assert tkn + (m + n) == TWO_32 * k + ((tkn + m) % TWO_32 + n);
  }

  lemma OneFurther<T>(before: seq<T>, all: seq<T>, n: nat)
    requires n < |all|
    ensures all[n..] != [] && all[n..][0] == all[n] && all[n..][1..] == all[n + 1..]
    ensures (before + all[..n]) + [all[n]] == before + all[..n + 1]
  {
  }

  method Delete(cmds: seq<Cmd>, cmd: Cmd, ghost k: nat) returns (rest: seq<Cmd>)
    requires NoRepeats(cmds) && k < |cmds| && cmds[k] == cmd
    ensures rest == cmds[..k] + cmds[k + 1..]
  {
    var i := 0;
    while cmds[i] != cmd
      invariant 0 <= i <= k
      decreases k - i
    {
      i := i + 1;
    }
    rest := cmds[..i] + cmds[i + 1..];
  }
}
