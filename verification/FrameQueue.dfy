/** The priority queue of frames shared by both drivers: one FIFO a class, with a lazily lowered
    hint `hiPrio` of the highest occupied class. */
module FrameQueues {
  import opened Common

  // ----- Lists of classes -----------------------------------------------------------------------

  /** The number of frames in all classes. */
  function Total<T>(ls: seq<seq<T>>): nat
  {
    if ls == [] then 0 else Total(ls[..|ls| - 1]) + |ls[|ls| - 1]|
  }

  lemma {:induction false} TotalUpdate<T>(ls: seq<seq<T>>, c: nat, l: seq<T>)
    requires c < |ls|
    ensures Total(ls[c := l]) == Total(ls) - |ls[c]| + |l|
  {
    var n := |ls| - 1;
    if c == n {
      assert ls[c := l][..n] == ls[..n];
    } else {
      TotalUpdate(ls[..n], c, l);
      assert ls[c := l][..n] == ls[..n][c := l];
    }
  }

  lemma {:induction false} TotalBound<T>(ls: seq<seq<T>>, c: nat)
    requires c < |ls|
    ensures |ls[c]| <= Total(ls)
  {
    if c < |ls| - 1 {
      TotalBound(ls[..|ls| - 1], c);
    }
  }

  lemma {:induction false} TotalAboveHint<T>(ls: seq<seq<T>>, k: nat)
    requires k <= |ls| && forall c :: k <= c < |ls| ==> ls[c] == []
    ensures Total(ls[..k]) == Total(ls)
    decreases |ls|
  {
    if k < |ls| {
      TotalAboveHint(ls[..|ls| - 1], k);
      assert ls[..|ls| - 1][..k] == ls[..k];
    } else {
      assert ls[..k] == ls;
    }
  }

  lemma {:induction false} EmptyTotal<T>(ls: seq<seq<T>>)
    ensures Total(ls) == 0 <==> forall c :: 0 <= c < |ls| ==> ls[c] == []
  {
    if ls != [] {
      EmptyTotal(ls[..|ls| - 1]);
      if Total(ls) == 0 {
        forall c | 0 <= c < |ls|
          ensures ls[c] == []
        {
          assert c < |ls| - 1 ==> ls[..|ls| - 1][c] == ls[c];
        }
      }
    }
  }

  /** `c` is the highest occupied class. */
  ghost predicate IsHighest<T>(ls: seq<seq<T>>, c: nat)
  {
    c < |ls| && ls[c] != [] && forall d :: c < d < |ls| ==> ls[d] == []
  }

  function Highest<T>(ls: seq<seq<T>>): (c: nat)
    requires Total(ls) > 0
    ensures IsHighest(ls, c)
  {
    if ls[|ls| - 1] != [] then |ls| - 1 else Highest(ls[..|ls| - 1])
  }

  /** `c` is the lowest occupied class. */
  ghost predicate IsLowest<T>(ls: seq<seq<T>>, c: nat)
  {
    c < |ls| && ls[c] != [] && forall d :: 0 <= d < c ==> ls[d] == []
  }

  /** The frames of all classes, counted. */
  ghost function Bag<T>(ls: seq<seq<T>>): multiset<T>
  {
    if ls == [] then multiset{} else Bag(ls[..|ls| - 1]) + multiset(ls[|ls| - 1])
  }

  lemma {:induction false} BagUpdate<T>(ls: seq<seq<T>>, c: nat, x: T)
    requires c < |ls|
    ensures Bag(ls[c := ls[c] + [x]]) == Bag(ls) + multiset{x}
  {
    var n := |ls| - 1;
    var more := ls[c := ls[c] + [x]];
    if c == n {
      assert more[..n] == ls[..n];
    } else {
      BagUpdate(ls[..n], c, x);
      assert more[..n] == ls[..n][c := ls[c] + [x]];
    }
  }

  lemma {:induction false} BagTaken<T>(ls: seq<seq<T>>, c: nat)
    requires c < |ls| && ls[c] != []
    ensures Bag(ls) == multiset{ls[c][0]} + Bag(ls[c := ls[c][1..]])
  {
    var n := |ls| - 1;
    var rest := ls[c := ls[c][1..]];
    if c == n {
      assert rest[..n] == ls[..n];
      assert ls[c] == [ls[c][0]] + ls[c][1..];
    } else {
      BagTaken(ls[..n], c);
      assert rest[..n] == ls[..n][c := ls[c][1..]];
    }
  }

  lemma {:induction false} EmptyBag<T>(ls: seq<seq<T>>)
    requires forall c :: 0 <= c < |ls| ==> ls[c] == []
    ensures Bag(ls) == multiset{}
  {
    if ls != [] {
      EmptyBag(ls[..|ls| - 1]);
    }
  }

  // ----- Draining serves the classes from the top, each in arrival order -------------------------

  /** All frames, the highest class first, each class oldest first. */
  ghost function ByPriority<T>(ls: seq<seq<T>>): (all: seq<T>)
  {
    if ls == [] then [] else ls[|ls| - 1] + ByPriority(ls[..|ls| - 1])
  }

  /** Taking the oldest frame of the highest class takes the first frame of the priority order. */
  lemma {:induction false} ServedFirst<T>(ls: seq<seq<T>>, c: nat)
    requires IsHighest(ls, c)
    ensures ByPriority(ls) == [ls[c][0]] + ByPriority(ls[c := ls[c][1..]])
  {
    var n := |ls| - 1;
    var rest := ls[c := ls[c][1..]];
    if c == n {
      assert rest[..n] == ls[..n];
      assert ls[c] == [ls[c][0]] + ls[c][1..];
    } else {
      ServedFirst(ls[..n], c);
      assert rest[..n] == ls[..n][c := ls[c][1..]];
      assert rest[n] == [];
    }
  }

  lemma {:induction false} NothingLeft<T>(ls: seq<seq<T>>)
    requires forall c :: 0 <= c < |ls| ==> ls[c] == []
    ensures ByPriority(ls) == []
  {
    if ls != [] {
      NothingLeft(ls[..|ls| - 1]);
    }
  }

  // ----- The queue ------------------------------------------------------------------------------

  class FrameQueue<T> {
    const queuelist: array<seq<T>>
    const qmax: nat
    var qcnt: nat
    var hiPrio: nat
    /** Per class: every frame that joined it and was not displaced or flushed, in order; and those delivered. */
    ghost var joined: seq<seq<T>>
    ghost var delivered: seq<seq<T>>

    ghost predicate Valid()
      reads this, queuelist
    {
      && 0 < queuelist.Length == |joined| == |delivered|
      && hiPrio < queuelist.Length
      && qcnt == Total(queuelist[..]) <= qmax
      && (forall c :: hiPrio < c < queuelist.Length ==> queuelist[c] == [])
      && forall c :: 0 <= c < queuelist.Length ==> joined[c] == delivered[c] + queuelist[c]
    }

    constructor (numPrio: nat, maxLen: nat)
      requires numPrio > 0
      ensures Valid() && fresh(queuelist) && queuelist.Length == numPrio && qmax == maxLen
      ensures queuelist[..] == seq(numPrio, _ => []) == joined == delivered && qcnt == 0
    {
      queuelist := new seq<T>[numPrio](_ => []);
      qmax, qcnt, hiPrio := maxLen, 0, 0;
      joined, delivered := seq(numPrio, _ => []), seq(numPrio, _ => []);
      new;
      EmptyTotal(queuelist[..]);
    }

    /** Append to a class; refused only by a class that alone holds `qmax` frames. */
    method Penq(prio: nat, p: T) returns (ok: bool)
      requires Valid() && prio < queuelist.Length && qcnt < qmax
      modifies this, queuelist
      ensures Valid() && ok && delivered == old(delivered)
      ensures queuelist[..] == old(queuelist[..])[prio := old(queuelist[prio]) + [p]]
      ensures joined == old(joined)[prio := old(joined[prio]) + [p]]
      ensures qcnt == old(qcnt) + 1 && hiPrio == if old(hiPrio) < prio then prio else old(hiPrio)
    {
      TotalBound(queuelist[..], prio);
      if |queuelist[prio]| >= qmax {
        return false;
      }
      TotalUpdate(queuelist[..], prio, queuelist[prio] + [p]);
      queuelist[prio] := queuelist[prio] + [p];
      qcnt := qcnt + 1;
      if hiPrio < prio {
        hiPrio := prio;
      }
      joined := joined[prio := joined[prio] + [p]];
      ok := true;
    }

    /** The WiFi driver's enqueue: a full queue refuses the frame. */
    method Enq(pkt: T, prio: nat) returns (ok: bool)
      requires Valid() && prio < queuelist.Length
      modifies this, queuelist
      ensures Valid() && ok == (old(qcnt) < qmax) && delivered == old(delivered)
      ensures queuelist[..] == if ok then old(queuelist[..])[prio := old(queuelist[prio]) + [pkt]] else old(queuelist[..])
      ensures joined == if ok then old(joined)[prio := old(joined[prio]) + [pkt]] else old(joined)
      ensures qcnt == if ok then old(qcnt) + 1 else old(qcnt)
    {
      TotalBound(queuelist[..], prio);
      if |queuelist[prio]| < qmax && qcnt < qmax {
        ok := Penq(prio, pkt);
      } else {
        ok := false;
      }
    }

    /** The lazy part of dequeue: bring the hint down to the highest occupied class. */
    method LowerHint()
      requires Valid() && qcnt > 0
      modifies `hiPrio
      ensures Valid() && IsHighest(queuelist[..], hiPrio)
    {
      EmptyTotal(queuelist[..]);
      while hiPrio > 0 && queuelist[hiPrio] == []
        invariant Valid()
      {
        hiPrio := hiPrio - 1;
      }
    }

    /** The oldest frame of the highest occupied class; nothing from an empty queue. */
    method Dequeue() returns (p: Option<T>)
      requires Valid()
      modifies this, queuelist
      ensures Valid() && joined == old(joined)
      ensures p.None? <==> old(qcnt) == 0
      ensures p.None? ==> queuelist[..] == old(queuelist[..]) && delivered == old(delivered) && qcnt == 0
      ensures p.Some? ==> IsHighest(old(queuelist[..]), hiPrio) && p.value == old(queuelist[..])[hiPrio][0]
      ensures p.Some? ==> queuelist[..] == old(queuelist[..])[hiPrio := old(queuelist[..])[hiPrio][1..]]
      ensures p.Some? ==> qcnt == old(qcnt) - 1 && delivered == old(delivered)[hiPrio := old(delivered)[hiPrio] + [p.value]]
    {
      if qcnt == 0 {
        return None;
      }
      LowerHint();
      TotalUpdate(queuelist[..], hiPrio, queuelist[hiPrio][1..]);
      p := Some(queuelist[hiPrio][0]);
      delivered := delivered[hiPrio := delivered[hiPrio] + [queuelist[hiPrio][0]]];
      queuelist[hiPrio] := queuelist[hiPrio][1..];
      qcnt := qcnt - 1;
    }

    /** Dequeuing until nothing is left serves every frame once, in priority order. */
    method Drain() returns (out: seq<T>)
      requires Valid()
      modifies this, queuelist
      ensures Valid() && qcnt == 0 && joined == old(joined) && out == ByPriority(old(queuelist[..]))
    {
      out := [];
      ghost var ls := queuelist[..];
      while qcnt != 0
        invariant Valid() && joined == old(joined) && out + ByPriority(queuelist[..]) == ByPriority(ls)
        decreases qcnt
      {
        ghost var before := queuelist[..];
        var p := Dequeue();
        ServedFirst(before, hiPrio);
        assert out + ([p.value] + ByPriority(queuelist[..])) == (out + [p.value]) + ByPriority(queuelist[..]);
        out := out + [p.value];
      }
      EmptyTotal(queuelist[..]);
      NothingLeft(queuelist[..]);
    }

    /** Only the classes up to the hint are counted, and that is enough. */
    method IsEmpty() returns (empty: bool)
      requires Valid()
      ensures empty <==> qcnt == 0
    {
      var len, prio := 0, 0;
      while prio <= hiPrio
        invariant prio <= hiPrio + 1 && len == Total(queuelist[..prio])
      {
        assert queuelist[..prio + 1][..prio] == queuelist[..prio];
        len := len + |queuelist[prio]|;
        prio := prio + 1;
      }
      assert queuelist[..][..prio] == queuelist[..prio];
      TotalAboveHint(queuelist[..], prio);
      empty := len <= 0;
    }

    /** Where a full queue would drop: the newest frame of the lowest occupied class. */
    method PeekTail() returns (prio: nat, p: Option<T>)
      requires Valid()
      ensures p.None? <==> qcnt == 0
      ensures p.Some? ==> IsLowest(queuelist[..], prio) && prio <= hiPrio
      ensures p.Some? ==> p.value == queuelist[prio][|queuelist[prio]| - 1]
    {
      EmptyTotal(queuelist[..]);
      if qcnt == 0 {
        return 0, None;
      }
      prio := 0;
      while prio < hiPrio && queuelist[prio] == []
        invariant prio <= hiPrio && forall c :: 0 <= c < prio ==> queuelist[c] == []
      {
        prio := prio + 1;
      }
      assert queuelist[prio] != [];
      p := Some(queuelist[prio][|queuelist[prio]| - 1]);
    }

    method DequeueTail(prio: nat) returns (p: T)
      requires Valid() && prio < queuelist.Length && queuelist[prio] != []
      modifies this, queuelist
      ensures Valid() && p == old(queuelist[prio][|queuelist[prio]| - 1])
      ensures queuelist[..] == old(queuelist[..])[prio := old(queuelist[prio])[..old(|queuelist[prio]|) - 1]]
      ensures joined == old(joined)[prio := old(joined[prio])[..old(|joined[prio]|) - 1]]
      ensures qcnt == old(qcnt) - 1 && hiPrio == old(hiPrio) && delivered == old(delivered)
    {
      var last := |queuelist[prio]| - 1;
      TotalUpdate(queuelist[..], prio, queuelist[prio][..last]);
      p := queuelist[prio][last];
      joined := joined[prio := joined[prio][..|joined[prio]| - 1]];
      queuelist[prio] := queuelist[prio][..last];
      qcnt := qcnt - 1;
    }

    /** The BSP driver's enqueue: a full queue admits a frame only in exchange for the newest frame of
        the lowest occupied class, and only if that class is below the frame's own; the frame then
        takes the place it freed, in the displaced class and not in its own. */
    method EnqDisplacing(pkt: T, prio: nat) returns (ok: bool, ghost low: nat)
      requires Valid() && prio < queuelist.Length
      modifies this, queuelist
      ensures Valid() && delivered == old(delivered)
      ensures old(qcnt) < qmax ==> ok && qcnt == old(qcnt) + 1
      ensures old(qcnt) < qmax ==> queuelist[..] == old(queuelist[..])[prio := old(queuelist[prio]) + [pkt]]
      ensures old(qcnt) == qmax ==> (ok <==> exists c {:trigger old(queuelist[c])} :: 0 <= c < prio && old(queuelist[c]) != [])
      ensures old(qcnt) == qmax && ok ==>
                && low < prio && IsLowest(old(queuelist[..]), low) && qcnt == qmax
                && queuelist[..] == old(queuelist[..])[low := old(queuelist[..])[low][..|old(queuelist[..])[low]| - 1] + [pkt]]
      ensures old(qcnt) == qmax && ok ==> joined == old(joined)[low := old(joined)[low][..|old(joined)[low]| - 1] + [pkt]]
      ensures !ok ==> queuelist[..] == old(queuelist[..]) && qcnt == old(qcnt) && joined == old(joined)
    {
      low := prio;
      TotalBound(queuelist[..], prio);
      if |queuelist[prio]| < qmax && qcnt < qmax {
        ok := Penq(prio, pkt);
        return;
      }
      var modified := prio;
      if |queuelist[prio]| < qmax {
        var p;
        modified, p := PeekTail();
        if modified > prio {
          return false, low;
        }
      } else {
        OnlyClass(queuelist[..], prio);
      }
      low := modified;
      if modified == prio {
        return false, low;
      }
      ok := Exchange(modified, pkt);
    }

    /** Drop the newest frame of class `c` and put `pkt` in its place. */
    method Exchange(c: nat, pkt: T) returns (ok: bool)
      requires Valid() && c < queuelist.Length && queuelist[c] != []
      modifies this, queuelist
      ensures Valid() && ok && delivered == old(delivered) && qcnt == old(qcnt)
      ensures queuelist[..] == old(queuelist[..])[c := old(queuelist[..])[c][..|old(queuelist[..])[c]| - 1] + [pkt]]
      ensures joined == old(joined)[c := old(joined)[c][..|old(joined)[c]| - 1] + [pkt]]
    {
      var victim := DequeueTail(c);
      ok := Penq(c, pkt);
    }

    method FreeOldest(prio: nat) returns (ghost frame: T)
      requires Valid() && prio < queuelist.Length && queuelist[prio] != []
      modifies this`qcnt, this`joined, queuelist
      ensures Valid() && frame == old(queuelist[prio])[0]
      ensures queuelist[..] == old(queuelist[..])[prio := old(queuelist[prio])[1..]]
      ensures joined == old(joined)[prio := delivered[prio] + old(queuelist[prio])[1..]]
    {
      frame := queuelist[prio][0];
      ghost var rest := queuelist[prio][1..];
      TotalUpdate(queuelist[..], prio, rest);
      joined := joined[prio := delivered[prio] + rest];
      queuelist[prio] := queuelist[prio][1..];
      qcnt := qcnt - 1;
    }

    /** Free the frames of one class, oldest first. */
    method FlushClass(prio: nat) returns (ghost freed: seq<T>)
      requires Valid() && prio < queuelist.Length
      modifies this`qcnt, this`joined, queuelist
      ensures Valid() && freed == old(queuelist[prio])
      ensures queuelist[..] == old(queuelist[..])[prio := []] && joined == old(joined)[prio := delivered[prio]]
    {
      freed := [];
      ghost var queued := queuelist[prio];
      while queuelist[prio] != []
        invariant Valid() && |freed| <= |queued|
        invariant freed == queued[..|freed|] && queuelist[prio] == queued[|freed|..]
        invariant queuelist[..] == old(queuelist[..])[prio := queuelist[prio]]
        invariant joined == old(joined)[prio := delivered[prio] + queuelist[prio]]
        decreases |queuelist[prio]|
      {
        ghost var frame := FreeOldest(prio);
        freed := freed + [frame];
      }
      assert delivered[prio] + [] == delivered[prio];
    }

    /** Free every queued frame, class by class; the hint is left where it was. */
    method Flush() returns (ghost freed: seq<T>)
      requires Valid()
      modifies this, queuelist
      ensures Valid() && qcnt == 0 && hiPrio == old(hiPrio) && joined == delivered == old(delivered)
      ensures freed == Flatten(old(queuelist[..]))
    {
      freed := [];
      ghost var ls := queuelist[..];
      for prio := 0 to queuelist.Length
        invariant Valid() && hiPrio == old(hiPrio) && delivered == old(delivered)
        invariant forall c :: 0 <= c < queuelist.Length ==> queuelist[c] == if c < prio then [] else ls[c]
        invariant freed == Flatten(ls[..prio])
      {
        FlattenTake(ls, prio);
        ghost var more := FlushClass(prio);
        freed := freed + more;
      }
      assert ls[..queuelist.Length] == ls;
      EmptyTotal(queuelist[..]);
      assert forall c :: 0 <= c < queuelist.Length ==> joined[c] == delivered[c];
    }
  }

  lemma FlattenTake<T>(ls: seq<seq<T>>, c: nat)
    requires c < |ls|
    ensures Flatten(ls[..c + 1]) == Flatten(ls[..c]) + ls[c]
  {
    assert ls[..c + 1] == ls[..c] + [ls[c]];
    FlattenAppend(ls[..c], ls[c]);
  }

  lemma OnlyClass<T>(ls: seq<seq<T>>, c: nat)
    requires c < |ls| && |ls[c]| == Total(ls)
    ensures forall d :: 0 <= d < |ls| && d != c ==> ls[d] == []
  {
    TotalUpdate(ls, c, []);
    EmptyTotal(ls[c := []]);
    assert forall d :: 0 <= d < |ls| && d != c ==> ls[c := []][d] == ls[d];
  }
}
