/** The NAT2.5 table: an intrusive hash table from network addresses to MAC addresses, with ageing. */
module Nat25 {
  import opened Common

  const NAT25_HASH_SIZE := 16
  const MAX_NETWORK_ADDR_LEN := 17
  const NAT25_AGEING_TIME := 300

  const NAT25_IPV4 := 1
  const NAT25_IPV6 := 2
  const NAT25_IPX := 3
  const NAT25_APPLE := 4
  const NAT25_PPPOE := 5

  type Addr = a: seq<byte> | |a| == MAX_NETWORK_ADDR_LEN witness seq(MAX_NETWORK_ADDR_LEN, _ => 0)

  type Mac = m: seq<byte> | |m| == 6 witness [0, 0, 0, 0, 0, 0]

  type Ip = p: seq<byte> | |p| == 4 witness [0, 0, 0, 0]

  // ----- Hash and age ---------------------------------------------------------------------------

  /** The exclusive or of the bytes from `lo` to `hi`. */
  function XorRange(a: Addr, lo: nat, hi: nat): nat
    requires lo <= hi <= |a|
  {
    if lo == hi then 0 else BitXor(XorRange(a, lo, hi - 1), a[hi - 1])
  }

  /** Which bytes of an address of this kind take part in its hash. */
  function HashedSpan(kind: byte): (span: (nat, nat))
    ensures span.0 <= span.1 <= MAX_NETWORK_ADDR_LEN
  {
    if kind == NAT25_IPV4 then (7, 11)
    else if kind == NAT25_IPX then (1, 11)
    else if kind == NAT25_APPLE then (1, 4)
    else if kind == NAT25_PPPOE then (0, 9)
    else if kind == NAT25_IPV6 then (1, 17)
    else (0, 17)
  }

  lemma {:induction false} BitAndBound(x: nat, y: nat)
    ensures BitAnd(x, y) <= y
  {
    if x != 0 && y != 0 {
      BitAndBound(x / 2, y / 2);
    }
  }

  /** `__nat25_network_hash` */
  function Hash(a: Addr): (h: nat)
    ensures h < NAT25_HASH_SIZE
  {
    var span := HashedSpan(a[0]);
    var x := XorRange(a, span.0, span.1);
    BitAndBound(x, NAT25_HASH_SIZE - 1);
    BitAnd(x, NAT25_HASH_SIZE - 1)
  }

  /** How many of the bytes from `lo` to `hi` have binary digit `k`. */
  function OnesAt(a: Addr, lo: nat, hi: nat, k: nat): nat
    requires lo <= hi <= |a|
  {
    if lo == hi then 0 else OnesAt(a, lo, hi - 1, k) + a[hi - 1] / Pow2(k) % 2
  }

  lemma {:induction false} XorIsParity(a: Addr, lo: nat, hi: nat, k: nat)
    requires lo <= hi <= |a|
    ensures Bit(XorRange(a, lo, hi), k) == OnesAt(a, lo, hi, k) % 2
    decreases hi
  {
    if lo == hi {
      BitOfZero(k);
    } else {
      XorIsParity(a, lo, hi - 1, k);
      BitOfXor(XorRange(a, lo, hi - 1), a[hi - 1], k);
      BitIsDigit(a[hi - 1], k);
      ParityNext(OnesAt(a, lo, hi - 1, k), Bit(a[hi - 1], k));
    }
  }

  lemma ParityNext(n: nat, b: nat)
    requires b < 2
    ensures (n + b) % 2 == if n % 2 != b then 1 else 0
  {
  }

  /** Each of the four digits of a hash is a parity: over the four bytes of an IPv4 address, and over the bytes that matter
      of the other kinds. */
  lemma HashIsParity(a: Addr, k: nat)
    requires k < 4
    ensures var span :=
              if a[0] == NAT25_IPV4 then (7, 11)
              else if a[0] == NAT25_IPX then (1, 11)
              else if a[0] == NAT25_APPLE then (1, 4)
              else if a[0] == NAT25_PPPOE then (0, 9)
              else if a[0] == NAT25_IPV6 then (1, 17)
              else (0, 17);
            Hash(a) / Pow2(k) % 2 == OnesAt(a, span.0, span.1, k) % 2
  {
    var span := HashedSpan(a[0]);
    var x := XorRange(a, span.0, span.1);
    BitIsDigit(Hash(a), k);
    BitOfAnd(x, NAT25_HASH_SIZE - 1, k);
    XorIsParity(a, span.0, span.1, k);
    assert Bit(15, 0) == Bit(15, 1) == Bit(15, 2) == Bit(15, 3) == 1;
  }

  /** `__nat25_generate_ipv4_network_addr` */
  function Ipv4Addr(ip: Ip): Addr
  {
    [NAT25_IPV4, 0, 0, 0, 0, 0, 0] + ip + [0, 0, 0, 0, 0, 0]
  }

  /** Different IP addresses have different keys, which differ in nothing else. */
  lemma Ipv4Keys(p: Ip, q: Ip)
    ensures Ipv4Addr(p)[7..11] == p && (Ipv4Addr(p) == Ipv4Addr(q) <==> p == q)
    ensures forall k :: 0 <= k < 17 && !(7 <= k < 11) ==> Ipv4Addr(p)[k] == if k == 0 then 1 else 0
  {
    assert Ipv4Addr(q)[7..11] == q;
  }

  /** `__nat25_has_expired`, for an ageing time in ticks. */
  predicate HasExpired(ageing: u32, ageTime: u32, now: u32)
  {
    TimeBeforeEq(ageing, Minus(now, ageTime))
  }

  /** An entry has expired exactly if it was last set an ageing time ago or longer, but less than half the circle of
      the tick counter longer: from then on it counts as fresh again. */
  lemma ExpiredExactly(ageing: u32, ageTime: u32, now: u32, elapsed: nat)
    requires elapsed < ageTime + TWO_32 && ageTime < HALF && now == (ageing + elapsed) % TWO_32
    ensures HasExpired(ageing, ageTime, now) <==> ageTime <= elapsed < ageTime + HALF
  {
    assert now == ageing + elapsed || now == ageing + elapsed - TWO_32 || now == ageing + elapsed - 2 * TWO_32;
  }

  // ----- The map that the table stands for ------------------------------------------------------

  datatype Cell = Cell(mac: Mac, ageing: u32, useCount: int)

  type View = map<Addr, Cell>

  function Used(view: View, a: Addr): View
    requires a in view
  {
    view[a := view[a].(useCount := view[a].useCount + 1)]
  }

  function Renewed(view: View, a: Addr, mac: Mac, now: u32): View
    requires a in view
  {
    view[a := view[a].(mac := mac, ageing := now)]
  }

  /** One ageing pass over some of the addresses: an expired entry loses one use, and goes with its last one. */
  function Aged(view: View, some: set<Addr>, ageTime: u32, now: u32): View
  {
    map a | a in view && !(Hit(view, some, ageTime, now, a) && view[a].useCount == 1) ::
      if Hit(view, some, ageTime, now, a) then view[a].(useCount := view[a].useCount - 1) else view[a]
  }

  predicate Hit(view: View, some: set<Addr>, ageTime: u32, now: u32, a: Addr)
    requires a in view
  {
    a in some && HasExpired(view[a].ageing, ageTime, now)
  }

  lemma AgedInTurn(view: View, some: set<Addr>, more: set<Addr>, ageTime: u32, now: u32)
    requires some !! more
    ensures Aged(Aged(view, some, ageTime, now), more, ageTime, now) == Aged(view, some + more, ageTime, now)
  {
  }

  lemma AgedNone(view: View, ageTime: u32, now: u32)
    ensures Aged(view, {}, ageTime, now) == view
  {
  }

  lemma AgedOne(view: View, a: Addr, ageTime: u32, now: u32)
    requires a in view
    ensures Aged(view, {a}, ageTime, now) ==
      if !HasExpired(view[a].ageing, ageTime, now) then view
      else if view[a].useCount == 1 then view - {a}
      else view[a := view[a].(useCount := view[a].useCount - 1)]
  {
  }

  function Addrs(entries: seq<Entry>): set<Addr>
  {
    set e | e in entries :: e.addr
  }

  /** The ageing passes at these times. */
  function AgedAt(view: View, ageTime: u32, times: seq<u32>): View
  {
    if times == [] then view
    else
      var before := AgedAt(view, ageTime, times[..|times| - 1]);
      Aged(before, before.Keys, ageTime, times[|times| - 1])
  }

  /** An entry that is left alone survives as many passes that find it expired as it has uses, less one. */
  lemma {:induction false} AgesOut(view: View, a: Addr, ageTime: u32, times: seq<u32>)
    requires a in view && view[a].useCount >= 1
    requires forall t :: t in times ==> HasExpired(view[a].ageing, ageTime, t)
    ensures a in AgedAt(view, ageTime, times) <==> |times| < view[a].useCount
    ensures |times| < view[a].useCount ==>
      AgedAt(view, ageTime, times)[a] == view[a].(useCount := view[a].useCount - |times|)
  {
    if times != [] {
      AgesOut(view, a, ageTime, times[..|times| - 1]);
    }
  }

  // ----- The shortcut of the transmit path ------------------------------------------------------

  /** The sender last found, its address in the table, and the entry it named. */
  datatype Scdb = Scdb(entry: Option<Addr>, mac: Mac, ip: Ip)

  const NO_SCDB: Scdb := Scdb(None, [0, 0, 0, 0, 0, 0], [0, 0, 0, 0])

  /** The shortcut goes with its entry. */
  function Kept(sc: Scdb, view: View): Scdb
  {
    if sc.entry.Some? && sc.entry.value !in view then NO_SCDB else sc
  }

  lemma KeptInTurn(sc: Scdb, view: View, fewer: View)
    requires fewer.Keys <= view.Keys
    ensures Kept(Kept(sc, view), fewer) == Kept(sc, fewer)
  {
  }

  /** The entry a packet from this sender refreshes: the one the shortcut names, or, for another sender, that of its
      address. */
  function Target(view: View, sc: Scdb, mac: Mac, ip: Ip): Option<Addr>
  {
    if sc.mac != mac then (if Ipv4Addr(ip) in view then Some(Ipv4Addr(ip)) else None) else sc.entry
  }

  /** The shortcut after such a packet. */
  function Redirected(view: View, sc: Scdb, mac: Mac, ip: Ip): Scdb
  {
    if sc.mac != mac then
      if Ipv4Addr(ip) in view then Scdb(Some(Ipv4Addr(ip)), mac, ip) else sc.(entry := None)
    else if sc.entry.Some? then sc
    else NO_SCDB
  }

  // ----- Histories ------------------------------------------------------------------------------

  datatype Request =
    | Insert(mac: Mac, addr: Addr, time: u32, memory: bool)
    | Lookup(addr: Addr, time: u32)
    | Packet(sender: Mac, ip: Ip, time: u32)
    | Expire(time: u32)
    | Cleanup

  datatype State = State(view: View, scdb: Scdb)

  function Apply(st: State, ageTime: u32, r: Request): State
    requires ScdbFits(st)
  {
    var State(view, sc) := st;
    match r
    case Insert(mac, addr, now, memory) =>
      State(if addr in view then Renewed(view, addr, mac, now)
            else if memory then view[addr := Cell(mac, now, 1)]
            else view, sc)
    case Lookup(addr, now) =>
      State(if addr in view && !HasExpired(view[addr].ageing, ageTime, now) then Used(view, addr) else view, sc)
    case Packet(mac, ip, now) =>
      var target := Target(view, sc, mac, ip);
      State(if target.None? then view else Renewed(view, target.value, view[target.value].mac, now), Redirected(view, sc, mac, ip))
    case Expire(now) =>
      var left := Aged(view, view.Keys, ageTime, now);
      State(left, Kept(sc, left))
    case Cleanup => State(map[], Kept(sc, map[]))
  }

  /** The shortcut names an entry of the table, and that of the address it has stored. */
  predicate ScdbFits(st: State)
  {
    st.scdb.entry.Some? ==> st.scdb.entry.value in st.view && st.scdb.entry.value == Ipv4Addr(st.scdb.ip)
  }

  /** What an initially empty table holds after these calls. */
  function Replay(ageTime: u32, requests: seq<Request>): (st: State)
    ensures ScdbFits(st)
  {
    if requests == [] then State(map[], NO_SCDB)
    else Apply(Replay(ageTime, requests[..|requests| - 1]), ageTime, requests[|requests| - 1])
  }

  function LastInserted(requests: seq<Request>, a: Addr): Option<Mac>
  {
    if requests == [] then None
    else
      var r := requests[|requests| - 1];
      if r.Insert? && r.addr == a then Some(r.mac) else LastInserted(requests[..|requests| - 1], a)
  }

  /** An address that is found has the MAC address last inserted for it, whatever happened since. */
  lemma {:induction false} FoundAsInserted(ageTime: u32, requests: seq<Request>, a: Addr)
    requires a in Replay(ageTime, requests).view
    ensures LastInserted(requests, a) == Some(Replay(ageTime, requests).view[a].mac)
  {
    var before, r := requests[..|requests| - 1], requests[|requests| - 1];
    if a in Replay(ageTime, before).view {
      FoundAsInserted(ageTime, before, a);
    }
  }

  /** When an address was last heard of: at its last insertion, or when a packet last refreshed its entry. */
  function LastHeard(ageTime: u32, requests: seq<Request>, a: Addr): Option<u32>
  {
    if requests == [] then None
    else
      var before, r := requests[..|requests| - 1], requests[|requests| - 1];
      if r.Insert? && r.addr == a then Some(r.time)
      else if r.Packet? && Refreshes(Replay(ageTime, before), r.sender, r.ip, a) then Some(r.time)
      else LastHeard(ageTime, before, a)
  }

  /** The packet comes from the sender the shortcut remembers for this address, or from another one that has it. */
  predicate Refreshes(st: State, sender: Mac, ip: Ip, a: Addr)
  {
    if st.scdb.mac == sender then st.scdb.entry == Some(a) else a == Ipv4Addr(ip) && a in st.view
  }

  /** An address that is found carries the time at which it was last heard of. */
  lemma {:induction false} AgedSinceHeard(ageTime: u32, requests: seq<Request>, a: Addr)
    requires a in Replay(ageTime, requests).view
    ensures LastHeard(ageTime, requests, a) == Some(Replay(ageTime, requests).view[a].ageing)
  {
    var before, r := requests[..|requests| - 1], requests[|requests| - 1];
    if a in Replay(ageTime, before).view {
      AgedSinceHeard(ageTime, before, a);
    }
  }

  /** So until the ageing time has passed since then, a lookup finds the MAC address last inserted. */
  lemma FreshUntilAged(ageTime: u32, requests: seq<Request>, a: Addr, now: u32)
    requires a in Replay(ageTime, requests).view && ageTime < HALF
    requires LastHeard(ageTime, requests, a).Some? && Minus(now, LastHeard(ageTime, requests, a).value) < ageTime
    ensures var cell := Replay(ageTime, requests).view[a];
            !HasExpired(cell.ageing, ageTime, now) && LastInserted(requests, a) == Some(cell.mac)
  {
    AgedSinceHeard(ageTime, requests, a);
    FoundAsInserted(ageTime, requests, a);
    var heard := LastHeard(ageTime, requests, a).value;
    ExpiredExactly(heard, ageTime, now, Minus(now, heard));
  }

  /** The ageing time has passed, and not yet half the circle more. */
  predicate Stale(cell: Cell, ageTime: u32, now: u32)
  {
    ageTime <= Minus(now, cell.ageing) < ageTime + HALF
  }

  /** What a request makes of one address: inserted with one use, heard of again, looked up while fresh, found stale by an
      ageing pass until no use is left. */
  function FateNext(cell: Option<Cell>, st: State, ageTime: u32, r: Request, a: Addr): Option<Cell>
  {
    match r
    case Insert(mac, addr, now, memory) =>
      if addr != a then cell
      else if cell.Some? then Some(Cell(mac, now, cell.value.useCount))
      else if memory then Some(Cell(mac, now, 1))
      else None
    case Lookup(addr, now) =>
      if addr == a && cell.Some? && !Stale(cell.value, ageTime, now) then
        Some(Cell(cell.value.mac, cell.value.ageing, cell.value.useCount + 1))
      else cell
    case Packet(sender, ip, now) =>
      if cell.Some? && Refreshes(st, sender, ip, a) then Some(Cell(cell.value.mac, now, cell.value.useCount)) else cell
    case Expire(now) =>
      if cell.None? || !Stale(cell.value, ageTime, now) then cell
      else if cell.value.useCount == 1 then None
      else Some(Cell(cell.value.mac, cell.value.ageing, cell.value.useCount - 1))
    case Cleanup => None
  }

  /** The fate of one address, read off the requests. */
  function Fate(ageTime: u32, requests: seq<Request>, a: Addr): Option<Cell>
  {
    if requests == [] then None
    else
      var before := requests[..|requests| - 1];
      FateNext(Fate(ageTime, before, a), Replay(ageTime, before), ageTime, requests[|requests| - 1], a)
  }

  /** The table holds for every address what its own history says. */
  lemma {:induction false} EachByItself(ageTime: u32, requests: seq<Request>, a: Addr)
    requires ageTime < HALF
    ensures Fate(ageTime, requests, a) == CellOf(Replay(ageTime, requests).view, a)
  {
    if requests != [] {
      var before := requests[..|requests| - 1];
      EachByItself(ageTime, before, a);
      OneFate(Replay(ageTime, before), ageTime, requests[|requests| - 1], a);
    }
  }

  function CellOf(view: View, a: Addr): Option<Cell>
  {
    if a in view then Some(view[a]) else None
  }

  lemma OneFate(st: State, ageTime: u32, r: Request, a: Addr)
    requires ageTime < HALF && ScdbFits(st)
    ensures FateNext(CellOf(st.view, a), st, ageTime, r, a) == CellOf(Apply(st, ageTime, r).view, a)
  {
    if a in st.view && (r.Lookup? || r.Expire?) {
      ExpiredExactly(st.view[a].ageing, ageTime, r.time, Minus(r.time, st.view[a].ageing));
    }
  }

  // ----- The chains -----------------------------------------------------------------------------

  /** Where the pointer to an entry is stored: what `pprev_hash` points to. */
  datatype Link = Unlinked | Bucket(i: nat) | NextOf(entry: Entry)

  class Entry {
    var next: Entry?
    var pprev: Link
    var useCount: int
    var mac: Mac
    var ageing: u32
    const addr: Addr
    /** The bucket of the address. */
    ghost const bucket: nat

    constructor (addr: Addr, mac: Mac, ageing: u32)
      ensures this.addr == addr && this.mac == mac && this.ageing == ageing && useCount == 1
      ensures next == null && pprev == Unlinked && bucket == Hash(addr)
    {
      this.addr, this.mac, this.ageing := addr, mac, ageing;
      next, pprev, useCount := null, Unlinked, 1;
      bucket := Hash(addr);
    }
  }

  function Nth(chain: seq<Entry>, k: nat): Entry?
  {
    if k < |chain| then chain[k] else null
  }

  function Before(chain: seq<Entry>, k: nat, i: nat): Link
    requires k <= |chain|
  {
    if k == 0 then Bucket(i) else NextOf(chain[k - 1])
  }

  /** The pointers from `head` on run through `chain` and back. */
  ghost predicate Chained(head: Entry?, chain: seq<Entry>, i: nat)
    reads chain`next, chain`pprev
  {
    && head == Nth(chain, 0)
    && (forall k {:trigger chain[k].next} :: 0 <= k < |chain| ==> chain[k].next == Nth(chain, k + 1))
    && (forall k {:trigger chain[k].pprev} :: 0 <= k < |chain| ==> chain[k].pprev == Before(chain, k, i))
  }

  ghost predicate NoRepeats(chain: seq<Entry>)
  {
    forall k, l :: 0 <= k < l < |chain| ==> chain[k] != chain[l]
  }

  /** The entries of chain `i` belong there and are indexed. */
  ghost predicate Placed(chain: seq<Entry>, i: nat, index: map<Addr, Entry>)
  {
    forall k :: 0 <= k < |chain| ==> chain[k].bucket == i && Known(chain[k], index)
  }

  ghost predicate Known(e: Entry, index: map<Addr, Entry>)
  {
    e.addr in index && index[e.addr] == e
  }

  ghost predicate Homed(chains: seq<seq<Entry>>, index: map<Addr, Entry>)
  {
    && (forall a :: a in index ==> index[a].addr == a && index[a].bucket < |chains| && index[a] in chains[index[a].bucket])
    && (forall a {:trigger Hash(a)} :: a in index ==> index[a].bucket == Hash(a))
  }

  /** Every entry is in the chain of its hash, once, and no two entries have the same address. */
  ghost predicate Indexed(chains: seq<seq<Entry>>, index: map<Addr, Entry>)
  {
    && |chains| == NAT25_HASH_SIZE
    && Homed(chains, index)
    && (forall i :: 0 <= i < |chains| ==> Placed(chains[i], i, index) && NoRepeats(chains[i]))
  }

  lemma IndexedLink(chains: seq<seq<Entry>>, index: map<Addr, Entry>, ent: Entry)
    requires Indexed(chains, index) && ent.addr !in index && ent.bucket == Hash(ent.addr)
    ensures var i := ent.bucket;
            Indexed(chains[i := [ent] + chains[i]], index[ent.addr := ent])
    ensures forall j :: 0 <= j < |chains| ==> ent !in chains[j]
  {
  }

  lemma IndexedUnlink(chains: seq<seq<Entry>>, index: map<Addr, Entry>, i: nat, k: nat)
    requires Indexed(chains, index) && i < |chains| && k < |chains[i]|
    ensures Indexed(chains[i := chains[i][..k] + chains[i][k + 1..]], index - {chains[i][k].addr})
  {
    var a := chains[i][k].addr;
    OneLess(chains[i], i, k, index);
    forall j | 0 <= j < |chains| && j != i
      ensures Placed(chains[j], j, index - {a})
    {
    }
  }

  lemma OneLess(chain: seq<Entry>, i: nat, k: nat, index: map<Addr, Entry>)
    requires k < |chain| && Placed(chain, i, index) && NoRepeats(chain)
    ensures var rest := chain[..k] + chain[k + 1..];
            && Placed(rest, i, index - {chain[k].addr}) && NoRepeats(rest)
            && forall e :: e in chain && e != chain[k] ==> e in rest
  {
    var rest := chain[..k] + chain[k + 1..];
    assert forall m :: 0 <= m < |rest| ==> rest[m] == chain[if m < k then m else m + 1];
    forall e | e in chain && e != chain[k]
      ensures e in rest
    {
      var m :| 0 <= m < |chain| && chain[m] == e;
      assert rest[if m < k then m else m - 1] == e;
    }
  }

  /** No entry is in two places. */
  lemma Apart(chains: seq<seq<Entry>>, index: map<Addr, Entry>, i: nat)
    requires Indexed(chains, index) && i < |chains|
    ensures NoRepeats(chains[i]) && Separate(chains, i)
  {
  }

  // ----- Linking and unlinking in one chain -----------------------------------------------------

  /** `__network_hash_link` */
  method HashLink(nethash: array<Entry?>, ent: Entry, hash: nat, ghost chain: seq<Entry>)
    requires hash < nethash.Length && Chained(nethash[hash], chain, hash) && NoRepeats([ent] + chain)
    modifies nethash, ent`next, ent`pprev, chain`pprev
    ensures Chained(nethash[hash], [ent] + chain, hash)
    ensures forall j :: 0 <= j < nethash.Length && j != hash ==> nethash[j] == old(nethash[j])
  {
    ghost var linked := [ent] + chain;
    assert forall k :: 0 <= k < |chain| ==> linked[k + 1] == chain[k];
    ent.next := nethash[hash];
    if ent.next != null {
      ent.next.pprev := NextOf(ent);
    }
    nethash[hash] := ent;
    ent.pprev := Bucket(hash);
  }

  /** `__network_hash_unlink` */
  method HashUnlink(nethash: array<Entry?>, ent: Entry, ghost i: nat, ghost chain: seq<Entry>, ghost k: nat)
    requires i < nethash.Length && Chained(nethash[i], chain, i) && NoRepeats(chain) && k < |chain| && chain[k] == ent
    modifies nethash, chain`next, chain`pprev
    ensures Chained(nethash[i], chain[..k] + chain[k + 1..], i) && ent.next == null && ent.pprev == Unlinked
    ensures forall j :: 0 <= j < nethash.Length && j != i ==> nethash[j] == old(nethash[j])
  {
    assert chain[k].pprev == Before(chain, k, i) && chain[k].next == Nth(chain, k + 1);
    match ent.pprev {
      case Bucket(h) => nethash[h] := ent.next;
      case NextOf(p) => p.next := ent.next;
    }
    if ent.next != null {
      ent.next.pprev := ent.pprev;
    }
    ent.next := null;
    ent.pprev := Unlinked;
    Spliced(nethash[i], chain, i, k);
  }

  /** A chain whose pointers go round its entry `k` is chained without it. */
  lemma Spliced(head: Entry?, chain: seq<Entry>, i: nat, k: nat)
    requires k < |chain| && head == Nth(chain, if k == 0 then 1 else 0)
    requires forall m {:trigger chain[m].next} :: 0 <= m < |chain| && m != k ==>
      chain[m].next == Nth(chain, if m + 1 == k then k + 1 else m + 1)
    requires forall m {:trigger chain[m].pprev} :: 0 <= m < |chain| && m != k ==>
      chain[m].pprev == Before(chain, if m == k + 1 then k else m, i)
    ensures Chained(head, chain[..k] + chain[k + 1..], i)
  {
    var rest := chain[..k] + chain[k + 1..];
    forall m | 0 <= m < |rest|
      ensures rest[m].next == Nth(rest, m + 1) && rest[m].pprev == Before(rest, m, i)
    {
      assert rest[m] == chain[if m < k then m else m + 1];
    }
  }

  /** The walk along a bucket. */
  method FindIn(head: Entry?, addr: Addr, ghost chain: seq<Entry>, ghost i: nat) returns (db: Entry?)
    requires Chained(head, chain, i)
    ensures if db == null then forall e :: e in chain ==> e.addr != addr else db in chain && db.addr == addr
  {
    ghost var k := 0;
    db := head;
    while db != null && db.addr != addr
      invariant 0 <= k <= |chain| && db == Nth(chain, k)
      invariant forall e :: e in chain[..k] ==> e.addr != addr
      decreases |chain| - k
    {
      assert db == chain[k] && chain[..k + 1] == chain[..k] + [chain[k]];
      db := db.next;
      k := k + 1;
    }
    assert db == null ==> chain[..k] == chain;
  }

  // ----- Linking and unlinking among all chains -------------------------------------------------

  ghost predicate AllChained(nethash: array<Entry?>, chains: seq<seq<Entry>>, repr: set<Entry>)
    reads nethash, repr`next, repr`pprev
  {
    && nethash.Length == |chains|
    && (forall i, k :: 0 <= i < |chains| && 0 <= k < |chains[i]| ==> chains[i][k] in repr)
    && (forall i :: 0 <= i < |chains| ==> Chained(nethash[i], chains[i], i))
  }

  ghost predicate Separate(chains: seq<seq<Entry>>, i: nat)
    requires i < |chains|
  {
    forall j, k :: 0 <= j < |chains| && j != i && 0 <= k < |chains[j]| ==> chains[j][k] !in chains[i]
  }

  method LinkInto(nethash: array<Entry?>, ent: Entry, hash: nat, ghost chains: seq<seq<Entry>>, ghost repr: set<Entry>)
    requires AllChained(nethash, chains, repr) && hash < |chains| && Separate(chains, hash)
    requires NoRepeats(chains[hash]) && forall j :: 0 <= j < |chains| ==> ent !in chains[j]
    modifies nethash, ent`next, ent`pprev, chains[hash]`pprev
    ensures AllChained(nethash, chains[hash := [ent] + chains[hash]], repr + {ent})
  {
    HashLink(nethash, ent, hash, chains[hash]);
    forall j | 0 <= j < |chains| && j != hash
      ensures Chained(nethash[j], chains[j], j)
    {
      assert old(Chained(nethash[j], chains[j], j));
    }
  }

  method UnlinkFrom(nethash: array<Entry?>, ent: Entry, ghost chains: seq<seq<Entry>>, ghost repr: set<Entry>, ghost i: nat, ghost k: nat)
    requires AllChained(nethash, chains, repr) && i < |chains| && Separate(chains, i)
    requires NoRepeats(chains[i]) && k < |chains[i]| && chains[i][k] == ent
    modifies nethash, chains[i]`next, chains[i]`pprev
    ensures AllChained(nethash, chains[i := chains[i][..k] + chains[i][k + 1..]], repr)
    ensures ent.next == null && ent.pprev == Unlinked
  {
    HashUnlink(nethash, ent, i, chains[i], k);
    forall j | 0 <= j < |chains| && j != i
      ensures Chained(nethash[j], chains[j], j)
    {
      assert old(Chained(nethash[j], chains[j], j));
    }
  }

  // ----- The whole structure, bucket by bucket --------------------------------------------------

  /** The first `n` buckets are linked both ways, without repetition, and hold entries that belong there. */
  ghost predicate BucketsUpTo(nethash: array<Entry?>, chains: seq<seq<Entry>>, index: map<Addr, Entry>, repr: set<Entry>, n: nat)
    requires n <= |chains| == nethash.Length
    reads nethash, repr`next, repr`pprev
    decreases n, chains
  {
    n == 0 ||
    (&& BucketsUpTo(nethash, chains, index, repr, n - 1)
     && (forall e :: e in chains[n - 1] ==> e in repr)
     && Chained(nethash[n - 1], chains[n - 1], n - 1)
     && Placed(chains[n - 1], n - 1, index) && NoRepeats(chains[n - 1]))
  }

  lemma {:induction false} BucketOf(nethash: array<Entry?>, chains: seq<seq<Entry>>, index: map<Addr, Entry>,
                                    repr: set<Entry>, n: nat, i: nat)
    requires i < n <= |chains| == nethash.Length && BucketsUpTo(nethash, chains, index, repr, n)
    ensures (forall e :: e in chains[i] ==> e in repr) && Chained(nethash[i], chains[i], i)
    ensures Placed(chains[i], i, index) && NoRepeats(chains[i])
    decreases n
  {
    if i < n - 1 {
      BucketOf(nethash, chains, index, repr, n - 1, i);
    }
  }

  lemma {:induction false} BucketsIntact(nethash: array<Entry?>, chains: seq<seq<Entry>>, index: map<Addr, Entry>, repr: set<Entry>, n: nat)
    requires n <= |chains| && AllChained(nethash, chains, repr) && Indexed(chains, index)
    ensures BucketsUpTo(nethash, chains, index, repr, n)
    decreases n
  {
    if n > 0 {
      BucketsIntact(nethash, chains, index, repr, n - 1);
    }
  }

  ghost predicate Linked(nethash: array<Entry?>, chains: seq<seq<Entry>>, index: map<Addr, Entry>, repr: set<Entry>)
    reads nethash, repr`next, repr`pprev
  {
    && |chains| == nethash.Length == NAT25_HASH_SIZE
    && Homed(chains, index)
    && BucketsUpTo(nethash, chains, index, repr, NAT25_HASH_SIZE)
  }

  lemma Open(nethash: array<Entry?>, chains: seq<seq<Entry>>, index: map<Addr, Entry>, repr: set<Entry>)
    requires Linked(nethash, chains, index, repr)
    ensures Indexed(chains, index) && AllChained(nethash, chains, repr)
  {
    forall i | 0 <= i < NAT25_HASH_SIZE
      ensures (forall e :: e in chains[i] ==> e in repr) && Chained(nethash[i], chains[i], i)
      ensures Placed(chains[i], i, index) && NoRepeats(chains[i])
    {
      BucketOf(nethash, chains, index, repr, NAT25_HASH_SIZE, i);
    }
  }

  method LinkBucket(nethash: array<Entry?>, ent: Entry, hash: nat, ghost chains: seq<seq<Entry>>,
                    ghost index: map<Addr, Entry>, ghost repr: set<Entry>)
    requires Linked(nethash, chains, index, repr) && hash == Hash(ent.addr) == ent.bucket && ent.addr !in index
    modifies nethash, ent`next, ent`pprev, chains[hash]`pprev
    ensures var linked, more := chains[hash := [ent] + chains[hash]], index[ent.addr := ent];
            Linked(nethash, linked, more, repr + {ent})
  {
    Open(nethash, chains, index, repr);
    IndexedLink(chains, index, ent);
    Apart(chains, index, hash);
    LinkInto(nethash, ent, hash, chains, repr);
    BucketsIntact(nethash, chains[hash := [ent] + chains[hash]], index[ent.addr := ent], repr + {ent}, NAT25_HASH_SIZE);
  }

  method UnlinkBucket(nethash: array<Entry?>, ent: Entry, ghost chains: seq<seq<Entry>>,
                      ghost index: map<Addr, Entry>, ghost repr: set<Entry>, ghost i: nat, ghost k: nat)
    requires Linked(nethash, chains, index, repr) && i < |chains| && k < |chains[i]| && chains[i][k] == ent
    modifies nethash, chains[i]`next, chains[i]`pprev
    ensures var rest, fewer := chains[i := chains[i][..k] + chains[i][k + 1..]], index - {ent.addr};
            Linked(nethash, rest, fewer, repr)
    ensures ent.next == null && ent.pprev == Unlinked
  {
    Open(nethash, chains, index, repr);
    IndexedUnlink(chains, index, i, k);
    Apart(chains, index, i);
    UnlinkFrom(nethash, ent, chains, repr, i, k);
    BucketsIntact(nethash, chains[i := chains[i][..k] + chains[i][k + 1..]], index - {ent.addr}, repr, NAT25_HASH_SIZE);
  }

  class Table {
    const nethash: array<Entry?>
    const ageTime: u32
    var scdbEntry: Entry?
    var scdbMac: Mac
    var scdbIp: Ip
    ghost var chains: seq<seq<Entry>>
    ghost var index: map<Addr, Entry>
    /** The map the table stands for. */
    ghost var view: View
    ghost var repr: set<Entry>

    /** Buckets are acyclic, disjoint and linked both ways. */
    ghost predicate Structure()
      reads this`chains, this`index, this`repr, nethash, repr`next, repr`pprev
    {
      Linked(nethash, chains, index, repr)
    }

    lemma Close()
      requires Indexed(chains, index) && AllChained(nethash, chains, repr)
      ensures Structure()
    {
      BucketsIntact(nethash, chains, index, repr, NAT25_HASH_SIZE);
    }

    /** The map is what the entries hold, and every entry has a use left. */
    ghost predicate Shown()
      reads this`index, this`view, this`repr, repr`mac, repr`ageing, repr`useCount
    {
      && view.Keys == index.Keys
      && forall a :: a in index ==>
        var e := index[a];
        e in repr && e.addr == a && view[a] == Cell(e.mac, e.ageing, e.useCount) && e.useCount >= 1
    }

    /** The shortcut entry, if set, is in the table. */
    ghost predicate Valid()
      reads this, nethash, repr
    {
      && Structure() && Shown()
      && (scdbEntry != null ==> Known(scdbEntry, index))
    }

    ghost function Current(): Scdb
      reads this`scdbEntry, this`scdbMac, this`scdbIp
    {
      Scdb(if scdbEntry == null then None else Some(scdbEntry.addr), scdbMac, scdbIp)
    }

    constructor (hz: nat)
      requires NAT25_AGEING_TIME * hz < HALF
      ensures Valid() && fresh(nethash) && view == map[] && ageTime == NAT25_AGEING_TIME * hz && Current() == NO_SCDB
    {
      nethash := new Entry?[NAT25_HASH_SIZE](_ => null);
      ageTime := NAT25_AGEING_TIME * hz;
      scdbEntry, scdbMac, scdbIp := null, [0, 0, 0, 0, 0, 0], [0, 0, 0, 0];
      chains, index, view, repr := seq(NAT25_HASH_SIZE, _ => []), map[], map[], {};
      new;
      Close();
    }

    /** Linking an entry for a new address extends the map. */
    method Link(ent: Entry, hash: nat)
      requires Structure() && Shown() && hash == Hash(ent.addr) == ent.bucket && ent.addr !in index && ent.useCount >= 1
      modifies this`chains, this`index, this`repr, this`view, nethash, ent`next, ent`pprev, repr`pprev
      ensures Structure() && Shown() && view == old(view)[ent.addr := Cell(ent.mac, ent.ageing, ent.useCount)]
      ensures repr == old(repr) + {ent}
      ensures index == old(index)[ent.addr := ent] && chains == old(chains)[hash := [ent] + old(chains)[hash]]
    {
      BucketOf(nethash, chains, index, repr, NAT25_HASH_SIZE, hash);
      LinkBucket(nethash, ent, hash, chains, index, repr);
      Record(ent, chains[hash := [ent] + chains[hash]]);
    }

    ghost method Record(ent: Entry, linked: seq<seq<Entry>>)
      requires Linked(nethash, linked, index[ent.addr := ent], repr + {ent})
      requires Shown() && ent.addr !in index && ent.useCount >= 1
      modifies this`chains, this`index, this`repr, this`view
      ensures Structure() && Shown() && view == old(view)[ent.addr := Cell(ent.mac, ent.ageing, ent.useCount)]
      ensures chains == linked && index == old(index)[ent.addr := ent] && repr == old(repr) + {ent}
    {
      chains, index, repr := linked, index[ent.addr := ent], repr + {ent};
      view := view[ent.addr := Cell(ent.mac, ent.ageing, ent.useCount)];
    }

    /** Unlinking an entry takes its address out of the map. */
    method Unlink(ent: Entry, ghost i: nat, ghost k: nat)
      requires Structure() && Shown() && i < NAT25_HASH_SIZE && k < |chains[i]| && chains[i][k] == ent
      modifies this`chains, this`index, this`view, nethash, repr`next, repr`pprev
      ensures Structure() && Shown() && view == old(view) - {ent.addr}
      ensures ent.next == null && ent.pprev == Unlinked
      ensures index == old(index) - {ent.addr} && chains == old(chains)[i := old(chains)[i][..k] + old(chains)[i][k + 1..]]
    {
      BucketOf(nethash, chains, index, repr, NAT25_HASH_SIZE, i);
      UnlinkBucket(nethash, ent, chains, index, repr, i, k);
      Forget(ent, chains[i := chains[i][..k] + chains[i][k + 1..]]);
    }

    ghost method Forget(ent: Entry, rest: seq<seq<Entry>>)
      requires Linked(nethash, rest, index - {ent.addr}, repr) && Shown()
      modifies this`chains, this`index, this`view
      ensures Structure() && Shown() && view == old(view) - {ent.addr}
      ensures chains == rest && index == old(index) - {ent.addr}
    {
      chains, index, view := rest, index - {ent.addr}, view - {ent.addr};
    }

    /** The walk along a bucket that lookup, insertion and the shortcut share. */
    method Find(addr: Addr) returns (db: Entry?)
      requires Valid()
      ensures if db != null then addr in index && db == index[addr] && db.addr == addr else addr !in index
    {
      var hash := Hash(addr);
      BucketOf(nethash, chains, index, repr, NAT25_HASH_SIZE, hash);
      db := FindIn(nethash[hash], addr, chains[hash], hash);
    }

    method SetUse(db: Entry, uses: int)
      requires Shown() && Known(db, index) && uses >= 1
      modifies this`view, db`useCount
      ensures Shown()
      ensures view == old(view)[db.addr := old(view)[db.addr].(useCount := uses)]
    {
      db.useCount := uses;
      view := view[db.addr := view[db.addr].(useCount := uses)];
    }

    method Replace(skb: array<byte>, db: Entry)
      requires Valid() && Known(db, index) && skb.Length >= 6
      modifies this`view, skb, db`useCount
      ensures Valid()
      ensures view == Used(old(view), db.addr)
      ensures skb[..] == old(view)[db.addr].mac + old(skb[6..])
    {
      Memcpy(skb, 0, db.mac);
      assert old(skb[..0]) == [] && old(skb[0 + |db.mac|..]) == old(skb[6..]);
      SetUse(db, db.useCount + 1);
    }

    method Refresh(db: Entry, mac: Mac, now: u32)
      requires Shown() && Known(db, index)
      modifies this`view, db`mac, db`ageing
      ensures Shown()
      ensures view == Renewed(old(view), db.addr, mac, now)
    {
      db.mac := mac;
      db.ageing := now;
      view := view[db.addr := view[db.addr].(mac := mac, ageing := now)];
    }

    /** `__nat25_db_network_lookup_and_replace`: an address that is known but has expired counts as found, yet the
        frame keeps its destination. */
    method LookupAndReplace(skb: array<byte>, addr: Addr, now: u32) returns (ret: int)
      requires Valid() && skb.Length >= 6
      modifies this`view, skb, repr`useCount
      ensures Valid()
      ensures ret == if addr in old(view) then 1 else 0
      ensures if addr in old(view) && !HasExpired(old(view)[addr].ageing, ageTime, now) then
                var was := old(view)[addr];
                skb[..] == was.mac + old(skb[6..]) && view == old(view)[addr := Cell(was.mac, was.ageing, was.useCount + 1)]
              else skb[..] == old(skb[..]) && view == old(view)
    {
      var db := Find(addr);
      if db == null {
        return 0;
      }
      assert view[addr] == Cell(db.mac, db.ageing, db.useCount);
      if !HasExpired(db.ageing, ageTime, now) {
        Replace(skb, db);
      } else {
        assert HasExpired(old(view)[addr].ageing, ageTime, now);
      }
      ret := 1;
    }

    /** `__nat25_db_network_insert` */
    method Insert(mac: Mac, addr: Addr, now: u32, memory: bool)
      requires Valid()
      modifies this`chains, this`index, this`repr, this`view, nethash, repr
      ensures Valid() && fresh(repr - old(repr))
      ensures view ==
        if addr in old(view) then old(view)[addr := Cell(mac, now, old(view)[addr].useCount)]
        else if memory then old(view)[addr := Cell(mac, now, 1)]
        else old(view)
    {
      var db := Find(addr);
      if db != null {
        Refresh(db, mac, now);
        return;
      }
      if !memory {
        return;
      }
      Add(mac, addr, now);
    }

    method Add(mac: Mac, addr: Addr, now: u32)
      requires Valid() && addr !in view
      modifies this`chains, this`index, this`repr, this`view, nethash, repr
      ensures Valid() && fresh(repr - old(repr))
      ensures view == old(view)[addr := Cell(mac, now, 1)]
    {
      var db := new Entry(addr, mac, now);
      Link(db, Hash(addr));
    }

    /** The end of an entry: unlinked, freed, and no longer the shortcut. */
    method Drop(f: Entry, ghost i: nat, ghost k: nat)
      requires Valid() && i < NAT25_HASH_SIZE && k < |chains[i]| && chains[i][k] == f
      modifies this, nethash, repr`next, repr`pprev
      ensures Valid() && repr == old(repr) && view == old(view) - {f.addr}
      ensures chains == old(chains)[i := old(chains)[i][..k] + old(chains)[i][k + 1..]]
      ensures Current() == Kept(old(Current()), view)
      ensures if old(scdbEntry) == f then scdbEntry == null && scdbMac == [0, 0, 0, 0, 0, 0] && scdbIp == [0, 0, 0, 0]
              else scdbEntry == old(scdbEntry) && scdbMac == old(scdbMac) && scdbIp == old(scdbIp)
    {
      BucketOf(nethash, chains, index, repr, NAT25_HASH_SIZE, i);
      if scdbEntry == f {
        scdbMac, scdbIp, scdbEntry := [0, 0, 0, 0, 0, 0], [0, 0, 0, 0], null;
      }
      Unlink(f, i, k);
    }

    /** One step of `nat25_db_expire`. */
    method AgeEntry(f: Entry, ghost i: nat, ghost k: nat, now: u32)
      requires Valid() && i < NAT25_HASH_SIZE && k < |chains[i]| && chains[i][k] == f
      modifies this, nethash, repr
      ensures Valid() && repr == old(repr)
      ensures view == Aged(old(view), {f.addr}, ageTime, now) && Current() == Kept(old(Current()), view)
      ensures chains == old(chains) || chains == old(chains)[i := old(chains)[i][..k] + old(chains)[i][k + 1..]]
    {
      BucketOf(nethash, chains, index, repr, NAT25_HASH_SIZE, i);
      assert Known(f, index) && f in repr && view[f.addr] == Cell(f.mac, f.ageing, f.useCount);
      AgedOne(view, f.addr, ageTime, now);
      if HasExpired(f.ageing, ageTime, now) {
        LoseUse(f, i, k);
      }
    }

    /** An entry loses one use, and goes with its last. */
    method LoseUse(f: Entry, ghost i: nat, ghost k: nat)
      requires Valid() && i < NAT25_HASH_SIZE && k < |chains[i]| && chains[i][k] == f && Known(f, index)
      modifies this, nethash, repr
      ensures Valid() && repr == old(repr) && Current() == Kept(old(Current()), view)
      ensures view ==
        if old(view)[f.addr].useCount == 1 then old(view) - {f.addr}
        else old(view)[f.addr := old(view)[f.addr].(useCount := old(view)[f.addr].useCount - 1)]
      ensures chains == old(chains) || chains == old(chains)[i := old(chains)[i][..k] + old(chains)[i][k + 1..]]
    {
      assert f in repr && view[f.addr] == Cell(f.mac, f.ageing, f.useCount);
      var uses := f.useCount - 1;
      if uses == 0 {
        Drop(f, i, k);
      } else {
        SetUse(f, uses);
      }
    }

    /** The next entry is read before the current one may go. */
    method ExpireNext(f: Entry, ghost i: nat, ghost kept: seq<Entry>, ghost rest: seq<Entry>, now: u32)
      returns (g: Entry?, ghost still: seq<Entry>)
      requires Valid() && i < NAT25_HASH_SIZE && rest != [] && rest[0] == f && chains[i] == kept + rest
      modifies this, nethash, repr
      ensures Valid() && repr == old(repr) && g == Nth(rest, 1)
      ensures chains[i] == still + rest[1..] && forall j :: 0 <= j < NAT25_HASH_SIZE && j != i ==> chains[j] == old(chains)[j]
      ensures view == Aged(old(view), {f.addr}, ageTime, now) && Current() == Kept(old(Current()), view)
    {
      BucketOf(nethash, chains, index, repr, NAT25_HASH_SIZE, i);
      assert chains[i][|kept|] == f;
      OneFurther(kept, rest);
      g := f.next;
      still := kept;
      ghost var before := chains;
      AgeEntry(f, i, |kept|, now);
      if chains == before {
        still := kept + [f];
      }
    }

    /** `nat25_db_expire` in one bucket. */
    method ExpireBucket(i: nat, now: u32)
      requires Valid() && i < NAT25_HASH_SIZE
      modifies this, nethash, repr
      ensures Valid() && repr == old(repr)
      ensures view == Aged(old(view), Addrs(old(chains)[i]), ageTime, now) && Current() == Kept(old(Current()), view)
      ensures forall j :: 0 <= j < NAT25_HASH_SIZE && j != i ==> chains[j] == old(chains)[j]
    {
      ghost var was, kept, rest, done := chains[i], [], chains[i], {};
      BucketOf(nethash, chains, index, repr, NAT25_HASH_SIZE, i);
      SplitStart(was, i, index);
      AgedNone(view, ageTime, now);
      assert kept + rest == chains[i];
      var f := nethash[i];
      while f != null
        invariant Valid() && repr == old(repr) && f == Nth(rest, 0) && Split(done, rest, was)
        invariant chains[i] == kept + rest && forall j :: 0 <= j < NAT25_HASH_SIZE && j != i ==> chains[j] == old(chains)[j]
        invariant view == Aged(old(view), done, ageTime, now) && Current() == Kept(old(Current()), view)
        decreases |rest|
      {
        ghost var a := f.addr;
        ghost var before := view;
        f, kept := ExpireNext(f, i, kept, rest, now);
        KeptInTurn(old(Current()), before, view);
        SplitNext(done, rest, was);
        AgedInTurn(old(view), done, {a}, ageTime, now);
        done := done + {a};
        rest := rest[1..];
      }
      SplitEnd(done, rest, was);
    }

    /** `nat25_db_expire` */
    method Expire(now: u32)
      requires Valid()
      modifies this, nethash, repr
      ensures Valid() && repr == old(repr)
      ensures view == Aged(old(view), old(view).Keys, ageTime, now) && Current() == Kept(old(Current()), view)
    {
      ghost var was, index0 := chains, index;
      Open(nethash, chains, index, repr);
      AgedNone(view, ageTime, now);
      for i := 0 to NAT25_HASH_SIZE
        invariant Valid() && repr == old(repr)
        invariant forall j :: i <= j < NAT25_HASH_SIZE ==> chains[j] == was[j]
        invariant view == Aged(old(view), AddrsUpTo(was, i), ageTime, now) && Current() == Kept(old(Current()), view)
      {
        NotYet(was, index0, i);
        AgedInTurn(old(view), AddrsUpTo(was, i), Addrs(was[i]), ageTime, now);
        ghost var before := view;
        ExpireBucket(i, now);
        KeptInTurn(old(Current()), before, view);
      }
      AllReached(was, index0);
      assert AddrsUpTo(was, NAT25_HASH_SIZE) == old(view).Keys;
    }

    /** The head of a bucket is freed; the next entry is read before. */
    method FreeHead(f: Entry, ghost i: nat) returns (g: Entry?)
      requires Valid() && i < NAT25_HASH_SIZE && chains[i] != [] && chains[i][0] == f
      modifies this, nethash, repr`next, repr`pprev
      ensures Valid() && repr == old(repr) && chains == old(chains)[i := old(chains)[i][1..]] && g == Nth(chains[i], 0)
      ensures Current() == Kept(old(Current()), view) && view.Keys <= old(view.Keys)
    {
      BucketOf(nethash, chains, index, repr, NAT25_HASH_SIZE, i);
      g := f.next;
      assert chains[i][..0] + chains[i][0 + 1..] == chains[i][1..];
      Drop(f, i, 0);
    }

    method CleanBucket(i: nat)
      requires Valid() && i < NAT25_HASH_SIZE
      modifies this, nethash, repr`next, repr`pprev
      ensures Valid() && repr == old(repr)
      ensures chains == old(chains)[i := []]
      ensures Current() == Kept(old(Current()), view) && view.Keys <= old(view.Keys)
    {
      BucketOf(nethash, chains, index, repr, NAT25_HASH_SIZE, i);
      var f := nethash[i];
      while f != null
        invariant Valid() && repr == old(repr) && f == Nth(chains[i], 0)
        invariant chains == old(chains)[i := chains[i]]
        invariant Current() == Kept(old(Current()), view) && view.Keys <= old(view.Keys)
        decreases |chains[i]|
      {
        ghost var before := view;
        f := FreeHead(f, i);
        KeptInTurn(old(Current()), before, view);
      }
    }

    /** `nat25_db_cleanup` */
    method Cleanup()
      requires Valid()
      modifies this, nethash, repr`next, repr`pprev
      ensures Valid() && repr == old(repr) && view == map[] && scdbEntry == null && Current() == Kept(old(Current()), map[])
      ensures forall i :: 0 <= i < NAT25_HASH_SIZE ==> nethash[i] == null
    {
      for i := 0 to NAT25_HASH_SIZE
        invariant Valid() && repr == old(repr)
        invariant forall j :: 0 <= j < i ==> chains[j] == []
        invariant Current() == Kept(old(Current()), view)
      {
        ghost var before := view;
        CleanBucket(i);
        KeptInTurn(old(Current()), before, view);
      }
      assert index.Keys == {};
      forall i | 0 <= i < NAT25_HASH_SIZE
        ensures nethash[i] == null
      {
        BucketOf(nethash, chains, index, repr, NAT25_HASH_SIZE, i);
      }
    }

    /** The shortcut of the transmit path: one station's packets refresh its entry without a table operation. The
        entry is found again when the sender changes (`scdb_findEntry`). */
    method Shortcut(mac: Mac, ip: Ip, now: u32) returns (doNat25: bool)
      requires Valid()
      modifies this`view, this`scdbEntry, this`scdbMac, this`scdbIp, repr`mac, repr`ageing
      ensures Valid() && doNat25 == (Target(old(view), old(Current()), mac, ip) == None)
      ensures Current() == Redirected(old(view), old(Current()), mac, ip)
      ensures match Target(old(view), old(Current()), mac, ip)
              case None => view == old(view)
              case Some(a) => a in old(view) && view == old(view)[a := Cell(old(view)[a].mac, now, old(view)[a].useCount)]
      ensures if old(scdbMac) == mac then
                scdbEntry == old(scdbEntry)
                && (if old(scdbEntry) == null then scdbMac == [0, 0, 0, 0, 0, 0] && scdbIp == [0, 0, 0, 0]
                    else scdbMac == mac && scdbIp == old(scdbIp))
              else if Ipv4Addr(ip) in old(view) then
                scdbEntry != null && scdbEntry.addr == Ipv4Addr(ip) && scdbMac == mac && scdbIp == ip
              else scdbEntry == null && scdbMac == old(scdbMac) && scdbIp == old(scdbIp)
    {
      var db := scdbEntry;
      if scdbMac != mac {
        db := Find(Ipv4Addr(ip));
      }
      if db == null {
        SetScdb(null, if scdbMac == mac then [0, 0, 0, 0, 0, 0] else scdbMac, if scdbMac == mac then [0, 0, 0, 0] else scdbIp);
      } else {
        SetScdb(db, mac, if scdbMac == mac then scdbIp else ip);
        Touch(db, now);
      }
      doNat25 := db == null;
    }

    method SetScdb(db: Entry?, mac: Mac, ip: Ip)
      requires Valid() && (db != null ==> Known(db, index))
      modifies this`scdbEntry, this`scdbMac, this`scdbIp
      ensures Valid() && scdbEntry == db && scdbMac == mac && scdbIp == ip
    {
      scdbEntry, scdbMac, scdbIp := db, mac, ip;
    }

    method Touch(db: Entry, now: u32)
      requires Valid() && Known(db, index)
      modifies this`view, db`mac, db`ageing
      ensures Valid() && view == Renewed(old(view), db.addr, old(db.mac), now) && old(view)[db.addr].mac == old(db.mac)
    {
      Refresh(db, db.mac, now);
    }

    method Serve(r: Request, skb: array<byte>)
      requires Valid() && ScdbFits(State(view, Current())) && skb.Length >= 6
      modifies this, nethash, repr, skb
      ensures Valid() && fresh(repr - old(repr)) && State(view, Current()) == Apply(old(State(view, Current())), ageTime, r)
    {
      match r
      case Insert(mac, addr, now, memory) => Insert(mac, addr, now, memory);
      case Lookup(addr, now) => var _ := LookupAndReplace(skb, addr, now);
      case Packet(mac, ip, now) => var _ := Shortcut(mac, ip, now);
      case Expire(now) => Expire(now);
      case Cleanup => Cleanup();
    }

    /** Any calls in any order leave table and shortcut with what the map-level history says. */
    method Run(requests: seq<Request>, skb: array<byte>)
      requires Valid() && view == map[] && Current() == NO_SCDB && skb.Length >= 6
      modifies this, nethash, repr, skb
      ensures Valid() && State(view, Current()) == Replay(ageTime, requests)
    {
      for i := 0 to |requests|
        invariant Valid() && fresh(repr - old(repr)) && State(view, Current()) == Replay(ageTime, requests[..i])
      {
        assert requests[..i + 1][..i] == requests[..i];
        Serve(requests[i], skb);
      }
      assert requests[..|requests|] == requests;
    }
  }

  function AddrsUpTo(chains: seq<seq<Entry>>, n: nat): set<Addr>
    requires n <= |chains|
    decreases n, chains
  {
    if n == 0 then {} else AddrsUpTo(chains, n - 1) + Addrs(chains[n - 1])
  }

  lemma {:induction false} UpToHash(chains: seq<seq<Entry>>, index: map<Addr, Entry>, n: nat)
    requires Indexed(chains, index) && n <= |chains|
    ensures forall a :: a in AddrsUpTo(chains, n) ==> a in index && index[a].bucket < n
    ensures forall i, k :: 0 <= i < n && 0 <= k < |chains[i]| ==> chains[i][k].addr in AddrsUpTo(chains, n)
    decreases n
  {
    if n > 0 {
      UpToHash(chains, index, n - 1);
    }
  }

  lemma NotYet(chains: seq<seq<Entry>>, index: map<Addr, Entry>, n: nat)
    requires Indexed(chains, index) && n < |chains|
    ensures AddrsUpTo(chains, n) !! Addrs(chains[n])
  {
    UpToHash(chains, index, n);
  }

  lemma AllReached(chains: seq<seq<Entry>>, index: map<Addr, Entry>)
    requires Indexed(chains, index)
    ensures AddrsUpTo(chains, NAT25_HASH_SIZE) == index.Keys
  {
    UpToHash(chains, index, NAT25_HASH_SIZE);
    forall a | a in index
      ensures a in AddrsUpTo(chains, NAT25_HASH_SIZE)
    {
      var i := index[a].bucket;
      var k :| 0 <= k < |chains[i]| && chains[i][k] == index[a];
    }
  }

  /** `done` are the addresses of the entries of `was` that come before `rest`. */
  ghost predicate Split(done: set<Addr>, rest: seq<Entry>, was: seq<Entry>)
  {
    done !! Addrs(rest) && done + Addrs(rest) == Addrs(was) && DistinctAddrs(rest)
  }

  lemma SplitStart(was: seq<Entry>, i: nat, index: map<Addr, Entry>)
    requires Placed(was, i, index) && NoRepeats(was)
    ensures Split({}, was, was)
  {
  }

  lemma SplitNext(done: set<Addr>, rest: seq<Entry>, was: seq<Entry>)
    requires rest != [] && Split(done, rest, was)
    ensures rest[0].addr !in done && Split(done + {rest[0].addr}, rest[1..], was)
  {
    AddrsFirst(rest);
  }

  lemma SplitEnd(done: set<Addr>, rest: seq<Entry>, was: seq<Entry>)
    requires rest == [] && Split(done, rest, was)
    ensures done == Addrs(was)
  {
  }

  ghost predicate DistinctAddrs(chain: seq<Entry>)
  {
    forall k, l :: 0 <= k < l < |chain| ==> chain[k].addr != chain[l].addr
  }

  lemma AddrsFirst(rest: seq<Entry>)
    requires rest != [] && DistinctAddrs(rest)
    ensures Addrs(rest) == {rest[0].addr} + Addrs(rest[1..]) && rest[0].addr !in Addrs(rest[1..]) && DistinctAddrs(rest[1..])
  {
    assert forall e :: e in rest <==> e == rest[0] || e in rest[1..];
  }

  lemma OneFurther(kept: seq<Entry>, rest: seq<Entry>)
    requires rest != []
    ensures (kept + rest)[..|kept|] + (kept + rest)[|kept| + 1..] == kept + rest[1..]
    ensures (kept + [rest[0]]) + rest[1..] == kept + rest
    ensures Nth(kept + rest, |kept| + 1) == Nth(rest, 1)
  {
  }
}
