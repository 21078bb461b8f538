/**
 The DHCP lease server. `DHCPHandler` is the handler with its lease table; `Step` is what one
 message may do to the table, with the clock, the random start of the scan and the choice among
 several leases of one client left open; the theorems are about whole runs of steps.
 */
module Dhcp {
  import opened Bytes

  // ----- Addresses

  type Address = a: Octets | |a| == 4 witness [0, 0, 0, 0]

  const WORD := 0x1_0000_0000

  /** Big-endian value of an IPv4 address. */
  function Num(a: Address): (n: nat)
    ensures n < WORD
  {
    var a0: int, a1: int, a2: int, a3: int := a[0], a[1], a[2], a[3];
    ((a0 * 256 + a1) * 256 + a2) * 256 + a3
  }

  function Addr(n: nat): Address {
    [n / 0x100_0000 % 256, n / 0x1_0000 % 256, n / 0x100 % 256, n % 256]
  }

  lemma Quotients(n: nat)
    ensures n / 0x1_0000 == n / 0x100 / 256 && n / 0x100_0000 == n / 0x1_0000 / 256
  {
  }

  lemma NumOfAddr(n: nat)
    requires n < WORD
    ensures Num(Addr(n)) == n
  {
    Quotients(n);
    var b, c, d := n / 0x100, n / 0x1_0000, n / 0x100_0000;
    assert n == b * 256 + n % 256 && b == c * 256 + b % 256 && c == d * 256 + c % 256;
    assert d < 256;
  }

  lemma AddrOfNum(a: Address)
    ensures Addr(Num(a)) == a
  {
    var a0: int, a1: int, a2: int := a[0], a[1], a[2];
    var n := Num(a);
    Quotients(n);
    assert n / 0x100 == (a0 * 256 + a1) * 256 + a2;
    assert n / 0x1_0000 == a0 * 256 + a1;
    assert n / 0x100_0000 == a0;
  }

  function IPAdd(start: Address, add: nat): Address {
    Addr((Num(start) + add) % WORD)
  }

  /** Inclusive distance: one more than the difference. */
  function IPRange(start: Address, stop: Address): int {
    Num(stop) - Num(start) + 1
  }

  const V4_IN_V6: Octets := [0, 0, 0, 0, 0, 0, 0, 0, 0, 0, 0xff, 0xff]

  /** `net.IP.Equal`: an IPv4 address and its IPv6 form are the same. */
  predicate IPEqual(a: Octets, b: Octets) {
    if |a| == |b| then a == b
    else if |a| == 4 && |b| == 16 then b == V4_IN_V6 + a
    else |a| == 16 && |b| == 4 && a == V4_IN_V6 + b
  }

  // ----- Messages and the lease table

  datatype Message =
    | Discover
    | Request(server: Option<Octets>, requested: Option<Octets>, ciaddr: Address)
    | Release
    | Decline
    | Other

  /** A message from hardware address `nic`, the time it is served at and where the scan for a free
      lease would start. */
  datatype Event = Event(nic: string, msg: Message, now: int, rnd: nat)

  datatype Reply = Silent | Offer(ip: Octets, duration: int) | Ack(ip: Octets, duration: int) | Nak

  datatype Lease = Lease(nic: string, expiry: int)
  type Leases = map<int, Lease>

  datatype Config = Config(ip: Address, start: Address, leaseRange: nat, leaseDuration: int) {
    /** The range is not empty, starts above 0.0.0.0 and does not wrap. */
    predicate Good() {
      0 < leaseRange && 0 < Num(start) && Num(start) + leaseRange <= WORD
    }
  }

  /** The server that is started on a P2P interface; durations are in seconds. */
  const P2P_SERVER := Config([192, 168, 49, 1], [192, 168, 49, 2], 8000, 7200)

  predicate Busy(leases: Leases, i: int, now: int) {
    i in leases && !(leases[i].expiry < now)
  }

  /** Slot `i` comes before slot `r` in the scan that starts at `b` and wraps. */
  predicate ScannedBefore(b: int, i: int, r: int) {
    if r >= b then b <= i < r else i >= b || i < r
  }

  /** `r` is the first slot of the scan without a lease or with an expired one, or -1. */
  ghost predicate FirstFree(cfg: Config, leases: Leases, now: int, b: nat, r: int) {
    if r == -1 then forall i :: 0 <= i < cfg.leaseRange ==> Busy(leases, i, now)
    else
      && 0 <= r < cfg.leaseRange && !Busy(leases, r, now)
      && forall i :: 0 <= i < cfg.leaseRange && ScannedBefore(b, i, r) ==> Busy(leases, i, now)
  }

  predicate Holds(leases: Leases, i: int, nic: string) {
    i in leases && leases[i].nic == nic
  }

  ghost predicate HasLease(leases: Leases, nic: string) {
    exists i :: Holds(leases, i, nic)
  }

  // ----- One message

  /** The slot asked for, or -1 if the address is not an IPv4 address of the range. */
  function AskedSlot(cfg: Config, ip: Octets): (n: int)
    ensures n == -1 || 0 <= n < cfg.leaseRange
  {
    if |ip| != 4 || ip == [0, 0, 0, 0] then -1
    else
      var n := IPRange(cfg.start, ip) - 1;
      if 0 <= n < cfg.leaseRange then n else -1
  }

  ghost predicate DiscoverStep(cfg: Config, leases: Leases, e: Event, reply: Reply) {
    if HasLease(leases, e.nic) then
      exists i :: Holds(leases, i, e.nic) && i >= 0 && reply == Offer(IPAdd(cfg.start, i), cfg.leaseDuration)
    else
      exists i :: FirstFree(cfg, leases, e.now, e.rnd, i) &&
                  reply == if i == -1 then Silent else Offer(IPAdd(cfg.start, i), cfg.leaseDuration)
  }

  function RequestedIp(m: Message): Octets
    requires m.Request?
  {
    if m.requested.Some? then m.requested.value else m.ciaddr
  }

  function RequestStep(cfg: Config, leases: Leases, e: Event): (Reply, Leases)
    requires e.msg.Request?
  {
    if e.msg.server.Some? && !IPEqual(e.msg.server.value, cfg.ip) then (Silent, leases)
    else
      var ip := RequestedIp(e.msg);
      var n := AskedSlot(cfg, ip);
      if n == -1 || (n in leases && leases[n].nic != e.nic) then (Nak, leases)
      else (Ack(ip, cfg.leaseDuration), leases[n := Lease(e.nic, e.now + cfg.leaseDuration)])
  }

  ghost predicate ReleaseStep(leases: Leases, e: Event, after: Leases) {
    if HasLease(leases, e.nic) then exists i :: Holds(leases, i, e.nic) && after == leases - {i}
    else after == leases
  }

  ghost predicate Step(cfg: Config, leases: Leases, e: Event, reply: Reply, after: Leases) {
    match e.msg
    case Discover => after == leases && DiscoverStep(cfg, leases, e, reply)
    case Request(_, _, _) => (reply, after) == RequestStep(cfg, leases, e)
    case Release => reply == Silent && ReleaseStep(leases, e, after)
    case Decline => reply == Silent && ReleaseStep(leases, e, after)
    case Other => reply == Silent && after == leases
  }

  // ----- The handler

  class DHCPHandler {
    const cfg: Config
    var leases: Leases

    ghost predicate Valid()
      reads this
    {
      cfg.Good() && forall i :: i in leases ==> 0 <= i < cfg.leaseRange
    }

    constructor (cfg: Config)
      requires cfg.Good()
      ensures Valid() && this.cfg == cfg && leases == map[]
    {
      this.cfg := cfg;
      leases := map[];
    }

    /** Ranges over the table, in whatever order the map comes out. */
    method FindLease(nic: string) returns (r: int)
      requires Valid()
      ensures if r == -1 then !HasLease(leases, nic) else r >= 0 && Holds(leases, r, nic)
    {
      var rest := leases.Keys;
      while rest != {}
        invariant rest <= leases.Keys
        invariant forall i :: Holds(leases, i, nic) ==> i in rest
      {
        assert (forall i :: i !in rest) ==> rest == {};
        var i :| i in rest;
        if leases[i].nic == nic {
          return i;
        }
        rest := rest - {i};
      }
      return -1;
    }

    method FreeLease(now: int, b: nat) returns (r: int)
      requires Valid() && b < cfg.leaseRange
      ensures FirstFree(cfg, leases, now, b, r)
    {
      for pass := 0 to 2
        invariant pass >= 1 ==> forall i :: b <= i < cfg.leaseRange ==> Busy(leases, i, now)
        invariant pass == 2 ==> forall i :: 0 <= i < b ==> Busy(leases, i, now)
      {
        var lo, hi := if pass == 0 then b else 0, if pass == 0 then cfg.leaseRange else b;
        for i := lo to hi
          invariant forall k :: lo <= k < i ==> Busy(leases, k, now)
        {
          if i !in leases || leases[i].expiry < now {
            return i;
          }
        }
      }
      return -1;
    }

    method ServeDHCP(e: Event) returns (reply: Reply)
      requires Valid() && e.rnd < cfg.leaseRange
      modifies this
      ensures Valid()
      ensures Step(cfg, old(leases), e, reply, leases)
    {
      match e.msg
      case Discover =>
        var free := FindLease(e.nic);
        if free == -1 {
          free := FreeLease(e.now, e.rnd);
          if free == -1 {
            return Silent;
          }
        }
        return Offer(IPAdd(cfg.start, free), cfg.leaseDuration);
      case Request(server, requested, ciaddr) =>
        if server.Some? && !IPEqual(server.value, cfg.ip) {
          return Silent;
        }
        var reqIP: Octets := if requested.Some? then requested.value else ciaddr;
        if |reqIP| == 4 && reqIP != [0, 0, 0, 0] {
          var leaseNum := IPRange(cfg.start, reqIP) - 1;
          if leaseNum >= 0 && leaseNum < cfg.leaseRange {
            if leaseNum !in leases || leases[leaseNum].nic == e.nic {
              leases := leases[leaseNum := Lease(e.nic, e.now + cfg.leaseDuration)];
              return Ack(reqIP, cfg.leaseDuration);
            }
          }
        }
        return Nak;
      case Release =>
        DropLease(e);
        return Silent;
      case Decline =>
        DropLease(e);
        return Silent;
      case Other =>
        return Silent;
    }

    method DropLease(e: Event)
      requires Valid()
      modifies this
      ensures Valid() && ReleaseStep(old(leases), e, leases)
    {
      var i := FindLease(e.nic);
      if i != -1 {
        leases := leases - {i};
      }
    }
  }

  // ----- Single steps, exactly

  /** A discovery goes unanswered exactly when the client has no lease and every slot of the range
      holds an unexpired one. */
  lemma UnansweredExactly(cfg: Config, leases: Leases, e: Event, reply: Reply, after: Leases)
    requires e.msg == Discover && Step(cfg, leases, e, reply, after)
    ensures reply == Silent <==>
            !HasLease(leases, e.nic) && forall i :: 0 <= i < cfg.leaseRange ==> Busy(leases, i, e.now)
  {
  }

  /** The scan has one answer. */
  lemma FirstFreeIsUnique(cfg: Config, leases: Leases, now: int, b: nat, r: int, s: int)
    requires b < cfg.leaseRange && FirstFree(cfg, leases, now, b, r) && FirstFree(cfg, leases, now, b, s)
    ensures r == s
  {
    assert r == s || ScannedBefore(b, r, s) || ScannedBefore(b, s, r);
  }

  lemma IPAddNum(start: Address, n: nat)
    requires Num(start) + n < WORD
    ensures IPAdd(start, n) == Addr(Num(start) + n) && Num(IPAdd(start, n)) == Num(start) + n
  {
    hide Num, Addr;
    var sum := Num(start) + n;
    assert sum % WORD == sum;
    NumOfAddr(sum);
  }

  lemma SlotOfOffer(cfg: Config, n: nat)
    requires cfg.Good() && n < cfg.leaseRange
    ensures Num(IPAdd(cfg.start, n)) == Num(cfg.start) + n
    ensures AskedSlot(cfg, IPAdd(cfg.start, n)) == n
  {
    var ip := IPAdd(cfg.start, n);
    IPAddNum(cfg.start, n);
    assert ip == [0, 0, 0, 0] ==> Num(ip) == 0;
  }

  /** An acknowledged address is the one its slot stands for. */
  lemma AddressOfSlot(cfg: Config, ip: Octets)
    requires AskedSlot(cfg, ip) != -1
    ensures |ip| == 4 && ip == IPAdd(cfg.start, AskedSlot(cfg, ip))
  {
    IPAddNum(cfg.start, AskedSlot(cfg, ip));
    AddrOfNum(ip);
  }

  lemma OfferedSlot(cfg: Config, leases: Leases, d: Event, ip: Address)
    requires cfg.Good() && forall i :: i in leases ==> 0 <= i < cfg.leaseRange
    requires DiscoverStep(cfg, leases, d, Offer(ip, cfg.leaseDuration))
    ensures var n := AskedSlot(cfg, ip);
            && n != -1 && ip == IPAdd(cfg.start, n)
            && (Holds(leases, n, d.nic) || !Busy(leases, n, d.now))
  {
    var n :| 0 <= n < cfg.leaseRange && ip == IPAdd(cfg.start, n) &&
             (Holds(leases, n, d.nic) || !Busy(leases, n, d.now));
    SlotOfOffer(cfg, n);
  }

  /** A request for the address just offered, sent with no server id or with ours, is granted at
      the offered slot exactly when the slot is vacant or already the client's own. The offer may
      also be of a slot whose lease has expired; while the table still has it for someone else,
      the request is refused and nothing changes. */
  lemma OfferThenRequest(cfg: Config, leases: Leases, d: Event, ip: Address, after: Leases,
                         r: Event, reply: Reply, last: Leases)
    requires cfg.Good() && forall i :: i in leases ==> 0 <= i < cfg.leaseRange
    requires d.msg == Discover && Step(cfg, leases, d, Offer(ip, cfg.leaseDuration), after)
    requires r.nic == d.nic && r.msg.Request? && r.msg.requested == Some(ip)
    requires r.msg.server.Some? ==> IPEqual(r.msg.server.value, cfg.ip)
    requires Step(cfg, after, r, reply, last)
    ensures var n := AskedSlot(cfg, ip);
            && n != -1 && ip == IPAdd(cfg.start, n)
            && if n !in leases || leases[n].nic == d.nic
               then reply == Ack(ip, cfg.leaseDuration) &&
                    last == leases[n := Lease(d.nic, r.now + cfg.leaseDuration)]
               else reply == Nak && last == leases && leases[n].expiry < d.now
  {
    OfferedSlot(cfg, leases, d, ip);
  }

  /** The address a request speaks of: the option, or the client's own address without it. */
  ghost predicate AsksFor(m: Message, ip: Octets) {
    m.Request? && match m.requested case Some(asked) => asked == ip case None => m.ciaddr == ip
  }

  /** The request names another server: neither our four bytes nor those behind the IPv6-mapped prefix. */
  ghost predicate ForAnother(cfg: Config, m: Message) {
    && m.Request? && m.server.Some? && m.server.value != cfg.ip
    && m.server.value != [0, 0, 0, 0, 0, 0, 0, 0, 0, 0, 0xff, 0xff] + cfg.ip
  }

  /** Not for us: no answer and no change. */
  lemma RequestElsewhere(cfg: Config, leases: Leases, e: Event, reply: Reply, after: Leases)
    requires ForAnother(cfg, e.msg) && Step(cfg, leases, e, reply, after)
    ensures reply == Silent && after == leases
  {
  }

  /** For us and for an address of the range: granted exactly if its slot has no lease at all, or one
      of the client's, expired or not; the lease then runs from now on. */
  lemma RequestInRange(cfg: Config, leases: Leases, e: Event, n: nat, reply: Reply, after: Leases)
    requires cfg.Good() && n < cfg.leaseRange && AsksFor(e.msg, IPAdd(cfg.start, n))
    requires !ForAnother(cfg, e.msg) && Step(cfg, leases, e, reply, after)
    ensures if n !in leases || leases[n].nic == e.nic then
              && reply == Ack(IPAdd(cfg.start, n), cfg.leaseDuration)
              && after == leases[n := Lease(e.nic, e.now + cfg.leaseDuration)]
            else
              reply == Nak && after == leases
  {
    SlotOfOffer(cfg, n);
    OursIsEqual(cfg, e.msg);
    hide IPAdd, AskedSlot, IPEqual;
  }

  lemma OursIsEqual(cfg: Config, m: Message)
    requires m.Request? && !ForAnother(cfg, m)
    ensures m.server.Some? ==> IPEqual(m.server.value, cfg.ip)
  {
  }

  /** For us and for anything else, of whatever length: refused. */
  lemma RequestOutOfRange(cfg: Config, leases: Leases, e: Event, ip: Octets, reply: Reply, after: Leases)
    requires AsksFor(e.msg, ip) && forall n: nat :: n < cfg.leaseRange ==> ip != IPAdd(cfg.start, n)
    requires !ForAnother(cfg, e.msg) && Step(cfg, leases, e, reply, after)
    ensures reply == Nak && after == leases
  {
    OursIsEqual(cfg, e.msg);
    if AskedSlot(cfg, ip) != -1 {
      AddressOfSlot(cfg, ip);
    }
    hide IPAdd, AskedSlot, IPEqual;
  }

  /** A client that has a lease is offered it, one of them if it has several. */
  lemma OwnSlotIsOffered(cfg: Config, leases: Leases, e: Event, reply: Reply, after: Leases) returns (n: nat)
    requires e.msg == Discover && Step(cfg, leases, e, reply, after)
    requires exists i :: i in leases && leases[i].nic == e.nic
    ensures n in leases && leases[n].nic == e.nic && reply == Offer(IPAdd(cfg.start, n), cfg.leaseDuration)
    ensures after == leases
  {
    hide IPAdd;
    var i :| i in leases && leases[i].nic == e.nic;
    assert Holds(leases, i, e.nic);
    n :| Holds(leases, n, e.nic) && n >= 0 && reply == Offer(IPAdd(cfg.start, n), cfg.leaseDuration);
  }

  /** The slot `k` behind slot `b`, with slot 0 behind the last of `n`. */
  function Round(b: nat, k: nat, n: nat): nat
    requires b < n && k < n
  {
    if b + k < n then b + k else b + k - n
  }

  /** Another client is offered the first slot, counted round from the random start, that has no lease
      or an expired one. */
  lemma NearestIsOffered(cfg: Config, leases: Leases, e: Event, reply: Reply, after: Leases) returns (k: nat)
    requires e.msg == Discover && e.rnd < cfg.leaseRange && Step(cfg, leases, e, reply, after)
    requires (forall i :: i in leases ==> leases[i].nic != e.nic) && reply != Silent
    ensures k < cfg.leaseRange && after == leases
    ensures var n := Round(e.rnd, k, cfg.leaseRange);
            && reply == Offer(IPAdd(cfg.start, n), cfg.leaseDuration)
            && (n !in leases || leases[n].expiry < e.now)
    ensures forall j: nat :: j < k ==>
              && Round(e.rnd, j, cfg.leaseRange) in leases
              && leases[Round(e.rnd, j, cfg.leaseRange)].expiry >= e.now
  {
    hide IPAdd;
    var n :| FirstFree(cfg, leases, e.now, e.rnd, n) &&
             reply == if n == -1 then Silent else Offer(IPAdd(cfg.start, n), cfg.leaseDuration);
    k := if n >= e.rnd then n - e.rnd else n + cfg.leaseRange - e.rnd;
    forall j: nat | j < k
      ensures Busy(leases, Round(e.rnd, j, cfg.leaseRange), e.now)
    {
      assert ScannedBefore(e.rnd, Round(e.rnd, j, cfg.leaseRange), n);
    }
  }

  /** A Release or Decline takes one lease of its sender away, if there is one, and nothing else. */
  lemma OneLeaseIsDropped(cfg: Config, leases: Leases, e: Event, reply: Reply, after: Leases) returns (n: int)
    requires (e.msg == Release || e.msg == Decline) && Step(cfg, leases, e, reply, after)
    ensures reply == Silent
    ensures if forall i :: i in leases ==> leases[i].nic != e.nic then after == leases
            else n in leases && leases[n].nic == e.nic && after == leases - {n}
  {
    n := -1;
    if HasLease(leases, e.nic) {
      n :| Holds(leases, n, e.nic) && after == leases - {n};
    } else {
      forall i | i in leases ensures leases[i].nic != e.nic {
        assert !Holds(leases, i, e.nic);
      }
    }
  }

  /** Messages of other types are neither answered nor recorded. */
  lemma OthersAreIgnored(cfg: Config, leases: Leases, e: Event, reply: Reply, after: Leases)
    requires !e.msg.Discover? && !e.msg.Request? && !e.msg.Release? && !e.msg.Decline?
    requires Step(cfg, leases, e, reply, after)
    ensures reply == Silent && after == leases
  {
  }

  // ----- Runs

  datatype Moment = Moment(event: Event, reply: Reply, after: Leases)
  type Run = seq<Moment>

  function Before(run: Run, i: nat): Leases
    requires i <= |run|
  {
    if i == 0 then map[] else run[i - 1].after
  }

  ghost predicate StepAt(cfg: Config, run: Run, i: nat)
    requires i < |run|
  {
    Step(cfg, Before(run, i), run[i].event, run[i].reply, run[i].after)
  }

  /** Messages served one after the other, from the empty table. */
  ghost predicate ValidRun(cfg: Config, run: Run) {
    forall i :: 0 <= i < |run| ==> StepAt(cfg, run, i)
  }

  /** Serves messages one after the other. */
  method ServeAll(h: DHCPHandler, events: seq<Event>) returns (replies: seq<Reply>, ghost run: Run)
    requires h.Valid() && h.leases == map[] && forall i :: 0 <= i < |events| ==> events[i].rnd < h.cfg.leaseRange
    modifies h
    ensures h.Valid() && ValidRun(h.cfg, run) && |run| == |replies| == |events|
    ensures forall i :: 0 <= i < |run| ==> run[i].event == events[i] && run[i].reply == replies[i]
    ensures h.leases == Before(run, |run|)
  {
    hide Step;
    replies, run := [], [];
    for i := 0 to |events|
      invariant h.Valid() && ValidRun(h.cfg, run) && |run| == |replies| == i && h.leases == Before(run, i)
      invariant forall k :: 0 <= k < i ==> run[k].event == events[k] && run[k].reply == replies[k]
    {
      var reply := h.ServeDHCP(events[i]);
      ServedOne(h.cfg, run, Moment(events[i], reply, h.leases));
      replies, run := replies + [reply], run + [Moment(events[i], reply, h.leases)];
    }
  }

  lemma ServedOne(cfg: Config, run: Run, m: Moment)
    requires ValidRun(cfg, run) && Step(cfg, Before(run, |run|), m.event, m.reply, m.after)
    ensures ValidRun(cfg, run + [m])
  {
    hide Step;
    var longer := run + [m];
    forall i | 0 <= i < |longer| ensures StepAt(cfg, longer, i) {
      assert Before(longer, i) == Before(run, i);
      assert i < |run| ==> StepAt(cfg, run, i);
    }
  }

  predicate Frees(m: Moment, nic: string) {
    m.event.nic == nic && (m.event.msg == Release || m.event.msg == Decline)
  }

  predicate Acked(m: Moment, ip: Octets, nic: string) {
    m.reply.Ack? && m.reply.ip == ip && m.event.nic == nic
  }

  lemma AckRecords(cfg: Config, run: Run, i: nat, ip: Octets, nic: string)
    requires i < |run| && StepAt(cfg, run, i) && Acked(run[i], ip, nic)
    ensures var n := AskedSlot(cfg, ip);
            && n != -1 && (n in Before(run, i) ==> Before(run, i)[n].nic == nic)
            && run[i].after == Before(run, i)[n := Lease(nic, run[i].event.now + cfg.leaseDuration)]
  {
  }

  /** Once a client holds a slot it keeps it until a Release or Decline of its own. */
  lemma {:induction false} StaysHeld(cfg: Config, run: Run, i: nat, j: nat, n: int, nic: string)
    requires ValidRun(cfg, run) && i <= j < |run| && Holds(run[i].after, n, nic)
    requires forall k :: i < k <= j ==> !Frees(run[k], nic)
    ensures Holds(run[j].after, n, nic)
    decreases j
  {
    if i < j {
      StaysHeld(cfg, run, i, j - 1, n, nic);
      assert StepAt(cfg, run, j) && !Frees(run[j], nic);
      if run[j].event.msg == Release || run[j].event.msg == Decline {
        assert ReleaseStep(Before(run, j), run[j].event, run[j].after);
      }
    }
  }

  /** Two acknowledgements of one address to different clients have a Release or Decline of the
      first client between them. */
  lemma AckOwnership(cfg: Config, run: Run, i: nat, j: nat, ip: Octets, first: string, second: string)
    requires ValidRun(cfg, run) && i < j < |run| && first != second
    requires Acked(run[i], ip, first) && Acked(run[j], ip, second)
    ensures exists k :: i < k < j && Frees(run[k], first)
  {
    assert StepAt(cfg, run, i) && StepAt(cfg, run, j);
    AckRecords(cfg, run, i, ip, first);
    AckRecords(cfg, run, j, ip, second);
    if forall k :: i < k < j ==> !Frees(run[k], first) {
      StaysHeld(cfg, run, i, j - 1, AskedSlot(cfg, ip), first);
      assert false;
    }
  }

  /** Every slot of the range is in the table under another client. */
  ghost predicate AllTaken(cfg: Config, leases: Leases, nic: string) {
    forall n :: 0 <= n < cfg.leaseRange ==> n in leases && leases[n].nic != nic
  }

  /** Expiry frees nothing: once all slots are taken by others, and none of their holders sends a Release
      or Decline, a client is never acknowledged, however many leases have expired. */
  lemma ExpiryFreesNothing(cfg: Config, run: Run, i: nat, j: nat, nic: string)
    requires ValidRun(cfg, run) && i < j < |run| && AllTaken(cfg, run[i].after, nic)
    requires forall k, n :: i < k < j && 0 <= n < cfg.leaseRange ==> !Frees(run[k], run[i].after[n].nic)
    ensures AllTaken(cfg, Before(run, j), nic)
    ensures run[j].event.nic == nic ==> !run[j].reply.Ack?
  {
    forall n | 0 <= n < cfg.leaseRange ensures n in Before(run, j) && Before(run, j)[n].nic != nic {
      StaysHeld(cfg, run, i, j - 1, n, run[i].after[n].nic);
    }
    assert StepAt(cfg, run, j);
    if run[j].event.nic == nic && run[j].reply.Ack? {
      AckRecords(cfg, run, j, run[j].reply.ip, nic);
    }
  }

  /** Every index in the table lies in the range, at every moment. */
  lemma {:induction false} SlotsInRange(cfg: Config, run: Run, i: nat)
    requires ValidRun(cfg, run) && i <= |run|
    ensures forall n :: n in Before(run, i) ==> 0 <= n < cfg.leaseRange
  {
    if i > 0 {
      SlotsInRange(cfg, run, i - 1);
      assert StepAt(cfg, run, i - 1);
    }
  }

  /** Moment `i` granted slot `n` with exactly this lease. */
  predicate Grants(cfg: Config, m: Moment, n: int, l: Lease) {
    m.reply.Ack? && AskedSlot(cfg, m.reply.ip) == n && l == Lease(m.event.nic, m.event.now + cfg.leaseDuration)
  }

  predicate AcksSlot(cfg: Config, m: Moment, n: int) {
    m.reply.Ack? && AskedSlot(cfg, m.reply.ip) == n
  }

  /** In every run, a request that names another server is passed over in silence. */
  lemma OtherServersRequests(cfg: Config, run: Run, i: nat)
    requires ValidRun(cfg, run) && i < |run| && ForAnother(cfg, run[i].event.msg)
    ensures run[i].reply == Silent && run[i].after == Before(run, i)
  {
    assert StepAt(cfg, run, i);
    RequestElsewhere(cfg, Before(run, i), run[i].event, run[i].reply, run[i].after);
  }

  /** And a client that was once acknowledged an address, and has sent no Release or Decline since, is
      acknowledged it again: by the option, or by its own address alone, and however late. */
  lemma RenewalIsGranted(cfg: Config, run: Run, i: nat, j: nat, ip: Octets, nic: string)
    requires cfg.Good() && ValidRun(cfg, run) && i < j < |run| && Acked(run[i], ip, nic)
    requires forall k :: i < k < j ==> !Frees(run[k], nic)
    requires run[j].event.nic == nic && AsksFor(run[j].event.msg, ip) && !ForAnother(cfg, run[j].event.msg)
    ensures run[j].reply == Ack(ip, cfg.leaseDuration)
    ensures exists n :: 0 <= n < cfg.leaseRange && ip == IPAdd(cfg.start, n) &&
                        run[j].after == Before(run, j)[n := Lease(nic, run[j].event.now + cfg.leaseDuration)]
  {
    hide Step, IPAdd, AskedSlot;
    assert StepAt(cfg, run, i) && StepAt(cfg, run, j);
    AckRecords(cfg, run, i, ip, nic);
    AddressOfSlot(cfg, ip);
    var n := AskedSlot(cfg, ip);
    StaysHeld(cfg, run, i, j - 1, n, nic);
    RequestInRange(cfg, Before(run, j), run[j].event, n, run[j].reply, run[j].after);
  }

  /** Nothing enters the table but by an acknowledgement: each lease is the one the last
      acknowledgement of its slot gave. */
  lemma {:induction false} LeaseComesFromLastAck(cfg: Config, run: Run, j: nat, n: int) returns (i: nat)
    requires ValidRun(cfg, run) && j < |run| && n in run[j].after
    ensures i <= j && Grants(cfg, run[i], n, run[j].after[n])
    ensures forall k :: i < k <= j ==> !AcksSlot(cfg, run[k], n)
    decreases j
  {
    assert StepAt(cfg, run, j);
    if AcksSlot(cfg, run[j], n) {
      i := j;
    } else {
      StepKeeps(cfg, Before(run, j), run[j], n);
      i := LeaseComesFromLastAck(cfg, run, j - 1, n);
    }
  }

  /** A moment that does not acknowledge slot `n` leaves its lease alone or removes it. */
  lemma StepKeeps(cfg: Config, leases: Leases, m: Moment, n: int)
    requires Step(cfg, leases, m.event, m.reply, m.after) && !AcksSlot(cfg, m, n) && n in m.after
    ensures n in leases && leases[n] == m.after[n]
  {
    if m.event.msg == Release || m.event.msg == Decline {
      assert ReleaseStep(leases, m.event, m.after);
    }
  }

  /** Every offered or acknowledged address is one of the range. */
  lemma ReplyInRange(cfg: Config, run: Run, i: nat)
    requires cfg.Good() && ValidRun(cfg, run) && i < |run| && (run[i].reply.Offer? || run[i].reply.Ack?)
    ensures |run[i].reply.ip| == 4
    ensures Num(cfg.start) <= Num(run[i].reply.ip) < Num(cfg.start) + cfg.leaseRange
  {
    assert StepAt(cfg, run, i);
    if run[i].reply.Offer? {
      SlotsInRange(cfg, run, i);
      var n :| 0 <= n < cfg.leaseRange && run[i].reply.ip == IPAdd(cfg.start, n);
      SlotOfOffer(cfg, n);
    }
  }

  /** The address of a slot, on the P2P server. */
  lemma P2pSlot(n: nat)
    requires n < 8000
    ensures IPAdd(P2P_SERVER.start, n) == [192, 168, 49 + (n + 2) / 256, (n + 2) % 256]
  {
    var start := P2P_SERVER.start;
    assert Num(start) == 3232248066;
    IPAddNum(start, n);
    AddrOfNum([192, 168, 49 + (n + 2) / 256, (n + 2) % 256]);
    assert Num([192, 168, 49 + (n + 2) / 256, (n + 2) % 256]) == 3232248066 + n;
    hide Num, Addr, IPAdd;
  }

  /** It hands out the 8000 addresses from 192.168.49.2 on, and so never its own, for two hours. */
  lemma P2pAddresses(run: Run, i: nat) returns (n: nat)
    requires ValidRun(P2P_SERVER, run) && i < |run| && (run[i].reply.Offer? || run[i].reply.Ack?)
    ensures n < 8000 && run[i].reply.ip == [192, 168, 49 + (n + 2) / 256, (n + 2) % 256]
    ensures run[i].reply.ip != [192, 168, 49, 1] && run[i].reply.duration == 7200
  {
    assert StepAt(P2P_SERVER, run, i);
    if run[i].reply.Offer? {
      SlotsInRange(P2P_SERVER, run, i);
      n :| n < 8000 && run[i].reply.ip == IPAdd(P2P_SERVER.start, n);
    } else {
      n := AskedSlot(P2P_SERVER, run[i].reply.ip);
      AddressOfSlot(P2P_SERVER, run[i].reply.ip);
    }
    P2pSlot(n);
  }

  /** Its requests are those with no server id, with 192.168.49.1, or with that behind the IPv6-mapped
      prefix. */
  lemma P2pRequests(run: Run, i: nat, n: nat)
    requires ValidRun(P2P_SERVER, run) && i < |run| && n < 8000
    requires AsksFor(run[i].event.msg, [192, 168, 49 + (n + 2) / 256, (n + 2) % 256])
    ensures var server := run[i].event.msg.server;
            if server == None || server == Some([192, 168, 49, 1])
               || server == Some([0, 0, 0, 0, 0, 0, 0, 0, 0, 0, 0xff, 0xff, 192, 168, 49, 1])
            then run[i].reply == Nak || run[i].reply.Ack?
            else run[i].reply == Silent
  {
    assert StepAt(P2P_SERVER, run, i);
    P2pSlot(n);
    assert [0, 0, 0, 0, 0, 0, 0, 0, 0, 0, 0xff, 0xff] + P2P_SERVER.ip ==
           [0, 0, 0, 0, 0, 0, 0, 0, 0, 0, 0xff, 0xff, 192, 168, 49, 1];
    hide Step, IPAdd;
    if ForAnother(P2P_SERVER, run[i].event.msg) {
      RequestElsewhere(P2P_SERVER, Before(run, i), run[i].event, run[i].reply, run[i].after);
    } else {
      RequestInRange(P2P_SERVER, Before(run, i), run[i].event, n, run[i].reply, run[i].after);
    }
  }

  /** The refusal in `OfferThenRequest` does happen: two hours and a second after one client was
      given the first slot, a second client is offered it and refused it. */
  lemma ExpiredOfferIsRefused()
    ensures var ip: Address := [192, 168, 49, 2];
            var a := Event("a", Request(None, Some(ip), [0, 0, 0, 0]), 0, 0);
            var b := Event("b", Discover, 7201, 0);
            var c := Event("b", Request(None, Some(ip), [0, 0, 0, 0]), 7201, 0);
            var held: Leases := map[0 := Lease("a", 7200)];
            ValidRun(P2P_SERVER,
                     [Moment(a, Ack(ip, 7200), held), Moment(b, Offer(ip, 7200), held), Moment(c, Nak, held)])
  {
    hide Step;
    FirstIsGranted(0);
    SecondIsRefused(7201);
  }

  lemma FirstIsGranted(now: int)
    ensures var ip: Address := [192, 168, 49, 2];
            Step(P2P_SERVER, map[], Event("a", Request(None, Some(ip), [0, 0, 0, 0]), now, 0), Ack(ip, 7200),
                 map[0 := Lease("a", now + 7200)])
  {
  }

  lemma SecondIsRefused(now: int)
    requires now > 7200
    ensures var ip: Address := [192, 168, 49, 2];
            var held: Leases := map[0 := Lease("a", 7200)];
            && Step(P2P_SERVER, held, Event("b", Discover, now, 0), Offer(ip, 7200), held)
            && Step(P2P_SERVER, held, Event("b", Request(None, Some(ip), [0, 0, 0, 0]), now, 0), Nak, held)
  {
    var ip: Address := [192, 168, 49, 2];
    var held: Leases := map[0 := Lease("a", 7200)];
    AddrOfNum(ip);
    assert FirstFree(P2P_SERVER, held, now, 0, 0);
    assert "a"[0] != "b"[0];
  }
}
