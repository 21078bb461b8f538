/**
 The transmit gate of the NAN sender. A call reads the clock, tests the stamp of the last
 transmission against a second reading, and if the gate is open first stores its own reading and
 then hands its frame over; a TX-status event clears the stamp at any point between these steps.
 */
module NanGate {
  import opened Bytes

  /** 100 ms, in nanoseconds. */
  const GATE := 100_000_000

  /** What happens to one Nan object, in order, and when: a call tests the gate, at its second reading
      of the clock; the call that tested at position `test` stores its first reading; the call that
      stored at position `store` sends; the TX status of the interface arrives. */
  datatype Event =
    | Test(t0: int, at: int, open: bool)
    | Store(test: nat, t0: int, at: int)
    | Send(store: nat, at: int)
    | Status(at: int)

  type Log = seq<Event>

  function LastAfter(last: Option<int>, e: Event): Option<int> {
    if e.Store? then Some(e.t0) else if e.Status? then None else last
  }

  /** `LastSent`: the stamp that was stored last, if no status has cleared it. */
  function LastSent(log: Log): Option<int> {
    if log == [] then None else LastAfter(LastSent(log[..|log| - 1]), log[|log| - 1])
  }

  predicate Closed(last: Option<int>, t1: int) {
    last.Some? && t1 - last.value < GATE
  }

  /** `e` can come behind `log`: a call that found the gate open stores once, and then sends once. */
  ghost predicate CanFollow(log: Log, e: Event) {
    && (e.Test? ==> e.t0 <= e.at && e.open == !Closed(LastSent(log), e.at))
    && (e.Store? ==>
          && e.test < |log| && log[e.test].Test? && log[e.test].open && log[e.test].t0 == e.t0
          && forall k :: 0 <= k < |log| && log[k].Store? ==> log[k].test != e.test)
    && (e.Send? ==>
          && e.store < |log| && log[e.store].Store?
          && forall k :: 0 <= k < |log| && log[k].Send? ==> log[k].store != e.store)
  }

  ghost predicate EventOk(log: Log, i: nat)
    requires i < |log|
  {
    CanFollow(log[..i], log[i])
  }

  /** Any interleaving of the steps of any calls and of the status events. */
  ghost predicate Interleaving(log: Log) {
    forall i :: 0 <= i < |log| ==> EventOk(log, i)
  }

  /** The call that sends at `b` tested at `TestOf(log, b)` and stored at `log[b].store`. */
  ghost function TestOf(log: Log, b: nat): (p: nat)
    requires Interleaving(log) && b < |log| && log[b].Send?
    ensures p < log[b].store < b && log[log[b].store].Store? && log[log[b].store].test == p
    ensures log[p].Test? && log[p].open && log[p].t0 == log[log[b].store].t0 <= log[p].at
  {
    assert EventOk(log, b);
    assert EventOk(log, log[b].store);
    assert EventOk(log, log[log[b].store].test);
    log[log[b].store].test
  }

  /** The first reading of the call that sends at `b`. */
  ghost function ReadingOf(log: Log, b: nat): int
    requires Interleaving(log) && b < |log| && log[b].Send?
  {
    log[TestOf(log, b)].t0
  }

  ghost predicate NoStatus(log: Log, i: nat, j: nat)
    requires j <= |log|
  {
    forall k :: i < k < j ==> !log[k].Status?
  }

  /** The clock does not go back, and a call sends at most `d` after its first reading. */
  ghost predicate Prompt(log: Log, d: int)
    requires Interleaving(log)
  {
    && (forall i, j :: 0 <= i <= j < |log| ==> log[i].at <= log[j].at)
    && (forall i :: 0 <= i < |log| && log[i].Send? ==> log[i].at - ReadingOf(log, i) <= d)
  }

  // ----- Distances between transmissions

  /** Two transmissions with no status between them. */
  ghost predicate Unanswered(log: Log, a: int, b: int) {
    0 <= a < b < |log| && log[a].Send? && log[b].Send? && NoStatus(log, a, b)
  }

  /** Two transmissions with no status since the first one's stamp was stored. */
  ghost predicate Standing(log: Log, a: int, b: int) {
    0 <= a < b < |log| && log[a].Send? && log[b].Send? && NoStatus(log, log[a].store, b)
  }

  ghost predicate Spaced(log: Log, gap: int) {
    forall a, b :: Unanswered(log, a, b) ==> log[b].at - log[a].at >= gap
  }

  ghost predicate SpacedSinceStore(log: Log, gap: int) {
    forall a, b :: Standing(log, a, b) ==> log[b].at - log[a].at >= gap
  }

  /** No status comes between a call's storing and its sending. */
  ghost predicate Quiet(log: Log) {
    forall b :: 0 <= b < |log| && log[b].Send? ==> NoStatus(log, log[b].store, b)
  }

  lemma QuietStands(log: Log, a: nat, b: nat)
    requires Quiet(log) && Unanswered(log, a, b)
    ensures Standing(log, a, b)
  {
  }

  lemma PrefixOf(log: Log, n: nat)
    requires 0 < n <= |log|
    ensures LastSent(log[..n]) == LastAfter(LastSent(log[..n - 1]), log[n - 1])
  {
    assert log[..n][..n - 1] == log[..n - 1] && log[..n][n - 1] == log[n - 1];
  }

  /** The stamp is the one stored last, if no status came since. */
  lemma {:induction false} StampComesFrom(log: Log, n: nat) returns (a: nat)
    requires n <= |log| && LastSent(log[..n]).Some?
    ensures a < n && log[a].Store? && LastSent(log[..n]) == Some(log[a].t0) && NoStatus(log, a, n)
    ensures forall k :: a < k < n ==> !log[k].Store?
    decreases n
  {
    PrefixOf(log, n);
    if log[n - 1].Store? {
      a := n - 1;
    } else {
      a := StampComesFrom(log, n - 1);
    }
  }

  lemma {:induction false} StampRemains(log: Log, a: nat, n: nat)
    requires a < n <= |log| && log[a].Store? && NoStatus(log, a, n)
    ensures LastSent(log[..n]).Some?
    decreases n
  {
    PrefixOf(log, n);
    if n - 1 > a {
      StampRemains(log, a, n - 1);
    }
  }

  /** The stamp that the test at `p` reads, when no status came since the store at `a`, is the one
      stored last, from `a` on; an open gate is 100 ms past it. */
  lemma StampRead(log: Log, a: nat, p: nat) returns (c: nat)
    requires Interleaving(log) && a < p < |log| && log[a].Store? && log[p].Test? && NoStatus(log, a, p)
    ensures a <= c < p && log[c].Store? && NoStatus(log, c, p) && forall k :: c < k < p ==> !log[k].Store?
    ensures log[p].open <==> log[p].at - log[c].t0 >= GATE
  {
    StampRemains(log, a, p);
    c := StampComesFrom(log, p);
    assert EventOk(log, p);
  }

  /** A call is held back exactly when no status came since a stamp was last stored, and that stamp is
      less than 100 ms old. */
  lemma HeldBackExactly(log: Log, p: nat)
    requires Interleaving(log) && p < |log| && log[p].Test?
    ensures !log[p].open <==>
            exists a :: && 0 <= a < p && log[a].Store? && NoStatus(log, a, p)
                        && (forall k :: a < k < p ==> !log[k].Store?)
                        && log[p].at - log[a].t0 < 100_000_000
  {
    assert EventOk(log, p);
    if !log[p].open {
      var a := StampComesFrom(log, p);
    }
    forall a | && 0 <= a < p && log[a].Store? && NoStatus(log, a, p)
               && (forall k :: a < k < p ==> !log[k].Store?)
               && log[p].at - log[a].t0 < GATE
      ensures !log[p].open
    {
      var c := StampRead(log, a, p);
      assert !(a < c);
    }
  }

  /** Different sends belong to different calls. */
  lemma OneSendPerCall(log: Log, a: nat, b: nat)
    requires Interleaving(log) && a < |log| && b < |log| && log[a].Send? && log[b].Send?
    requires TestOf(log, a) == TestOf(log, b)
    ensures a == b
  {
    var s, t := log[a].store, log[b].store;
    assert EventOk(log, a) && EventOk(log, b) && EventOk(log, s) && EventOk(log, t);
  }

  // ----- Calls that do not overlap

  /** No other call tests between a call's test and its storing or sending. */
  ghost predicate Serial(log: Log)
    requires Interleaving(log)
  {
    && (forall s, j :: 0 <= s < |log| && log[s].Store? && log[s].test < j < s ==> !log[j].Test?)
    && (forall b, j :: 0 <= b < |log| && log[b].Send? && TestOf(log, b) < j < b ==> !log[j].Test?)
  }

  /** Calls read the clock in the order in which they reach the gate. */
  ghost predicate Ticking(log: Log) {
    forall i, j :: 0 <= i < j < |log| && log[i].Test? && log[j].Test? ==> log[i].t0 <= log[j].t0
  }

  /** Of two such calls the one that sends first has sent when the other one tests. */
  lemma SerialInTurn(log: Log, a: nat, b: nat)
    requires Interleaving(log) && Serial(log) && a < b < |log| && log[a].Send? && log[b].Send?
    ensures a < TestOf(log, b)
  {
    if TestOf(log, a) == TestOf(log, b) {
      OneSendPerCall(log, a, b);
    }
  }

  /** Such calls store in the order of their readings. */
  lemma SerialOrder(log: Log, s: nat, c: nat)
    requires Interleaving(log) && Serial(log) && Ticking(log)
    requires s <= c < |log| && log[s].Store? && log[c].Store?
    ensures log[s].t0 <= log[c].t0
  {
    assert EventOk(log, s) && EventOk(log, c);
    assert s < c ==> log[s].test <= log[c].test;
  }

  /** In a log of calls that do not overlap, with status events anywhere, two transmissions with no
      status since the first one's stamp was stored are 100 ms apart, less the longest time from a
      call's first reading to its sending. */
  lemma Spacing(log: Log, d: int)
    requires Interleaving(log) && Serial(log) && Ticking(log) && Prompt(log, d)
    ensures SpacedSinceStore(log, 100_000_000 - d)
    ensures Quiet(log) ==> Spaced(log, 100_000_000 - d)
  {
    forall a, b | Standing(log, a, b) ensures log[b].at - log[a].at >= GATE - d {
      SerialInTurn(log, a, b);
      var s, p := log[a].store, TestOf(log, b);
      assert TestOf(log, a) < s;
      var c := StampRead(log, s, p);
      SerialOrder(log, s, c);
    }
    if Quiet(log) {
      forall a, b | Unanswered(log, a, b) ensures log[b].at - log[a].at >= GATE - d {
        QuietStands(log, a, b);
      }
    }
  }

  // ----- Calls that overlap

  /** Every call that stored has sent. */
  ghost predicate Complete(log: Log) {
    forall s :: 0 <= s < |log| && log[s].Store? ==> exists b :: IsSendOf(log, b, s)
  }

  ghost predicate IsSendOf(log: Log, b: int, s: int) {
    0 <= b < |log| && log[b].Send? && log[b].store == s
  }

  /** Of two transmissions with no status between them, the second one's call reached the gate after
      the first one's had stored. */
  ghost predicate AllInTurn(log: Log)
    requires Interleaving(log)
  {
    forall a, b :: Unanswered(log, a, b) ==> log[a].store < TestOf(log, b)
  }

  /** If all take their turn, the call that stored last before `p` sends between the two. */
  lemma LatestSendsBetween(log: Log, a: nat, b: nat, c: nat) returns (e: nat)
    requires Interleaving(log) && Quiet(log) && Complete(log) && AllInTurn(log)
    requires Unanswered(log, a, b) && log[a].store < c < TestOf(log, b) && log[c].Store?
    ensures a < e < b && log[e].Send? && log[e].store == c
  {
    var f :| IsSendOf(log, f, c);
    e := f;
    assert TestOf(log, e) < c && TestOf(log, a) < log[a].store && TestOf(log, b) < log[b].store;
    if e < a {
      assert Unanswered(log, e, a);
    }
    if b < e {
      assert Unanswered(log, b, e);
    }
  }

  lemma SendsAfterTest(log: Log, d: int, e: nat)
    requires Interleaving(log) && Prompt(log, d) && e < |log| && log[e].Send?
    ensures log[TestOf(log, e)].at <= log[e].at <= ReadingOf(log, e) + d
    ensures TestOf(log, e) < log[e].store < e && log[log[e].store].t0 == ReadingOf(log, e)
  {
  }

  /** And so its gate opens only 100 ms past the first one's reading. */
  lemma {:induction false} InTurnOpens(log: Log, d: int, a: nat, b: nat)
    requires Interleaving(log) && Prompt(log, d) && d <= GATE && Quiet(log) && Complete(log) && AllInTurn(log)
    requires Unanswered(log, a, b)
    ensures log[TestOf(log, b)].at - ReadingOf(log, a) >= GATE
    decreases b
  {
    var s, p := log[a].store, TestOf(log, b);
    QuietStands(log, a, b);
    SendsAfterTest(log, d, a);
    SendsAfterTest(log, d, b);
    assert s < p;
    hide AllInTurn, Quiet, Complete, Prompt, ReadingOf;
    var c := StampRead(log, s, p);
    if s < c {
      var e := LatestSendsBetween(log, a, b, c);
      InTurnOpens(log, d, a, e);
      SendsAfterTest(log, d, e);
    }
  }

  /** Calls may overlap here, and store and send in any order, but no status comes between a call's
      storing and its sending. If each sends at most `d`, less than 50 ms, after it first read the
      clock, then all transmissions with no status between them are 100 ms less `d` apart exactly
      when, of any two of them, the second one's call reached the gate after the first one's stored. */
  lemma SpacingExactly(log: Log, d: int)
    requires Interleaving(log) && Quiet(log) && Complete(log) && Prompt(log, d) && 0 <= 2 * d < 100_000_000
    ensures Spaced(log, 100_000_000 - d) <==> AllInTurn(log)
  {
    forall a, b | AllInTurn(log) && Unanswered(log, a, b) ensures log[b].at - log[a].at >= GATE - d {
      InTurnOpens(log, d, a, b);
      assert log[TestOf(log, b)].at <= log[b].at;
    }
    forall a, b | Unanswered(log, a, b) && TestOf(log, b) <= log[a].store
      ensures log[b].at - log[a].at < GATE - d
    {
      assert TestOf(log, a) < log[a].store < a;
      assert log[TestOf(log, b)].at <= log[a].at;
    }
  }

  // ----- Logs, event by event

  lemma LogOne(log: Log, e: Event)
    requires Interleaving(log) && CanFollow(log, e)
    ensures Interleaving(log + [e]) && LastSent(log + [e]) == LastAfter(LastSent(log), e)
    ensures forall b :: 0 <= b < |log| && log[b].Send? ==> TestOf(log + [e], b) == TestOf(log, b)
  {
    var after := log + [e];
    assert after[..|log|] == log;
    forall i | 0 <= i < |log| ensures EventOk(after, i) {
      assert after[..i] == log[..i];
      assert EventOk(log, i);
    }
  }

  lemma EmptyLog()
    ensures Interleaving([]) && LastSent([]) == None
  {
  }

  // ----- One object's log, call by call

  /** What happens around one call: its two readings of the clock, when it stores and sends if its gate
      is open, and when status events arrive before its test, before it stores and before it sends. */
  datatype Call = Call(before: Option<int>, t0: int, t1: int, early: Option<int>, stored: int,
                       late: Option<int>, sent: int) {
    predicate Ordered() {
      && t0 <= t1 <= stored <= sent && (before.Some? ==> before.value <= t1)
      && (early.Some? ==> t1 <= early.value <= stored) && (late.Some? ==> stored <= late.value <= sent)
    }

    /** The call begins when the one before it has ended, and the clock stood at `now`. */
    predicate CanBegin(ended: int, now: int) {
      Ordered() && ended <= t0 && now <= t1 && (before.Some? ==> now <= before.value)
    }
  }

  function Arrival(status: Option<int>): Log {
    if status.Some? then [Status(status.value)] else []
  }

  /** The log with the call's test behind it. */
  function Tested(log: Log, call: Call, open: bool): Log {
    log + Arrival(call.before) + [Test(call.t0, call.t1, open)]
  }

  /** The log with a call behind it that passed the gate. */
  function Stored(log: Log, call: Call): Log {
    var tested := Tested(log, call, true);
    tested + Arrival(call.early) + [Store(|tested| - 1, call.t0, call.stored)]
  }

  function Passed(log: Log, call: Call): Log {
    var stored := Stored(log, call);
    stored + Arrival(call.late) + [Send(|stored| - 1, call.sent)]
  }

  function Longer(delay: nat, t0: int, sent: int): nat {
    if sent - t0 > delay then sent - t0 else delay
  }

  /** A log of calls one after the other, all of it before `now` and no reading of a call after `ended`,
      in which no call took longer than `delay` from its first reading to its sending. */
  ghost predicate Whole(log: Log, delay: nat, ended: int, now: int) {
    && Interleaving(log) && Serial(log) && Ticking(log) && Prompt(log, delay)
    && (forall i :: 0 <= i < |log| ==> log[i].at <= now)
    && (forall i :: 0 <= i < |log| && log[i].Test? ==> log[i].t0 <= ended)
  }

  lemma EmptyIsWhole(now: int)
    ensures Whole([], 0, now, now)
  {
  }

  /** What a new event needs so that the log stays one of calls one after the other. */
  ghost predicate InSequence(log: Log, e: Event)
    requires Interleaving(log) && CanFollow(log, e)
  {
    && (e.Store? ==> forall k :: e.test < k < |log| ==> !log[k].Test?)
    && (e.Send? ==> forall k :: log[e.store].test < k < |log| ==> !log[k].Test?)
  }

  lemma SerialNext(log: Log, e: Event)
    requires Interleaving(log) && Serial(log) && CanFollow(log, e) && InSequence(log, e)
    ensures Interleaving(log + [e]) && Serial(log + [e])
  {
    LogOne(log, e);
    hide Interleaving, CanFollow;
    var after := log + [e];
    forall s, j | 0 <= s < |after| && after[s].Store? && after[s].test < j < s ensures !after[j].Test? {
      assert s < |log| ==> log[s].Store?;
    }
    forall b, j | 0 <= b < |after| && after[b].Send? && TestOf(after, b) < j < b ensures !after[j].Test? {
      if b < |log| {
        assert log[b].Send? && TestOf(log, b) < j < b;
      }
    }
  }

  lemma PromptNext(log: Log, d: int, e: Event, longer: int)
    requires Interleaving(log) && Prompt(log, d) && CanFollow(log, e) && d <= longer
    requires forall i :: 0 <= i < |log| ==> log[i].at <= e.at
    requires e.Send? ==> e.at - log[e.store].t0 <= longer
    ensures Interleaving(log + [e]) && Prompt(log + [e], longer)
  {
    LogOne(log, e);
    hide Interleaving, CanFollow;
    var after := log + [e];
    forall b | 0 <= b < |after| && after[b].Send? ensures after[b].at - ReadingOf(after, b) <= longer {
      if b < |log| {
        assert ReadingOf(after, b) == ReadingOf(log, b);
      }
    }
  }

  lemma WholeNext(log: Log, delay: nat, ended: int, now: int, e: Event, longer: nat)
    requires Whole(log, delay, ended, now) && CanFollow(log, e) && InSequence(log, e)
    requires now <= e.at && delay <= longer && (e.Test? ==> ended <= e.t0)
    requires e.Send? ==> e.at - log[e.store].t0 <= longer
    ensures Whole(log + [e], longer, if e.Test? then e.t0 else ended, e.at)
    ensures LastSent(log + [e]) == LastAfter(LastSent(log), e)
  {
    LogOne(log, e);
    SerialNext(log, e);
    PromptNext(log, delay, e, longer);
    hide Interleaving, Serial, Prompt, LastSent, CanFollow;
  }

  /** Only status events stand behind position `p`. */
  ghost predicate QuietFrom(log: Log, p: nat) {
    forall k :: p < k < |log| ==> log[k].Status?
  }

  /** The call that tested last, at `p`, has not stored. */
  lemma CanStore(log: Log, p: nat, at: int)
    requires Interleaving(log) && p < |log| && QuietFrom(log, p) && log[p].Test? && log[p].open
    ensures var e := Store(p, log[p].t0, at); CanFollow(log, e) && InSequence(log, e)
  {
    forall k | 0 <= k < |log| && log[k].Store? ensures log[k].test != p {
      assert EventOk(log, k);
    }
  }

  /** The call that stored last, at `s`, has not sent. */
  lemma CanSend(log: Log, s: nat, at: int)
    requires Interleaving(log) && Serial(log) && s < |log| && QuietFrom(log, s) && log[s].Store?
    ensures var e := Send(s, at); CanFollow(log, e) && InSequence(log, e)
  {
    forall k | 0 <= k < |log| && log[k].Send? ensures log[k].store != s {
      assert EventOk(log, k);
    }
    forall k | log[s].test < k < |log| ensures !log[k].Test? {
      assert k < s || k == s || log[k].Status?;
    }
  }

  /** A status event, or none. */
  lemma LogArrival(log: Log, delay: nat, ended: int, now: int, status: Option<int>, next: int)
    requires Whole(log, delay, ended, now) && now <= next && (status.Some? ==> now <= status.value <= next)
    ensures var after := log + Arrival(status);
            Whole(after, delay, ended, next) && LastSent(after) == if status.Some? then None else LastSent(log)
  {
    if status.Some? {
      WholeNext(log, delay, ended, now, Status(status.value), delay);
    } else {
      assert log + Arrival(status) == log;
    }
    hide Interleaving, LastSent, Serial, Ticking, Prompt;
  }

  /** A call that is held back ends with its test. */
  lemma LogHeld(log: Log, delay: nat, ended: int, now: int, call: Call)
    requires Whole(log, delay, ended, now) && call.CanBegin(ended, now)
    ensures var seen := if call.before.Some? then None else LastSent(log);
            var open := !Closed(seen, call.t1);
            Whole(Tested(log, call, open), delay, call.t0, call.t1) && LastSent(Tested(log, call, open)) == seen
  {
    hide Whole, LastSent, InSequence;
    LogArrival(log, delay, ended, now, call.before, call.t1);
    var heard := log + Arrival(call.before);
    var e := Test(call.t0, call.t1, !Closed(LastSent(heard), call.t1));
    TestIsWhole(heard, delay, ended, call.t1, e);
  }

  lemma TestIsWhole(log: Log, delay: nat, ended: int, now: int, e: Event)
    requires Whole(log, delay, ended, now) && e.Test? && CanFollow(log, e) && now <= e.at && ended <= e.t0
    ensures Whole(log + [e], delay, e.t0, e.at) && LastSent(log + [e]) == LastSent(log)
  {
    hide LastSent;
    WholeNext(log, delay, ended, now, e, delay);
  }

  /** One that passes stores behind that. */
  lemma LogStored(log: Log, delay: nat, call: Call)
    requires var tested := Tested(log, call, true); Whole(tested, delay, call.t0, call.t1)
    requires call.Ordered()
    ensures Whole(Stored(log, call), delay, call.t0, call.stored) && LastSent(Stored(log, call)) == Some(call.t0)
  {
    hide LastSent, CanFollow, Interleaving, InSequence;
    var tested := Tested(log, call, true);
    var heard := tested + Arrival(call.early);
    LogArrival(tested, delay, call.t0, call.t1, call.early, call.stored);
    CanStore(heard, |tested| - 1, call.stored);
    WholeNext(heard, delay, call.t0, call.stored, Store(|tested| - 1, call.t0, call.stored), delay);
  }

  /** And sends behind that. */
  lemma LogPassed(log: Log, delay: nat, call: Call)
    requires var stored := Stored(log, call);
             Whole(stored, delay, call.t0, call.stored) && LastSent(stored) == Some(call.t0)
    requires call.Ordered()
    ensures Whole(Passed(log, call), Longer(delay, call.t0, call.sent), call.t0, call.sent)
    ensures LastSent(Passed(log, call)) == if call.late.Some? then None else Some(call.t0)
  {
    hide LastSent, CanFollow, Interleaving, InSequence;
    var stored := Stored(log, call);
    var heard := stored + Arrival(call.late);
    LogArrival(stored, delay, call.t0, call.stored, call.late, call.sent);
    CanSend(heard, |stored| - 1, call.sent);
    WholeNext(heard, delay, call.t0, call.sent, Send(|stored| - 1, call.sent), Longer(delay, call.t0, call.sent));
  }

  lemma WholeIsSpaced(log: Log, delay: nat, ended: int, now: int)
    requires Whole(log, delay, ended, now)
    ensures SpacedSinceStore(log, 100_000_000 - delay) && (Quiet(log) ==> Spaced(log, 100_000_000 - delay))
  {
    Spacing(log, delay);
  }

  // ----- Where the spacing fails

  const MS := 1_000_000

  lemma PassesWhole(log: Log, delay: nat, ended: int, now: int, call: Call)
    requires Whole(log, delay, ended, now) && call.CanBegin(ended, now) && call.before.None?
    requires !Closed(LastSent(log), call.t1)
    ensures Whole(Passed(log, call), Longer(delay, call.t0, call.sent), call.t0, call.sent)
    ensures LastSent(Passed(log, call)) == if call.late.Some? then None else Some(call.t0)
  {
    hide Whole, LastSent;
    LogHeld(log, delay, ended, now, call);
    LogStored(log, delay, call);
    LogPassed(log, delay, call);
  }

  /** A call with no status in it, at one moment but for its sending. */
  function Bare(t: int, sent: int): Call {
    Call(None, t, t, None, t, None, sent)
  }

  lemma PassedBare(log: Log, t: int, sent: int)
    ensures Passed(log, Bare(t, sent)) == log + [Test(t, t, true), Store(|log|, t, t), Send(|log| + 1, sent)]
  {
  }

  /** 100 ms are not kept, even by calls that do not overlap with no status anywhere: if the first one
      is delayed by `d` between reading the clock and sending, the second one follows after 100 ms
      less `d`. */
  lemma DelayShortensSpacing(d: nat)
    requires d <= 100_000_000
    ensures var t := 100_000_000;
            var log := [Test(0, 0, true), Store(0, 0, 0), Send(1, d), Test(t, t, true), Store(3, t, t), Send(4, t)];
            && Whole(log, d, t, t) && Quiet(log)
            && Unanswered(log, 2, 5) && log[5].at - log[2].at == 100_000_000 - d
  {
    EmptyIsWhole(0);
    EmptyLog();
    hide Whole, LastSent, Passed;
    var first := [Test(0, 0, true), Store(0, 0, 0), Send(1, d)];
    PassesWhole([], 0, 0, 0, Bare(0, d));
    PassedBare([], 0, d);
    assert [] + first == first;
    PassesWhole(first, d, 0, d, Bare(GATE, GATE));
    PassedBare(first, GATE, GATE);
    assert first + [Test(GATE, GATE, true), Store(3, GATE, GATE), Send(4, GATE)] ==
           [Test(0, 0, true), Store(0, 0, 0), Send(1, d), Test(GATE, GATE, true), Store(3, GATE, GATE), Send(4, GATE)];
  }

  /** The second of three calls one after the other: the first one's status comes when it has stored. */
  const INSIDE: Call := Call(None, 150 * MS, 150 * MS, None, 150 * MS, Some(150 * MS), 150 * MS)
  const FIRST: Log := [Test(0, 0, true), Store(0, 0, 0), Send(1, 0)]
  const SECOND: Log := FIRST + [
    Test(150 * MS, 150 * MS, true), Store(3, 150 * MS, 150 * MS), Status(150 * MS), Send(4, 150 * MS)]
  const ANSWERED_LATE: Log := SECOND + [
    Test(151 * MS, 151 * MS, true), Store(7, 151 * MS, 151 * MS), Send(8, 151 * MS)]

  lemma FirstIsWhole()
    ensures Whole(FIRST, 0, 0, 0) && LastSent(FIRST) == Some(0)
  {
    EmptyIsWhole(0);
    EmptyLog();
    hide Whole, LastSent, Passed;
    PassesWhole([], 0, 0, 0, Bare(0, 0));
    PassedBare([], 0, 0);
    assert [] + FIRST == FIRST;
  }

  lemma SecondIsWhole()
    ensures Whole(SECOND, 0, 150 * MS, 150 * MS) && LastSent(SECOND) == None
  {
    hide Whole, LastSent;
    FirstIsWhole();
    PassesWhole(FIRST, 0, 0, 0, INSIDE);
    assert Stored(FIRST, INSIDE) == FIRST + [Test(150 * MS, 150 * MS, true), Store(3, 150 * MS, 150 * MS)];
    assert Passed(FIRST, INSIDE) == SECOND;
  }

  lemma AnsweredLateIsWhole()
    ensures Whole(ANSWERED_LATE, 0, 151 * MS, 151 * MS)
  {
    hide Whole, LastSent, Passed;
    SecondIsWhole();
    PassesWhole(SECOND, 0, 150 * MS, 150 * MS, Bare(151 * MS, 151 * MS));
    PassedBare(SECOND, 151 * MS, 151 * MS);
  }

  lemma AnsweredLateIsComplete()
    ensures Complete(ANSWERED_LATE)
    ensures Unanswered(ANSWERED_LATE, 6, 9) && ANSWERED_LATE[9].at - ANSWERED_LATE[6].at == MS
    ensures ANSWERED_LATE[7].Test? && ANSWERED_LATE[7].open && !Quiet(ANSWERED_LATE)
  {
    var log := ANSWERED_LATE;
    assert IsSendOf(log, 2, 1) && IsSendOf(log, 6, 4) && IsSendOf(log, 9, 8);
    assert log[5].Status? && log[6].Send? && log[6].store == 4;
  }

  lemma SerialAllInTurn(log: Log)
    requires Interleaving(log) && Serial(log)
    ensures AllInTurn(log)
  {
    forall a, b | Unanswered(log, a, b) ensures log[a].store < TestOf(log, b) {
      assert TestOf(log, a) < log[a].store < a;
      SerialInTurn(log, a, b);
    }
  }

  /** A status that comes between a call's storing and its sending breaks the spacing for calls that do
      not overlap, take their turn and have no delay: the status of the frame before clears the stamp
      of the frame about to go out, and the next call follows it after 1 ms with no status between. */
  lemma StatusInsideBreaksSpacing()
    ensures Whole(ANSWERED_LATE, 0, 151_000_000, 151_000_000) && Complete(ANSWERED_LATE) && AllInTurn(ANSWERED_LATE)
    ensures Unanswered(ANSWERED_LATE, 6, 9) && ANSWERED_LATE[9].at - ANSWERED_LATE[6].at == 1_000_000
    ensures ANSWERED_LATE[7].Test? && ANSWERED_LATE[7].open && !Quiet(ANSWERED_LATE)
  {
    AnsweredLateIsWhole();
    AnsweredLateIsComplete();
    hide Interleaving, Serial, Ticking, Prompt, Complete, AllInTurn, Quiet, Unanswered;
    SerialAllInTurn(ANSWERED_LATE);
  }

  lemma TwoPass(a: int, b: int)
    ensures var log := [Test(a, a, true), Test(b, b, true)]; Interleaving(log) && LastSent(log) == None
  {
    hide LastSent, Interleaving;
    EmptyLog();
    LogOne([], Test(a, a, true));
    assert [] + [Test(a, a, true)] == [Test(a, a, true)];
    LogOne([Test(a, a, true)], Test(b, b, true));
    assert [Test(a, a, true)] + [Test(b, b, true)] == [Test(a, a, true), Test(b, b, true)];
  }

  /** Two calls pass the gate together, the first one stores and sends last. */
  function Overlap(a: int, b: int, storeB: int, sendB: int, storeA: int, sendA: int): Log {
    [Test(a, a, true), Test(b, b, true), Store(1, b, storeB), Send(2, sendB), Store(0, a, storeA), Send(4, sendA)]
  }

  lemma OverlapInterleaves(a: int, b: int, storeB: int, sendB: int, storeA: int, sendA: int)
    ensures var log := Overlap(a, b, storeB, sendB, storeA, sendA);
            && Interleaving(log) && LastSent(log) == Some(a) && Quiet(log) && Complete(log)
            && TestOf(log, 3) == 1 && TestOf(log, 5) == 0
            && Unanswered(log, 3, 5) && !AllInTurn(log)
  {
    hide LastSent, Interleaving;
    var log := [Test(a, a, true), Test(b, b, true)];
    TwoPass(a, b);
    LogOne(log, Store(1, b, storeB));
    var l3 := log + [Store(1, b, storeB)];
    LogOne(l3, Send(2, sendB));
    var l4 := l3 + [Send(2, sendB)];
    LogOne(l4, Store(0, a, storeA));
    var l5 := l4 + [Store(0, a, storeA)];
    LogOne(l5, Send(4, sendA));
    var all := Overlap(a, b, storeB, sendB, storeA, sendA);
    assert l5 + [Send(4, sendA)] == all;
    assert IsSendOf(all, 3, 2) && IsSendOf(all, 5, 4);
    assert Unanswered(all, 3, 5) && TestOf(all, 5) == 0;
  }

  /** Calls that overlap break the spacing: both test before either stores, and they send 1 ns apart. */
  lemma OverlapBreaksSpacing()
    ensures var log := Overlap(0, 1, 1, 1, 2, 2);
            && Interleaving(log) && Quiet(log) && Complete(log) && Prompt(log, 2)
            && Unanswered(log, 3, 5) && log[5].at - log[3].at == 1
  {
    OverlapInterleaves(0, 1, 1, 1, 2, 2);
    hide Interleaving, LastSent, CanFollow, Quiet, Complete, AllInTurn;
  }

  /** With delays of 50 ms and more the spacing no longer tells: two calls that overlap can be as far
      apart as two that do not. */
  lemma SlowCallsHideOverlap(d: nat)
    requires 100_000_000 <= 2 * d
    ensures var log := Overlap(0, 0, 0, 0, 0, d);
            && Interleaving(log) && Quiet(log) && Complete(log) && Prompt(log, d)
            && Spaced(log, 100_000_000 - d) && !AllInTurn(log)
  {
    hide Interleaving;
    OverlapInterleaves(0, 0, 0, 0, 0, d);
  }

  /** One call reads the clock at 0 and stores behind another that read it at 50 ms. */
  const INVERTING: Log := Overlap(0, 50 * MS, 55 * MS, 55 * MS, 60 * MS, 60 * MS)
  const INVERTED: Log :=
    INVERTING + [Test(100 * MS, 100 * MS, true)] + [Store(6, 100 * MS, 100 * MS)] + [Send(7, 100 * MS)]

  lemma InvertedInterleaves()
    ensures Interleaving(INVERTED)
    ensures TestOf(INVERTED, 3) == 1 && TestOf(INVERTED, 5) == 0 && TestOf(INVERTED, 8) == 6
  {
    hide LastSent, Interleaving;
    OverlapInterleaves(0, 50 * MS, 55 * MS, 55 * MS, 60 * MS, 60 * MS);
    var l7 := INVERTING + [Test(100 * MS, 100 * MS, true)];
    LogOne(INVERTING, Test(100 * MS, 100 * MS, true));
    LogOne(l7, Store(6, 100 * MS, 100 * MS));
    LogOne(l7 + [Store(6, 100 * MS, 100 * MS)], Send(7, 100 * MS));
  }

  /** An older stamp that is stored later opens the gate too early, even for a call that overlaps none:
      its gate reads the clock 50 ms past a stamp that no status answered, and it sends 40 ms after
      the newest transmission. */
  lemma InversionBreaksSpacing()
    ensures Interleaving(INVERTED) && Quiet(INVERTED) && Prompt(INVERTED, 60_000_000) && !AllInTurn(INVERTED)
    ensures Unanswered(INVERTED, 3, 8) && INVERTED[3].store < TestOf(INVERTED, 8)
    ensures INVERTED[6].at - ReadingOf(INVERTED, 3) == 50_000_000
    ensures Unanswered(INVERTED, 5, 8) && INVERTED[8].at - INVERTED[5].at == 40_000_000
  {
    InvertedInterleaves();
    hide Interleaving, LastSent, CanFollow;
    assert Unanswered(INVERTED, 3, 5);
  }
}
