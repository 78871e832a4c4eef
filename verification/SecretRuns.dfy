/** How long secret leases last: who is admitted, when each lease ends, and that a lease can be
    held, read and given back. */
module SecretRuns {
  import opened Basics
  import opened SecretBroker

  // ---------------------------------------------------------------- one call

  /** The tokens whose record has not yet expired. */
  function Unexpired(s: Broker, now: Time): set<Token> {
    set t | t in s.records && s.records[t] > now
  }

  function Shorter(a: nat, b: nat): (r: nat)
    ensures r <= a && r <= b && (r == a || r == b)
  {
    if a <= b then a else b
  }

  ghost predicate Admitted(s: Broker, now: Time, representable: bool) {
    |Unexpired(s, now)| < s.maxActive && representable
  }

  /** A call is admitted exactly when fewer records than the limit are unexpired and its expiry can
      be represented.  It drops the expired records, keeps the others and, if admitted, adds one
      under a new token, with the shorter of both durations from now. */
  lemma EntersExactly(s: Broker, now: Time, seconds: nat, representable: bool)
    ensures var u := Take(s, LeaseEnters(now, seconds, representable));
      && (forall t :: t in Unexpired(s, now) && t != s.nextToken ==> t in u.records && u.records[t] == s.records[t])
      && (Admitted(s, now, representable) ==>
            && u.records.Keys == Unexpired(s, now) + {s.nextToken}
            && u.records[s.nextToken] == now + Shorter(seconds, s.maxSeconds)
            && u.resolving == s.resolving[s.nextToken := u.records[s.nextToken]]
            && u.nextToken == s.nextToken + 1)
      && (!Admitted(s, now, representable) ==>
            u.records.Keys == Unexpired(s, now) && u.resolving == s.resolving && u.nextToken == s.nextToken)
      && u.leases == s.leases
  {
    var kept := Purge(s.records, now);
    assert kept.Keys == Unexpired(s, now);
    assert |kept| == |kept.Keys|;
  }

  /** Only an admitted call adds a record, only its success makes a lease, and neither is ever
      prolonged. */
  lemma GrantsExactly(s: Broker, e: Event, t: Token)
    requires Inv(s) && Enabled(s, e)
    ensures var u := Take(s, e);
      && (t in u.records && t !in s.records <==> e.LeaseEnters? && Admitted(s, e.now, e.representable) && t == s.nextToken)
      && (t in u.leases && t !in s.leases <==> e == ResolveSucceeds(t))
      && (t in u.records && t in s.records ==> u.records[t] == s.records[t])
      && (t in s.leases ==> t in u.leases && u.leases[t].expiresAt == s.leases[t].expiresAt)
      && (e == ResolveSucceeds(t) ==> u.leases[t] == Lease(s.resolving[t], false))
      && (t in s.leases && !s.leases[t].closed && u.leases[t].closed ==> e == LeaseCloses(t))
      && (t in s.records && t !in u.records ==>
            || (e.LeaseEnters? && s.records[t] <= e.now) || e == ResolveFails(t) || e == LeaseCloses(t))
  {
    hide Purge;
    assert s.nextToken !in s.records;
    if e.LeaseEnters? {
      EntersExactly(s, e.now, e.seconds, e.representable);
    }
  }

  // ---------------------------------------------------------------- all runs

  /** One of the calls asked for `expiresAt`. */
  ghost predicate Granted(events: seq<Event>, maxSeconds: nat, expiresAt: Time) {
    exists i :: 0 <= i < |events| && GrantedBy(events[i], maxSeconds, expiresAt)
  }

  predicate GrantedBy(e: Event, maxSeconds: nat, expiresAt: Time) {
    e.LeaseEnters? && expiresAt == e.now + Shorter(e.seconds, maxSeconds)
  }

  ghost predicate AllGranted(s: Broker, events: seq<Event>) {
    && (forall t :: t in s.resolving ==> Granted(events, s.maxSeconds, s.resolving[t]))
    && (forall t :: t in s.leases ==> Granted(events, s.maxSeconds, s.leases[t].expiresAt))
  }

  lemma GrantedLonger(events: seq<Event>, e: Event, maxSeconds: nat, expiresAt: Time)
    ensures Granted(events, maxSeconds, expiresAt) || GrantedBy(e, maxSeconds, expiresAt) ==> Granted(events + [e], maxSeconds, expiresAt)
  {
    var all := events + [e];
    if GrantedBy(e, maxSeconds, expiresAt) {
      assert GrantedBy(all[|events|], maxSeconds, expiresAt);
    } else if Granted(events, maxSeconds, expiresAt) {
      var i :| 0 <= i < |events| && GrantedBy(events[i], maxSeconds, expiresAt);
      assert GrantedBy(all[i], maxSeconds, expiresAt);
    }
  }

  lemma GrantedStep(s: Broker, before: seq<Event>, e: Event)
    requires Inv(s) && AllGranted(s, before) && Enabled(s, e)
    ensures AllGranted(Take(s, e), before + [e]) && Take(s, e).maxSeconds == s.maxSeconds
  {
    hide Take, Enabled, Inv, GrantedBy, Granted;
    var u := Take(s, e);
    LimitStays(s, e);
    forall t | t in u.resolving ensures Granted(before + [e], s.maxSeconds, u.resolving[t]) {
      GrantedLonger(before, e, s.maxSeconds, u.resolving[t]);
      PendingOrGranted(s, e, t);
    }
    forall t | t in u.leases ensures Granted(before + [e], s.maxSeconds, u.leases[t].expiresAt) {
      GrantedLonger(before, e, s.maxSeconds, u.leases[t].expiresAt);
      LeasedOrPending(s, e, t);
    }
  }

  lemma LimitStays(s: Broker, e: Event)
    requires Enabled(s, e)
    ensures Take(s, e).maxSeconds == s.maxSeconds
  {
    hide Purge;
  }

  lemma LeasedOrPending(s: Broker, e: Event, t: Token)
    requires Enabled(s, e) && t in Take(s, e).leases
    ensures || (t in s.leases && Take(s, e).leases[t].expiresAt == s.leases[t].expiresAt)
            || (t in s.resolving && Take(s, e).leases[t].expiresAt == s.resolving[t])
  {
    hide Purge;
  }

  lemma PendingOrGranted(s: Broker, e: Event, t: Token)
    requires Enabled(s, e) && t in Take(s, e).resolving
    ensures (t in s.resolving && Take(s, e).resolving[t] == s.resolving[t]) || GrantedBy(e, s.maxSeconds, Take(s, e).resolving[t])
  {
    hide Purge;
  }

  lemma {:induction false} GrantedRun(s: Broker, before: seq<Event>, events: seq<Event>)
    requires Inv(s) && AllGranted(s, before) && Legal(s, events)
    ensures AllGranted(After(s, events), before + events) && After(s, events).maxSeconds == s.maxSeconds
    decreases |events|
  {
    hide Inv, AllGranted, Take, Enabled;
    if events == [] {
      assert before + events == before;
    } else {
      InvStep(s, events[0]);
      GrantedStep(s, before, events[0]);
      GrantedRun(Take(s, events[0]), before + [events[0]], events[1..]);
      HeadAndTail(events);
      Associative(before, [events[0]], events[1..]);
    }
  }

  lemma FreshInv(maxActive: nat, maxSeconds: nat)
    ensures Inv(Fresh(maxActive, maxSeconds)) && AllGranted(Fresh(maxActive, maxSeconds), [])
  {
  }

  /** Every lease ends when the call that it came from asked for, or at the limit if that is
      sooner: counted from the reading at which it was admitted, whatever happened since. */
  lemma EveryLeaseWasGranted(maxActive: nat, maxSeconds: nat, events: seq<Event>, t: Token) returns (i: nat)
    requires Legal(Fresh(maxActive, maxSeconds), events) && t in After(Fresh(maxActive, maxSeconds), events).leases
    ensures i < |events| && events[i].LeaseEnters?
    ensures After(Fresh(maxActive, maxSeconds), events).leases[t].expiresAt
         == events[i].now + (if events[i].seconds <= maxSeconds then events[i].seconds else maxSeconds)
  {
    hide Legal, After, Inv;
    var s := Fresh(maxActive, maxSeconds);
    FreshInv(maxActive, maxSeconds);
    GrantedRun(s, [], events);
    assert [] + events == events;
    var expiresAt := After(s, events).leases[t].expiresAt;
    i :| 0 <= i < |events| && GrantedBy(events[i], maxSeconds, expiresAt);
  }

  predicate EnteredBy(events: seq<Event>, latest: Time) {
    forall i :: 0 <= i < |events| && events[i].LeaseEnters? ==> events[i].now <= latest
  }

  /** So nothing at all can be read once the longest lease time has passed since the last
      admission, closed or not. */
  lemma NothingOutlivesTheLimit(maxActive: nat, maxSeconds: nat, events: seq<Event>, latest: Time, now: Time)
    requires Legal(Fresh(maxActive, maxSeconds), events) && EnteredBy(events, latest) && latest + maxSeconds <= now
    ensures Readable(After(Fresh(maxActive, maxSeconds), events), now) == {}
  {
    hide Legal, After, Fresh;
    var s := After(Fresh(maxActive, maxSeconds), events);
    forall t | t in s.leases ensures s.leases[t].expiresAt <= now {
      var i := EveryLeaseWasGranted(maxActive, maxSeconds, events, t);
    }
  }

  // ---------------------------------------------------------------- holding leases

  /** `n` calls one after the other at one reading, each resolved. */
  function Leasing(now: Time, seconds: nat, n: nat): seq<Event> {
    if n == 0 then [] else Leasing(now, seconds, n - 1) + [LeaseEnters(now, seconds, true), ResolveSucceeds(n)]
  }

  function Numbers(n: nat): (r: set<Token>)
    ensures |r| == n && forall t: Token :: t in r <==> 1 <= t <= n
  {
    if n == 0 then {} else Numbers(n - 1) + {n}
  }

  function Records(n: nat, expiresAt: Time): (r: map<Token, Time>)
    ensures r.Keys == Numbers(n) && forall t :: t in r ==> r[t] == expiresAt
  {
    map t | t in Numbers(n) :: expiresAt
  }

  function Leases(n: nat, expiresAt: Time): (r: map<Token, Lease>)
    ensures r.Keys == Numbers(n) && forall t :: t in r ==> r[t] == Lease(expiresAt, false)
  {
    map t | t in Numbers(n) :: Lease(expiresAt, false)
  }

  /** The broker that holds the leases 1 to n. */
  function Holding(maxActive: nat, maxSeconds: nat, now: Time, expiresAt: Time, n: nat): Broker {
    Broker(
      maxActive, maxSeconds, Records(n, expiresAt), n + 1, map[], Leases(n, expiresAt), if n == 0 then None else Some(now))
  }

  lemma OneMore(n: nat, expiresAt: Time)
    ensures n + 1 !in Records(n, expiresAt)
    ensures Records(n, expiresAt)[n + 1 := expiresAt] == Records(n + 1, expiresAt)
    ensures Leases(n, expiresAt)[n + 1 := Lease(expiresAt, false)] == Leases(n + 1, expiresAt)
    ensures |Records(n, expiresAt)| == n
  {
    assert |Records(n, expiresAt)| == |Records(n, expiresAt).Keys|;
  }

  lemma NothingExpired(records: map<Token, Time>, now: Time)
    requires forall t :: t in records ==> records[t] > now
    ensures Purge(records, now) == records
  {
  }

  lemma EntersOnce(maxActive: nat, maxSeconds: nat, now: Time, seconds: nat, n: nat)
    requires n < maxActive && 0 < seconds && 0 < maxSeconds
    ensures var expiresAt := now + Shorter(seconds, maxSeconds);
      var s := Holding(maxActive, maxSeconds, now, expiresAt, n);
      Enabled(s, LeaseEnters(now, seconds, true))
      && Take(s, LeaseEnters(now, seconds, true))
      == s.(records := Records(n + 1, expiresAt), resolving := map[n + 1 := expiresAt], nextToken := n + 2, purged := Some(now))
  {
    hide Purge, Records, Leases, Numbers;
    var expiresAt := now + Shorter(seconds, maxSeconds);
    OneMore(n, expiresAt);
    NothingExpired(Records(n, expiresAt), now);
  }

  lemma ResolvesOnce(s: Broker, u: Broker, t: Token, expiresAt: Time)
    requires s.resolving == map[t := expiresAt]
    requires u == s.(resolving := map[], leases := s.leases[t := Lease(expiresAt, false)])
    ensures Enabled(s, ResolveSucceeds(t)) && Take(s, ResolveSucceeds(t)) == u
  {
    assert s.resolving - {t} == map[];
  }

  lemma HoldsOneMore(maxActive: nat, maxSeconds: nat, now: Time, seconds: nat, n: nat)
    requires n < maxActive && 0 < seconds && 0 < maxSeconds
    ensures var expiresAt := now + Shorter(seconds, maxSeconds);
      var s := Holding(maxActive, maxSeconds, now, expiresAt, n);
      && Enabled(s, LeaseEnters(now, seconds, true))
      && var entered := Take(s, LeaseEnters(now, seconds, true));
      && Enabled(entered, ResolveSucceeds(n + 1))
      && Take(entered, ResolveSucceeds(n + 1)) == Holding(maxActive, maxSeconds, now, expiresAt, n + 1)
  {
    hide Take, Enabled, Records, Leases, Numbers;
    var expiresAt := now + Shorter(seconds, maxSeconds);
    var s := Holding(maxActive, maxSeconds, now, expiresAt, n);
    EntersOnce(maxActive, maxSeconds, now, seconds, n);
    OneMore(n, expiresAt);
    ResolvesOnce(
      Take(s, LeaseEnters(now, seconds, true)), Holding(maxActive, maxSeconds, now, expiresAt, n + 1), n + 1, expiresAt);
  }

  lemma {:induction false} HoldsAll(maxActive: nat, maxSeconds: nat, now: Time, seconds: nat, n: nat)
    requires n <= maxActive && 0 < seconds && 0 < maxSeconds
    ensures Legal(Fresh(maxActive, maxSeconds), Leasing(now, seconds, n))
    ensures After(Fresh(maxActive, maxSeconds), Leasing(now, seconds, n))
         == Holding(maxActive, maxSeconds, now, now + Shorter(seconds, maxSeconds), n)
  {
    hide Take, Enabled, Holding;
    var start := Fresh(maxActive, maxSeconds);
    if n == 0 {
      HoldsNone(maxActive, maxSeconds, now, now + Shorter(seconds, maxSeconds));
    } else {
      var before, enters, resolves := Leasing(now, seconds, n - 1), LeaseEnters(now, seconds, true), ResolveSucceeds(n);
      HoldsAll(maxActive, maxSeconds, now, seconds, n - 1);
      HoldsOneMore(maxActive, maxSeconds, now, seconds, n - 1);
      hide Legal, After;
      SecretBroker.Extend(start, before, enters);
      SecretBroker.Extend(start, before + [enters], resolves);
      assert before + [enters] + [resolves] == before + [enters, resolves];
    }
  }

  lemma HoldsNone(maxActive: nat, maxSeconds: nat, now: Time, expiresAt: Time)
    ensures Holding(maxActive, maxSeconds, now, expiresAt, 0) == Fresh(maxActive, maxSeconds)
  {
  }

  /** As many leases as the limit allows can be held at once; all of them are readable until the
      second at which they end, and none from then on. */
  lemma LimitCanBeHeld(maxActive: nat, maxSeconds: nat, now: Time, seconds: nat, later: Time)
    requires 0 < seconds && 0 < maxSeconds
    ensures var events := Leasing(now, seconds, maxActive);
      && Legal(Fresh(maxActive, maxSeconds), events)
      && var s := After(Fresh(maxActive, maxSeconds), events);
      && |Readable(s, later)| == (if later < now + (if seconds <= maxSeconds then seconds else maxSeconds) then maxActive else 0)
  {
    hide Legal, After, Leasing;
    HoldsAll(maxActive, maxSeconds, now, seconds, maxActive);
    var s := Holding(maxActive, maxSeconds, now, now + Shorter(seconds, maxSeconds), maxActive);
    if later < now + Shorter(seconds, maxSeconds) {
      assert Readable(s, later) == Numbers(maxActive);
    } else {
      assert Readable(s, later) == {};
    }
  }
}
