/** The bounded secret broker: capacity records, leases that can be read until they expire or
    close, and a clock that the broker reads but does not own. */
module SecretBroker {
  import opened Basics

  type Token = nat
  type Time = int

  datatype Lease = Lease(expiresAt: Time, closed: bool)

  /** `resolving` are the calls whose value is still being fetched; `purged` is the latest
      reading that expired records were dropped at. */
  datatype Broker = Broker(
    maxActive: nat, maxSeconds: nat, records: map<Token, Time>, nextToken: Token,
    resolving: map<Token, Time>, leases: map<Token, Lease>, purged: Option<Time>)

  function Fresh(maxActive: nat, maxSeconds: nat): Broker {
    Broker(maxActive, maxSeconds, map[], 1, map[], map[], None)
  }

  datatype Event =
    | LeaseEnters(now: Time, seconds: nat, representable: bool)   // the locked part of lease()
    | ResolveFails(token: Token)                                  // any failure, cancellation included
    | ResolveSucceeds(token: Token)
    | LeaseCloses(token: Token)

  predicate Enabled(s: Broker, e: Event) {
    match e
    case LeaseEnters(_, _, _) => true
    case ResolveFails(t) => t in s.resolving
    case ResolveSucceeds(t) => t in s.resolving
    case LeaseCloses(t) => t in s.leases
  }

  function Purge(records: map<Token, Time>, now: Time): map<Token, Time> {
    map t | t in records && records[t] > now :: records[t]
  }

  function Latest(purged: Option<Time>, now: Time): Time {
    if purged.Some? && purged.value > now then purged.value else now
  }

  function Enter(s: Broker, now: Time, seconds: nat, representable: bool): Broker {
    var t := s.(records := Purge(s.records, now), purged := Some(Latest(s.purged, now)));
    if |t.records| >= t.maxActive || !representable then t
    else
      var expiresAt := now + Min(seconds, t.maxSeconds);
      t.(
        records := t.records[t.nextToken := expiresAt],
        resolving := t.resolving[t.nextToken := expiresAt],
        nextToken := t.nextToken + 1)
  }

  function Take(s: Broker, e: Event): Broker
    requires Enabled(s, e)
  {
    match e
    case LeaseEnters(now, seconds, representable) => Enter(s, now, seconds, representable)
    case ResolveFails(t) => s.(resolving := s.resolving - {t}, records := s.records - {t})
    case ResolveSucceeds(t) =>
      s.(resolving := s.resolving - {t}, leases := s.leases[t := Lease(s.resolving[t], false)])
    case LeaseCloses(t) =>
      if s.leases[t].closed then s
      else s.(leases := s.leases[t := s.leases[t].(closed := true)], records := s.records - {t})
  }

  /** The leases whose value can still be read at `now`. */
  function Readable(s: Broker, now: Time): set<Token> {
    set t | t in s.leases && !s.leases[t].closed && now < s.leases[t].expiresAt
  }

  // ---------------------------------------------------------------- the invariant

  predicate Kept(s: Broker, t: Token, expiresAt: Time) {
    t in s.records && s.records[t] == expiresAt
  }

  /** Open leases and pending calls keep their record until a purge passed their expiry. */
  ghost predicate RecordsKept(s: Broker) {
    && (forall t :: t in s.resolving ==>
          Kept(s, t, s.resolving[t]) || (s.purged.Some? && s.resolving[t] <= s.purged.value))
    && (forall t :: t in s.leases && !s.leases[t].closed ==>
          Kept(s, t, s.leases[t].expiresAt) || (s.purged.Some? && s.leases[t].expiresAt <= s.purged.value))
  }

  /** Every record belongs to one pending call or one open lease; tokens are never reused. */
  ghost predicate TokensOwned(s: Broker) {
    && (forall t :: t in s.records ==> t in s.resolving || (t in s.leases && !s.leases[t].closed))
    && (forall t :: t in s.resolving ==> t !in s.leases && t < s.nextToken)
    && (forall t :: t in s.leases ==> t < s.nextToken)
  }

  ghost predicate Inv(s: Broker) {
    |s.records| <= s.maxActive && RecordsKept(s) && TokensOwned(s)
  }

  lemma SubmapSize(a: map<Token, Time>, b: map<Token, Time>)
    requires a.Keys <= b.Keys
    ensures |a| <= |b|
  {
    SubsetSize(a.Keys, b.Keys);
  }

  lemma {:induction false} SubsetSize(a: set<Token>, b: set<Token>)
    requires a <= b
    ensures |a| <= |b|
    decreases |a|
  {
    if a != {} {
      var x :| x in a;
      SubsetSize(a - {x}, b - {x});
    }
  }

  lemma PurgeInv(s: Broker, now: Time)
    requires Inv(s)
    ensures Inv(s.(records := Purge(s.records, now), purged := Some(Latest(s.purged, now))))
  {
    SubmapSize(Purge(s.records, now), s.records);
  }

  lemma AdmitInv(s: Broker, expiresAt: Time)
    requires Inv(s) && |s.records| < s.maxActive
    ensures Inv(s.(
      records := s.records[s.nextToken := expiresAt],
      resolving := s.resolving[s.nextToken := expiresAt],
      nextToken := s.nextToken + 1))
  {
    assert s.nextToken !in s.records;
  }

  lemma EnterInv(s: Broker, now: Time, seconds: nat, representable: bool)
    requires Inv(s)
    ensures Inv(Enter(s, now, seconds, representable))
  {
    hide Inv, Purge;
    var t := s.(records := Purge(s.records, now), purged := Some(Latest(s.purged, now)));
    PurgeInv(s, now);
    if |t.records| < t.maxActive {
      AdmitInv(t, now + Min(seconds, t.maxSeconds));
    }
  }

  lemma FailKept(s: Broker, t: Token)
    requires RecordsKept(s) && TokensOwned(s) && t in s.resolving
    ensures RecordsKept(Take(s, ResolveFails(t)))
  {
    var u := Take(s, ResolveFails(t));
    assert forall x :: x in s.records && x != t ==> x in u.records && u.records[x] == s.records[x];
  }

  lemma FailOwned(s: Broker, t: Token)
    requires TokensOwned(s) && t in s.resolving
    ensures TokensOwned(Take(s, ResolveFails(t)))
  {
  }

  lemma FailInv(s: Broker, t: Token)
    requires Inv(s) && t in s.resolving
    ensures Inv(Take(s, ResolveFails(t)))
  {
    hide RecordsKept, TokensOwned;
    FailKept(s, t);
    FailOwned(s, t);
    SubmapSize(s.records - {t}, s.records);
  }

  lemma SucceedInv(s: Broker, t: Token)
    requires Inv(s) && t in s.resolving
    ensures Inv(Take(s, ResolveSucceeds(t)))
  {
  }

  lemma CloseKept(s: Broker, t: Token)
    requires RecordsKept(s) && TokensOwned(s) && t in s.leases
    ensures RecordsKept(Take(s, LeaseCloses(t)))
  {
    var u := Take(s, LeaseCloses(t));
    assert forall x :: x in s.records && x != t ==> x in u.records && u.records[x] == s.records[x];
  }

  lemma CloseOwned(s: Broker, t: Token)
    requires TokensOwned(s) && t in s.leases
    ensures TokensOwned(Take(s, LeaseCloses(t)))
  {
  }

  lemma CloseInv(s: Broker, t: Token)
    requires Inv(s) && t in s.leases
    ensures Inv(Take(s, LeaseCloses(t)))
  {
    hide RecordsKept, TokensOwned;
    CloseKept(s, t);
    CloseOwned(s, t);
    SubmapSize(s.records - {t}, s.records);
  }

  lemma InvStep(s: Broker, e: Event)
    requires Inv(s) && Enabled(s, e)
    ensures Inv(Take(s, e))
  {
    hide Inv;
    if e.LeaseEnters? {
      EnterInv(s, e.now, e.seconds, e.representable);
    } else if e.ResolveFails? {
      FailInv(s, e.token);
    } else if e.ResolveSucceeds? {
      SucceedInv(s, e.token);
    } else {
      CloseInv(s, e.token);
    }
  }

  predicate Legal(s: Broker, events: seq<Event>)
    decreases |events|
  {
    events == [] || (Enabled(s, events[0]) && Legal(Take(s, events[0]), events[1..]))
  }

  function After(s: Broker, events: seq<Event>): Broker
    requires Legal(s, events)
    decreases |events|
  {
    if events == [] then s else After(Take(s, events[0]), events[1..])
  }

  lemma {:induction false} RunInv(s: Broker, events: seq<Event>)
    requires Inv(s) && Legal(s, events)
    ensures Inv(After(s, events))
    decreases |events|
  {
    hide Inv, Take;
    if events != [] {
      InvStep(s, events[0]);
      RunInv(Take(s, events[0]), events[1..]);
    }
  }

  ghost predicate Reachable(s: Broker) {
    exists maxActive, maxSeconds, events ::
      Legal(Fresh(maxActive, maxSeconds), events) && s == After(Fresh(maxActive, maxSeconds), events)
  }

  lemma ReachableInv(s: Broker)
    requires Reachable(s)
    ensures Inv(s)
  {
    var maxActive, maxSeconds, events :|
      Legal(Fresh(maxActive, maxSeconds), events) && s == After(Fresh(maxActive, maxSeconds), events);
    RunInv(Fresh(maxActive, maxSeconds), events);
  }

  // ---------------------------------------------------------------- the laws

  /** At any reading not before the latest purge, every readable lease has its record, so no
      more than the limit can be read at once. */
  lemma ReadableWithinLimit(s: Broker, now: Time)
    requires Reachable(s) && (s.purged.Some? ==> s.purged.value <= now)
    ensures |Readable(s, now)| <= |s.records| <= s.maxActive
  {
    ReachableInv(s);
    forall t | t in Readable(s, now) ensures t in s.records {
      assert Kept(s, t, s.leases[t].expiresAt);
    }
    SubsetSize(Readable(s, now), s.records.Keys);
  }

  lemma {:induction false} Extend(s: Broker, events: seq<Event>, e: Event)
    requires Legal(s, events) && Enabled(After(s, events), e)
    ensures Legal(s, events + [e]) && After(s, events + [e]) == Take(After(s, events), e)
    decreases |events|
  {
    hide Take, Enabled;
    if events == [] {
      assert [e][1..] == [] && events + [e] == [e];
    } else {
      Extend(Take(s, events[0]), events[1..], e);
      assert (events + [e])[1..] == events[1..] + [e];
    }
  }

  lemma FirstLease(now: Time)
    ensures Take(Fresh(1, 1), LeaseEnters(now, 1, true))
         == Broker(1, 1, map[1 := now + 1], 2, map[1 := now + 1], map[], Some(now))
  {
    assert Purge(map[], now) == map[];
  }

  lemma SecondLease(now: Time, purge: Time)
    requires now < purge
    ensures Take(Broker(1, 1, map[1 := now + 1], 2, map[], map[1 := Lease(now + 1, false)], Some(now)), LeaseEnters(purge, 1, true))
         == Broker(1, 1, map[2 := purge + 1], 3, map[2 := purge + 1], map[1 := Lease(now + 1, false)], Some(purge))
  {
    assert Purge(map[1 := now + 1], purge) == map[];
  }

  /** The condition is needed: for any two readings where the clock went back, a broker for
      one lease can have two readable ones. */
  lemma GoingBackBreaksTheLimit(now: Time, purge: Time) returns (s: Broker)
    requires now < purge
    ensures Reachable(s) && s.maxActive == 1 && s.purged == Some(purge)
    ensures Readable(s, now) == {1, 2}
  {
    hide Legal, After, Enter;
    var start := Fresh(1, 1);
    StartLegal(start);
    FirstLease(now);
    Extend(start, [], LeaseEnters(now, 1, true));
    var e1 := [] + [LeaseEnters(now, 1, true)];
    var s2 := Broker(1, 1, map[1 := now + 1], 2, map[], map[1 := Lease(now + 1, false)], Some(now));
    Extend(start, e1, ResolveSucceeds(1));
    var e2 := e1 + [ResolveSucceeds(1)];
    assert After(start, e2) == s2;
    SecondLease(now, purge);
    Extend(start, e2, LeaseEnters(purge, 1, true));
    var e3 := e2 + [LeaseEnters(purge, 1, true)];
    Extend(start, e3, ResolveSucceeds(2));
    s := After(start, e3 + [ResolveSucceeds(2)]);
    assert s.leases == map[1 := Lease(now + 1, false), 2 := Lease(purge + 1, false)];
  }

  lemma StartLegal(s: Broker)
    ensures Legal(s, []) && After(s, []) == s
  {
  }

  /** The token was released: no record, no pending call, no open lease. */
  predicate Gone(s: Broker, t: Token) {
    t < s.nextToken && t !in s.records && t !in s.resolving && (t in s.leases ==> s.leases[t].closed)
  }

  lemma GoneStep(s: Broker, e: Event, t: Token)
    requires Gone(s, t) && Enabled(s, e)
    ensures Gone(Take(s, e), t)
  {
  }

  /** No record outlives its lease call's failure or its lease's close, and none comes back. */
  lemma {:induction false} ReleasedForever(s: Broker, later: seq<Event>, t: Token)
    requires Gone(s, t) && Legal(s, later)
    ensures Gone(After(s, later), t)
    decreases |later|
  {
    hide Gone, Take;
    if later != [] {
      GoneStep(s, later[0], t);
      ReleasedForever(Take(s, later[0]), later[1..], t);
    }
  }

  lemma ReleaseReleases(s: Broker, e: Event, t: Token)
    requires Inv(s) && Enabled(s, e) && (e == ResolveFails(t) || e == LeaseCloses(t))
    ensures Gone(Take(s, e), t)
  {
  }

  lemma NoRecordAfterRelease(s: Broker, e: Event, t: Token, later: seq<Event>)
    requires Reachable(s) && Enabled(s, e) && (e == ResolveFails(t) || e == LeaseCloses(t)) && Legal(Take(s, e), later)
    ensures t !in After(Take(s, e), later).records
  {
    hide Take, Inv;
    ReachableInv(s);
    ReleaseReleases(s, e, t);
    ReleasedForever(Take(s, e), later, t);
  }

  // ---------------------------------------------------------------- the objects

  datatype Answer = SecretLeaseClosed | SecretExpired | ClockUnavailable | Value

  class BoundedSecretBroker {
    const maxActiveLeases: nat
    const maxLeaseSeconds: nat
    var records: map<Token, Time>
    var nextToken: Token

    constructor (maxActive: nat, maxSeconds: nat)
      ensures records == map[] && nextToken == 1 && maxActiveLeases == maxActive && maxLeaseSeconds == maxSeconds
    {
      maxActiveLeases, maxLeaseSeconds, records, nextToken := maxActive, maxSeconds, map[], 1;
    }

    /** The fields that the lock protects. */
    ghost function Locked(): Broker
      reads this
    {
      Broker(maxActiveLeases, maxLeaseSeconds, records, nextToken, map[], map[], None)
    }

    /** Drops what has expired, one token at a time. */
    method PurgeExpired(now: Time)
      modifies this`records
      ensures records == Purge(old(records), now)
    {
      var expired := set t | t in records && records[t] <= now;
      while expired != {}
        invariant expired <= records.Keys && records.Keys <= old(records).Keys
        invariant forall t :: t in records ==> records[t] == old(records)[t] && (t in expired <==> records[t] <= now)
        invariant forall t :: t in old(records) && old(records)[t] > now ==> t in records
        decreases |expired|
      {
        var token :| token in expired;
        records := records - {token};
        expired := expired - {token};
      }
    }

    /** The locked part of `lease`: the admitted token, unless the clock failed, the limit is
        reached or the expiry cannot be represented. */
    method Admit(now: Option<Time>, seconds: nat, representable: bool) returns (token: Option<Token>)
      modifies this
      ensures now == None ==> token == None && records == old(records) && nextToken == old(nextToken)
      ensures now.Some? ==>
                && records == Enter(old(Locked()), now.value, seconds, representable).records
                && nextToken == Enter(old(Locked()), now.value, seconds, representable).nextToken
      ensures token.Some? <==> nextToken == old(nextToken) + 1
      ensures token.Some? ==> token.value == old(nextToken)
    {
      if now == None {
        return None;
      }
      PurgeExpired(now.value);
      if |records| >= maxActiveLeases {
        return None;
      }
      var duration := Min(seconds, maxLeaseSeconds);
      if !representable {
        return None;
      }
      var expiresAt := now.value + duration;
      token := Some(nextToken);
      records := records[nextToken := expiresAt];
      nextToken := nextToken + 1;
    }

    method Release(token: Token)
      modifies this`records
      ensures records == old(records) - {token}
    {
      records := records - {token};
    }
  }

  class BoundedSecretLease {
    const broker: BoundedSecretBroker
    const token: Token
    const expiresAt: Time
    var closed: bool

    constructor (broker: BoundedSecretBroker, token: Token, expiresAt: Time)
      ensures this.broker == broker && this.token == token && this.expiresAt == expiresAt && !closed
    {
      this.broker, this.token, this.expiresAt, closed := broker, token, expiresAt, false;
    }

    /** Reading: the value comes out exactly while the lease is open and not yet expired. */
    method Read(now: Option<Time>) returns (answer: Answer)
      ensures answer == Value <==> !closed && now.Some? && now.value < expiresAt
      ensures answer == SecretLeaseClosed <==> closed
    {
      if closed {
        return SecretLeaseClosed;
      }
      if now == None {
        return ClockUnavailable;
      }
      if now.value >= expiresAt {
        return SecretExpired;
      }
      return Value;
    }

    /** Closing gives the record back, once. */
    method Close()
      modifies this, broker
      ensures closed
      ensures broker.nextToken == old(broker.nextToken)
      ensures broker.records == if old(closed) then old(broker.records) else old(broker.records) - {token}
    {
      if closed {
        return;
      }
      closed := true;
      broker.Release(token);
    }
  }
}
