/** Sender-scoped express lanes (crates/cs-mail-capabilities/src/lib.rs): a recipient's signed grant
    plus a rate-limited allowance. Authorization consumes nothing; consumption is the only way the
    allowance moves, one version at a time. */
module Lanes {
  import opened Wrappers
  import opened Primitives
  import opened DomainNames

  datatype Subject = Native(handle: nat) | LegacyDomain(domain: string) | GuestMailbox(identity: Identity)
  datatype Mode = Expiring | Persistent
  datatype AuthorityConstraint = NativeOnly | LegacyOnly | GuestOnly

  datatype Grant = Grant(
    id: LaneId, subject: Subject, sender: Identity, recipient: Identity, protocolVersion: nat,
    deployment: nat, provider: nat, recipientKey: KeyRef, purpose: Purpose, origin: Option<OriginMode>,
    authority: AuthorityConstraint, lifetime: U64, maxMessages: nat, interval: U64, mode: Mode,
    issuedAt: Time, notBefore: Time, notAfter: Time, version: U64)

  datatype LaneState = Active | AwaitingReconfirmation | Expired | Revoked

  datatype Lane = Lane(
    grant: Grant, state: LaneState, lastActivity: Time, horizonAt: Time, windowStart: Time,
    inWindow: nat, version: U64, admitted: set<MessageId>)

  datatype VerifiedDomain = VerifiedDomain(author: string, evaluatedAt: Time)

  datatype Evidence =
    | NativeEvidence(handle: nat)
    | LegacyEvidence(laneDomain: string, verification: VerifiedDomain)
    | GuestEvidence(identity: Identity)

  datatype LaneError = InvalidGrant | InvalidDeclaration | ScopeMismatch | NotAuthorized
                     | RateLimitExceeded | ArithmeticOverflow

  function Min(a: U64, b: U64): U64 {
    if a <= b then a else b
  }

  predicate ConstraintMatches(c: AuthorityConstraint, a: DeclarationAuthority) {
    match c
    case NativeOnly => a.NativeSender?
    case LegacyOnly => a.LegacyGateway? || a.GuestSmtp?
    case GuestOnly => a.GuestGateway? || a.GuestSmtp?
  }

  predicate ValidGrant(g: Grant) {
    && ValidPurpose(g.purpose)
    && g.id != 0 && g.sender != 0 && g.recipient != 0 && g.provider != 0 && g.recipientKey != 0
    && (g.subject.GuestMailbox? ==> g.subject.identity != 0 && g.subject.identity == g.sender)
    && g.lifetime != 0 && g.protocolVersion != 0 && g.maxMessages > 0 && g.interval > 0
    && g.issuedAt <= g.notBefore < g.notAfter
    && (match g.subject
        case Native(_) => g.authority == NativeOnly
        case LegacyDomain(_) => g.authority == LegacyOnly
        case GuestMailbox(_) => g.authority == GuestOnly)
    && (g.authority == LegacyOnly && g.origin.Some? ==> g.origin.value == LegacyOrUnspecified)
  }

  /** The stored-record validator. */
  predicate ValidLane(l: Lane) {
    var g := l.grant;
    && ValidGrant(g)
    && l.lastActivity + g.lifetime <= U64_MAX
    && g.issuedAt <= l.lastActivity < g.notAfter
    && g.issuedAt <= l.windowStart <= l.lastActivity
    && l.windowStart + g.interval <= U64_MAX
    && Min(l.lastActivity + g.lifetime, g.notAfter) <= l.horizonAt <= g.notAfter
    && (g.mode == Expiring ==> l.horizonAt == Min(l.lastActivity + g.lifetime, g.notAfter))
    && (l.state == AwaitingReconfirmation ==> g.mode == Expiring)
    && (l.state != Active ==> l.version != 0)
    && l.inWindow <= g.maxMessages
    && l.inWindow <= |l.admitted| <= l.version
    && (|l.admitted| > 0 ==> l.inWindow != 0)
    && 0 !in l.admitted
  }

  /** A lane in memory has passed its validator: the record's only public constructors check it. */
  type StoredLane = l: Lane | ValidLane(l)
    witness Lane(Grant(1, Native(0), 1, 2, 2, 0, 1, 1, Unspecified, None, NativeOnly, 1, 1, 1, Persistent, 0, 0, 1, 0),
                 Active, 0, 1, 0, 0, 0, {})

  function FromGrant(g: Grant): Result<Lane, LaneError> {
    if !ValidGrant(g) then Failure(InvalidGrant)
    else if g.issuedAt + g.lifetime > U64_MAX || g.issuedAt + g.interval > U64_MAX then Failure(ArithmeticOverflow)
    else Success(Lane(g, Active, g.issuedAt, Min(g.issuedAt + g.lifetime, g.notAfter), g.issuedAt, 0, 0, {}))
  }

  predicate IsCurrent(l: Lane, now: Time) {
    && l.state == Active
    && l.grant.notBefore <= now < l.grant.notAfter
    && (l.grant.mode == Expiring ==> now < l.horizonAt)
  }

  predicate EvidenceMatches(e: Evidence, s: Subject) {
    match (e, s)
    case (NativeEvidence(h), Native(expected)) => h == expected
    case (LegacyEvidence(domain, _), LegacyDomain(expected)) => domain == expected
    case (GuestEvidence(id), GuestMailbox(expected)) => id == expected
    case _ => false
  }

  /** Binding a verified author domain to a granted domain: only the domain itself or a subdomain. */
  function BindDomain(lane: string, verified: VerifiedDomain): Option<Evidence> {
    if IsSelfOrSubdomainOf(verified.author, lane) then Some(LegacyEvidence(lane, verified)) else None
  }

  function Authorizes(
    l: Lane, sender: Identity, recipient: Identity, capability: Option<LaneId>,
    declarations: Declarations, evidence: Evidence, now: Time): Result<(), LaneError>
  {
    var g := l.grant;
    if !ValidDeclarations(declarations) then Failure(InvalidDeclaration)
    else if || capability != Some(g.id) || declarations.purpose != g.purpose
            || (g.origin.Some? && g.origin.value != declarations.mode)
            || !ConstraintMatches(g.authority, declarations.authority)
    then Failure(ScopeMismatch)
    else if || sender != g.sender || recipient != g.recipient || !IsCurrent(l, now)
            || !EvidenceMatches(evidence, g.subject)
    then Failure(NotAuthorized)
    else Success(())
  }

  /** Success carries the next lane and whether the message had been admitted before. */
  function Consume(
    l: Lane, message: MessageId, capability: Option<LaneId>,
    declarations: Declarations, evidence: Evidence, now: Time): Result<(Lane, bool), LaneError>
  {
    var g := l.grant;
    var _ :- Authorizes(l, g.sender, g.recipient, capability, declarations, evidence, now);
    if message in l.admitted then Success((l, true))
    else if l.windowStart + g.interval > U64_MAX then Failure(ArithmeticOverflow)
    else if message == 0 || now < l.lastActivity then Failure(NotAuthorized)
    else if now >= l.windowStart + g.interval && now + g.interval > U64_MAX then Failure(ArithmeticOverflow)
    else
      var renewed := now >= l.windowStart + g.interval;
      var count := if renewed then 0 else l.inWindow;
      if count >= g.maxMessages then Failure(RateLimitExceeded)
      else if now + g.lifetime > U64_MAX || l.version + 1 > U64_MAX then Failure(ArithmeticOverflow)
      else Success((l.(windowStart := if renewed then now else l.windowStart, inWindow := count + 1,
                       lastActivity := now, horizonAt := Min(now + g.lifetime, g.notAfter),
                       version := l.version + 1, admitted := l.admitted + {message}), false))
  }

  /** What a spending does to the allowance: the message is new, and it is counted in the running window or opens
      the next one, within the granted maximum. */
  predicate Advances(before: Lane, after: Lane, message: MessageId, at: Time) {
    && after.grant == before.grant && message !in before.admitted && after.admitted == before.admitted + {message}
    && before.lastActivity <= at == after.lastActivity
    && (if at < before.windowStart + before.grant.interval
        then after.windowStart == before.windowStart && after.inWindow == before.inWindow + 1
        else after.windowStart == at && after.inWindow == 1)
    && after.inWindow <= after.grant.maxMessages
  }

  /** The whole effect of consuming: one new message, one version, the same grant, and a record the
      store accepts; or nothing at all for a message already admitted. */
  lemma ConsumeIsOneStep(
    l: Lane, message: MessageId, capability: Option<LaneId>, d: Declarations, e: Evidence, now: Time)
    requires ValidLane(l)
    requires Consume(l, message, capability, d, e, now).Success?
    ensures var (next, seen) := Consume(l, message, capability, d, e, now).value;
            && ValidLane(next) && next.grant == l.grant && next.state == l.state
            && (seen <==> message in l.admitted)
            && (seen ==> next == l)
            && (!seen ==> && CheckedNext(l.version) == Some(next.version)
                          && next.admitted == l.admitted + {message}
                          && |next.admitted| == |l.admitted| + 1)
    ensures message in Consume(l, message, capability, d, e, now).value.0.admitted
    ensures message !in l.admitted ==> Advances(l, Consume(l, message, capability, d, e, now).value.0, message, now)
  {
  }

  /** When a lane authorizes, over its own fields: everything the message declares is what was granted, by the kind of
      authority granted, between the people named, on the evidence granted, while the lane is in force. */
  lemma AuthorizesExactly(
    l: Lane, sender: Identity, recipient: Identity, capability: Option<LaneId>, d: Declarations, e: Evidence, now: Time)
    ensures Authorizes(l, sender, recipient, capability, d, e, now).Success? <==>
              && ValidDeclarations(d) && capability == Some(l.grant.id) && d.purpose == l.grant.purpose
              && (l.grant.origin == None || l.grant.origin == Some(d.mode))
              && (l.grant.authority == NativeOnly ==> d.authority.NativeSender?)
              && (l.grant.authority == LegacyOnly ==> d.authority.LegacyGateway? || d.authority.GuestSmtp?)
              && (l.grant.authority == GuestOnly ==> d.authority.GuestGateway? || d.authority.GuestSmtp?)
              && sender == l.grant.sender && recipient == l.grant.recipient
              && l.state == Active && l.grant.notBefore <= now < l.grant.notAfter
              && (l.grant.mode == Expiring ==> now < l.horizonAt)
              && (|| (e.NativeEvidence? && l.grant.subject == Native(e.handle))
                  || (e.LegacyEvidence? && l.grant.subject == LegacyDomain(e.laneDomain))
                  || (e.GuestEvidence? && l.grant.subject == GuestMailbox(e.identity)))
  {
  }

  /** A stored lane never mixes kinds: a native subject is written to by native senders alone, a domain or a guest
      never by one. */
  lemma KindsNeverMix(
    l: Lane, sender: Identity, recipient: Identity, capability: Option<LaneId>, d: Declarations, e: Evidence, now: Time)
    requires ValidLane(l) && Authorizes(l, sender, recipient, capability, d, e, now).Success?
    ensures d.authority.NativeSender? <==> l.grant.subject.Native? && e.NativeEvidence?
    ensures d.authority.LegacyGateway? ==> l.grant.subject.LegacyDomain? && e.LegacyEvidence?
    ensures d.authority.GuestGateway? ==> l.grant.subject.GuestMailbox? && e.GuestEvidence? && e.identity == sender
  {
  }

  /** What consuming asks beyond authorization, and the whole record it leaves: a message paid for before costs
      nothing, and a new one needs a name, a clock not before the last activity, and room in its window. */
  lemma ConsumeSucceedsExactly(
    l: Lane, message: MessageId, capability: Option<LaneId>, d: Declarations, e: Evidence, now: Time)
    requires ValidLane(l)
    ensures Consume(l, message, capability, d, e, now).Success? <==>
              && Authorizes(l, l.grant.sender, l.grant.recipient, capability, d, e, now).Success?
              && (message in l.admitted ||
                  (&& message != 0 && l.lastActivity <= now && now + l.grant.lifetime <= U64_MAX && l.version < U64_MAX
                   && (if now < l.windowStart + l.grant.interval then l.inWindow < l.grant.maxMessages
                       else now + l.grant.interval <= U64_MAX)))
    ensures Consume(l, message, capability, d, e, now).Success? && message !in l.admitted ==>
              var next := Consume(l, message, capability, d, e, now).value.0;
              && Advances(l, next, message, now) && next.state == l.state && next.version == l.version + 1
              && now <= next.horizonAt <= l.grant.notAfter
              && (next.horizonAt == now + l.grant.lifetime || next.horizonAt == l.grant.notAfter < now + l.grant.lifetime)
  {
  }

  /** A lane begins with its grant: active, unused, its first window open from the moment of issue. */
  lemma FromGrantExactly(g: Grant)
    ensures FromGrant(g).Success? <==>
              ValidGrant(g) && g.issuedAt + g.lifetime <= U64_MAX && g.issuedAt + g.interval <= U64_MAX
    ensures FromGrant(g).Success? ==>
              var l := FromGrant(g).value;
              && l.grant == g && l.state == Active && l.lastActivity == l.windowStart == g.issuedAt
              && l.inWindow == 0 && l.version == 0 && l.admitted == {}
              && (l.horizonAt == g.issuedAt + g.lifetime <= g.notAfter || l.horizonAt == g.notAfter < g.issuedAt + g.lifetime)
  {
  }

  /** A spent message stays spent: consuming it again while the lane authorizes changes nothing. */
  lemma ConsumeIsIdempotent(
    l: Lane, message: MessageId, capability: Option<LaneId>, d: Declarations, e: Evidence, now: Time, later: Time)
    requires ValidLane(l) && Consume(l, message, capability, d, e, now).Success?
    requires now <= later
    ensures var next := Consume(l, message, capability, d, e, now).value.0;
            && (IsCurrent(next, later) ==> Consume(next, message, capability, d, e, later) == Success((next, true)))
            && (!IsCurrent(next, later) ==> Consume(next, message, capability, d, e, later) == Failure(NotAuthorized))
  {
    ConsumeIsOneStep(l, message, capability, d, e, now);
  }

  // ---- the allowance over whole runs ----

  /** One message spent on a lane, and the lane it leaves. */
  datatype Payment = Payment(message: MessageId, at: Time, after: Lane)

  /** These payments were made on the lane one after the other. */
  predicate Paid(l: Lane, ps: seq<Payment>)
    decreases |ps|
  {
    ps == [] || (Advances(l, ps[0].after, ps[0].message, ps[0].at) && Paid(ps[0].after, ps[1..]))
  }

  function Last(l: Lane, ps: seq<Payment>): Lane {
    if ps == [] then l else ps[|ps| - 1].after
  }

  function InWindow(ps: seq<Payment>, start: Time): nat
    decreases |ps|
  {
    if ps == [] then 0 else (if ps[0].after.windowStart == start then 1 else 0) + InWindow(ps[1..], start)
  }

  predicate Between(p: Payment, start: Time, length: nat) {
    start <= p.at < start + length
  }

  function InSpan(ps: seq<Payment>, start: Time, length: nat): nat
    decreases |ps|
  {
    if ps == [] then 0 else (if Between(ps[0], start, length) then 1 else 0) + InSpan(ps[1..], start, length)
  }

  /** No message is paid for twice. */
  lemma {:induction false} MessagesArePaidOnce(l: Lane, ps: seq<Payment>)
    requires Paid(l, ps)
    ensures forall i :: 0 <= i < |ps| ==> ps[i].message !in l.admitted
    ensures forall i, j :: 0 <= i < j < |ps| ==> ps[i].message != ps[j].message
    decreases |ps|
  {
    if ps != [] {
      MessagesArePaidOnce(ps[0].after, ps[1..]);
      assert ps == [ps[0]] + ps[1..];
    }
  }

  lemma {:induction false} NoneBefore(l: Lane, ps: seq<Payment>, start: Time)
    requires Paid(l, ps) && l.windowStart <= l.lastActivity && start < l.windowStart
    ensures InWindow(ps, start) == 0
    decreases |ps|
  {
    if ps != [] { NoneBefore(ps[0].after, ps[1..], start); }
  }

  /** No window takes more than the granted maximum, what was already counted in the running one included. */
  lemma {:induction false} WindowsKeepTheLimit(l: Lane, ps: seq<Payment>, start: Time)
    requires Paid(l, ps) && l.windowStart <= l.lastActivity && l.inWindow <= l.grant.maxMessages && l.grant.interval > 0
    ensures InWindow(ps, start) + (if start == l.windowStart then l.inWindow else 0) <= l.grant.maxMessages
    decreases |ps|
  {
    if ps != [] {
      var next := ps[0].after;
      WindowsKeepTheLimit(next, ps[1..], start);
      if next.windowStart != l.windowStart && start == l.windowStart { NoneBefore(next, ps[1..], start); }
    }
  }

  /** How many more payments a lane can make within one interval from `start` on. A window opened inside the span is the
      last of it; one opened before leaves its remainder and one whole window, or, while it may still be replaced by
      another one opened before, all but the payment that opens that one. */
  function Room(l: Lane, start: Time): int {
    if l.lastActivity >= start + l.grant.interval then 0
    else if l.windowStart >= start then l.grant.maxMessages - l.inWindow
    else if l.lastActivity >= start then 2 * l.grant.maxMessages - l.inWindow
    else 2 * l.grant.maxMessages - if l.inWindow > 0 then 1 else 0
  }

  lemma {:induction false} SpanKeepsRoom(l: Lane, ps: seq<Payment>, start: Time)
    requires Paid(l, ps) && l.windowStart <= l.lastActivity
    requires l.inWindow <= l.grant.maxMessages && l.grant.maxMessages > 0 && l.grant.interval > 0
    ensures InSpan(ps, start, l.grant.interval) <= Room(l, start)
    decreases |ps|
  {
    if ps != [] { SpanKeepsRoom(ps[0].after, ps[1..], start); }
  }

  /** Whenever one looks, in any stretch of time as long as the granted interval a lane pays for at most twice its
      maximum, and for one less once it has been used: every later window is opened by a payment. */
  lemma AnySpanKeepsTwiceTheLimit(l: Lane, ps: seq<Payment>, start: Time)
    requires Paid(l, ps) && ValidLane(l)
    ensures InSpan(ps, start, l.grant.interval) <= 2 * l.grant.maxMessages - if l.inWindow > 0 then 1 else 0
  {
    SpanKeepsRoom(l, ps, start);
  }

  lemma {:induction false} PaidConcat(l: Lane, ps: seq<Payment>, more: seq<Payment>)
    requires Paid(l, ps) && Paid(Last(l, ps), more)
    ensures Paid(l, ps + more) && Last(l, ps + more) == Last(Last(l, ps), more)
    decreases |ps|
  {
    if ps == [] {
      assert ps + more == more;
    } else {
      assert (ps + more)[1..] == ps[1..] + more;
      PaidConcat(ps[0].after, ps[1..], more);
    }
  }

  // ---- runs of consuming ----

  datatype Use = Use(message: MessageId, capability: Option<LaneId>, declarations: Declarations, evidence: Evidence, at: Time)

  function Consumed(l: Lane, u: Use): Result<(Lane, bool), LaneError> {
    Consume(l, u.message, u.capability, u.declarations, u.evidence, u.at)
  }

  /** The payments a run of attempts makes; a refused one and a message already paid for make none. */
  function Payments(l: Lane, uses: seq<Use>): seq<Payment>
    decreases |uses|
  {
    if uses == [] then []
    else match Consumed(l, uses[0])
      case Success((next, false)) => [Payment(uses[0].message, uses[0].at, next)] + Payments(next, uses[1..])
      case _ => Payments(l, uses[1..])
  }

  lemma {:induction false} AttemptsArePayments(l: Lane, uses: seq<Use>)
    requires ValidLane(l)
    ensures Paid(l, Payments(l, uses)) && ValidLane(Last(l, Payments(l, uses)))
    decreases |uses|
  {
    if uses != [] {
      if Consumed(l, uses[0]).Success? && !Consumed(l, uses[0]).value.1 {
        var u, next := uses[0], Consumed(l, uses[0]).value.0;
        ConsumeIsOneStep(l, u.message, u.capability, u.declarations, u.evidence, u.at);
        AttemptsArePayments(next, uses[1..]);
        var rest := Payments(next, uses[1..]);
        assert Payments(l, uses) == [Payment(u.message, u.at, next)] + rest && Payments(l, uses)[1..] == rest;
      } else {
        AttemptsArePayments(l, uses[1..]);
      }
    }
  }

  /** Over any run of attempts on a stored lane, refused and repeated ones among them: no message is paid for twice,
      no window takes more than the maximum, and no stretch of one interval more than twice the maximum. */
  lemma LimitsHoldOverRuns(l: Lane, uses: seq<Use>, start: Time)
    requires ValidLane(l)
    ensures var ps := Payments(l, uses);
            && (forall i, j :: 0 <= i < j < |ps| ==> ps[i].message != ps[j].message)
            && (forall i :: 0 <= i < |ps| ==> ps[i].message !in l.admitted)
            && InWindow(ps, start) + (if start == l.windowStart then l.inWindow else 0) <= l.grant.maxMessages
            && InSpan(ps, start, l.grant.interval) <= 2 * l.grant.maxMessages - if l.inWindow > 0 then 1 else 0
  {
    AttemptsArePayments(l, uses);
    MessagesArePaidOnce(l, Payments(l, uses));
    WindowsKeepTheLimit(l, Payments(l, uses), start);
    AnySpanKeepsTwiceTheLimit(l, Payments(l, uses), start);
  }

  // ---- the limit is reached ----

  /** These messages one after the other, all as `u` says. */
  function Burst(ms: seq<MessageId>, u: Use): seq<Use>
    decreases |ms|
  {
    if ms == [] then [] else [u.(message := ms[0])] + Burst(ms[1..], u)
  }

  predicate MayUse(l: Lane, u: Use) {
    Authorizes(l, l.grant.sender, l.grant.recipient, u.capability, u.declarations, u.evidence, u.at).Success?
  }

  /** Messages the lane has not paid for, each named once. */
  predicate Unpaid(l: Lane, ms: seq<MessageId>) {
    && (forall i :: 0 <= i < |ms| ==> ms[i] != 0 && ms[i] !in l.admitted)
    && (forall i, j :: 0 <= i < j < |ms| ==> ms[i] != ms[j])
  }

  /** One more payment: in the running window, or opening the next one. */
  lemma OneIsPaid(l: Lane, u: Use)
    requires ValidGrant(l.grant) && MayUse(l, u) && u.message != 0 && u.message !in l.admitted && l.lastActivity <= u.at
    requires l.windowStart + l.grant.interval <= U64_MAX && l.version < U64_MAX && u.at + l.grant.lifetime <= U64_MAX
    requires if u.at < l.windowStart + l.grant.interval then l.inWindow < l.grant.maxMessages
             else u.at + l.grant.interval <= U64_MAX
    ensures Consumed(l, u).Success? && !Consumed(l, u).value.1
    ensures var next := Consumed(l, u).value.0;
            && MayUse(next, u) && Advances(l, next, u.message, u.at) && next.version == l.version + 1
            && next.state == l.state && next.horizonAt == Min(u.at + l.grant.lifetime, l.grant.notAfter)
  {
  }

  lemma PaymentsUnfold(l: Lane, u: Use, rest: seq<Use>)
    requires Consumed(l, u).Success? && !Consumed(l, u).value.1
    ensures var next := Consumed(l, u).value.0;
            && Payments(l, [u] + rest) == [Payment(u.message, u.at, next)] + Payments(next, rest)
            && Last(l, Payments(l, [u] + rest)) == Last(next, Payments(next, rest))
  {
    assert ([u] + rest)[1..] == rest;
  }

  lemma PaymentsSkip(l: Lane, u: Use, rest: seq<Use>)
    requires Consumed(l, u).Failure? || Consumed(l, u).value.1
    ensures Payments(l, [u] + rest) == Payments(l, rest)
  {
    assert ([u] + rest)[1..] == rest;
  }

  /** The lane a burst in the running window leaves. */
  ghost predicate AfterBurst(l: Lane, ms: seq<MessageId>, u: Use, last: Lane)
    requires u.at + l.grant.lifetime <= U64_MAX
  {
    && last.grant == l.grant && last.state == l.state && last.windowStart == l.windowStart
    && last.inWindow == l.inWindow + |ms| && last.version == l.version + |ms|
    && (forall m :: m in last.admitted <==> m in l.admitted || m in ms)
    && (if ms == [] then last == l
        else last.lastActivity == u.at && last.horizonAt == Min(u.at + l.grant.lifetime, l.grant.notAfter))
  }

  lemma OneMoreOfBurst(l: Lane, message: MessageId, rest: seq<MessageId>, u: Use, next: Lane, last: Lane)
    requires Advances(l, next, message, u.at) && next.version == l.version + 1 && next.state == l.state
    requires u.at < l.windowStart + l.grant.interval && u.at + l.grant.lifetime <= U64_MAX
    requires next.horizonAt == Min(u.at + l.grant.lifetime, l.grant.notAfter) && AfterBurst(next, rest, u, last)
    ensures AfterBurst(l, [message] + rest, u, last)
  {
  }

  /** A burst within the running window is paid to the last message. */
  lemma {:induction false} BurstIsPaid(l: Lane, ms: seq<MessageId>, u: Use)
    requires ValidGrant(l.grant) && MayUse(l, u) && Unpaid(l, ms) && l.lastActivity <= u.at < l.windowStart + l.grant.interval
    requires l.windowStart + l.grant.interval <= U64_MAX && u.at + l.grant.lifetime <= U64_MAX
    requires l.inWindow + |ms| <= l.grant.maxMessages && l.version + |ms| <= U64_MAX
    ensures var ps := Payments(l, Burst(ms, u));
            && |ps| == |ms| && (forall i :: 0 <= i < |ps| ==> ps[i].at == u.at)
            && AfterBurst(l, ms, u, Last(l, ps))
    decreases |ms|
  {
    if ms != [] {
      var first := u.(message := ms[0]);
      OneIsPaid(l, first);
      var next := Consumed(l, first).value.0;
      PaymentsUnfold(l, first, Burst(ms[1..], u));
      BurstIsPaid(next, ms[1..], u);
      assert ms == [ms[0]] + ms[1..];
      OneMoreOfBurst(l, ms[0], ms[1..], u, next, Last(l, Payments(l, Burst(ms, u))));
    }
  }

  lemma {:induction false} PaymentsConcat(l: Lane, a: seq<Use>, b: seq<Use>)
    ensures Payments(l, a + b) == Payments(l, a) + Payments(Last(l, Payments(l, a)), b)
    ensures Last(l, Payments(l, a + b)) == Last(Last(l, Payments(l, a)), Payments(Last(l, Payments(l, a)), b))
    decreases |a|
  {
    if a == [] {
      assert a + b == b;
    } else {
      assert a == [a[0]] + a[1..] && a + b == [a[0]] + (a[1..] + b);
      if Consumed(l, a[0]).Success? && !Consumed(l, a[0]).value.1 {
        PaymentsUnfold(l, a[0], a[1..]);
        PaymentsUnfold(l, a[0], a[1..] + b);
        PaymentsConcat(Consumed(l, a[0]).value.0, a[1..], b);
      } else {
        PaymentsSkip(l, a[0], a[1..]);
        PaymentsSkip(l, a[0], a[1..] + b);
        PaymentsConcat(l, a[1..], b);
      }
    }
  }

  lemma {:induction false} AllInSpan(ps: seq<Payment>, start: Time, length: nat)
    requires forall i :: 0 <= i < |ps| ==> Between(ps[i], start, length)
    ensures InSpan(ps, start, length) == |ps|
    decreases |ps|
  {
    if ps != [] { AllInSpan(ps[1..], start, length); }
  }

  /** A burst at the start of a new window is paid as far as a whole window goes. */
  lemma NextWindowIsPaid(l: Lane, ms: seq<MessageId>, u: Use)
    requires ValidGrant(l.grant) && MayUse(l, u) && Unpaid(l, ms) && |ms| == l.grant.maxMessages
    requires l.lastActivity <= u.at && l.windowStart + l.grant.interval <= u.at
    requires u.at + l.grant.interval <= U64_MAX && u.at + l.grant.lifetime <= U64_MAX && l.version + |ms| <= U64_MAX
    ensures var ps := Payments(l, Burst(ms, u)); |ps| == |ms| && forall i :: 0 <= i < |ps| ==> ps[i].at == u.at
  {
    var first := u.(message := ms[0]);
    OneIsPaid(l, first);
    PaymentsUnfold(l, first, Burst(ms[1..], u));
    BurstIsPaid(Consumed(l, first).value.0, ms[1..], u);
  }

  /** The remainder of a window spent in its last moment, and a whole window spent in the next one: of a fresh lane, twice
      the maximum within one interval; of one used once in its window, one less. */
  lemma BurstsFillASpan(l: Lane, ms: seq<MessageId>, more: seq<MessageId>, u: Use)
    requires ValidLane(l) && MayUse(l, u) && l.grant.interval > 1 && l.grant.lifetime > 1
    requires u.at == l.windowStart + l.grant.interval - 1 && l.lastActivity <= u.at && u.at + 1 < l.grant.notAfter
    requires |ms| == l.grant.maxMessages - l.inWindow > 0 && |more| == l.grant.maxMessages && Unpaid(l, ms + more)
    requires u.at + 1 + l.grant.interval <= U64_MAX && u.at + 1 + l.grant.lifetime <= U64_MAX
    requires l.version + |ms| + |more| <= U64_MAX
    ensures var uses := Burst(ms, u) + Burst(more, u.(at := u.at + 1));
            InSpan(Payments(l, uses), u.at, l.grant.interval) == 2 * l.grant.maxMessages - l.inWindow
  {
    var later := u.(at := u.at + 1);
    assert forall i :: 0 <= i < |ms| ==> ms[i] == (ms + more)[i];
    assert forall i :: 0 <= i < |more| ==> more[i] == (ms + more)[|ms| + i];
    BurstIsPaid(l, ms, u);
    var first := Payments(l, Burst(ms, u));
    var middle := Last(l, first);
    forall i | 0 <= i < |more| ensures more[i] !in ms {
      assert forall j :: 0 <= j < |ms| ==> (ms + more)[j] != (ms + more)[|ms| + i];
    }
    NextWindowIsPaid(middle, more, later);
    PaymentsConcat(l, Burst(ms, u), Burst(more, later));
    AllInSpan(first + Payments(middle, Burst(more, later)), u.at, l.grant.interval);
  }

  function Numbers(first: nat, count: nat): (ms: seq<MessageId>)
    ensures |ms| == count && forall i :: 0 <= i < count ==> ms[i] == first + i
  {
    seq(count, i requires 0 <= i < count => first + i)
  }

  /** So whatever maximum is granted, the bound is reached: by a valid lane as its grant makes it, and through attempts. */
  lemma TwiceIsReached(max: nat)
    requires 0 < 2 * max <= U64_MAX
    ensures exists l, uses :: && ValidLane(l) && l.grant.maxMessages == max && FromGrant(l.grant) == Success(l)
                              && InSpan(Payments(l, uses), l.windowStart + l.grant.interval - 1, l.grant.interval) == 2 * max
  {
    var g := Grant(1, Native(0), 1, 2, 2, 0, 1, 1, Unspecified, None, NativeOnly, 2, max, 2, Persistent, 0, 0, 9, 0);
    var l := FromGrant(g).value;
    var u := Use(0, Some(1), Declarations(Unspecified, HumanInitiated, NativeSender(1), None), NativeEvidence(0), 1);
    FromGrantIsValid(g);
    BurstsFillASpan(l, Numbers(1, max), Numbers(max + 1, max), u);
    var uses := Burst(Numbers(1, max), u) + Burst(Numbers(max + 1, max), u.(at := 2));
    assert InSpan(Payments(l, uses), l.windowStart + l.grant.interval - 1, l.grant.interval) == 2 * max;
  }

  lemma FromGrantIsValid(g: Grant)
    ensures FromGrant(g).Success? ==> ValidLane(FromGrant(g).value) && FromGrant(g).value.grant == g
  {
  }
}
