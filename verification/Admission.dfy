/** Receiving-route admission (crates/cs-mail-application/src/aliases.rs): may this sender write to this
    address, now? An authorization names the permission it rests on; anything else is held, priced as a
    request, or refused. */
module Admission {
  import opened Wrappers
  import opened Primitives
  import opened AliasErrors
  import A = Aliases
  import P = Permission
  import L = Lanes
  import C = AliasCommands
  import S = AliasStore
  import D = DomainNames

  /** Five minutes, in milliseconds. */
  const DOMAIN_EVIDENCE_AGE: nat := 300_000

  datatype Authentication = Authenticated(sender: Identity) | Uncertain

  datatype Basis =
    | AliasLane(permissionRevision: U64)
    | PairedSender(id: LaneId, version: U64, permissionRevision: U64)
    | Standing(version: U64)
    | SenderLane(id: LaneId, version: U64)

  datatype Authorization = Authorization(
    alias: AliasId, aliasRevision: U64, sender: Identity, recipient: Identity, conversation: ConversationId,
    authorizedAt: Time, basis: Basis, paired: Option<(L.Lane, L.Evidence)>)

  datatype RouteDecision = Authorize(authorization: Authorization) | Hold | Request | Refuse(error: AliasError)

  datatype Context = Context(
    alias: A.Alias, authentication: Authentication, relationship: Option<Relationship>,
    senderScope: Option<C.SenderScope>, lane: Option<L.Lane>, declarations: Declarations,
    laneEvidence: Option<L.Evidence>, domainEvidence: Option<L.VerifiedDomain>, covered: bool,
    reviewRequired: bool, conversation: ConversationId)

  // ---- sender lanes paired with the alias ----

  /** The evidence one lane may be checked against, or None to skip it. */
  function PairedEvidence(c: Context, lane: L.Lane, sender: Identity, at: Time): Option<L.Evidence> {
    match lane.grant.subject
    case LegacyDomain(domain) =>
      if c.domainEvidence.None? then None
      else
        var verified := c.domainEvidence.value;
        if verified.evaluatedAt > at || at - verified.evaluatedAt > DOMAIN_EVIDENCE_AGE then None
        else L.BindDomain(domain, verified)
    case _ => if lane.grant.sender == sender then c.laneEvidence else None
  }

  predicate PairedAuthorizes(c: Context, lane: L.Lane, evidence: L.Evidence, at: Time) {
    L.Authorizes(lane, lane.grant.sender, c.alias.owner, Some(lane.grant.id), c.declarations, evidence, at).Success?
  }

  /** Is this lane one the sender may use now? Said without the loop. */
  predicate PairedLive(c: Context, lane: L.Lane, sender: Identity, at: Time) {
    && L.IsCurrent(lane, at) && lane.grant.recipient == c.alias.owner
    && PairedEvidence(c, lane, sender, at).Some?
    && PairedAuthorizes(c, lane, PairedEvidence(c, lane, sender, at).value, at)
  }

  function FirstPaired(c: Context, lanes: seq<L.Lane>, sender: Identity, at: Time): Option<(L.Lane, L.Evidence)> {
    if lanes == [] then None
    else
      var evidence := PairedEvidence(c, lanes[0], sender, at);
      if evidence.Some? && PairedAuthorizes(c, lanes[0], evidence.value, at) then Some((lanes[0], evidence.value))
      else FirstPaired(c, lanes[1..], sender, at)
  }

  function Paired(c: Context, sender: Identity, at: Time): Option<(L.Lane, L.Evidence)> {
    if c.alias.permission.state.Senders? then FirstPaired(c, c.alias.permission.state.lanes, sender, at) else None
  }

  /** The scan itself: skip what does not apply, return the first lane that authorizes. */
  method ScanPaired(c: Context, sender: Identity, at: Time) returns (result: Option<(L.Lane, L.Evidence)>)
    ensures result == Paired(c, sender, at)
    ensures result.Some? ==>
              && c.alias.permission.state.Senders? && result.value.0 in c.alias.permission.state.lanes
              && PairedLive(c, result.value.0, sender, at)
    ensures result.None? && c.alias.permission.state.Senders? ==>
              forall lane :: lane in c.alias.permission.state.lanes ==> !PairedLive(c, lane, sender, at)
  {
    if !c.alias.permission.state.Senders? {
      return None;
    }
    var lanes := c.alias.permission.state.lanes;
    for i := 0 to |lanes|
      invariant FirstPaired(c, lanes, sender, at) == FirstPaired(c, lanes[i..], sender, at)
      invariant forall j :: 0 <= j < i ==> !PairedLive(c, lanes[j], sender, at)
    {
      assert lanes[i..][1..] == lanes[i + 1..];
      var evidence := PairedEvidence(c, lanes[i], sender, at);
      if evidence.None? {
        continue;
      }
      if PairedAuthorizes(c, lanes[i], evidence.value, at) {
        return Some((lanes[i], evidence.value));
      }
    }
    return None;
  }

  /** The lane at this place is in use, and none before it is. */
  predicate FirstAt(c: Context, lanes: seq<L.Lane>, sender: Identity, at: Time, i: nat) {
    i < |lanes| && PairedLive(c, lanes[i], sender, at) && forall j :: 0 <= j < i ==> !PairedLive(c, lanes[j], sender, at)
  }

  /** The lane found is the first of those that may be used. */
  lemma {:induction false} FirstPairedIsFirst(c: Context, lanes: seq<L.Lane>, sender: Identity, at: Time)
    ensures FirstPaired(c, lanes, sender, at).Some? ==>
              exists i: nat :: FirstAt(c, lanes, sender, at, i) && lanes[i] == FirstPaired(c, lanes, sender, at).value.0
  {
    if lanes != [] && FirstPaired(c, lanes, sender, at).Some? {
      FirstPairedIsFirstLive(c, lanes, sender, at);
      FirstPairedIsFirst(c, lanes[1..], sender, at);
      if PairedLive(c, lanes[0], sender, at) {
        assert FirstAt(c, lanes, sender, at, 0);
      } else {
        var i: nat :| FirstAt(c, lanes[1..], sender, at, i) && lanes[1..][i] == FirstPaired(c, lanes[1..], sender, at).value.0;
        assert FirstAt(c, lanes, sender, at, i + 1) by {
          forall j | 0 <= j < i + 1 ensures !PairedLive(c, lanes[j], sender, at) {
            if j > 0 { assert lanes[1..][j - 1] == lanes[j]; }
          }
        }
      }
    }
  }

  lemma {:induction false} FirstPairedIsFirstLive(c: Context, lanes: seq<L.Lane>, sender: Identity, at: Time)
    ensures FirstPaired(c, lanes, sender, at).Some? <==> exists i :: 0 <= i < |lanes| && PairedLive(c, lanes[i], sender, at)
    ensures FirstPaired(c, lanes, sender, at).Some? ==>
              var (lane, evidence) := FirstPaired(c, lanes, sender, at).value;
              && lane in lanes && PairedLive(c, lane, sender, at)
              && PairedEvidence(c, lane, sender, at) == Some(evidence)
  {
    if lanes != [] {
      FirstPairedIsFirstLive(c, lanes[1..], sender, at);
      assert lanes == [lanes[0]] + lanes[1..];
      if PairedLive(c, lanes[0], sender, at) {
        assert 0 <= 0 < |lanes| && PairedLive(c, lanes[0], sender, at);
      } else if exists i :: 0 <= i < |lanes[1..]| && PairedLive(c, lanes[1..][i], sender, at) {
        var i :| 0 <= i < |lanes[1..]| && PairedLive(c, lanes[1..][i], sender, at);
        assert PairedLive(c, lanes[i + 1], sender, at);
      }
      if exists i :: 0 <= i < |lanes| && PairedLive(c, lanes[i], sender, at) {
        var i :| 0 <= i < |lanes| && PairedLive(c, lanes[i], sender, at);
        if i > 0 { assert PairedLive(c, lanes[1..][i - 1], sender, at); }
      }
    }
  }

  // ---- standing relationships ----

  predicate ScopeNames(c: Context, sender: Identity) {
    && c.senderScope.Some?
    && c.senderScope.value.sender == sender && c.senderScope.value.recipient == c.alias.owner
    && c.alias.id in c.senderScope.value.receiving
  }

  function RelationshipBasis(c: Context, sender: Identity, at: Time): Result<Option<Basis>, AliasError> {
    if c.relationship.None? || !ScopeNames(c, sender) then Success(None)
    else
      var r, scope := c.relationship.value, c.senderScope.value;
      if r.version != scope.relationshipVersion then Success(None)
      else match r.state
        case Accepted => Success(if scope.lane.None? then Some(Standing(r.version)) else None)
        case ExpressLane(id) =>
          if || c.lane.None? || scope.lane != Some((id, c.lane.value.grant.version)) || c.lane.value.grant.id != id
             || c.laneEvidence.None?
          then Failure(AliasError.Permission)
          else
            var lane := c.lane.value;
            if L.Authorizes(lane, sender, c.alias.owner, Some(id), c.declarations, c.laneEvidence.value, at).Failure?
            then Failure(AliasError.Permission)
            else Success(Some(SenderLane(id, lane.version)))
        case Blocked => Failure(AliasError.Blocked)
        case _ => Success(None)
  }

  // ---- the decision ----

  function WithBasis(c: Context, sender: Identity, at: Time, basis: Basis, paired: Option<(L.Lane, L.Evidence)>)
    : RouteDecision
  {
    Authorize(Authorization(c.alias.id, c.alias.revision, sender, c.alias.owner, c.conversation, at, basis, paired))
  }

  function Permitted(c: Context, sender: Identity, at: Time): RouteDecision {
    var permission := c.alias.permission;
    if P.AuthorizesAlias(permission, sender, c.conversation, at)
    then WithBasis(c, sender, at, AliasLane(permission.revision), None)
    else match Paired(c, sender, at)
      case Some(pair) =>
        WithBasis(c, sender, at, PairedSender(pair.0.grant.id, pair.0.version, permission.revision), Some(pair))
      case None =>
        match RelationshipBasis(c, sender, at)
        case Failure(e) => Refuse(e)
        case Success(Some(basis)) => WithBasis(c, sender, at, basis, None)
        case Success(None) => if c.alias.configuration.receiving.AliasScoped? then Refuse(AliasError.Permission) else Request
  }

  function AdmitSender(c: Context, sender: Identity, at: Time): RouteDecision {
    if || sender == 0 || sender == c.alias.owner
       || (c.relationship.Some? && c.relationship.value.sender != sender)
    then Refuse(Invalid)
    else match A.CheckConversation(c.alias, sender, c.conversation, at)
      case Failure(e) => Refuse(e)
      case Success(_) =>
        if c.reviewRequired
        then if c.alias.configuration.receiving.AliasScoped? then Hold else Refuse(AliasError.Authentication)
        else Permitted(c, sender, at)
  }

  function Admit(c: Context, at: Time): RouteDecision {
    if !ValidDeclarations(c.declarations) then Refuse(Invalid)
    else if !c.covered then Refuse(Coverage)
    else if c.relationship.Some? && c.relationship.value.recipient != c.alias.owner then Refuse(Invalid)
    else if c.relationship.Some? && c.relationship.value.state.Blocked? then Refuse(AliasError.Blocked)
    else match c.authentication
      case Authenticated(sender) => AdmitSender(c, sender, at)
      case Uncertain =>
        if c.alias.lifecycle.Active? && c.alias.configuration.receiving.AliasScoped? then Hold
        else Refuse(AliasError.Authentication)
  }

  // ---- what an authorization means ----

  /** Nothing stands in the sender's way, whatever permission there may be. */
  predicate Unobstructed(c: Context, sender: Identity, at: Time) {
    && ValidDeclarations(c.declarations) && c.covered
    && c.authentication == Authenticated(sender) && sender != 0 && sender != c.alias.owner
    && (c.relationship.Some? ==>
          && c.relationship.value.sender == sender && c.relationship.value.recipient == c.alias.owner
          && !c.relationship.value.state.Blocked?)
    && A.AcceptsMail(c.alias, sender, c.conversation, at)
    && !c.reviewRequired
  }

  /** The permission this basis names exists and is in force for this sender now. */
  ghost predicate Live(c: Context, sender: Identity, at: Time, basis: Basis) {
    match basis
    case AliasLane(revision) =>
      revision == c.alias.permission.revision && P.AuthorizesAlias(c.alias.permission, sender, c.conversation, at)
    case PairedSender(id, version, revision) =>
      && revision == c.alias.permission.revision && c.alias.permission.state.Senders?
      && exists lane :: && lane in c.alias.permission.state.lanes && lane.grant.id == id
                        && lane.version == version && PairedLive(c, lane, sender, at)
    case Standing(version) =>
      && c.relationship.Some? && ScopeNames(c, sender)
      && c.relationship.value.state.Accepted?
      && c.relationship.value.version == version == c.senderScope.value.relationshipVersion
      && c.senderScope.value.lane.None?
    case SenderLane(id, version) =>
      && c.relationship.Some? && ScopeNames(c, sender)
      && c.relationship.value.state == ExpressLane(id)
      && c.relationship.value.version == c.senderScope.value.relationshipVersion
      && c.lane.Some? && c.lane.value.grant.id == id && c.lane.value.version == version
      && c.senderScope.value.lane == Some((id, c.lane.value.grant.version))
      && c.laneEvidence.Some?
      && L.Authorizes(c.lane.value, sender, c.alias.owner, Some(id), c.declarations, c.laneEvidence.value, at).Success?
  }

  /** The authorization speaks of this message and this address, and carries the paired lane it will
      spend if and only if a paired lane is its basis. */
  predicate Faithful(c: Context, sender: Identity, at: Time, a: Authorization) {
    && a.alias == c.alias.id && a.aliasRevision == c.alias.revision
    && a.sender == sender && a.recipient == c.alias.owner
    && a.conversation == c.conversation && a.authorizedAt == at
    && (a.paired.Some? <==> a.basis.PairedSender?)
    && (a.paired.Some? ==>
          && c.alias.permission.state.Senders? && a.paired.value.0 in c.alias.permission.state.lanes
          && a.basis == PairedSender(a.paired.value.0.grant.id, a.paired.value.0.version, c.alias.permission.revision)
          && PairedAuthorizes(c, a.paired.value.0, a.paired.value.1, at))
  }

  lemma LiveRelationshipBasis(c: Context, sender: Identity, at: Time)
    ensures forall basis: Basis :: basis.Standing? || basis.SenderLane? ==>
              (RelationshipBasis(c, sender, at) == Success(Some(basis)) <==> Live(c, sender, at, basis))
    ensures RelationshipBasis(c, sender, at).Success? && RelationshipBasis(c, sender, at).value.Some? ==>
              RelationshipBasis(c, sender, at).value.value.Standing? || RelationshipBasis(c, sender, at).value.value.SenderLane?
  {
  }

  lemma LivePairedBasis(c: Context, sender: Identity, at: Time)
    ensures Paired(c, sender, at).Some? ==>
              var (lane, evidence) := Paired(c, sender, at).value;
              && Live(c, sender, at, PairedSender(lane.grant.id, lane.version, c.alias.permission.revision))
              && c.alias.permission.state.Senders? && lane in c.alias.permission.state.lanes
              && PairedAuthorizes(c, lane, evidence, at)
    ensures Paired(c, sender, at).None? ==>
              forall basis: Basis :: basis.PairedSender? ==> !Live(c, sender, at, basis)
  {
    if c.alias.permission.state.Senders? {
      FirstPairedIsFirstLive(c, c.alias.permission.state.lanes, sender, at);
    }
  }

  /** Sound: an authorization means nothing stood in the way, its basis is live, and it says only true
      things about the message. */
  lemma AuthorizationIsSound(c: Context, at: Time)
    requires Admit(c, at).Authorize?
    ensures var a := Admit(c, at).authorization;
            && Unobstructed(c, a.sender, at)
            && Live(c, a.sender, at, a.basis)
            && Faithful(c, a.sender, at, a)
  {
    var sender := c.authentication.sender;
    LivePairedBasis(c, sender, at);
    LiveRelationshipBasis(c, sender, at);
  }

  /** Complete: an unobstructed sender with any live permission at all is authorized. */
  lemma AuthorizationIsComplete(c: Context, sender: Identity, at: Time, basis: Basis)
    requires Unobstructed(c, sender, at) && Live(c, sender, at, basis)
    ensures Admit(c, at).Authorize? && Admit(c, at).authorization.sender == sender
  {
    LivePairedBasis(c, sender, at);
    LiveRelationshipBasis(c, sender, at);
  }

  /** The receiving policy decides what is left: only an alias-scoped address holds mail, only a bonded
      one turns a permission-less sender into a paid request, and a stored bonded address never carries
      broad permission. */
  lemma PolicyLimits(c: Context, at: Time)
    ensures Admit(c, at).Request? ==>
              && c.alias.configuration.receiving.Bonded?
              && c.authentication.Authenticated? && Unobstructed(c, c.authentication.sender, at)
              && forall basis :: !Live(c, c.authentication.sender, at, basis)
    ensures Admit(c, at).Hold? ==>
              && c.alias.configuration.receiving.AliasScoped? && c.covered
              && (c.relationship.Some? ==> !c.relationship.value.state.Blocked?)
              && (c.authentication.Uncertain? ==> c.alias.lifecycle.Active?)
              && (c.authentication.Authenticated? ==>
                    c.reviewRequired && A.AcceptsMail(c.alias, c.authentication.sender, c.conversation, at))
    ensures A.Accepts(c.alias) && c.alias.configuration.receiving.Bonded? && Admit(c, at).Authorize? ==>
              !Admit(c, at).authorization.basis.AliasLane?
  {
    if Admit(c, at).Request? {
      LivePairedBasis(c, c.authentication.sender, at);
      LiveRelationshipBasis(c, c.authentication.sender, at);
    }
  }

  /** A paired domain lane never stretches past its domain or past its evidence's five minutes. */
  lemma DomainLanesAreBounded(c: Context, lane: L.Lane, sender: Identity, at: Time)
    requires PairedLive(c, lane, sender, at) && lane.grant.subject.LegacyDomain?
    ensures c.domainEvidence.Some?
    ensures D.IsSuffix(D.Split(lane.grant.subject.domain), D.Split(c.domainEvidence.value.author))
    ensures c.domainEvidence.value.evaluatedAt <= at <= c.domainEvidence.value.evaluatedAt + DOMAIN_EVIDENCE_AGE
  {
    D.SubdomainIsLabelSuffix(c.domainEvidence.value.author, lane.grant.subject.domain);
  }

  // ---- the decision, over the records' own fields ----

  /** What a message must declare to use a lane: the purpose, the origin and the kind of authority granted. */
  predicate Declares(d: Declarations, g: L.Grant) {
    && d.purpose == g.purpose && (g.origin == None || g.origin == Some(d.mode))
    && match g.authority
       case NativeOnly => d.authority.NativeSender?
       case LegacyOnly => d.authority.LegacyGateway? || d.authority.GuestSmtp?
       case GuestOnly => d.authority.GuestGateway? || d.authority.GuestSmtp?
  }

  predicate InForce(lane: L.Lane, at: Time) {
    && lane.state == L.Active && lane.grant.notBefore <= at < lane.grant.notAfter
    && (lane.grant.mode == L.Expiring ==> at < lane.horizonAt)
  }

  /** Whom a paired lane lets write. A native or guest lane: the sender it was granted to, on evidence of the very handle
      or mailbox granted. A domain lane: whoever brings evidence, at most five minutes old and not from the future, of an
      author whose domain is the granted one or ends in it. In every case the lane is the owner's and in force, and the
      message declares what was granted. */
  predicate MayUse(c: Context, lane: L.Lane, sender: Identity, at: Time) {
    && ValidDeclarations(c.declarations) && Declares(c.declarations, lane.grant)
    && lane.grant.recipient == c.alias.owner && InForce(lane, at)
    && match lane.grant.subject
       case Native(handle) => lane.grant.sender == sender && c.laneEvidence == Some(L.NativeEvidence(handle))
       case GuestMailbox(mailbox) => lane.grant.sender == sender && c.laneEvidence == Some(L.GuestEvidence(mailbox))
       case LegacyDomain(domain) =>
         && c.domainEvidence.Some?
         && var e := c.domainEvidence.value;
            && e.evaluatedAt <= at <= e.evaluatedAt + 300_000
            && var author, granted := D.Split(e.author), D.Split(domain);
               |granted| <= |author| && author[|author| - |granted|..] == granted
  }

  lemma MayUseExactly(c: Context, lane: L.Lane, sender: Identity, at: Time)
    ensures PairedLive(c, lane, sender, at) <==> MayUse(c, lane, sender, at)
  {
    if PairedEvidence(c, lane, sender, at).Some? {
      L.AuthorizesExactly(lane, lane.grant.sender, c.alias.owner, Some(lane.grant.id), c.declarations,
                          PairedEvidence(c, lane, sender, at).value, at);
    }
    if lane.grant.subject.LegacyDomain? && c.domainEvidence.Some? {
      D.SubdomainIsLabelSuffix(c.domainEvidence.value.author, lane.grant.subject.domain);
    }
  }

  /** Nothing stands in this sender's way: the message is well formed and covered, its sender is known, is somebody else
      than the owner and not blocked, the alias accepts them in this conversation, and no review is asked for. */
  predicate Clear(c: Context, sender: Identity, at: Time) {
    && ValidDeclarations(c.declarations) && c.covered && c.authentication == Authenticated(sender)
    && sender != 0 && sender != c.alias.owner && !c.reviewRequired
    && (c.relationship.Some? ==>
          && c.relationship.value.sender == sender && c.relationship.value.recipient == c.alias.owner
          && c.relationship.value.state != RelationshipState.Blocked)
    && A.AcceptsMail(c.alias, sender, c.conversation, at)
  }

  /** The alias's own permission lets this sender write. */
  predicate Permits(c: Context, sender: Identity, at: Time) {
    && c.alias.permission.changedAt <= at
    && match c.alias.permission.state
       case Broad(_) => true
       case Narrowed(_, pairs) => c.conversation in pairs && pairs[c.conversation].sender == sender
       case _ => false
  }

  predicate HasPairedLane(c: Context, sender: Identity, at: Time) {
    c.alias.permission.state.Senders? && exists lane :: lane in c.alias.permission.state.lanes && MayUse(c, lane, sender, at)
  }

  /** The sender's scope names this alias, as of the relationship's present version. */
  predicate Scoped(c: Context, sender: Identity) {
    && c.relationship.Some? && c.senderScope.Some?
    && c.senderScope.value.sender == sender && c.senderScope.value.recipient == c.alias.owner
    && c.alias.id in c.senderScope.value.receiving
    && c.relationship.value.version == c.senderScope.value.relationshipVersion
  }

  /** The scope's own lane, for which the relationship stands, is there and may be used. */
  predicate HasScopeLane(c: Context, sender: Identity, id: LaneId, at: Time) {
    && c.lane.Some? && c.lane.value.grant.id == id && c.senderScope.Some?
    && c.senderScope.value.lane == Some((id, c.lane.value.grant.version)) && c.laneEvidence.Some?
    && L.Authorizes(c.lane.value, sender, c.alias.owner, Some(id), c.declarations, c.laneEvidence.value, at).Success?
  }

  /** The relationship lets the sender write, by itself or by its lane; or it stands for a lane that may not be used,
      which is an error. */
  predicate Stands(c: Context, sender: Identity, at: Time) {
    && Scoped(c, sender)
    && match c.relationship.value.state
       case Accepted => c.senderScope.value.lane == None
       case ExpressLane(id) => HasScopeLane(c, sender, id, at)
       case _ => false
  }

  predicate Fails(c: Context, sender: Identity, at: Time) {
    && Scoped(c, sender) && c.relationship.value.state.ExpressLane?
    && !HasScopeLane(c, sender, c.relationship.value.state.lane, at)
  }

  lemma PairedExactly(c: Context, sender: Identity, at: Time)
    ensures Paired(c, sender, at).Some? <==> HasPairedLane(c, sender, at)
    ensures Paired(c, sender, at).Some? ==>
              Paired(c, sender, at).value.0 in c.alias.permission.state.lanes && MayUse(c, Paired(c, sender, at).value.0, sender, at)
  {
    if c.alias.permission.state.Senders? {
      var lanes := c.alias.permission.state.lanes;
      FirstPairedIsFirstLive(c, lanes, sender, at);
      forall lane ensures PairedLive(c, lane, sender, at) <==> MayUse(c, lane, sender, at) {
        MayUseExactly(c, lane, sender, at);
      }
      if HasPairedLane(c, sender, at) {
        var lane :| lane in lanes && MayUse(c, lane, sender, at);
        var i :| 0 <= i < |lanes| && lanes[i] == lane;
        assert PairedLive(c, lanes[i], sender, at);
      }
    }
  }

  /** Whom the alias admits and on what: its own permission first, then a paired lane, then the relationship; and an
      authorization is given for nothing else. */
  lemma AdmitsExactly(c: Context, sender: Identity, at: Time)
    requires c.authentication == Authenticated(sender)
    ensures Admit(c, at).Authorize? <==>
              Clear(c, sender, at) && (Permits(c, sender, at) || HasPairedLane(c, sender, at) || Stands(c, sender, at))
    ensures Clear(c, sender, at) && Permits(c, sender, at) ==>
              Admit(c, at).Authorize? && Admit(c, at).authorization.basis == AliasLane(c.alias.permission.revision)
    ensures Clear(c, sender, at) && !Permits(c, sender, at) && HasPairedLane(c, sender, at) ==>
              Admit(c, at).Authorize? && Admit(c, at).authorization.basis.PairedSender?
    ensures Clear(c, sender, at) && !Permits(c, sender, at) && !HasPairedLane(c, sender, at) && Stands(c, sender, at) ==>
              Admit(c, at).Authorize? &&
              Admit(c, at).authorization.basis ==
              (if c.relationship.value.state == Accepted then Standing(c.relationship.value.version)
               else SenderLane(c.lane.value.grant.id, c.lane.value.version))
  {
    PairedExactly(c, sender, at);
    P.AuthorizesAliasExactly(c.alias.permission, sender, c.conversation, at);
    if Clear(c, sender, at) { RelationshipExactly(c, sender, at); }
  }

  lemma RelationshipExactly(c: Context, sender: Identity, at: Time)
    requires c.relationship.Some? ==> c.relationship.value.state != RelationshipState.Blocked
    ensures RelationshipBasis(c, sender, at).Failure? <==> Fails(c, sender, at)
    ensures RelationshipBasis(c, sender, at).Success? && RelationshipBasis(c, sender, at).value.Some? <==> Stands(c, sender, at)
    ensures Stands(c, sender, at) ==>
              RelationshipBasis(c, sender, at).value.value ==
              (if c.relationship.value.state == Accepted then Standing(c.relationship.value.version)
               else SenderLane(c.lane.value.grant.id, c.lane.value.version))
  {
  }

  /** An active alias that is open to all admits every covered, unblocked, known sender but its owner. */
  lemma OpenAliasAdmits(c: Context, sender: Identity, at: Time)
    requires c.alias.lifecycle == A.Active && c.alias.changedAt <= at
    requires c.alias.permission.state.Broad? && c.alias.permission.changedAt <= at
    requires ValidDeclarations(c.declarations) && c.covered && !c.reviewRequired
    requires c.authentication == Authenticated(sender) && sender != 0 && sender != c.alias.owner
    requires c.relationship.Some? ==>
               && c.relationship.value.sender == sender && c.relationship.value.recipient == c.alias.owner
               && c.relationship.value.state != RelationshipState.Blocked
    ensures Admit(c, at) == Authorize(Authorization(c.alias.id, c.alias.revision, sender, c.alias.owner, c.conversation, at,
                                                    AliasLane(c.alias.permission.revision), None))
  {
    A.AcceptsMailExactly(c.alias, sender, c.conversation, at);
    AdmitsExactly(c, sender, at);
    AuthorizationIsSound(c, at);
  }

  /** What becomes of everybody else. A known sender who is clear but has no permission is asked to pay where the alias is
      bonded, unless a relationship that stands for a lane fails; what must be reviewed, or comes from a sender who cannot be
      told, is held where the alias is scoped and, if it cannot be told, active; everything else is refused. */
  lemma OthersExactly(c: Context, at: Time)
    ensures Admit(c, at).Request? <==>
              && c.authentication.Authenticated? && c.alias.configuration.receiving == A.Bonded
              && var sender := c.authentication.sender;
                 && Clear(c, sender, at) && !Permits(c, sender, at) && !HasPairedLane(c, sender, at)
                 && !Stands(c, sender, at) && !Fails(c, sender, at)
    ensures Admit(c, at).Hold? <==>
              && c.alias.configuration.receiving == A.AliasScoped && ValidDeclarations(c.declarations) && c.covered
              && (c.relationship.Some? ==>
                    c.relationship.value.recipient == c.alias.owner && c.relationship.value.state != RelationshipState.Blocked)
              && match c.authentication
                 case Uncertain => c.alias.lifecycle == A.Active
                 case Authenticated(sender) => Clear(c.(reviewRequired := false), sender, at) && c.reviewRequired
  {
    if c.authentication.Authenticated? {
      var sender := c.authentication.sender;
      PairedExactly(c, sender, at);
      P.AuthorizesAliasExactly(c.alias.permission, sender, c.conversation, at);
      if Clear(c, sender, at) { RelationshipExactly(c, sender, at); }
    }
  }

  /** The reasons for a refusal, in the order they are looked for. */
  lemma RefusalsExactly(c: Context, at: Time)
    ensures !ValidDeclarations(c.declarations) ==> Admit(c, at) == Refuse(Invalid)
    ensures ValidDeclarations(c.declarations) && !c.covered ==> Admit(c, at) == Refuse(Coverage)
    ensures ValidDeclarations(c.declarations) && c.covered && c.relationship.Some?
            && c.relationship.value.recipient == c.alias.owner && c.relationship.value.state == RelationshipState.Blocked ==>
              Admit(c, at) == Refuse(AliasError.Blocked)
    ensures forall sender :: Clear(c, sender, at) && !Permits(c, sender, at) && !HasPairedLane(c, sender, at)
                             && (Fails(c, sender, at) || (!Stands(c, sender, at) && c.alias.configuration.receiving == A.AliasScoped)) ==>
              Admit(c, at) == Refuse(AliasError.Permission)
  {
    forall sender | Clear(c, sender, at) && !Permits(c, sender, at) && !HasPairedLane(c, sender, at)
                    && (Fails(c, sender, at) || (!Stands(c, sender, at) && c.alias.configuration.receiving == A.AliasScoped))
      ensures Admit(c, at) == Refuse(AliasError.Permission)
    {
      PairedExactly(c, sender, at);
      P.AuthorizesAliasExactly(c.alias.permission, sender, c.conversation, at);
      RelationshipExactly(c, sender, at);
    }
  }

  // ---- removal, over whole runs of the alias store ----

  predicate Reopens(command: C.Command, id: AliasId) {
    command.ChangePermission? && command.id == id && (command.action.Open? || command.action.Senders?)
  }

  /** The row a permission command writes: a removal closes it, and there is nothing to narrow in a closed one. */
  lemma PermissionRow(r: C.SignedCommand, c: C.Context, domain: string, at: Time)
    requires r.command.ChangePermission? && C.OwnPortfolio(r.owner, c.aliases) && C.Mutate(r, c, domain, at).Success?
    ensures r.command.id in c.aliases
    ensures var aliases := C.Mutate(r, c, domain, at).value.aliases;
            && |aliases| == 1 && aliases[0].id == r.command.id
            && (r.command.action.Remove? ==> aliases[0].permission.state.Closed?)
            && (c.aliases[r.command.id].permission.state.Closed? ==> !r.command.action.Narrow?)
  {
  }

  lemma PermissionOutcome(r: C.SignedCommand, c: C.Context, scope: C.SigningScope, domain: string, at: Time)
    requires r.command.ChangePermission? && C.Decide(r, c, scope, domain, at).Success?
    requires C.Decide(r, c, scope, domain, at).value.effects.Some?
    ensures var d := C.Decide(r, c, scope, domain, at).value;
            var aliases := d.effects.value.aliases;
            && (aliases != [] ==>
                  && |aliases| == 1 && aliases[0].id == r.command.id && r.command.id in c.aliases
                  && (r.command.action.Remove? ==> aliases[0].permission.state.Closed?)
                  && (c.aliases[r.command.id].permission.state.Closed? ==> !r.command.action.Narrow?))
            && (d.receipt.outcome.Changed? ==> aliases != [])
  {
    if C.Mutate(r, c, domain, at).Success? { PermissionRow(r, c, domain, at); }
  }

  /** A committed Remove leaves the permission closed. */
  lemma RemovalCloses(st: S.Store, input: S.Input)
    requires S.Inv(st)
    requires input.request.command.ChangePermission? && input.request.command.action.Remove?
    requires S.Decide(st, input).Success? && S.Decide(st, input).value.receipt.outcome.Changed?
    requires S.Decide(st, input).value.effects.Some?
    ensures var id := input.request.command.id;
            id in S.After(st, input).aliases && S.After(st, input).aliases[id].permission.state.Closed?
  {
    PermissionOutcome(input.request, S.Snapshot(st, input), input.scope, input.domain, input.at);
    var aliases := S.Decide(st, input).value.effects.value.aliases;
    assert aliases == [aliases[0]];
    S.OneRowCommitted(st, input, aliases[0]);
  }

  /** A closed permission stays closed through any transaction that does not reopen it. */
  lemma ClosedStep(st: S.Store, input: S.Input, id: AliasId)
    requires S.Inv(st) && id in st.aliases && st.aliases[id].permission.state.Closed?
    requires !Reopens(input.request.command, id)
    ensures id in S.After(st, input).aliases && S.After(st, input).aliases[id].permission.state.Closed?
  {
    var steps := S.RowTakesAliasSteps(st, input, id);
    var a := st.aliases[id];
    if steps != [] {
      assert steps == [steps[0]];
      S.OneStepRun(a, steps[0]);
      if A.Attempt(a, steps[0]).Success? { A.StepShape(a, steps[0]); }
      if steps[0].DoPermission? && S.After(st, input).aliases[id] != a { ClosedCommand(st, input, id); }
    }
  }

  lemma ClosedCommand(st: S.Store, input: S.Input, id: AliasId)
    requires S.Inv(st) && id in st.aliases && st.aliases[id].permission.state.Closed?
    requires input.request.command.ChangePermission? && input.request.command.id == id
    requires !Reopens(input.request.command, id)
    requires id in S.After(st, input).aliases && S.After(st, input).aliases[id] != st.aliases[id]
    ensures S.After(st, input).aliases[id].permission.state.Closed?
  {
    PermissionOutcome(input.request, S.Snapshot(st, input), input.scope, input.domain, input.at);
    var aliases := S.Decide(st, input).value.effects.value.aliases;
    if aliases != [] {
      assert aliases == [aliases[0]];
      S.OneRowCommitted(st, input, aliases[0]);
    }
  }

  /** This transaction reopens the permission. */
  predicate ReopensIt(e: S.Event, id: AliasId) {
    e.Manage? && Reopens(e.input.request.command, id)
  }

  /** A closed permission holds no lane a delivery could write back. */
  lemma ClosedEvent(st: S.Store, e: S.Event, id: AliasId)
    requires S.Inv(st) && id in st.aliases && st.aliases[id].permission.state.Closed? && !ReopensIt(e, id)
    ensures id in S.Apply(st, e).aliases && S.Apply(st, e).aliases[id].permission.state.Closed?
  {
    if e.Manage? {
      ClosedStep(st, e.input, id);
    } else if S.Persist(st, e.spending).Success? {
      S.SpendingIsAStep(st, e.spending);
    }
  }

  /** Over any run of commands and deliveries a closed permission stays closed until it is reopened. */
  lemma {:induction false} ClosedUntilReopened(st: S.Store, events: seq<S.Event>, id: AliasId)
    requires S.Inv(st) && id in st.aliases && st.aliases[id].permission.state.Closed?
    requires forall i :: 0 <= i < |events| ==> !ReopensIt(events[i], id)
    ensures id in S.Run(st, events).aliases && S.Run(st, events).aliases[id].permission.state.Closed?
    decreases |events|
  {
    if events != [] {
      ClosedEvent(st, events[0], id);
      S.ApplyKeepsInv(st, events[0]);
      ClosedUntilReopened(S.Apply(st, events[0]), events[1..], id);
    }
  }

  /** After Remove commits, no admission anywhere rests on the alias's own permission until a later Open
      or Senders command; and a delivery cannot sneak an allowance back in. */
  lemma RemovalHolds(st: S.Store, input: S.Input, events: seq<S.Event>, c: Context, at: Time, lane: L.Lane)
    requires S.Inv(st)
    requires input.request.command.ChangePermission? && input.request.command.action.Remove?
    requires S.Decide(st, input).Success? && S.Decide(st, input).value.receipt.outcome.Changed?
    requires S.Decide(st, input).value.effects.Some?
    requires forall i :: 0 <= i < |events| ==> !ReopensIt(events[i], input.request.command.id)
    requires var later := S.Run(S.After(st, input), events).aliases;
             input.request.command.id in later ==> c.alias == later[input.request.command.id]
    ensures Admit(c, at).Authorize? ==>
              Admit(c, at).authorization.basis.Standing? || Admit(c, at).authorization.basis.SenderLane?
    ensures P.Consume(c.alias.permission, lane).Failure?
  {
    RemovalCloses(st, input);
    S.AfterKeepsInv(st, input);
    ClosedUntilReopened(S.After(st, input), events, input.request.command.id);
    if Admit(c, at).Authorize? { AuthorizationIsSound(c, at); }
  }
}
