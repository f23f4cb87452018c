/** Signed alias management (crates/cs-mail-application/src/aliases.rs): one command is decided against
    a protected snapshot, and the receipt it leaves must describe exactly that command. */
module AliasCommands {
  import opened Wrappers
  import opened Primitives
  import opened AliasErrors
  import A = Aliases
  import P = Permission
  import L = Lanes

  datatype SigningScope = SigningScope(deployment: nat, provider: nat)
  datatype AddressSelection = Generated(address: A.MemberAddress) | Chosen(address: A.MemberAddress)
  datatype SignedGrant = SignedGrant(grant: L.Grant, signature: nat)
  datatype PermissionAction = Open | Narrow | Remove | Senders(grants: seq<SignedGrant>)

  /** Named entrances only; an empty scope cannot be written down. */
  type ReceivingScope = s: set<AliasId> | s != {} witness {1}

  datatype Command =
    | Inspect
    | UseForCorrespondence(id: AliasId, expected: U64)
    | ChangePermission(id: AliasId, expected: U64, expectedPermission: U64, action: PermissionAction)
    | Create(id: AliasId, address: AddressSelection, configuration: A.Configuration)
    | Restrict(id: AliasId, expected: U64)
    | Replace(id: AliasId, expected: U64, replacement: AliasId, address: AddressSelection, until: Time)
    | Retire(id: AliasId, expected: U64)
    | Approve(id: AliasId, expected: U64, sender: Identity, conversation: ConversationId)
    | ScopeSender(sender: Identity, expected: U64, receiving: ReceivingScope)

  datatype SignedCommand = SignedCommand(
    scope: SigningScope, product: string, account: nat, owner: Identity, key: KeyRef,
    operation: nat, command: Command, signature: nat)

  /** A collision-free digest is modelled by the bytes it covers: the whole signed command. */
  type Digest = SignedCommand

  datatype SenderScope = SenderScope(
    revision: U64, establishedAt: Time, sender: Identity, recipient: Identity,
    relationshipVersion: U64, receiving: ReceivingScope, lane: Option<(LaneId, U64)>)

  datatype Outcome =
    | Listed(aliases: seq<A.Alias>)
    | Changed(aliases: seq<A.Alias>)
    | Scoped(scope: SenderScope)
    | Refused(error: AliasError)

  datatype Receipt = Receipt(digest: Digest, at: Time, outcome: Outcome)

  /** Account facts and signature checks the host supplies. */
  datatype Authority = Authority(
    personaKey: (string, Identity, KeyRef, Time) -> Option<nat>,
    recipientKeyActive: (KeyRef, Identity, Time) -> bool,
    signedBy: (SignedCommand, nat) -> bool,
    grantSignedBy: (SignedGrant, nat) -> bool,
    domainIdentity: (string, nat) -> Identity)

  datatype Context = Context(
    authority: Authority, participant: Identity, aliases: map<AliasId, A.Alias>,
    reservedAddresses: set<A.MemberAddress>, reservedIds: set<AliasId>,
    existing: seq<AdmittedConversation>, relationship: Option<Relationship>, lane: Option<L.Lane>,
    prior: Option<Receipt>, senderScope: Option<SenderScope>)

  datatype Effects = Effects(
    aliases: seq<A.Alias>, scope: Option<SenderScope>, correspondence: Option<AliasId>, receipt: Receipt)

  datatype Decision = Decision(receipt: Receipt, effects: Option<Effects>)

  datatype Mutation = Mutation(aliases: seq<A.Alias>, scope: Option<SenderScope>, correspondence: Option<AliasId>)

  // ---- addresses ----

  function AtSign(address: A.MemberAddress): (k: nat)
    ensures k <= |address|
  {
    if address == "" || address[0] == '@' then 0 else 1 + AtSign(address[1..])
  }

  function Domain(address: A.MemberAddress): string {
    if AtSign(address) < |address| then address[AtSign(address) + 1..] else ""
  }

  /** Two to eight lower-case letters, then six digits, before the at sign. */
  predicate IsGenerated(address: A.MemberAddress) {
    var k := AtSign(address);
    && k < |address|
    && 8 <= k <= 14
    && (forall i :: 0 <= i < k - 6 ==> 'a' <= address[i] <= 'z')
    && (forall i :: k - 6 <= i < k ==> '0' <= address[i] <= '9')
  }

  function Select(selection: AddressSelection): Result<A.MemberAddress, AliasError> {
    if selection.Generated? && !IsGenerated(selection.address) then Failure(Invalid) else Success(selection.address)
  }

  function Fresh(c: Context, id: AliasId, address: A.MemberAddress, domain: string): Result<(), AliasError> {
    if Domain(address) != domain then Failure(Invalid)
    else if id in c.reservedIds then Failure(Conflict)
    else if address in c.reservedAddresses then Failure(AddressTaken)
    else Success(())
  }

  // ---- receiving permission ----

  function ActivateOne(r: SignedCommand, c: Context, signed: SignedGrant, at: Time): Result<L.Lane, AliasError> {
    var g := signed.grant;
    if || g.protocolVersion != 2 || g.recipient != r.owner || g.recipientKey != r.key
       || g.deployment != r.scope.deployment || g.provider != r.scope.provider
       || g.issuedAt > at || g.sender == r.owner
    then Failure(AliasError.Permission)
    else if g.subject.LegacyDomain?
            && c.authority.domainIdentity(g.subject.domain, r.scope.deployment) != g.sender
    then Failure(Invalid)
    else
      match c.authority.personaKey(r.product, r.owner, r.key, at)
      case None => Failure(AliasError.Permission)
      case Some(key) =>
        if !L.ValidGrant(g) || !c.authority.grantSignedBy(signed, key) then Failure(AliasError.Permission)
        else match L.FromGrant(g)
          case Failure(_) => Failure(AliasError.Permission)
          case Success(lane) => if L.IsCurrent(lane, at) then Success(lane) else Failure(AliasError.Permission)
  }

  function Activate(r: SignedCommand, c: Context, grants: seq<SignedGrant>, at: Time): Result<seq<L.Lane>, AliasError> {
    if grants == [] then Success([])
    else
      var first :- ActivateOne(r, c, grants[0], at);
      var rest :- Activate(r, c, grants[1..], at);
      Success([first] + rest)
  }

  /** The loop that pushes one verified lane after another, stopping at the first refusal. */
  method ActivateGrants(r: SignedCommand, c: Context, grants: seq<SignedGrant>, at: Time)
    returns (result: Result<seq<L.Lane>, AliasError>)
    ensures result == Activate(r, c, grants, at)
  {
    var lanes: seq<L.Lane> := [];
    assert grants[0..] == grants && forall rest: seq<L.Lane> :: lanes + rest == rest;
    for i := 0 to |grants|
      invariant Activate(r, c, grants[i..], at).Success? ==>
                  Activate(r, c, grants, at) == Success(lanes + Activate(r, c, grants[i..], at).value)
      invariant Activate(r, c, grants[i..], at).Failure? ==>
                  Activate(r, c, grants, at) == Failure(Activate(r, c, grants[i..], at).error)
    {
      var one := ActivateOne(r, c, grants[i], at);
      assert grants[i..][1..] == grants[i + 1..];
      if one.Failure? {
        return Failure(one.error);
      }
      ghost var rest := Activate(r, c, grants[i + 1..], at);
      if rest.Success? {
        assert (lanes + [one.value]) + rest.value == lanes + ([one.value] + rest.value);
      }
      lanes := lanes + [one.value];
    }
    assert grants[|grants|..] == [] && lanes + [] == lanes;
    return Success(lanes);
  }

  function OnRoute(existing: seq<AdmittedConversation>, id: AliasId): seq<AdmittedConversation> {
    if existing == [] then []
    else (if existing[0].alias == id then [existing[0]] else []) + OnRoute(existing[1..], id)
  }

  lemma {:induction false} OnRouteSelects(existing: seq<AdmittedConversation>, id: AliasId)
    ensures forall e :: e in OnRoute(existing, id) <==> e in existing && e.alias == id
  {
    if existing != [] {
      OnRouteSelects(existing[1..], id);
      assert existing == [existing[0]] + existing[1..];
    }
  }

  /** No conversation is listed twice for one alias. */
  predicate EachOnce(existing: seq<AdmittedConversation>) {
    forall i, j :: 0 <= i < j < |existing| ==>
      existing[i].alias != existing[j].alias || existing[i].conversation != existing[j].conversation
  }

  lemma {:induction false} OnRouteIsDistinct(existing: seq<AdmittedConversation>, id: AliasId)
    requires EachOnce(existing)
    ensures DistinctConversations(OnRoute(existing, id))
  {
    if existing != [] {
      OnRouteIsDistinct(existing[1..], id);
      OnRouteSelects(existing[1..], id);
      var rest := OnRoute(existing[1..], id);
      forall i | 0 <= i < |rest| && existing[0].alias == id ensures rest[i].conversation != existing[0].conversation {
        assert rest[i] in existing[1..];
      }
    }
  }

  function NextPermission(
    r: SignedCommand, c: Context, p: P.ReceivingPermission, id: AliasId, expected: U64, action: PermissionAction, at: Time)
    : Result<P.ReceivingPermission, AliasError>
  {
    match action
    case Open => P.Open(p, expected, at)
    case Narrow => P.Narrow(p, expected, OnRoute(c.existing, id), at)
    case Remove => P.Remove(p, expected, at)
    case Senders(grants) =>
      if grants == [] || |grants| > P.MAX_SENDERS then Failure(Invalid)
      else
        var lanes :- Activate(r, c, grants, at);
        P.SetSenders(p, expected, lanes, at)
  }

  function PermissionChange(
    r: SignedCommand, c: Context, id: AliasId, expected: U64, expectedPermission: U64, action: PermissionAction, at: Time)
    : Result<A.Alias, AliasError>
  {
    if id !in c.aliases then Failure(AliasError.Permission)
    else
      var alias := c.aliases[id];
      if alias.revision != expected then Failure(Conflict)
      else if !alias.lifecycle.Active? && !alias.lifecycle.Restricted? then Failure(AliasError.Retired)
      else if alias.configuration.receiving.Bonded? && (action.Open? || action.Narrow?) then Failure(AliasError.Permission)
      else
        var next :- NextPermission(r, c, alias.permission, id, expectedPermission, action, at);
        A.WithPermission(alias, next)
  }

  // ---- sender scopes ----

  predicate ValidScope(s: SenderScope) {
    && s.revision != 0 && s.sender != 0 && s.recipient != 0 && s.sender != s.recipient
    && (s.lane.Some? ==> s.lane.value.0 != 0)
  }

  function ScopeLane(c: Context, r: Relationship, sender: Identity, owner: Identity, at: Time)
    : Result<Option<(LaneId, U64)>, AliasError>
  {
    match r.state
    case Accepted => Success(None)
    case ExpressLane(id) =>
      if && c.lane.Some? && c.lane.value.grant.id == id && c.lane.value.grant.sender == sender
         && c.lane.value.grant.recipient == owner && L.IsCurrent(c.lane.value, at)
      then Success(Some((id, c.lane.value.grant.version)))
      else Failure(AliasError.Permission)
    case Blocked => Failure(AliasError.Blocked)
    case _ => Failure(AliasError.Permission)
  }

  function EstablishScope(
    c: Context, owner: Identity, sender: Identity, expected: U64, receiving: ReceivingScope, at: Time)
    : Result<SenderScope, AliasError>
  {
    if (if c.senderScope.Some? then c.senderScope.value.revision else 0) != expected then Failure(Conflict)
    else if sender == owner || !(receiving <= c.aliases.Keys) then Failure(AliasError.Permission)
    else if c.relationship.None? then Failure(AliasError.Permission)
    else
      var r := c.relationship.value;
      if r.sender != sender || r.recipient != owner then Failure(Invalid)
      else
        var lane :- ScopeLane(c, r, sender, owner, at);
        match CheckedNext(expected)
        case None => Failure(Invalid)
        case Some(next) =>
          var s := SenderScope(next, at, sender, owner, r.version, receiving, lane);
          if ValidScope(s) then Success(s) else Failure(Invalid)
  }

  // ---- the command dispatch ----

  predicate OwnPortfolio(owner: Identity, aliases: map<AliasId, A.Alias>) {
    owner != 0 && forall id :: id in aliases ==> aliases[id].id == id && aliases[id].owner == owner
  }

  function One(result: Result<A.Alias, AliasError>): Result<Mutation, AliasError> {
    match result
    case Success(alias) => Success(Mutation([alias], None, None))
    case Failure(e) => Failure(e)
  }

  function CreateAlias(
    r: SignedCommand, c: Context, id: AliasId, selection: AddressSelection, configuration: A.Configuration,
    domain: string, at: Time): Result<A.Alias, AliasError>
  {
    var address :- Select(selection);
    var _ :- Fresh(c, id, address, domain);
    if !OwnPortfolio(r.owner, c.aliases) then Failure(Invalid)
    else if id in c.aliases then Failure(Conflict)
    else
      var alias :- A.Create(id, r.owner, address, configuration, at);
      if configuration.receiving.Bonded? then Success(alias)
      else
        var permission :- P.Open(alias.permission, alias.permission.revision, at);
        A.WithPermission(alias, permission)
  }

  function ReplaceAlias(
    r: SignedCommand, c: Context, former: A.Alias, expected: U64, replacement: AliasId, selection: AddressSelection,
    until: Time, domain: string, at: Time): Result<Mutation, AliasError>
  {
    var address :- Select(selection);
    var _ :- Fresh(c, replacement, address, domain);
    var next :- A.Create(replacement, r.owner, address, former.configuration, at);
    var replaced :- A.Replace(former, expected, next, until, OnRoute(c.existing, former.id), at);
    Success(Mutation([replaced, next], None, None))
  }

  function Mutate(r: SignedCommand, c: Context, domain: string, at: Time): Result<Mutation, AliasError> {
    match r.command
    case Inspect => Failure(Invalid)
    case UseForCorrespondence(id, expected) =>
      if id !in c.aliases then Failure(AliasError.Permission)
      else if c.aliases[id].revision != expected then Failure(Conflict)
      else if !c.aliases[id].lifecycle.Active? then Failure(AliasError.Retired)
      else Success(Mutation([c.aliases[id]], None, Some(id)))
    case ChangePermission(id, expected, expectedPermission, action) =>
      One(PermissionChange(r, c, id, expected, expectedPermission, action, at))
    case Create(id, selection, configuration) =>
      One(CreateAlias(r, c, id, selection, configuration, domain, at))
    case Restrict(id, expected) =>
      if id !in c.aliases then Failure(AliasError.Permission)
      else One(A.Restrict(c.aliases[id], expected, OnRoute(c.existing, id), at))
    case Replace(id, expected, replacement, selection, until) =>
      if id !in c.aliases then Failure(AliasError.Permission)
      else ReplaceAlias(r, c, c.aliases[id], expected, replacement, selection, until, domain, at)
    case Retire(id, expected) =>
      if id !in c.aliases then Failure(AliasError.Permission)
      else One(A.Retire(c.aliases[id], expected, at))
    case Approve(id, expected, sender, conversation) =>
      if c.relationship.Some? && (c.relationship.value.sender != sender || c.relationship.value.recipient != r.owner)
      then Failure(Invalid)
      else if c.relationship.Some? && c.relationship.value.state.Blocked? then Failure(AliasError.Blocked)
      else if id !in c.aliases then Failure(AliasError.Permission)
      else One(A.Approve(c.aliases[id], expected, sender, conversation, at))
    case ScopeSender(sender, expected, receiving) =>
      var scope :- EstablishScope(c, r.owner, sender, expected, receiving, at);
      Success(Mutation([], Some(scope), None))
  }

  // ---- receipts ----

  predicate Owned(aliases: seq<A.Alias>, owner: Identity) {
    && (forall i :: 0 <= i < |aliases| ==> aliases[i].owner == owner)
    && (forall i, j :: 0 <= i < j < |aliases| ==> aliases[i].id != aliases[j].id)
  }

  predicate MatchesPermission(a: A.Alias, id: AliasId, expected: U64, expectedPermission: U64, action: PermissionAction, at: Time) {
    && a.id == id && a.revision == expected
    && CheckedNext(expectedPermission) == Some(a.permission.revision)
    && a.permission.changedAt == at
    && match (action, a.permission.state)
       case (Open, Broad(g)) => g.establishedAt == at
       case (Narrow, Narrowed(_, _)) => true
       case (Remove, Closed) => true
       case (Senders(grants), Senders(lanes)) =>
         |grants| == |lanes| && forall i :: 0 <= i < |grants| ==> grants[i].grant == lanes[i].grant
       case _ => false
  }

  predicate MatchesCreation(a: A.Alias, id: AliasId, selection: AddressSelection, configuration: A.Configuration, at: Time) {
    && a.id == id && a.configuration == configuration && a.address == selection.address
    && a.revision == 0 && a.createdAt == at
    && (match configuration.receiving
        case Bonded => a.permission.revision == 0 && a.permission.state.Closed?
        case AliasScoped => a.permission.revision == 1 && a.permission.state.Broad?)
  }

  /** `find(|a| a.id() == id)`. */
  function FindAlias(aliases: seq<A.Alias>, id: AliasId): Option<A.Alias> {
    if aliases == [] then None
    else if aliases[0].id == id then Some(aliases[0])
    else FindAlias(aliases[1..], id)
  }

  predicate MatchesReplacement(
    former: A.Alias, next: A.Alias, expected: U64, replacement: AliasId, selection: AddressSelection, until: Time, at: Time)
  {
    && CheckedNext(expected) == Some(former.revision)
    && next.revision == 0 && next.createdAt == at && next.permission.revision == 0
    && next.address == selection.address && next.configuration == former.configuration
    && former.lifecycle.Replaced? && former.lifecycle.at == at
    && former.lifecycle.replacement == replacement && former.lifecycle.until == until
  }

  /** Does this outcome describe exactly that signed command? */
  predicate Matches(receipt: Receipt, r: SignedCommand) {
    match (r.command, receipt.outcome)
    case (Inspect, Listed(aliases)) => Owned(aliases, r.owner)
    case (Inspect, _) => false
    case (UseForCorrespondence(id, expected), Changed(aliases)) =>
      Owned(aliases, r.owner) && |aliases| == 1 && aliases[0].id == id && aliases[0].revision == expected
    case (ChangePermission(id, expected, expectedPermission, action), Changed(aliases)) =>
      && Owned(aliases, r.owner) && |aliases| == 1
      && MatchesPermission(aliases[0], id, expected, expectedPermission, action, receipt.at)
    case (Create(id, selection, configuration), Changed(aliases)) =>
      && Owned(aliases, r.owner) && |aliases| == 1
      && MatchesCreation(aliases[0], id, selection, configuration, receipt.at)
    case (Restrict(id, expected), Changed(aliases)) =>
      && Owned(aliases, r.owner) && |aliases| == 1 && aliases[0].id == id
      && CheckedNext(expected) == Some(aliases[0].revision) && aliases[0].changedAt == receipt.at
      && aliases[0].lifecycle.Restricted? && aliases[0].lifecycle.at == receipt.at
    case (Replace(id, expected, replacement, selection, until), Changed(aliases)) =>
      && Owned(aliases, r.owner) && |aliases| == 2
      && FindAlias(aliases, id).Some? && FindAlias(aliases, replacement).Some?
      && MatchesReplacement(FindAlias(aliases, id).value, FindAlias(aliases, replacement).value,
                            expected, replacement, selection, until, receipt.at)
    case (Retire(id, expected), Changed(aliases)) =>
      && Owned(aliases, r.owner) && |aliases| == 1 && aliases[0].id == id
      && CheckedNext(expected) == Some(aliases[0].revision)
      && aliases[0].lifecycle == A.Lifecycle.Retired(receipt.at)
    case (ScopeSender(sender, expected, receiving), Scoped(scope)) =>
      && scope.sender == sender && scope.recipient == r.owner
      && CheckedNext(expected) == Some(scope.revision)
      && scope.receiving == receiving && scope.establishedAt == receipt.at
    case (Approve(id, expected, sender, conversation), Changed(aliases)) =>
      && Owned(aliases, r.owner) && |aliases| == 1 && aliases[0].id == id
      && CheckedNext(expected) == Some(aliases[0].revision) && aliases[0].changedAt == receipt.at
      && aliases[0].lifecycle.Restricted? && conversation in aliases[0].lifecycle.approvals
      && aliases[0].lifecycle.approvals[conversation] == A.Approval(sender, receipt.at)
    case (_, Refused(_)) => true
    case _ => false
  }

  // ---- the decision ----

  predicate WellFormed(r: SignedCommand) {
    r.product != "" && r.account != 0 && r.owner != 0 && r.key != 0 && r.operation != 0
  }

  function Authenticate(r: SignedCommand, c: Context, scope: SigningScope, at: Time): Result<(), AliasError> {
    if r.scope != scope || c.participant != r.owner then Failure(AliasError.Permission)
    else match c.authority.personaKey(r.product, r.owner, r.key, at)
      case None => Failure(AliasError.Permission)
      case Some(key) =>
        if !c.authority.recipientKeyActive(r.key, r.owner, at) then Failure(AliasError.Permission)
        else if !WellFormed(r) then Failure(Invalid)
        else if !c.authority.signedBy(r, key) then Failure(AliasError.Permission)
        else Success(())
  }

  predicate IsLeast(k: AliasId, keys: set<AliasId>) {
    k in keys && forall j :: j in keys ==> k <= j
  }

  lemma {:induction false} LeastExists(keys: set<AliasId>) returns (least: AliasId)
    requires keys != {}
    ensures IsLeast(least, keys)
  {
    var k :| k in keys;
    if keys == {k} {
      least := k;
    } else {
      var m := LeastExists(keys - {k});
      least := if m <= k then m else k;
      forall j | j in keys ensures least <= j {
        assert j == k || j in keys - {k};
      }
    }
  }

  function Least(keys: set<AliasId>): (k: AliasId)
    requires keys != {}
    ensures IsLeast(k, keys)
  {
    assert exists k :: IsLeast(k, keys) by { var least := LeastExists(keys); }
    var k :| IsLeast(k, keys);
    k
  }

  /** The aliases of these keys, in key order. */
  function Values(aliases: map<AliasId, A.Alias>, keys: set<AliasId>): (values: seq<A.Alias>)
    requires keys <= aliases.Keys
    ensures |values| == |keys|
    ensures forall i :: 0 <= i < |values| ==> exists k :: k in keys && aliases[k] == values[i]
  {
    if keys == {} then []
    else
      var k := Least(keys);
      [aliases[k]] + Values(aliases, keys - {k})
  }

  function Decide(r: SignedCommand, c: Context, scope: SigningScope, domain: string, at: Time)
    : Result<Decision, AliasError>
  {
    var _ :- Authenticate(r, c, scope, at);
    if c.prior.Some? then
      if c.prior.value.digest != r || !Matches(c.prior.value, r) then Failure(Conflict)
      else Success(Decision(c.prior.value, None))
    else if !OwnPortfolio(r.owner, c.aliases) then Failure(Invalid)
    else if r.command.Inspect? then Success(Decision(Receipt(r, at, Listed(Values(c.aliases, c.aliases.Keys))), None))
    else match Mutate(r, c, domain, at)
      case Success(m) =>
        var receipt := Receipt(r, at, if m.scope.Some? then Scoped(m.scope.value) else Changed(m.aliases));
        Success(Decision(receipt, Some(Effects(m.aliases, m.scope, m.correspondence, receipt))))
      case Failure(e) =>
        var receipt := Receipt(r, at, Refused(e));
        Success(Decision(receipt, Some(Effects([], None, None, receipt))))
  }

  /** Every alias the store loads has passed its validator. */
  predicate Loaded(c: Context) {
    forall id :: id in c.aliases ==> A.Accepts(c.aliases[id])
  }

  // ---- every fresh receipt describes its command ----

  lemma {:induction false} ActivationKeepsGrants(r: SignedCommand, c: Context, grants: seq<SignedGrant>, at: Time)
    requires Activate(r, c, grants, at).Success?
    ensures var lanes := Activate(r, c, grants, at).value;
            && |lanes| == |grants|
            && forall i :: 0 <= i < |grants| ==> lanes[i].grant == grants[i].grant && L.ValidLane(lanes[i])
  {
    if grants != [] {
      L.FromGrantIsValid(grants[0].grant);
      ActivationKeepsGrants(r, c, grants[1..], at);
    }
  }

  /** Every grant of the command may be activated now. */
  predicate AllActivate(r: SignedCommand, c: Context, grants: seq<SignedGrant>, at: Time) {
    forall i :: 0 <= i < |grants| ==> ActivateOne(r, c, grants[i], at).Success?
  }

  lemma {:induction false} ActivationSucceedsExactly(r: SignedCommand, c: Context, grants: seq<SignedGrant>, at: Time)
    ensures Activate(r, c, grants, at).Success? <==> AllActivate(r, c, grants, at)
  {
    if grants != [] {
      ActivationSucceedsExactly(r, c, grants[1..], at);
      assert forall i :: 0 < i < |grants| ==> grants[i] == grants[1..][i - 1];
    }
  }

  /** No two grants share an identifier or a subject. */
  predicate DistinctGrants(grants: seq<SignedGrant>) {
    forall i, j :: 0 <= i < j < |grants| ==>
      grants[i].grant.id != grants[j].grant.id && grants[i].grant.subject != grants[j].grant.subject
  }

  /** A set of signed grants becomes the permission exactly when there are 1 to 32 of them, each may be activated
      now, no two share an identifier or a subject, and the change itself is timely: the permission's validator
      adds nothing. Its lanes are then those grants', in order, each a valid record. */
  lemma SendersSucceedsExactly(
    r: SignedCommand, c: Context, p: P.ReceivingPermission, id: AliasId, expected: U64, grants: seq<SignedGrant>, at: Time)
    requires P.Accepts(p) && p.owner == r.owner
    ensures var next := NextPermission(r, c, p, id, expected, Senders(grants), at);
            && (next.Success? <==>
                  && 0 < |grants| <= P.MAX_SENDERS && AllActivate(r, c, grants, at) && DistinctGrants(grants)
                  && P.MayChange(p, expected, at))
            && (next.Success? ==>
                  && P.Changed(p, next.value, at) && next.value.state.Senders? && P.LanesValid(next.value)
                  && |next.value.state.lanes| == |grants|
                  && forall i :: 0 <= i < |grants| ==> next.value.state.lanes[i].grant == grants[i].grant)
  {
    ActivationSucceedsExactly(r, c, grants, at);
    if Activate(r, c, grants, at).Success? {
      var lanes := Activate(r, c, grants, at).value;
      ActivationKeepsGrants(r, c, grants, at);
      P.SetSendersSucceedsExactly(p, expected, lanes, at);
      forall i | 0 <= i < |grants| ensures lanes[i].grant.recipient == p.owner && lanes[i].grant.issuedAt <= at {
        assert ActivateOne(r, c, grants[i], at).Success?;
      }
      SameGrantsSameDistinctness(grants, lanes);
    }
  }

  lemma SameGrantsSameDistinctness(grants: seq<SignedGrant>, lanes: seq<L.Lane>)
    requires |lanes| == |grants| && forall i :: 0 <= i < |grants| ==> lanes[i].grant == grants[i].grant
    ensures P.DistinctLanes(lanes) <==> DistinctGrants(grants)
  {
    if P.DistinctLanes(lanes) {
      forall i, j | 0 <= i < j < |grants|
        ensures grants[i].grant.id != grants[j].grant.id && grants[i].grant.subject != grants[j].grant.subject
      {
        assert lanes[i].grant.id != lanes[j].grant.id && lanes[i].grant.subject != lanes[j].grant.subject;
      }
    }
    if DistinctGrants(grants) {
      forall i, j | 0 <= i < j < |lanes|
        ensures lanes[i].grant.id != lanes[j].grant.id && lanes[i].grant.subject != lanes[j].grant.subject
      {
        assert grants[i].grant.id != grants[j].grant.id && grants[i].grant.subject != grants[j].grant.subject;
      }
    }
  }

  lemma PermissionChangeMatches(
    r: SignedCommand, c: Context, id: AliasId, expected: U64, expectedPermission: U64, action: PermissionAction, at: Time)
    requires OwnPortfolio(r.owner, c.aliases)
    requires PermissionChange(r, c, id, expected, expectedPermission, action, at).Success?
    ensures var a := PermissionChange(r, c, id, expected, expectedPermission, action, at).value;
            && MatchesPermission(a, id, expected, expectedPermission, action, at)
            && A.Accepts(a) && a == c.aliases[id].(permission := a.permission) && P.LanesValid(a.permission)
  {
    if action.Senders? {
      ActivationKeepsGrants(r, c, action.grants, at);
    }
  }

  lemma CreationMatches(
    r: SignedCommand, c: Context, id: AliasId, selection: AddressSelection, configuration: A.Configuration,
    domain: string, at: Time)
    requires CreateAlias(r, c, id, selection, configuration, domain, at).Success?
    ensures var a := CreateAlias(r, c, id, selection, configuration, domain, at).value;
            && MatchesCreation(a, id, selection, configuration, at)
            && A.Accepts(a) && a.owner == r.owner && a.lifecycle.Active? && !a.permission.state.Senders?
            && id !in c.reservedIds && a.address !in c.reservedAddresses && id !in c.aliases
  {
  }

  lemma ReplacementMatches(
    r: SignedCommand, c: Context, id: AliasId, expected: U64, replacement: AliasId, selection: AddressSelection,
    until: Time, domain: string, at: Time)
    requires OwnPortfolio(r.owner, c.aliases) && id in c.aliases && A.Accepts(c.aliases[id])
    requires ReplaceAlias(r, c, c.aliases[id], expected, replacement, selection, until, domain, at).Success?
    ensures var m := ReplaceAlias(r, c, c.aliases[id], expected, replacement, selection, until, domain, at).value;
            && |m.aliases| == 2 && m.scope.None? && m.correspondence.None?
            && var former, next := m.aliases[0], m.aliases[1];
               && former.id == id && next.id == replacement && id != replacement
               && former.owner == r.owner && next.owner == r.owner
               && MatchesReplacement(former, next, expected, replacement, selection, until, at)
               && A.Accepts(former) && A.Accepts(next) && next.lifecycle.Active?
               && former.address == c.aliases[id].address && former.createdAt == c.aliases[id].createdAt
               && former.permission == c.aliases[id].permission && next.permission.state.Closed?
               && replacement !in c.reservedIds && next.address !in c.reservedAddresses
  {
  }

  /** The values listed are the owner's, each once. */
  lemma {:induction false} ListedAliasesAreOwned(aliases: map<AliasId, A.Alias>, keys: set<AliasId>, owner: Identity)
    requires OwnPortfolio(owner, aliases) && keys <= aliases.Keys
    ensures Owned(Values(aliases, keys), owner)
  {
    if keys != {} {
      var k := Least(keys);
      var rest := Values(aliases, keys - {k});
      ListedAliasesAreOwned(aliases, keys - {k}, owner);
      forall j | 0 <= j < |rest| ensures rest[j].id != k {
        var key :| key in keys - {k} && aliases[key] == rest[j];
      }
    }
  }

  /** A lifecycle command writes one owned alias, as its receipt says. */
  predicate LifecycleWrites(r: SignedCommand, c: Context, at: Time, m: Mutation)
    requires r.command.Restrict? || r.command.Retire? || r.command.Approve?
  {
    && m.scope.None? && m.correspondence.None? && |m.aliases| == 1 && r.command.id in c.aliases
    && A.Accepts(m.aliases[0]) && m.aliases[0].permission == c.aliases[r.command.id].permission
    && m.aliases[0].address == c.aliases[r.command.id].address && !m.aliases[0].lifecycle.Replaced?
    && Matches(Receipt(r, at, Changed(m.aliases)), r)
  }

  lemma RestrictMatches(r: SignedCommand, c: Context, domain: string, at: Time)
    requires OwnPortfolio(r.owner, c.aliases) && Loaded(c) && r.command.Restrict? && Mutate(r, c, domain, at).Success?
    ensures LifecycleWrites(r, c, at, Mutate(r, c, domain, at).value)
  {
  }

  lemma RetireMatches(r: SignedCommand, c: Context, domain: string, at: Time)
    requires OwnPortfolio(r.owner, c.aliases) && Loaded(c) && r.command.Retire? && Mutate(r, c, domain, at).Success?
    ensures LifecycleWrites(r, c, at, Mutate(r, c, domain, at).value)
  {
  }

  lemma ApproveMatches(r: SignedCommand, c: Context, domain: string, at: Time)
    requires OwnPortfolio(r.owner, c.aliases) && Loaded(c) && r.command.Approve? && Mutate(r, c, domain, at).Success?
    ensures LifecycleWrites(r, c, at, Mutate(r, c, domain, at).value)
  {
  }

  lemma CreateCommandMatches(r: SignedCommand, c: Context, domain: string, at: Time)
    requires r.command.Create? && Mutate(r, c, domain, at).Success?
    ensures var m := Mutate(r, c, domain, at).value;
            && m.scope.None? && m.correspondence.None? && |m.aliases| == 1 && A.Accepts(m.aliases[0])
            && m.aliases[0].lifecycle.Active?
            && Matches(Receipt(r, at, Changed(m.aliases)), r)
  {
    CreationMatches(r, c, r.command.id, r.command.address, r.command.configuration, domain, at);
  }

  lemma ReplacementReceiptMatches(r: SignedCommand, at: Time, aliases: seq<A.Alias>)
    requires r.command.Replace? && |aliases| == 2
    requires aliases[0].id == r.command.id && aliases[1].id == r.command.replacement && aliases[0].id != aliases[1].id
    requires aliases[0].owner == r.owner && aliases[1].owner == r.owner
    requires MatchesReplacement(aliases[0], aliases[1], r.command.expected, r.command.replacement, r.command.address,
                                r.command.until, at)
    ensures Matches(Receipt(r, at, Changed(aliases)), r)
  {
  }

  lemma ReplaceCommandMatches(r: SignedCommand, c: Context, domain: string, at: Time)
    requires OwnPortfolio(r.owner, c.aliases) && Loaded(c)
    requires r.command.Replace? && Mutate(r, c, domain, at).Success?
    ensures var m := Mutate(r, c, domain, at).value;
            && m.scope.None? && m.correspondence.None?
            && |m.aliases| == 2 && A.Accepts(m.aliases[0]) && A.Accepts(m.aliases[1])
            && Matches(Receipt(r, at, Changed(m.aliases)), r)
  {
    ReplacementMatches(r, c, r.command.id, r.command.expected, r.command.replacement, r.command.address,
                       r.command.until, domain, at);
    ReplacementReceiptMatches(r, at, Mutate(r, c, domain, at).value.aliases);
  }

  lemma PermissionCommandMatches(r: SignedCommand, c: Context, domain: string, at: Time)
    requires OwnPortfolio(r.owner, c.aliases)
    requires r.command.ChangePermission? && Mutate(r, c, domain, at).Success?
    ensures var m := Mutate(r, c, domain, at).value;
            && m.scope.None? && m.correspondence.None? && |m.aliases| == 1 && A.Accepts(m.aliases[0])
            && r.command.id in c.aliases
            && m.aliases[0] == c.aliases[r.command.id].(permission := m.aliases[0].permission)
            && Matches(Receipt(r, at, Changed(m.aliases)), r)
  {
    PermissionChangeMatches(r, c, r.command.id, r.command.expected, r.command.expectedPermission, r.command.action, at);
  }

  lemma MutationMatches(r: SignedCommand, c: Context, domain: string, at: Time)
    requires OwnPortfolio(r.owner, c.aliases) && Loaded(c) && !r.command.Inspect?
    requires Mutate(r, c, domain, at).Success?
    ensures var m := Mutate(r, c, domain, at).value;
            && Matches(Receipt(r, at, if m.scope.Some? then Scoped(m.scope.value) else Changed(m.aliases)), r)
            && (m.scope.Some? ==> m.aliases == [])
            && forall i :: 0 <= i < |m.aliases| ==> A.Accepts(m.aliases[i])
  {
    match r.command
    case ChangePermission(_, _, _, _) => PermissionCommandMatches(r, c, domain, at);
    case Create(_, _, _) => CreateCommandMatches(r, c, domain, at);
    case Replace(_, _, _, _, _) => ReplaceCommandMatches(r, c, domain, at);
    case UseForCorrespondence(_, _) =>
    case ScopeSender(_, _, _) =>
    case Restrict(_, _) => RestrictMatches(r, c, domain, at);
    case Retire(_, _) => RetireMatches(r, c, domain, at);
    case Approve(_, _, _, _) => ApproveMatches(r, c, domain, at);
  }

  /** Every fresh receipt, refusals included, carries its own command's digest and matches it; and the
      effects the store must persist are exactly the ones the receipt reports. */
  lemma FreshReceiptMatches(r: SignedCommand, c: Context, scope: SigningScope, domain: string, at: Time)
    requires Loaded(c) && c.prior.None?
    requires Decide(r, c, scope, domain, at).Success?
    ensures var d := Decide(r, c, scope, domain, at).value;
            && d.receipt.digest == r && d.receipt.at == at
            && Matches(d.receipt, r)
            && (d.effects.None? <==> r.command.Inspect?)
            && (d.effects.Some? ==>
                  && d.effects.value.receipt == d.receipt
                  && (d.receipt.outcome.Changed? ==> d.effects.value.aliases == d.receipt.outcome.aliases)
                  && (!d.receipt.outcome.Changed? ==> d.effects.value.aliases == [])
                  && d.effects.value.scope == (if d.receipt.outcome.Scoped? then Some(d.receipt.outcome.scope) else None))
  {
    if r.command.Inspect? {
      ListedAliasesAreOwned(c.aliases, c.aliases.Keys, r.owner);
    } else if Mutate(r, c, domain, at).Success? {
      MutationMatches(r, c, domain, at);
    }
  }

  /** Resubmission: whatever else has changed, the same request with that receipt on file gets it back
      verbatim with no effects, for exactly as long as the request authenticates. */
  lemma ResubmissionReturnsReceipt(
    r: SignedCommand, c: Context, at: Time, later: Context, again: Time, scope: SigningScope, domain: string)
    requires Loaded(c) && c.prior.None?
    requires Decide(r, c, scope, domain, at).Success?
    requires later.prior == Some(Decide(r, c, scope, domain, at).value.receipt)
    ensures Authenticate(r, later, scope, again).Success? <==>
              Decide(r, later, scope, domain, again) ==
              Success(Decision(Decide(r, c, scope, domain, at).value.receipt, None))
  {
    FreshReceiptMatches(r, c, scope, domain, at);
  }

  /** No other request, however similar, is answered from that receipt. */
  lemma ReceiptAnswersNoOtherRequest(
    r: SignedCommand, c: Context, at: Time, other: SignedCommand, later: Context, again: Time,
    scope: SigningScope, domain: string)
    requires Loaded(c) && c.prior.None? && other != r
    requires Decide(r, c, scope, domain, at).Success?
    requires later.prior == Some(Decide(r, c, scope, domain, at).value.receipt)
    ensures Decide(other, later, scope, domain, again).Failure?
  {
    FreshReceiptMatches(r, c, scope, domain, at);
  }

  // ---- what each command asks and leaves, over the records' own fields ----

  /** An address's domain is what follows its first at sign. */
  lemma {:induction false} DomainExactly(local: string, domain: string)
    requires '@' !in local
    ensures AtSign(local + "@" + domain) == |local| && Domain(local + "@" + domain) == domain
    ensures Domain(local) == ""
  {
    var address := local + "@" + domain;
    FirstAtSign(address, |local|);
    assert address[|local| + 1..] == domain;
    FirstAtSign(local, |local|);
  }

  lemma {:induction false} FirstAtSign(address: A.MemberAddress, k: nat)
    requires k <= |address| && (forall i :: 0 <= i < k ==> address[i] != '@') && (k < |address| ==> address[k] == '@')
    ensures AtSign(address) == k
  {
    if k > 0 { FirstAtSign(address[1..], k - 1); }
  }

  /** A generated address: two to eight lower-case letters and six digits before its first at sign. */
  lemma GeneratedExactly(name: string, digits: string, domain: string)
    requires '@' !in name && '@' !in digits && |digits| == 6
    ensures IsGenerated(name + digits + "@" + domain) <==>
              && 2 <= |name| <= 8 && (forall i :: 0 <= i < |name| ==> 'a' <= name[i] <= 'z')
              && forall i :: 0 <= i < 6 ==> '0' <= digits[i] <= '9'
  {
    var address := name + digits + "@" + domain;
    var k := |name| + 6;
    FirstAtSign(address, k);
    assert forall i :: 0 <= i < |name| ==> address[i] == name[i];
    assert forall i :: 0 <= i < 6 ==> address[|name| + i] == digits[i];
    assert forall i :: |name| <= i < k ==> address[i] == digits[i - |name|];
  }

  /** What a name for a new alias must be: in the host's domain, and neither its id nor its address used before; a generated
      one must look it. */
  predicate Unused(c: Context, id: AliasId, selection: AddressSelection, domain: string) {
    && Domain(selection.address) == domain && id !in c.reservedIds && selection.address !in c.reservedAddresses
    && (selection.Generated? ==> IsGenerated(selection.address))
  }

  /** Which grants are activated, and as what: those this recipient's own key signed here, already issued, to somebody else,
      for a sender who holds the domain if one is granted, and already in force; each becomes a new lane. */
  lemma ActivateOneExactly(r: SignedCommand, c: Context, signed: SignedGrant, at: Time)
    ensures var g := signed.grant;
            ActivateOne(r, c, signed, at).Success? <==>
              && g.protocolVersion == 2 && g.recipient == r.owner && g.recipientKey == r.key && g.sender != r.owner
              && g.deployment == r.scope.deployment && g.provider == r.scope.provider
              && (g.subject.LegacyDomain? ==> c.authority.domainIdentity(g.subject.domain, r.scope.deployment) == g.sender)
              && (var key := c.authority.personaKey(r.product, r.owner, r.key, at);
                  key.Some? && c.authority.grantSignedBy(signed, key.value))
              && L.ValidGrant(g) && g.issuedAt + g.lifetime <= U64_MAX && g.issuedAt + g.interval <= U64_MAX
              && g.notBefore <= at < g.notAfter && (g.mode == L.Expiring ==> at < g.issuedAt + g.lifetime)
    ensures ActivateOne(r, c, signed, at).Success? ==>
              && ActivateOne(r, c, signed, at).value.grant == signed.grant
              && ActivateOne(r, c, signed, at).value.admitted == {} && ActivateOne(r, c, signed, at).value.version == 0
  {
    L.FromGrantExactly(signed.grant);
  }

  /** A command on an alias that exists, is the caller's and stands at the revision the caller saw. */
  predicate AtRevision(c: Context, id: AliasId, expected: U64) {
    id in c.aliases && c.aliases[id].revision == expected
  }

  /** What the permission's own rule asks of a change. */
  predicate RuleAllows(
    r: SignedCommand, c: Context, p: P.ReceivingPermission, id: AliasId, expected: U64, action: PermissionAction, at: Time)
  {
    && P.MayChange(p, expected, at)
    && match action
       case Open => true
       case Remove => true
       case Narrow => p.state.Broad? && P.OwnEvidence(p, OnRoute(c.existing, id), at)
       case Senders(grants) => 1 <= |grants| <= 32 && AllActivate(r, c, grants, at) && DistinctGrants(grants)
  }

  lemma NextPermissionExactly(
    r: SignedCommand, c: Context, p: P.ReceivingPermission, id: AliasId, expected: U64, action: PermissionAction, at: Time)
    requires P.Accepts(p) && p.owner == r.owner
    ensures NextPermission(r, c, p, id, expected, action, at).Success? <==> RuleAllows(r, c, p, id, expected, action, at)
    ensures NextPermission(r, c, p, id, expected, action, at).Success? ==>
              var q := NextPermission(r, c, p, id, expected, action, at).value;
              && P.Changed(p, q, at)
              && match action
                 case Open => q.state.Broad?
                 case Narrow => q.state.Narrowed?
                 case Remove => q.state.Closed?
                 case Senders(_) => q.state.Senders?
  {
    match action
    case Open => P.OpenSucceedsExactly(p, expected, at);
    case Remove => P.OpenSucceedsExactly(p, expected, at);
    case Narrow => P.NarrowSucceedsExactly(p, expected, OnRoute(c.existing, id), at);
    case Senders(grants) => SendersSucceedsExactly(r, c, p, id, expected, grants, at);
  }

  /** A changed permission fits its alias again, unless it opens a bonded one. */
  lemma ChangedPermissionFits(a: A.Alias, q: P.ReceivingPermission, at: Time)
    requires A.Accepts(a) && P.Changed(a.permission, q, at) && a.permission.changedAt <= at
    requires a.configuration.receiving == A.Bonded ==> !q.state.Broad? && !q.state.Narrowed?
    ensures A.WithPermission(a, q) == Success(a.(permission := q))
  {
  }

  /** Which permission changes are made: of an alias still in use, at its present revision, by the change's own rule; and a
      bonded alias is never opened or narrowed. Nothing but the permission moves. */
  lemma PermissionChangeExactly(
    r: SignedCommand, c: Context, id: AliasId, expected: U64, expectedPermission: U64, action: PermissionAction, at: Time)
    requires OwnPortfolio(r.owner, c.aliases) && Loaded(c)
    ensures PermissionChange(r, c, id, expected, expectedPermission, action, at).Success? <==>
              && AtRevision(c, id, expected)
              && var a := c.aliases[id];
                 && (a.lifecycle == A.Active || a.lifecycle.Restricted?)
                 && (a.configuration.receiving == A.Bonded ==> !action.Open? && !action.Narrow?)
                 && RuleAllows(r, c, a.permission, id, expectedPermission, action, at)
    ensures PermissionChange(r, c, id, expected, expectedPermission, action, at).Success? ==>
              NextPermission(r, c, c.aliases[id].permission, id, expectedPermission, action, at) ==
              Success(PermissionChange(r, c, id, expected, expectedPermission, action, at).value.permission)
    ensures AtRevision(c, id, expected) && (c.aliases[id].lifecycle == A.Active || c.aliases[id].lifecycle.Restricted?)
            && c.aliases[id].configuration.receiving == A.Bonded && (action.Open? || action.Narrow?) ==>
              PermissionChange(r, c, id, expected, expectedPermission, action, at) == Failure(AliasError.Permission)
  {
    if id in c.aliases {
      var a := c.aliases[id];
      assert A.Accepts(a);
      NextPermissionExactly(r, c, a.permission, id, expectedPermission, action, at);
      var next := NextPermission(r, c, a.permission, id, expectedPermission, action, at);
      if next.Success? && (a.configuration.receiving == A.Bonded ==> !action.Open? && !action.Narrow?) {
        ChangedPermissionFits(a, next.value, at);
      }
    }
  }

  /** Which aliases are created, and how they begin: a bonded one closed, a scoped one open to all. */
  lemma CreateAliasExactly(
    r: SignedCommand, c: Context, id: AliasId, selection: AddressSelection, configuration: A.Configuration,
    domain: string, at: Time)
    ensures CreateAlias(r, c, id, selection, configuration, domain, at).Success? <==>
              Unused(c, id, selection, domain) && OwnPortfolio(r.owner, c.aliases) && id !in c.aliases
    ensures CreateAlias(r, c, id, selection, configuration, domain, at).Success? ==>
              var a := CreateAlias(r, c, id, selection, configuration, domain, at).value;
              && a.id == id && a.owner == r.owner && a.address == selection.address && a.configuration == configuration
              && a.lifecycle == A.Active && a.revision == 0 && a.createdAt == a.changedAt == at && a.permission.changedAt == at
              && (a.permission.state.Closed? <==> configuration.receiving == A.Bonded)
              && (a.permission.state.Broad? <==> configuration.receiving == A.AliasScoped)
  {
    A.CreateSucceedsExactly(id, r.owner, selection.address, configuration, at);
    if r.owner != 0 {
      var a := A.Create(id, r.owner, selection.address, configuration, at).value;
      P.OpenSucceedsExactly(a.permission, 0, at);
    }
  }

  /** Which aliases are replaced: by an unused one of the same owner and configuration, closed until it is opened. */
  lemma ReplaceAliasExactly(
    r: SignedCommand, c: Context, former: A.Alias, expected: U64, replacement: AliasId, selection: AddressSelection,
    until: Time, domain: string, at: Time)
    ensures ReplaceAlias(r, c, former, expected, replacement, selection, until, domain, at).Success? <==>
              && Unused(c, replacement, selection, domain) && r.owner != 0
              && A.Replace(former, expected, A.Create(replacement, r.owner, selection.address, former.configuration, at).value,
                           until, OnRoute(c.existing, former.id), at).Success?
    ensures ReplaceAlias(r, c, former, expected, replacement, selection, until, domain, at).Success? ==>
              var m := ReplaceAlias(r, c, former, expected, replacement, selection, until, domain, at).value;
              var next := A.Create(replacement, r.owner, selection.address, former.configuration, at).value;
              && A.Replace(former, expected, next, until, OnRoute(c.existing, former.id), at) == Success(m.aliases[0])
              && m == Mutation([m.aliases[0], next], None, None)
  {
    A.CreateSucceedsExactly(replacement, r.owner, selection.address, former.configuration, at);
  }

  /** On what a sender's scope rests: their relationship if it is accepted, or its lane in force between the same two. */
  predicate Rests(c: Context, sender: Identity, owner: Identity, at: Time) {
    && c.relationship.Some? && c.relationship.value.sender == sender && c.relationship.value.recipient == owner
    && match c.relationship.value.state
       case Accepted => true
       case ExpressLane(id) =>
         && c.lane.Some? && c.lane.value.grant.id == id
         && c.lane.value.grant.sender == sender && c.lane.value.grant.recipient == owner
         && c.lane.value.state == L.Active && c.lane.value.grant.notBefore <= at < c.lane.value.grant.notAfter
         && (c.lane.value.grant.mode == L.Expiring ==> at < c.lane.value.horizonAt)
       case _ => false
  }

  /** Which sender scopes are established, and as what: named entrances the owner has, the next revision, the relationship
      as of its present version, and its lane if it stands for one. */
  lemma EstablishScopeExactly(
    c: Context, owner: Identity, sender: Identity, expected: U64, receiving: ReceivingScope, at: Time)
    requires c.lane.Some? ==> c.lane.value.grant.id != 0
    ensures EstablishScope(c, owner, sender, expected, receiving, at).Success? <==>
              && (match c.senderScope case None => expected == 0 case Some(s) => expected == s.revision) && expected < U64_MAX
              && sender != owner && sender != 0 && owner != 0
              && (forall id :: id in receiving ==> id in c.aliases)
              && Rests(c, sender, owner, at)
    ensures EstablishScope(c, owner, sender, expected, receiving, at).Success? ==>
              var s := EstablishScope(c, owner, sender, expected, receiving, at).value;
              && s.revision == expected + 1 && s.establishedAt == at && s.sender == sender && s.recipient == owner
              && s.receiving == receiving && s.relationshipVersion == c.relationship.value.version
              && (c.relationship.value.state == Accepted ==> s.lane == None)
              && (c.relationship.value.state.ExpressLane? ==>
                    s.lane == Some((c.relationship.value.state.lane, c.lane.value.grant.version)))
  {
  }

  /** Which commands mutate, one by one. Every one names an alias of the portfolio; only an active one is chosen for
      correspondence; and the alias's own rules decide the rest. */
  lemma MutatesExactly(r: SignedCommand, c: Context, domain: string, at: Time)
    ensures Mutate(r, c, domain, at).Success? <==>
              match r.command
              case Inspect => false
              case UseForCorrespondence(id, expected) => AtRevision(c, id, expected) && c.aliases[id].lifecycle == A.Active
              case ChangePermission(id, expected, expectedPermission, action) =>
                PermissionChange(r, c, id, expected, expectedPermission, action, at).Success?
              case Create(id, selection, configuration) => CreateAlias(r, c, id, selection, configuration, domain, at).Success?
              case Restrict(id, expected) => id in c.aliases && A.Restrict(c.aliases[id], expected, OnRoute(c.existing, id), at).Success?
              case Replace(id, expected, replacement, selection, until) =>
                && id in c.aliases
                && ReplaceAlias(r, c, c.aliases[id], expected, replacement, selection, until, domain, at).Success?
              case Retire(id, expected) => id in c.aliases && A.Retire(c.aliases[id], expected, at).Success?
              case Approve(id, expected, sender, conversation) =>
                && id in c.aliases && A.Approve(c.aliases[id], expected, sender, conversation, at).Success?
                && (c.relationship.Some? ==>
                      && c.relationship.value.sender == sender && c.relationship.value.recipient == r.owner
                      && c.relationship.value.state != RelationshipState.Blocked)
              case ScopeSender(sender, expected, receiving) =>
                EstablishScope(c, r.owner, sender, expected, receiving, at).Success?
  {
  }

  /** What each command writes: the one alias its rule leaves, or the two of a replacement, or the scope; and only a choice
      for correspondence names one. */
  lemma MutationExactly(r: SignedCommand, c: Context, domain: string, at: Time)
    requires Mutate(r, c, domain, at).Success?
    ensures var m := Mutate(r, c, domain, at).value;
            match r.command
            case Inspect => false
            case UseForCorrespondence(id, _) => m == Mutation([c.aliases[id]], None, Some(id))
            case ChangePermission(id, expected, expectedPermission, action) =>
              |m.aliases| == 1 && m == Mutation(m.aliases, None, None)
              && PermissionChange(r, c, id, expected, expectedPermission, action, at) == Success(m.aliases[0])
            case Create(id, selection, configuration) =>
              |m.aliases| == 1 && m == Mutation(m.aliases, None, None)
              && CreateAlias(r, c, id, selection, configuration, domain, at) == Success(m.aliases[0])
            case Restrict(id, expected) =>
              |m.aliases| == 1 && m == Mutation(m.aliases, None, None)
              && A.Restrict(c.aliases[id], expected, OnRoute(c.existing, id), at) == Success(m.aliases[0])
            case Replace(id, expected, replacement, selection, until) =>
              ReplaceAlias(r, c, c.aliases[id], expected, replacement, selection, until, domain, at) == Success(m)
            case Retire(id, expected) =>
              |m.aliases| == 1 && m == Mutation(m.aliases, None, None)
              && A.Retire(c.aliases[id], expected, at) == Success(m.aliases[0])
            case Approve(id, expected, sender, conversation) =>
              |m.aliases| == 1 && m == Mutation(m.aliases, None, None)
              && A.Approve(c.aliases[id], expected, sender, conversation, at) == Success(m.aliases[0])
            case ScopeSender(sender, expected, receiving) =>
              m.scope.Some? && m == Mutation([], m.scope, None)
              && EstablishScope(c, r.owner, sender, expected, receiving, at) == Success(m.scope.value)
  {
    MutatesExactly(r, c, domain, at);
  }

  /** Retiring succeeds from every state but the last: an alias in use, restricted or not, may always be given up by its
      owner at its present revision. */
  lemma AnyLiveAliasRetires(r: SignedCommand, c: Context, domain: string, at: Time)
    requires OwnPortfolio(r.owner, c.aliases) && Loaded(c)
    requires r.command.Retire? && AtRevision(c, r.command.id, r.command.expected)
    requires c.aliases[r.command.id].lifecycle == A.Active || c.aliases[r.command.id].lifecycle.Restricted?
    requires c.aliases[r.command.id].changedAt <= at && r.command.expected < U64_MAX
    ensures Mutate(r, c, domain, at).Success?
    ensures Mutate(r, c, domain, at).value.aliases[0].lifecycle == A.Lifecycle.Retired(at)
  {
    MutatesExactly(r, c, domain, at);
    A.RetireSucceedsExactly(c.aliases[r.command.id], r.command.expected, at);
  }

  /** Whose requests are taken: the participant's own, for this deployment, completely filled in, signed with the persona's
      key while it is an active recipient key. */
  lemma AuthenticateExactly(r: SignedCommand, c: Context, scope: SigningScope, at: Time)
    ensures Authenticate(r, c, scope, at).Success? <==>
              && r.scope == scope && c.participant == r.owner
              && r.product != "" && r.account != 0 && r.owner != 0 && r.key != 0 && r.operation != 0
              && c.authority.recipientKeyActive(r.key, r.owner, at)
              && var key := c.authority.personaKey(r.product, r.owner, r.key, at);
                 key.Some? && c.authority.signedBy(r, key.value)
  {
  }

  /** Every alias of the map is listed. */
  lemma {:induction false} ListsEveryAlias(aliases: map<AliasId, A.Alias>, keys: set<AliasId>, id: AliasId)
    requires keys <= aliases.Keys && id in keys
    ensures aliases[id] in Values(aliases, keys)
  {
    var k := Least(keys);
    if id != k { ListsEveryAlias(aliases, keys - {k}, id); }
  }

  /** And in the order of their keys. */
  lemma {:induction false} ListsInOrder(aliases: map<AliasId, A.Alias>, keys: set<AliasId>)
    requires keys <= aliases.Keys && forall id :: id in keys ==> aliases[id].id == id
    ensures forall i, j :: 0 <= i < j < |Values(aliases, keys)| ==> Values(aliases, keys)[i].id < Values(aliases, keys)[j].id
  {
    if keys != {} {
      var k := Least(keys);
      var rest := Values(aliases, keys - {k});
      ListsInOrder(aliases, keys - {k});
      forall j | 0 <= j < |rest| ensures k < rest[j].id {
        var key :| key in keys - {k} && aliases[key] == rest[j];
      }
      FirstThenRest(aliases[k], rest);
    }
  }

  lemma FirstThenRest(first: A.Alias, rest: seq<A.Alias>)
    requires forall j :: 0 <= j < |rest| ==> first.id < rest[j].id
    requires forall i, j :: 0 <= i < j < |rest| ==> rest[i].id < rest[j].id
    ensures forall i, j :: 0 <= i < j < |[first] + rest| ==> ([first] + rest)[i].id < ([first] + rest)[j].id
  {
  }

  /** What is decided of a request not seen before: an inspection lists the portfolio, a mutation reports and writes what it
      made, and one that is refused reports why and writes nothing but its receipt. */
  lemma DecidesExactly(r: SignedCommand, c: Context, scope: SigningScope, domain: string, at: Time)
    requires c.prior.None? && Authenticate(r, c, scope, at).Success?
    ensures Decide(r, c, scope, domain, at).Success? <==> OwnPortfolio(r.owner, c.aliases)
    ensures Decide(r, c, scope, domain, at).Success? && r.command.Inspect? ==>
              var d := Decide(r, c, scope, domain, at).value;
              d.effects == None && d.receipt.outcome == Listed(Values(c.aliases, c.aliases.Keys))
    ensures Decide(r, c, scope, domain, at).Success? && !r.command.Inspect? ==>
              var d := Decide(r, c, scope, domain, at).value;
              && d.effects.Some? && d.effects.value.receipt == d.receipt
              && match Mutate(r, c, domain, at)
                 case Failure(e) => d.receipt.outcome == Refused(e) && d.effects.value.correspondence == None
                                    && d.effects.value.aliases == [] && d.effects.value.scope == None
                 case Success(m) => && d.effects.value.aliases == m.aliases && d.effects.value.scope == m.scope
                                    && d.effects.value.correspondence == m.correspondence
                                    && d.receipt.outcome == if m.scope == None then Changed(m.aliases) else Scoped(m.scope.value)
  {
  }

  /** What a receipt that changed one alias must say: one alias, the owner's own, the one named. */
  predicate SaysOne(receipt: Receipt, owner: Identity, id: AliasId) {
    && receipt.outcome.Changed? && |receipt.outcome.aliases| == 1
    && receipt.outcome.aliases[0].owner == owner && receipt.outcome.aliases[0].id == id
  }

  /** No receipt that says anything else matches its command, command by command; a refusal matches any but a look. */
  lemma MatchingSays(receipt: Receipt, r: SignedCommand)
    requires Matches(receipt, r) && !receipt.outcome.Refused?
    ensures match r.command
            case Inspect => receipt.outcome.Listed?
            case ScopeSender(sender, expected, receiving) =>
              && receipt.outcome.Scoped?
              && var s := receipt.outcome.scope;
                 && s.sender == sender && s.recipient == r.owner && s.revision == expected + 1 && s.receiving == receiving
                 && s.establishedAt == receipt.at
            case Create(id, selection, configuration) =>
              && SaysOne(receipt, r.owner, id)
              && var a := receipt.outcome.aliases[0];
                 && a.address == selection.address && a.configuration == configuration && a.revision == 0
                 && a.createdAt == receipt.at
                 && a.permission.revision == (if configuration.receiving == A.Bonded then 0 else 1)
                 && (if configuration.receiving == A.Bonded then a.permission.state.Closed? else a.permission.state.Broad?)
            case Replace(id, expected, replacement, selection, until) =>
              && receipt.outcome.Changed? && |receipt.outcome.aliases| == 2
              && exists former, next :: former in receipt.outcome.aliases && next in receipt.outcome.aliases
                   && former.id == id && next.id == replacement && former.owner == r.owner && next.owner == r.owner
                   && former.revision == expected + 1 && former.lifecycle.Replaced? && former.lifecycle.at == receipt.at
                   && former.lifecycle.replacement == replacement && former.lifecycle.until == until
                   && next.revision == 0 && next.createdAt == receipt.at && next.address == selection.address
                   && next.permission.revision == 0 && next.configuration == former.configuration
            case _ => SaysOne(receipt, r.owner, r.command.id)
    ensures receipt.outcome.Listed? ==> forall a :: a in receipt.outcome.aliases ==> a.owner == r.owner
  {
    if r.command.Replace? && receipt.outcome.Changed? {
      FoundIsIn(receipt.outcome.aliases, r.command.id);
      FoundIsIn(receipt.outcome.aliases, r.command.replacement);
    }
  }

  lemma {:induction false} FoundIsIn(aliases: seq<A.Alias>, id: AliasId)
    ensures FindAlias(aliases, id).Some? ==> FindAlias(aliases, id).value in aliases && FindAlias(aliases, id).value.id == id
  {
    if aliases != [] && aliases[0].id != id { FoundIsIn(aliases[1..], id); }
  }

  /** And of that one alias, what each command says. */
  lemma MatchingSaysOfOne(receipt: Receipt, r: SignedCommand)
    requires Matches(receipt, r) && receipt.outcome.Changed? && |receipt.outcome.aliases| == 1
    ensures var a := receipt.outcome.aliases[0];
            match r.command
            case UseForCorrespondence(_, expected) => a.revision == expected
            case ChangePermission(_, expected, expectedPermission, action) =>
              && a.revision == expected && a.permission.revision == expectedPermission + 1 && a.permission.changedAt == receipt.at
              && (match action
                  case Open => a.permission.state.Broad? && a.permission.state.grant.establishedAt == receipt.at
                  case Narrow => a.permission.state.Narrowed?
                  case Remove => a.permission.state.Closed?
                  case Senders(grants) =>
                    && a.permission.state.Senders? && |a.permission.state.lanes| == |grants|
                    && (forall i :: 0 <= i < |grants| ==> a.permission.state.lanes[i].grant == grants[i].grant))
            case Restrict(_, expected) =>
              && a.revision == expected + 1 && a.changedAt == receipt.at
              && a.lifecycle.Restricted? && a.lifecycle.at == receipt.at
            case Retire(_, expected) => a.revision == expected + 1 && a.lifecycle == A.Lifecycle.Retired(receipt.at)
            case Approve(_, expected, sender, conversation) =>
              && a.revision == expected + 1 && a.changedAt == receipt.at && a.lifecycle.Restricted?
              && conversation in a.lifecycle.approvals && a.lifecycle.approvals[conversation] == A.Approval(sender, receipt.at)
            case _ => true
  {
  }
}
