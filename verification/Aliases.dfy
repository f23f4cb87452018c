/** One receiving address and its lifecycle, Active to Restricted to Replaced to Retired
    (crates/cs-mail-accounts/src/aliases.rs). Every transition ends in the stored-record validator. */
module Aliases {
  import opened Wrappers
  import opened Primitives
  import opened AliasErrors
  import P = Permission

  datatype ReceivingPolicy = Bonded | AliasScoped
  datatype Configuration = Configuration(description: string, receiving: ReceivingPolicy)
  type MemberAddress = string

  datatype Approval = Approval(sender: Identity, at: Time)
  type Approvals = map<ConversationId, Approval>

  datatype Lifecycle =
    | Active
    | Restricted(at: Time, conversations: Conversations, approvals: Approvals)
    | Replaced(at: Time, replacement: AliasId, until: Time, conversations: Conversations, approvals: Approvals)
    | Retired(at: Time)

  datatype Alias = Alias(
    id: AliasId, owner: Identity, address: MemberAddress, configuration: Configuration,
    createdAt: Time, changedAt: Time, revision: U64, lifecycle: Lifecycle,
    permission: P.ReceivingPermission)

  function Evidence(l: Lifecycle): Conversations {
    match l
    case Restricted(_, conversations, _) => conversations
    case Replaced(_, _, _, conversations, _) => conversations
    case _ => map[]
  }

  function ApprovalsOf(l: Lifecycle): Approvals {
    match l
    case Restricted(_, _, approvals) => approvals
    case Replaced(_, _, _, _, approvals) => approvals
    case _ => map[]
  }

  /** `max().unwrap_or(at)` over the approval times. */
  predicate IsLatestApproval(approvals: Approvals, at: Time, latest: Time) {
    if approvals == map[] then latest == at
    else
      && (forall c :: c in approvals ==> approvals[c].at <= latest)
      && (exists c :: c in approvals && approvals[c].at == latest)
  }

  function StateAt(a: Alias): Time {
    if a.lifecycle.Active? then a.createdAt else a.lifecycle.at
  }

  predicate PermissionFits(a: Alias) {
    && P.Accepts(a.permission)
    && a.permission.alias == a.id && a.permission.owner == a.owner
    && a.createdAt <= a.permission.changedAt
    && (a.configuration.receiving == Bonded ==> !a.permission.state.Broad? && !a.permission.state.Narrowed?)
  }

  predicate EvidenceFits(a: Alias) {
    && (forall c :: c in Evidence(a.lifecycle) ==>
          var e := Evidence(a.lifecycle)[c];
          && e.conversation == c && e.alias == a.id && e.sender != a.owner
          && a.createdAt <= e.admittedAt <= StateAt(a))
    && (forall c :: c in ApprovalsOf(a.lifecycle) ==>
          var v := ApprovalsOf(a.lifecycle)[c];
          v.sender != 0 && v.sender != a.owner && a.createdAt <= v.at <= a.changedAt)
  }

  predicate RevisionFits(a: Alias) {
    match a.lifecycle
    case Active => a.revision == 0 && a.changedAt == a.createdAt
    case Restricted(at, _, approvals) =>
      && a.revision == |approvals| + 1
      && (forall c :: c in approvals ==> at <= approvals[c].at)
      && IsLatestApproval(approvals, at, a.changedAt)
    case Replaced(at, _, _, _, approvals) =>
      && a.changedAt == at
      && (a.revision == |approvals| + 2 || (approvals == map[] && a.revision == 1))
    case Retired(_) => a.revision != 0
  }

  /** The stored-record validator. */
  predicate Accepts(a: Alias) {
    && a.owner != 0
    && a.createdAt <= a.changedAt
    && PermissionFits(a)
    && a.createdAt <= StateAt(a) <= a.changedAt
    && (a.lifecycle.Replaced? ==> a.lifecycle.replacement != a.id && a.lifecycle.at < a.lifecycle.until)
    && EvidenceFits(a)
    && RevisionFits(a)
  }

  function Check(a: Alias): Result<Alias, AliasError> {
    if Accepts(a) then Success(a) else Failure(Invalid)
  }

  // ---- transitions ----

  function Create(id: AliasId, owner: Identity, address: MemberAddress, configuration: Configuration, at: Time)
    : Result<Alias, AliasError>
  {
    var permission :- P.Unpaired(id, owner, at);
    Check(Alias(id, owner, address, configuration, at, at, 0, Active, permission))
  }

  function WithPermission(a: Alias, permission: P.ReceivingPermission): Result<Alias, AliasError> {
    Check(a.(permission := permission))
  }

  function Update(a: Alias, expected: U64, now: Time, lifecycle: Lifecycle): Result<Alias, AliasError> {
    if a.revision != expected then Failure(Conflict)
    else if a.lifecycle.Retired? || a.lifecycle.Replaced? then Failure(AliasError.Retired)
    else if now < a.changedAt then Failure(Invalid)
    else match CheckedNext(expected)
      case None => Failure(Invalid)
      case Some(next) => Check(a.(revision := next, changedAt := now, lifecycle := lifecycle))
  }

  function Existing(a: Alias, existing: seq<AdmittedConversation>, at: Time): Result<Conversations, AliasError> {
    var m := Collect(existing);
    if || |m| != |existing|
       || exists c :: c in m && (|| m[c].alias != a.id || m[c].admittedAt > at
                                 || m[c].admittedAt < a.createdAt || m[c].sender == a.owner)
    then Failure(Invalid)
    else Success(m)
  }

  function Restrict(a: Alias, expected: U64, existing: seq<AdmittedConversation>, at: Time): Result<Alias, AliasError> {
    if !a.lifecycle.Active? then Failure(AliasError.Restricted)
    else
      var conversations :- Existing(a, existing, at);
      Update(a, expected, at, Lifecycle.Restricted(at, conversations, map[]))
  }

  function Replace(
    a: Alias, expected: U64, replacement: Alias, until: Time, existing: seq<AdmittedConversation>, at: Time)
    : Result<Alias, AliasError>
  {
    if || replacement.owner != a.owner || replacement.id == a.id || replacement.address == a.address
       || replacement.configuration != a.configuration || replacement.createdAt != at
       || replacement.revision != 0 || !replacement.lifecycle.Active? || until <= at
    then Failure(Invalid)
    else
      var conversations :-
        (if a.lifecycle.Restricted? then Success(a.lifecycle.conversations) else Existing(a, existing, at));
      var approvals := if a.lifecycle.Restricted? then a.lifecycle.approvals else map[];
      Update(a, expected, at, Replaced(at, replacement.id, until, conversations, approvals))
  }

  function Retire(a: Alias, expected: U64, at: Time): Result<Alias, AliasError> {
    if a.lifecycle.Replaced? then
      if a.revision != expected || at < a.changedAt then Failure(Conflict)
      else match CheckedNext(expected)
        case None => Failure(Invalid)
        case Some(next) => Check(a.(revision := next, changedAt := at, lifecycle := Lifecycle.Retired(at)))
    else Update(a, expected, at, Lifecycle.Retired(at))
  }

  function Approve(a: Alias, expected: U64, sender: Identity, conversation: ConversationId, at: Time)
    : Result<Alias, AliasError>
  {
    if !a.lifecycle.Restricted? then Failure(AliasError.Restricted)
    else
      var Restricted(since, conversations, approvals) := a.lifecycle;
      if sender == 0 || sender == a.owner || conversation in conversations || conversation in approvals
      then Failure(Invalid)
      else Update(a, expected, at, Lifecycle.Restricted(since, conversations, approvals[conversation := Approval(sender, at)]))
  }

  function CheckConversation(a: Alias, sender: Identity, conversation: ConversationId, now: Time)
    : Result<(), AliasError>
  {
    if now < a.changedAt then Failure(Invalid)
    else if a.lifecycle.Active? then Success(())
    else if a.lifecycle.Retired? || (a.lifecycle.Replaced? && a.lifecycle.until <= now) then Failure(AliasError.Retired)
    else
      var existing, approvals := Evidence(a.lifecycle), ApprovalsOf(a.lifecycle);
      if || (conversation in existing && existing[conversation].sender == sender)
         || (&& conversation in approvals && approvals[conversation].sender == sender
             && approvals[conversation].at <= now)
      then Success(())
      else Failure(AliasError.Restricted)
  }

  predicate AcceptsMail(a: Alias, sender: Identity, conversation: ConversationId, now: Time) {
    CheckConversation(a, sender, conversation, now).Success?
  }

  /** Whom an alias accepts, over its record's fields: everyone while it is active; while it is restricted, and after a
      replacement until its deadline, the pairs it has evidence of or has approved by then; nobody once retired; and
      never before its last change. */
  lemma AcceptsMailExactly(a: Alias, sender: Identity, conversation: ConversationId, now: Time)
    ensures AcceptsMail(a, sender, conversation, now) <==>
              && a.changedAt <= now
              && match a.lifecycle
                 case Active => true
                 case Restricted(_, evidence, approvals) =>
                   || (conversation in evidence && evidence[conversation].sender == sender)
                   || (conversation in approvals && approvals[conversation].sender == sender && approvals[conversation].at <= now)
                 case Replaced(_, _, until, evidence, approvals) =>
                   && now < until
                   && (|| (conversation in evidence && evidence[conversation].sender == sender)
                       || (conversation in approvals && approvals[conversation].sender == sender && approvals[conversation].at <= now))
                 case Retired(_) => false
  {
  }

  // ---- the validator never refuses a transition whose explicit guards passed ----

  /** The guards every revision-checked lifecycle change shares. */
  predicate MayUpdate(a: Alias, expected: U64, at: Time) {
    a.revision == expected && a.changedAt <= at && expected < U64_MAX
  }

  predicate OwnEvidence(a: Alias, existing: seq<AdmittedConversation>, at: Time) {
    && DistinctConversations(existing)
    && forall e :: e in existing ==> e.alias == a.id && e.sender != a.owner && a.createdAt <= e.admittedAt <= at
  }

  lemma CreateSucceedsExactly(
    id: AliasId, owner: Identity, address: MemberAddress, configuration: Configuration, at: Time)
    ensures Create(id, owner, address, configuration, at).Success? <==> owner != 0
    ensures owner != 0 ==>
              var a := Create(id, owner, address, configuration, at).value;
              && Sound(a) && a.lifecycle.Active? && a.revision == 0 && a.permission.state == P.Closed
              && a.id == id && a.owner == owner && a.address == address && a.configuration == configuration
              && a.createdAt == a.changedAt == at && a.permission.revision == 0
              && forall sender, c, now: Time :: AcceptsMail(a, sender, c, now) <==> at <= now
  {
  }

  lemma ExistingSucceedsExactly(a: Alias, existing: seq<AdmittedConversation>, at: Time)
    ensures Existing(a, existing, at).Success? <==> OwnEvidence(a, existing, at)
  {
    CollectKeys(existing);
    CollectSize(existing);
    if Existing(a, existing, at).Success? {
      var m := Collect(existing);
      forall e | e in existing
        ensures e.alias == a.id && e.sender != a.owner && a.createdAt <= e.admittedAt <= at
      {
        var i :| 0 <= i < |existing| && existing[i] == e;
        var j :| 0 <= j < |existing| && existing[j] == m[e.conversation];
        assert i == j;
      }
    }
  }

  lemma RestrictSucceedsExactly(a: Alias, expected: U64, existing: seq<AdmittedConversation>, at: Time)
    requires Accepts(a)
    ensures Restrict(a, expected, existing, at).Success? <==>
              a.lifecycle.Active? && OwnEvidence(a, existing, at) && MayUpdate(a, expected, at)
  {
    ExistingSucceedsExactly(a, existing, at);
    CollectKeys(existing);
  }

  /** Freshly restricted, an alias accepts exactly what its evidence names. */
  lemma RestrictedAcceptsEvidence(
    a: Alias, expected: U64, existing: seq<AdmittedConversation>, at: Time, sender: Identity, conversation: ConversationId, now: Time)
    requires Restrict(a, expected, existing, at).Success? && at <= now
    ensures AcceptsMail(Restrict(a, expected, existing, at).value, sender, conversation, now) <==>
              exists e :: e in existing && e.conversation == conversation && e.sender == sender
  {
    CollectKeys(existing);
    ExistingSucceedsExactly(a, existing, at);
    if e :| e in existing && e.conversation == conversation && e.sender == sender {
      var i :| 0 <= i < |existing| && existing[i] == e;
      var j :| 0 <= j < |existing| && existing[j] == Collect(existing)[conversation];
      assert i == j;
    }
  }

  predicate FitReplacement(a: Alias, replacement: Alias, until: Time, at: Time) {
    && replacement.owner == a.owner && replacement.id != a.id && replacement.address != a.address
    && replacement.configuration == a.configuration && replacement.createdAt == at
    && replacement.revision == 0 && replacement.lifecycle.Active? && at < until
  }

  lemma RestrictedReplacementFits(a: Alias, replacement: Alias, until: Time, at: Time)
    requires Accepts(a) && a.lifecycle.Restricted? && FitReplacement(a, replacement, until, at) && MayUpdate(a, a.revision, at)
    ensures Accepts(a.(revision := a.revision + 1, changedAt := at, lifecycle :=
      Replaced(at, replacement.id, until, a.lifecycle.conversations, a.lifecycle.approvals)))
  {
    var b := a.(revision := a.revision + 1, changedAt := at, lifecycle :=
      Replaced(at, replacement.id, until, a.lifecycle.conversations, a.lifecycle.approvals));
    assert ApprovalsOf(b.lifecycle) == ApprovalsOf(a.lifecycle);
    assert EvidenceFits(b) && RevisionFits(b);
  }

  lemma ActiveReplacementFits(
    a: Alias, replacement: Alias, until: Time, existing: seq<AdmittedConversation>, at: Time)
    requires Accepts(a) && a.lifecycle.Active? && FitReplacement(a, replacement, until, at) && MayUpdate(a, a.revision, at)
    requires OwnEvidence(a, existing, at)
    ensures Accepts(a.(revision := a.revision + 1, changedAt := at, lifecycle :=
      Replaced(at, replacement.id, until, Collect(existing), map[])))
  {
    CollectKeys(existing);
    var b := a.(revision := a.revision + 1, changedAt := at, lifecycle :=
      Replaced(at, replacement.id, until, Collect(existing), map[]));
    assert EvidenceFits(b) && RevisionFits(b);
  }

  lemma ReplaceSucceedsExactly(
    a: Alias, expected: U64, replacement: Alias, until: Time, existing: seq<AdmittedConversation>, at: Time)
    requires Accepts(a)
    ensures Replace(a, expected, replacement, until, existing, at).Success? <==>
              && FitReplacement(a, replacement, until, at)
              && MayUpdate(a, expected, at)
              && (|| a.lifecycle.Restricted?
                  || (a.lifecycle.Active? && OwnEvidence(a, existing, at)))
  {
    ExistingSucceedsExactly(a, existing, at);
    if FitReplacement(a, replacement, until, at) && MayUpdate(a, expected, at) {
      if a.lifecycle.Restricted? {
        RestrictedReplacementFits(a, replacement, until, at);
      } else if a.lifecycle.Active? && OwnEvidence(a, existing, at) {
        ActiveReplacementFits(a, replacement, until, existing, at);
      }
    }
  }

  lemma RetireSucceedsExactly(a: Alias, expected: U64, at: Time)
    requires Accepts(a)
    ensures Retire(a, expected, at).Success? <==> !a.lifecycle.Retired? && MayUpdate(a, expected, at)
  {
  }

  lemma ApproveSucceedsExactly(a: Alias, expected: U64, sender: Identity, conversation: ConversationId, at: Time)
    requires Accepts(a)
    ensures Approve(a, expected, sender, conversation, at).Success? <==>
              && a.lifecycle.Restricted? && MayUpdate(a, expected, at)
              && sender != 0 && sender != a.owner
              && conversation !in a.lifecycle.conversations && conversation !in a.lifecycle.approvals
  {
    if a.lifecycle.Restricted? && conversation !in a.lifecycle.approvals {
      var next := a.lifecycle.approvals[conversation := Approval(sender, at)];
      InsertSize(a.lifecycle.approvals, conversation, Approval(sender, at));
      assert conversation in next && next[conversation].at == at;
      if MayUpdate(a, expected, at) && sender != 0 && sender != a.owner {
        var b := a.(revision := expected + 1, changedAt := at,
                    lifecycle := Lifecycle.Restricted(a.lifecycle.at, a.lifecycle.conversations, next));
        assert ApprovalsOf(b.lifecycle) == ApprovalsOf(a.lifecycle)[conversation := Approval(sender, at)];
        assert IsLatestApproval(next, a.lifecycle.at, at);
        assert EvidenceFits(b) && RevisionFits(b);
      }
    }
  }

  // ---- one step of an alias's life ----

  datatype Step =
    | DoRestrict(expected: U64, existing: seq<AdmittedConversation>, at: Time)
    | DoReplace(expected: U64, replacement: Alias, until: Time, existing: seq<AdmittedConversation>, at: Time)
    | DoRetire(expected: U64, at: Time)
    | DoApprove(expected: U64, sender: Identity, conversation: ConversationId, at: Time)
    | DoPermission(permission: P.ReceivingPermission)

  function Attempt(a: Alias, s: Step): Result<Alias, AliasError> {
    match s
    case DoRestrict(expected, existing, at) => Restrict(a, expected, existing, at)
    case DoReplace(expected, replacement, until, existing, at) => Replace(a, expected, replacement, until, existing, at)
    case DoRetire(expected, at) => Retire(a, expected, at)
    case DoApprove(expected, sender, conversation, at) => Approve(a, expected, sender, conversation, at)
    case DoPermission(permission) => WithPermission(a, permission)
  }

  /** A refused step leaves the alias as it was. */
  function After(a: Alias, s: Step): Alias {
    match Attempt(a, s)
    case Success(next) => next
    case Failure(_) => a
  }

  function Run(a: Alias, steps: seq<Step>): Alias
    decreases |steps|
  {
    if steps == [] then a else Run(After(a, steps[0]), steps[1..])
  }

  /** The validator does not ask this, but every reachable alias has it: no conversation is both
      admitted evidence and a later approval. */
  predicate OneSenderEach(a: Alias) {
    forall c :: c in Evidence(a.lifecycle) ==> c !in ApprovalsOf(a.lifecycle)
  }

  predicate Sound(a: Alias) {
    Accepts(a) && OneSenderEach(a)
  }

  /** What one successful step may do to identity, time, revision and phase. */
  lemma StepShape(a: Alias, s: Step)
    requires Sound(a) && Attempt(a, s).Success?
    ensures var b := Attempt(a, s).value;
            && Sound(b)
            && b.id == a.id && b.owner == a.owner && b.address == a.address
            && b.configuration == a.configuration && b.createdAt == a.createdAt
            && a.changedAt <= b.changedAt
            && (s.DoPermission? ==> b == a.(permission := s.permission))
            && (!s.DoPermission? ==> && s.expected == a.revision && CheckedNext(a.revision) == Some(b.revision)
                                     && b.changedAt == s.at && b.permission == a.permission
                                     && !b.lifecycle.Active?)
            && (b.lifecycle.Active? ==> a.lifecycle.Active?)
            && (a.lifecycle.Retired? ==> b.lifecycle.Retired?)
            && (a.lifecycle.Replaced? ==> b.lifecycle == a.lifecycle || b.lifecycle.Retired?)
  {
    match s
    case DoRestrict(expected, existing, at) => CollectKeys(existing);
    case DoReplace(expected, replacement, until, existing, at) => CollectKeys(existing);
    case _ =>
  }

  /** These conversations are those of this evidence, each by its own record. */
  predicate Holds(conversations: Conversations, existing: seq<AdmittedConversation>) {
    && (forall e :: e in existing ==> e.conversation in conversations && conversations[e.conversation] == e)
    && (forall c :: c in conversations ==> conversations[c] in existing)
  }

  lemma CollectHolds(existing: seq<AdmittedConversation>)
    requires DistinctConversations(existing)
    ensures Holds(Collect(existing), existing)
  {
    CollectKeys(existing);
    forall e | e in existing ensures e.conversation in Collect(existing) && Collect(existing)[e.conversation] == e {
      var i :| 0 <= i < |existing| && existing[i] == e;
      var j :| 0 <= j < |existing| && existing[j] == Collect(existing)[e.conversation];
      assert i == j;
    }
  }

  /** The phase a step leaves, to the letter. */
  predicate Phase(before: Lifecycle, s: Step, after: Lifecycle) {
    match s
    case DoRestrict(_, existing, at) =>
      after.Restricted? && after.at == at && Holds(after.conversations, existing) && after.approvals == map[]
    case DoReplace(_, replacement, until, existing, at) =>
      && after.Replaced? && after.at == at && after.replacement == replacement.id && after.until == until
      && (if before.Restricted? then after.conversations == before.conversations && after.approvals == before.approvals
          else Holds(after.conversations, existing) && after.approvals == map[])
    case DoRetire(_, at) => after.Retired? && after.at == at
    case DoApprove(_, sender, c, at) =>
      && before.Restricted? && after.Restricted? && after.at == before.at && after.conversations == before.conversations
      && after.approvals.Keys == before.approvals.Keys + {c} && after.approvals[c] == Approval(sender, at)
      && forall other :: other in before.approvals && other != c ==> after.approvals[other] == before.approvals[other]
    case DoPermission(_) => after == before
  }

  /** Everything a step writes: a permission by itself, or the next revision, the moment and the phase it leads to; nothing
      else of the record moves. */
  predicate Writes(a: Alias, s: Step, n: Alias) {
    && Phase(a.lifecycle, s, n.lifecycle)
    && if s.DoPermission? then n == a.(permission := s.permission)
       else && n == a.(revision := n.revision, changedAt := s.at, lifecycle := n.lifecycle)
            && CheckedNext(a.revision) == Some(n.revision)
  }

  lemma RestrictWrites(a: Alias, s: Step)
    requires s.DoRestrict? && Attempt(a, s).Success?
    ensures Writes(a, s, Attempt(a, s).value)
  {
    ExistingSucceedsExactly(a, s.existing, s.at);
    CollectHolds(s.existing);
  }

  lemma ReplaceWrites(a: Alias, s: Step)
    requires s.DoReplace? && Attempt(a, s).Success?
    ensures Writes(a, s, Attempt(a, s).value)
  {
    if !a.lifecycle.Restricted? {
      ExistingSucceedsExactly(a, s.existing, s.at);
      CollectHolds(s.existing);
    }
  }

  lemma StepWritesExactly(a: Alias, s: Step)
    requires Attempt(a, s).Success?
    ensures Writes(a, s, Attempt(a, s).value)
  {
    match s
    case DoRestrict(_, _, _) => RestrictWrites(a, s);
    case DoReplace(_, _, _, _, _) => ReplaceWrites(a, s);
    case _ =>
  }

  lemma ApproveAcceptance(a: Alias, s: Step, sender: Identity, conversation: ConversationId, now: Time)
    requires Sound(a) && s.DoApprove? && Attempt(a, s).Success? && s.at <= now
    ensures AcceptsMail(Attempt(a, s).value, sender, conversation, now) <==>
              AcceptsMail(a, sender, conversation, now) || (sender == s.sender && conversation == s.conversation)
  {
  }

  lemma ReplaceAcceptance(a: Alias, s: Step, sender: Identity, conversation: ConversationId, now: Time)
    requires Sound(a) && !a.lifecycle.Active? && s.DoReplace? && Attempt(a, s).Success? && s.at <= now
    ensures AcceptsMail(Attempt(a, s).value, sender, conversation, now) <==>
              AcceptsMail(a, sender, conversation, now) && now < s.until
  {
  }

  predicate Named(existing: seq<AdmittedConversation>, sender: Identity, conversation: ConversationId) {
    exists e :: e in existing && e.conversation == conversation && e.sender == sender
  }

  lemma NamedIsCollected(existing: seq<AdmittedConversation>, sender: Identity, conversation: ConversationId)
    requires DistinctConversations(existing) && Named(existing, sender, conversation)
    ensures conversation in Collect(existing) && Collect(existing)[conversation].sender == sender
  {
    CollectKeys(existing);
    var e :| e in existing && e.conversation == conversation && e.sender == sender;
    var i :| 0 <= i < |existing| && existing[i] == e;
    var j :| 0 <= j < |existing| && existing[j] == Collect(existing)[conversation];
    assert i == j;
  }

  lemma CollectedIsNamed(existing: seq<AdmittedConversation>, sender: Identity, conversation: ConversationId)
    requires DistinctConversations(existing)
    ensures Named(existing, sender, conversation) <==>
              conversation in Collect(existing) && Collect(existing)[conversation].sender == sender
  {
    CollectKeys(existing);
    if Named(existing, sender, conversation) { NamedIsCollected(existing, sender, conversation); }
  }

  /** What an active alias's replacement writes. */
  lemma ActiveReplaceWrites(a: Alias, s: Step)
    requires Sound(a) && a.lifecycle.Active? && s.DoReplace? && Attempt(a, s).Success?
    ensures DistinctConversations(s.existing)
    ensures Attempt(a, s).value.lifecycle == Replaced(s.at, s.replacement.id, s.until, Collect(s.existing), map[])
    ensures Attempt(a, s).value.changedAt == s.at
  {
    ExistingSucceedsExactly(a, s.existing, s.at);
  }

  /** An active alias replaced at once keeps what its evidence names. */
  lemma ActiveReplaceAcceptance(a: Alias, s: Step, sender: Identity, conversation: ConversationId, now: Time)
    requires Sound(a) && a.lifecycle.Active? && s.DoReplace? && Attempt(a, s).Success? && s.at <= now
    ensures AcceptsMail(Attempt(a, s).value, sender, conversation, now) <==>
              Named(s.existing, sender, conversation) && now < s.until
  {
    ActiveReplaceWrites(a, s);
    CollectedIsNamed(s.existing, sender, conversation);
    AcceptsMailExactly(Attempt(a, s).value, sender, conversation, now);
  }

  /** Exactly which mail a step changes, seen at any time both states can be asked about: leaving the active phase keeps
      what the evidence names, and every later step only takes away, except the pair it approves. */
  lemma StepAcceptance(a: Alias, s: Step, sender: Identity, conversation: ConversationId, now: Time)
    requires Sound(a) && Attempt(a, s).Success?
    requires Attempt(a, s).value.changedAt <= now
    ensures AcceptsMail(Attempt(a, s).value, sender, conversation, now) <==>
              match s
              case DoRestrict(_, existing, _) => Named(existing, sender, conversation)
              case DoApprove(_, approved, c, _) =>
                AcceptsMail(a, sender, conversation, now) || (sender == approved && conversation == c)
              case DoReplace(_, _, until, existing, _) =>
                && now < until
                && (if a.lifecycle.Active? then Named(existing, sender, conversation)
                    else AcceptsMail(a, sender, conversation, now))
              case DoRetire(_, _) => false
              case DoPermission(_) => AcceptsMail(a, sender, conversation, now)
  {
    match s
    case DoRestrict(expected, existing, at) =>
      RestrictedAcceptsEvidence(a, expected, existing, at, sender, conversation, now);
    case DoApprove(_, _, _, _) => ApproveAcceptance(a, s, sender, conversation, now);
    case DoReplace(_, _, _, _, _) =>
      if a.lifecycle.Active? {
        ActiveReplaceAcceptance(a, s, sender, conversation, now);
      } else {
        ReplaceAcceptance(a, s, sender, conversation, now);
      }
    case _ =>
  }

  /** The phase a step leaves, with its moment, its successor and its deadline. */
  lemma StepPhase(a: Alias, s: Step)
    requires Attempt(a, s).Success?
    ensures var l := Attempt(a, s).value.lifecycle;
            match s
            case DoRestrict(_, _, at) => a.lifecycle.Active? && l.Restricted? && l.at == at && l.approvals == map[]
            case DoReplace(_, replacement, until, _, at) =>
              l.Replaced? && l.at == at && l.replacement == replacement.id && l.until == until
              && ApprovalsOf(l) == ApprovalsOf(a.lifecycle)
            case DoRetire(_, at) => l == Lifecycle.Retired(at)
            case DoApprove(_, sender, conversation, at) =>
              && a.lifecycle.Restricted? && l.Restricted? && l.at == a.lifecycle.at
              && l.conversations == a.lifecycle.conversations
              && l.approvals == a.lifecycle.approvals[conversation := Approval(sender, at)]
            case DoPermission(_) => l == a.lifecycle
  {
  }

  // ---- whole runs ----

  lemma {:induction false} RunStaysSound(a: Alias, steps: seq<Step>)
    requires Sound(a)
    ensures Sound(Run(a, steps))
    ensures Run(a, steps).id == a.id && Run(a, steps).owner == a.owner && Run(a, steps).address == a.address
    ensures Run(a, steps).createdAt == a.createdAt && Run(a, steps).configuration == a.configuration
    ensures a.changedAt <= Run(a, steps).changedAt && a.revision <= Run(a, steps).revision
    ensures !a.lifecycle.Active? ==> !Run(a, steps).lifecycle.Active?
    ensures a.lifecycle.Retired? ==> Run(a, steps).lifecycle.Retired?
    ensures a.lifecycle.Replaced? ==> Run(a, steps).lifecycle == a.lifecycle || Run(a, steps).lifecycle.Retired?
    decreases |steps|
  {
    if steps != [] {
      if Attempt(a, steps[0]).Success? { StepShape(a, steps[0]); }
      RunStaysSound(After(a, steps[0]), steps[1..]);
    }
  }

  /** Some step of the run succeeded in approving this pair. */
  predicate Approved(a: Alias, steps: seq<Step>, sender: Identity, conversation: ConversationId)
    decreases |steps|
  {
    steps != [] &&
    (|| (&& steps[0].DoApprove? && steps[0].sender == sender && steps[0].conversation == conversation
         && Attempt(a, steps[0]).Success?)
     || Approved(After(a, steps[0]), steps[1..], sender, conversation))
  }

  /** Nothing widens after a restriction: at any later moment a restricted alias accepts only what it
      accepted before or what the run approved, pair by pair. */
  lemma {:induction false} NothingWidens(
    a: Alias, steps: seq<Step>, sender: Identity, conversation: ConversationId, now: Time)
    requires Sound(a) && !a.lifecycle.Active? && Run(a, steps).changedAt <= now
    ensures AcceptsMail(Run(a, steps), sender, conversation, now) ==>
              AcceptsMail(a, sender, conversation, now) || Approved(a, steps, sender, conversation)
    ensures a.lifecycle.Replaced? ==> !Approved(a, steps, sender, conversation)
    decreases |steps|
  {
    if steps != [] {
      var s, next := steps[0], After(a, steps[0]);
      if Attempt(a, s).Success? { StepShape(a, s); }
      RunStaysSound(next, steps[1..]);
      NothingWidens(next, steps[1..], sender, conversation, now);
      if Attempt(a, s).Success? { StepAcceptance(a, s, sender, conversation, now); }
      if next.lifecycle.Retired? { RetiredIsSilent(next, steps[1..], sender, conversation); }
    }
  }

  lemma {:induction false} RetiredIsSilent(a: Alias, steps: seq<Step>, sender: Identity, conversation: ConversationId)
    requires Sound(a) && a.lifecycle.Retired?
    ensures !Approved(a, steps, sender, conversation)
    decreases |steps|
  {
    if steps != [] {
      if Attempt(a, steps[0]).Success? { StepShape(a, steps[0]); }
      RetiredIsSilent(After(a, steps[0]), steps[1..], sender, conversation);
    }
  }

  /** The route is still open: restricted, or replaced with the deadline ahead. */
  predicate StillOpen(a: Alias, now: Time) {
    a.lifecycle.Restricted? || (a.lifecycle.Replaced? && now < a.lifecycle.until)
  }

  /** One step that leaves the route open adds the pair it approves and takes nothing away. */
  lemma OpenStepOnlyAdds(a: Alias, s: Step, sender: Identity, conversation: ConversationId, now: Time)
    requires Sound(a) && !a.lifecycle.Active? && StillOpen(After(a, s), now) && After(a, s).changedAt <= now
    ensures AcceptsMail(After(a, s), sender, conversation, now) <==>
              AcceptsMail(a, sender, conversation, now) || Approved(a, [s], sender, conversation)
  {
    if Attempt(a, s).Success? {
      StepAcceptance(a, s, sender, conversation, now);
      StepShape(a, s);
    }
  }

  /** From the restriction until the route ends, nothing already accepted is lost and every approval of the run
      counts: across a replacement the accepted pairs stay exactly what they were, up to the deadline. */
  lemma {:induction false} RestrictionOnlyGrows(
    a: Alias, steps: seq<Step>, sender: Identity, conversation: ConversationId, now: Time)
    requires Sound(a) && !a.lifecycle.Active? && StillOpen(Run(a, steps), now)
    requires Run(a, steps).changedAt <= now
    ensures AcceptsMail(Run(a, steps), sender, conversation, now) <==>
              AcceptsMail(a, sender, conversation, now) || Approved(a, steps, sender, conversation)
    decreases |steps|
  {
    if steps != [] {
      var next := After(a, steps[0]);
      RunStaysSound(a, [steps[0]]);
      assert Run(a, [steps[0]]) == Run(next, []);
      RunStaysSound(next, steps[1..]);
      OpenStepOnlyAdds(a, steps[0], sender, conversation, now);
      RestrictionOnlyGrows(next, steps[1..], sender, conversation, now);
    }
  }

  /** Once replaced, the accepted pairs are frozen until the deadline, whatever is tried meanwhile. */
  lemma FrozenAfterReplacement(
    a: Alias, steps: seq<Step>, sender: Identity, conversation: ConversationId, now: Time)
    requires Sound(a) && a.lifecycle.Replaced? && StillOpen(Run(a, steps), now)
    requires Run(a, steps).changedAt <= now
    ensures AcceptsMail(Run(a, steps), sender, conversation, now) <==> AcceptsMail(a, sender, conversation, now)
  {
    RestrictionOnlyGrows(a, steps, sender, conversation, now);
    NothingWidens(a, steps, sender, conversation, now);
  }

  /** From the deadline on, and from retirement on, no later state of the alias accepts anything. */
  lemma DeadAfterDeadline(a: Alias, steps: seq<Step>, sender: Identity, conversation: ConversationId, now: Time)
    requires Sound(a)
    requires a.lifecycle.Retired? || (a.lifecycle.Replaced? && a.lifecycle.until <= now)
    ensures !AcceptsMail(Run(a, steps), sender, conversation, now)
  {
    RunStaysSound(a, steps);
  }

  /** At most one sender may write to each conversation of a restricted or replaced alias. */
  lemma OneSenderPerConversation(a: Alias, x: Identity, y: Identity, conversation: ConversationId, now: Time)
    requires Sound(a) && !a.lifecycle.Active?
    requires AcceptsMail(a, x, conversation, now) && AcceptsMail(a, y, conversation, now)
    ensures x == y
  {
  }

  ghost predicate OneSenderAccepted(a: Alias) {
    forall x, y, conversation, now ::
      AcceptsMail(a, x, conversation, now) && AcceptsMail(a, y, conversation, now) ==> x == y
  }

  /** Where a conversation is both admitted evidence and an approval, the two name one sender. */
  predicate SendersAgree(a: Alias) {
    forall c :: c in Evidence(a.lifecycle) && c in ApprovalsOf(a.lifecycle) ==>
      Evidence(a.lifecycle)[c].sender == ApprovalsOf(a.lifecycle)[c].sender
  }

  /** Of the records the validator accepts, exactly those give one acceptable sender per conversation. */
  lemma OneSenderExactly(a: Alias)
    requires Accepts(a) && !a.lifecycle.Active?
    ensures OneSenderAccepted(a) <==> SendersAgree(a)
  {
    forall c | c in Evidence(a.lifecycle) && c in ApprovalsOf(a.lifecycle)
      ensures AcceptsMail(a, Evidence(a.lifecycle)[c].sender, c, a.changedAt)
      ensures AcceptsMail(a, ApprovalsOf(a.lifecycle)[c].sender, c, a.changedAt)
    {
      assert ApprovalsOf(a.lifecycle)[c].at <= a.changedAt;
    }
  }

  /** The validator alone does not give that: it accepts a record no run produces, in which two
      senders may write to one conversation. */
  lemma ValidatorAdmitsTwoSenders() returns (a: Alias)
    ensures Accepts(a) && AcceptsMail(a, 2, 7, 0) && AcceptsMail(a, 3, 7, 0)
    ensures !OneSenderEach(a)
  {
    var evidence: Conversations := map[7 := ConversationRecord(1, 7, 2, 0)];
    var approvals: Approvals := map[7 := Approval(3, 0)];
    a := Alias(1, 1, "a@b.c", Configuration("", Bonded), 0, 0, 2, Lifecycle.Restricted(0, evidence, approvals),
               P.ReceivingPermission(1, 1, 0, 0, P.Closed));
    assert 7 in evidence && 7 in approvals && approvals[7].at == 0;
    assert |approvals| == 1;
    assert 7 in Evidence(a.lifecycle) && 7 in ApprovalsOf(a.lifecycle);
  }

  // ---- revisions count successes ----

  function LifecycleSuccesses(a: Alias, steps: seq<Step>): nat
    decreases |steps|
  {
    if steps == [] then 0
    else
      (if Attempt(a, steps[0]).Success? && !steps[0].DoPermission? then 1 else 0)
      + LifecycleSuccesses(After(a, steps[0]), steps[1..])
  }

  /** Over any run from creation the revision is the number of lifecycle commands that succeeded:
      0 while active, 1 + approvals while restricted, 2 + approvals (1 straight from active) once
      replaced; permission changes never move it. */
  lemma {:induction false} RevisionCountsSuccesses(a: Alias, steps: seq<Step>)
    requires Sound(a)
    ensures Run(a, steps).revision == a.revision + LifecycleSuccesses(a, steps)
    ensures RevisionFits(Run(a, steps))
    decreases |steps|
  {
    RunStaysSound(a, steps);
    if steps != [] {
      if Attempt(a, steps[0]).Success? { StepShape(a, steps[0]); }
      RevisionCountsSuccesses(After(a, steps[0]), steps[1..]);
    }
  }

  /** At most one lifecycle command ever succeeds against each expected revision. */
  lemma OneSuccessPerRevision(a: Alias, first: Step, between: seq<Step>, second: Step)
    requires Sound(a) && !first.DoPermission? && !second.DoPermission?
    requires Attempt(a, first).Success?
    requires Attempt(Run(After(a, first), between), second).Success?
    ensures first.expected < second.expected
  {
    StepShape(a, first);
    RunStaysSound(After(a, first), between);
    StepShape(Run(After(a, first), between), second);
  }
}
