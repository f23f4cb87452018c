/** Identifiers, times and message declarations (crates/cs-mail-primitives/src/lib.rs).
    Identifiers are 128-bit in the program; only equality and "is zero" are ever asked of them. */
module Primitives {
  import opened Wrappers

  type Identity = nat
  type AliasId = nat
  type ConversationId = nat
  type MessageId = nat
  type LaneId = nat
  type KeyRef = nat
  type Time = U64

  datatype Identifier = Identifier(namespace: string, name: string, version: nat)

  predicate ValidComponent(value: string) {
    && 0 < |value| <= 64
    && forall i :: 0 <= i < |value| ==>
         'a' <= value[i] <= 'z' || '0' <= value[i] <= '9' || value[i] in ".-_"
  }

  predicate ValidIdentifier(id: Identifier) {
    id.version != 0 && ValidComponent(id.namespace) && ValidComponent(id.name)
  }

  datatype Purpose = Unspecified | Known(code: nat) | Extension(id: Identifier)
  datatype OriginMode = HumanInitiated | AgentDraft | AutonomousAgent | AutomatedSystem | LegacyOrUnspecified
  datatype DeclarationAuthority =
    | NativeSender(key: KeyRef)
    | LegacyGateway(provider: nat)
    | GuestGateway(provider: nat)
    | GuestSmtp(provider: nat)

  datatype Declarations = Declarations(
    purpose: Purpose, mode: OriginMode, authority: DeclarationAuthority, schema: Option<Identifier>)

  predicate ValidPurpose(p: Purpose) {
    p.Extension? ==> ValidIdentifier(p.id)
  }

  predicate ValidDeclarations(d: Declarations) {
    && ValidPurpose(d.purpose)
    && (d.schema.Some? ==> ValidIdentifier(d.schema.value))
    && (d.authority.LegacyGateway? || d.authority.GuestSmtp? ==> d.mode == LegacyOrUnspecified)
    && (d.authority.GuestGateway? ==> d.mode == HumanInitiated)
  }

  datatype RelationshipState = Unknown | Accepted | ExpressLane(lane: LaneId) | Rejected | Revoked | Blocked

  /** A sender's standing with one recipient. `version` and `epoch` count independently. */
  datatype Relationship = Relationship(
    reference: nat, sender: Identity, recipient: Identity,
    state: RelationshipState, version: U64, epoch: U64)

  /** Blocked and revoked senders lose the right to answer. */
  predicate ReplyRestricted(r: Relationship) {
    r.state.Blocked? || r.state.Revoked?
  }

  /** What each kind of authority may declare of a message's origin: a native sender anything, a person at a guest's gateway
      only a person's own message, and everything that comes in by plain mail nothing at all. */
  lemma DeclarationsExactly(d: Declarations)
    ensures ValidDeclarations(d) <==>
              && (d.purpose.Extension? ==> ValidIdentifier(d.purpose.id)) && (d.schema != None ==> ValidIdentifier(d.schema.value))
              && match d.authority
                 case NativeSender(_) => true
                 case GuestGateway(_) => d.mode == HumanInitiated
                 case LegacyGateway(_) => d.mode == LegacyOrUnspecified
                 case GuestSmtp(_) => d.mode == LegacyOrUnspecified
  {
  }
}
