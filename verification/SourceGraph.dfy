/** Reuse policy over the quotation graph (crates/cs-mail-application/src/correspondence.rs, `policies`):
    a message may reuse its sources only if every ancestor, however distant, is present and lets its
    content reach the destination. */
module SourceGraph {
  import opened Wrappers
  import opened Primitives
  import opened Conversations

  const MAX_SOURCE_GRAPH: nat := 1024

  datatype Element = TextRange(block: nat, start: nat, end: nat) | ImageBlock(block: nat)
  datatype Block = Text(bytes: nat) | Image(bytes: nat) | Reference | Email(bytes: nat) | Attachment(bytes: nat)

  /** What is quoted, from which version of which message. */
  datatype Selection = Selection(message: MessageId, version: nat, elements: seq<Element>)

  datatype Manifest = Manifest(
    subject: Option<nat>, message: MessageId, conversation: ConversationId, version: nat,
    blocks: seq<Block>, sources: seq<Selection>)

  datatype Graph = Graph(conversations: map<ConversationId, Conversation>, messages: map<MessageId, Manifest>)

  predicate ElementFits(e: Element, blocks: seq<Block>) {
    && e.block < |blocks|
    && match (e, blocks[e.block])
       case (TextRange(_, _, end), Text(bytes)) => end <= bytes
       case (ImageBlock(_), Image(_)) => true
       case _ => false
  }

  /** `validate_target`: the selection names this message, this version, and blocks it has. */
  predicate Fits(s: Selection, m: Manifest) {
    && s.message == m.message && s.version == m.version
    && forall i :: 0 <= i < |s.elements| ==> ElementFits(s.elements[i], m.blocks)
  }

  function Owned(g: Graph, id: ConversationId, actor: Identity): Result<Conversation, CorrespondenceError> {
    if id in g.conversations && Contains(g.conversations[id].scope, actor)
    then Success(g.conversations[id]) else Failure(Unauthorized)
  }

  predicate EdgeFits(g: Graph, s: Selection) {
    s.message in g.messages && Fits(s, g.messages[s.message])
  }

  /** One edge: the source must be present and the selection must fit it. */
  function CheckEdge(g: Graph, s: Selection): Result<MessageId, CorrespondenceError> {
    if s.message !in g.messages then Failure(PolicyUnresolved)
    else if !Fits(s, g.messages[s.message]) then Failure(Invalid)
    else Success(s.message)
  }

  /** One edge of the message being written: the source must also be the actor's own. */
  function CheckDirect(g: Graph, s: Selection, actor: Identity): Result<MessageId, CorrespondenceError> {
    if s.message !in g.messages then Failure(PolicyUnresolved)
    else
      var _ :- Owned(g, g.messages[s.message].conversation, actor);
      CheckEdge(g, s)
  }

  function Edges(g: Graph, sources: seq<Selection>): Result<seq<MessageId>, CorrespondenceError> {
    if sources == [] then Success([])
    else
      var first :- CheckEdge(g, sources[0]);
      var rest :- Edges(g, sources[1..]);
      Success([first] + rest)
  }

  function DirectEdges(g: Graph, sources: seq<Selection>, actor: Identity): Result<seq<MessageId>, CorrespondenceError> {
    if sources == [] then Success([])
    else
      var first :- CheckDirect(g, sources[0], actor);
      var rest :- DirectEdges(g, sources[1..], actor);
      Success([first] + rest)
  }

  type Observed = map<ConversationId, U64>

  /** What visiting one message needs, and the edges it adds to the worklist. */
  function Visit(g: Graph, destination: Scope, id: MessageId): Result<(Conversation, seq<MessageId>), CorrespondenceError> {
    if id !in g.messages then Failure(PolicyUnresolved)
    else if g.messages[id].conversation !in g.conversations then Failure(PolicyUnresolved)
    else
      var conversation := g.conversations[g.messages[id].conversation];
      if !Permits(conversation, destination) then Failure(PolicyRestricted)
      else
        var edges :- Edges(g, g.messages[id].sources);
        Success((conversation, edges))
  }

  /** The worklist, one pop at a time: either the unvisited budget shrinks or the worklist does. */
  function Walk(g: Graph, destination: Scope, pending: seq<MessageId>, visited: set<MessageId>, observed: Observed)
    : Result<Observed, CorrespondenceError>
    requires |visited| <= MAX_SOURCE_GRAPH
    decreases MAX_SOURCE_GRAPH - |visited|, |pending|
  {
    if pending == [] then Success(observed)
    else
      var id, rest := pending[|pending| - 1], pending[..|pending| - 1];
      if id in visited then Walk(g, destination, rest, visited, observed)
      else if |visited + {id}| > MAX_SOURCE_GRAPH then Failure(Invalid)
      else
        var (conversation, edges) :- Visit(g, destination, id);
        Walk(g, destination, rest + edges, visited + {id}, observed[conversation.id := conversation.revision])
  }

  function Policies(g: Graph, manifest: Manifest, actor: Identity): Result<Observed, CorrespondenceError> {
    var destination :- Owned(g, manifest.conversation, actor);
    var pending :- DirectEdges(g, manifest.sources, actor);
    var observed :- Walk(g, destination.scope, pending, {}, map[]);
    Success(observed[destination.id := destination.revision])
  }

  // ---- the loops themselves ----

  /** Edges found later, put after those pushed already. */
  function Pushed(work: seq<MessageId>, later: Result<seq<MessageId>, CorrespondenceError>)
    : Result<seq<MessageId>, CorrespondenceError>
  {
    match later
    case Success(edges) => Success(work + edges)
    case Failure(e) => Failure(e)
  }

  lemma PushNothing(work: seq<MessageId>)
    ensures Pushed(work, Success([])) == Success(work)
  {
    assert work + [] == work;
  }

  lemma PushAll(later: Result<seq<MessageId>, CorrespondenceError>)
    ensures Pushed([], later) == later
  {
    if later.Success? { assert [] + later.value == later.value; }
  }

  lemma PushOne(work: seq<MessageId>, edge: MessageId, later: Result<seq<MessageId>, CorrespondenceError>)
    ensures Pushed(work + [edge], later) == Pushed(work, Pushed([edge], later))
  {
    if later.Success? {
      assert (work + [edge]) + later.value == work + ([edge] + later.value);
    }
  }

  lemma NextEdge(g: Graph, sources: seq<Selection>, i: nat)
    requires i < |sources|
    ensures Edges(g, sources[i..]) == match CheckEdge(g, sources[i])
                                      case Success(edge) => Pushed([edge], Edges(g, sources[i + 1..]))
                                      case Failure(e) => Failure(e)
  {
    assert sources[i..][1..] == sources[i + 1..];
  }

  lemma NextDirectEdge(g: Graph, sources: seq<Selection>, actor: Identity, i: nat)
    requires i < |sources|
    ensures DirectEdges(g, sources[i..], actor) == match CheckDirect(g, sources[i], actor)
                                                   case Success(edge) => Pushed([edge], DirectEdges(g, sources[i + 1..], actor))
                                                   case Failure(e) => Failure(e)
  {
    assert sources[i..][1..] == sources[i + 1..];
  }

  method PushEdges(g: Graph, sources: seq<Selection>, pending: seq<MessageId>)
    returns (result: Result<seq<MessageId>, CorrespondenceError>)
    ensures result == match Edges(g, sources)
                      case Success(edges) => Success(pending + edges)
                      case Failure(e) => Failure(e)
  {
    var work := pending;
    assert sources[0..] == sources;
    for i := 0 to |sources|
      invariant Pushed(work, Edges(g, sources[i..])) == Pushed(pending, Edges(g, sources))
    {
      NextEdge(g, sources, i);
      var edge := CheckEdge(g, sources[i]);
      if edge.Failure? {
        return Failure(edge.error);
      }
      PushOne(work, edge.value, Edges(g, sources[i + 1..]));
      work := work + [edge.value];
    }
    PushNothing(work);
    return Success(work);
  }

  method PushDirectEdges(g: Graph, sources: seq<Selection>, actor: Identity)
    returns (result: Result<seq<MessageId>, CorrespondenceError>)
    ensures result == DirectEdges(g, sources, actor)
  {
    var work: seq<MessageId> := [];
    assert sources[0..] == sources;
    PushAll(DirectEdges(g, sources, actor));
    for i := 0 to |sources|
      invariant Pushed(work, DirectEdges(g, sources[i..], actor)) == Pushed([], DirectEdges(g, sources, actor))
    {
      NextDirectEdge(g, sources, actor, i);
      var edge := CheckDirect(g, sources[i], actor);
      if edge.Failure? {
        return Failure(edge.error);
      }
      PushOne(work, edge.value, DirectEdges(g, sources[i + 1..], actor));
      work := work + [edge.value];
    }
    PushNothing(work);
    return Success(work);
  }

  method CheckPolicies(g: Graph, manifest: Manifest, actor: Identity)
    returns (result: Result<Observed, CorrespondenceError>)
    ensures result == Policies(g, manifest, actor)
  {
    var destination :- Owned(g, manifest.conversation, actor);
    var direct :- PushDirectEdges(g, manifest.sources, actor);
    var pending, visited: set<MessageId>, observed: Observed := direct, {}, map[];
    while pending != []
      invariant |visited| <= MAX_SOURCE_GRAPH
      invariant Walk(g, destination.scope, direct, {}, map[]) == Walk(g, destination.scope, pending, visited, observed)
      decreases MAX_SOURCE_GRAPH - |visited|, |pending|
    {
      var id := pending[|pending| - 1];
      pending := pending[..|pending| - 1];
      if id in visited {
        continue;
      }
      if |visited + {id}| > MAX_SOURCE_GRAPH {
        return Failure(Invalid);
      }
      if id !in g.messages || g.messages[id].conversation !in g.conversations {
        return Failure(PolicyUnresolved);
      }
      var conversation := g.conversations[g.messages[id].conversation];
      if !Permits(conversation, destination.scope) {
        return Failure(PolicyRestricted);
      }
      pending :- PushEdges(g, g.messages[id].sources, pending);
      visited, observed := visited + {id}, observed[conversation.id := conversation.revision];
    }
    return Success(observed[destination.id := destination.revision]);
  }

  // ---- what the walk decides, said without a worklist ----

  ghost predicate Edge(g: Graph, from: MessageId, to: MessageId) {
    from in g.messages && exists s :: s in g.messages[from].sources && s.message == to
  }

  ghost predicate IsPath(g: Graph, path: seq<MessageId>) {
    |path| > 0 && forall i :: 0 <= i < |path| - 1 ==> Edge(g, path[i], path[i + 1])
  }

  ghost predicate Reachable(g: Graph, roots: set<MessageId>, id: MessageId) {
    exists path :: IsPath(g, path) && path[0] in roots && path[|path| - 1] == id
  }

  ghost function Roots(manifest: Manifest): set<MessageId> {
    set s | s in manifest.sources :: s.message
  }

  ghost function ReachableSet(g: Graph, roots: set<MessageId>): set<MessageId> {
    set id | id in roots + (set m, s | m in g.messages && s in g.messages[m].sources :: s.message)
             && Reachable(g, roots, id)
  }

  /** An ancestor that may be reused at the destination: present, permitting, with edges that fit. */
  predicate AncestorOk(g: Graph, destination: Scope, id: MessageId) {
    && id in g.messages && g.messages[id].conversation in g.conversations
    && Permits(g.conversations[g.messages[id].conversation], destination)
    && forall s :: s in g.messages[id].sources ==> EdgeFits(g, s)
  }

  /** What is quoted directly is there, fits, and is the actor's own. */
  predicate DirectlyFits(g: Graph, sources: seq<Selection>, actor: Identity) {
    forall s :: s in sources ==> EdgeFits(g, s) && Owned(g, g.messages[s.message].conversation, actor).Success?
  }

  /** Everything reached, however indirectly, lets its content go to this pair, and there is not too much of it. */
  ghost predicate AncestryOk(g: Graph, destination: Scope, roots: set<MessageId>) {
    && (forall id :: id in ReachableSet(g, roots) ==> AncestorOk(g, destination, id))
    && |ReachableSet(g, roots)| <= MAX_SOURCE_GRAPH
  }

  /** The whole rule, in terms of the graph alone. */
  ghost predicate Reusable(g: Graph, manifest: Manifest, actor: Identity) {
    && Owned(g, manifest.conversation, actor).Success? && DirectlyFits(g, manifest.sources, actor)
    && AncestryOk(g, g.conversations[manifest.conversation].scope, Roots(manifest))
  }

  predicate Keyed(g: Graph) {
    forall c :: c in g.conversations ==> g.conversations[c].id == c
  }

  /** The revisions of the conversations these messages live in. */
  ghost function RevisionsOf(g: Graph, ids: set<MessageId>): Observed {
    map c | c in g.conversations && (exists id :: id in ids && id in g.messages && g.messages[id].conversation == c)
          :: g.conversations[c].revision
  }

  // ---- edges ----

  lemma {:induction false} EdgesExact(g: Graph, sources: seq<Selection>)
    ensures Edges(g, sources).Success? <==> forall s :: s in sources ==> EdgeFits(g, s)
    ensures Edges(g, sources).Success? ==>
              && (forall s :: s in sources ==> s.message in Edges(g, sources).value)
              && (forall id :: id in Edges(g, sources).value ==> exists s :: s in sources && s.message == id)
  {
    if sources != [] {
      EdgesExact(g, sources[1..]);
      assert sources == [sources[0]] + sources[1..];
      assert CheckEdge(g, sources[0]).Success? <==> EdgeFits(g, sources[0]);
      assert sources[0] in sources && forall s :: s in sources[1..] ==> s in sources;
    }
  }

  lemma {:induction false} DirectEdgesExact(g: Graph, sources: seq<Selection>, actor: Identity)
    ensures DirectEdges(g, sources, actor).Success? <==> DirectlyFits(g, sources, actor)
    ensures DirectEdges(g, sources, actor).Success? ==>
              && (forall s :: s in sources ==> s.message in DirectEdges(g, sources, actor).value)
              && (forall id :: id in DirectEdges(g, sources, actor).value ==> exists s :: s in sources && s.message == id)
  {
    if sources != [] {
      DirectEdgesExact(g, sources[1..], actor);
      assert sources == [sources[0]] + sources[1..];
    }
  }

  // ---- reachability ----

  lemma RootIsReachable(g: Graph, roots: set<MessageId>, id: MessageId)
    requires id in roots
    ensures Reachable(g, roots, id) && id in ReachableSet(g, roots)
  {
    assert IsPath(g, [id]);
    assert [id][0] in roots && [id][|[id]| - 1] == id;
  }

  lemma EdgeExtendsReach(g: Graph, roots: set<MessageId>, from: MessageId, to: MessageId)
    requires Reachable(g, roots, from) && Edge(g, from, to)
    ensures Reachable(g, roots, to) && to in ReachableSet(g, roots)
  {
    var path :| IsPath(g, path) && path[0] in roots && path[|path| - 1] == from;
    var longer := path + [to];
    forall i | 0 <= i < |longer| - 1 ensures Edge(g, longer[i], longer[i + 1]) {
      if i < |path| - 1 { assert Edge(g, path[i], path[i + 1]); }
    }
    assert IsPath(g, longer) && longer[0] in roots && longer[|longer| - 1] == to;
  }

  /** A set that holds the roots and is closed under edges holds everything reachable. */
  lemma {:induction false} ClosedSetHoldsPath(g: Graph, closed: set<MessageId>, path: seq<MessageId>)
    requires IsPath(g, path) && path[0] in closed
    requires forall from, to :: from in closed && Edge(g, from, to) ==> to in closed
    ensures path[|path| - 1] in closed
  {
    if |path| > 1 {
      var front := path[..|path| - 1];
      forall i | 0 <= i < |front| - 1 ensures Edge(g, front[i], front[i + 1]) {
        assert Edge(g, path[i], path[i + 1]);
      }
      ClosedSetHoldsPath(g, closed, front);
      assert Edge(g, path[|path| - 2], path[|path| - 1]);
    }
  }

  lemma ClosedSetHoldsReach(g: Graph, roots: set<MessageId>, closed: set<MessageId>)
    requires roots <= closed
    requires forall from, to :: from in closed && Edge(g, from, to) ==> to in closed
    ensures ReachableSet(g, roots) <= closed
  {
    forall id | id in ReachableSet(g, roots) ensures id in closed {
      var path :| IsPath(g, path) && path[0] in roots && path[|path| - 1] == id;
      ClosedSetHoldsPath(g, closed, path);
    }
  }

  lemma {:induction false} CardinalityMonotone<T>(a: set<T>, b: set<T>)
    requires a <= b
    ensures |a| <= |b|
  {
    if a != {} {
      var x :| x in a;
      CardinalityMonotone(a - {x}, b - {x});
    }
  }

  // ---- the walk ----

  /** Everything seen is reachable, everything visited is sound, and every known edge is accounted for. */
  ghost predicate WalkInv(
    g: Graph, destination: Scope, roots: set<MessageId>, pending: seq<MessageId>, visited: set<MessageId>, observed: Observed)
  {
    && visited <= ReachableSet(g, roots)
    && (forall id :: id in pending ==> id in ReachableSet(g, roots))
    && (forall id :: id in roots ==> id in visited || id in pending)
    && (forall id :: id in visited ==> AncestorOk(g, destination, id))
    && (forall from, to :: from in visited && Edge(g, from, to) ==> to in visited || to in pending)
    && observed == RevisionsOf(g, visited)
  }

  lemma VisitExact(g: Graph, destination: Scope, id: MessageId)
    ensures Visit(g, destination, id).Success? <==> AncestorOk(g, destination, id)
    ensures Visit(g, destination, id).Success? ==>
              && Visit(g, destination, id).value.0 == g.conversations[g.messages[id].conversation]
              && (forall to :: Edge(g, id, to) <==> to in Visit(g, destination, id).value.1)
  {
    if id in g.messages { EdgesExact(g, g.messages[id].sources); }
  }

  lemma ObservingOneMore(g: Graph, visited: set<MessageId>, id: MessageId)
    requires Keyed(g) && id in g.messages && g.messages[id].conversation in g.conversations
    ensures var c := g.conversations[g.messages[id].conversation];
            RevisionsOf(g, visited + {id}) == RevisionsOf(g, visited)[c.id := c.revision]
  {
    var c := g.conversations[g.messages[id].conversation];
    var grown, target := RevisionsOf(g, visited + {id}), RevisionsOf(g, visited)[c.id := c.revision];
    forall k ensures k in grown <==> k in target {
      if k == c.id { assert id in visited + {id}; }
    }
  }

  /** Visiting one new message keeps the invariant. */
  lemma VisitKeepsInv(
    g: Graph, destination: Scope, roots: set<MessageId>, rest: seq<MessageId>, id: MessageId, edges: seq<MessageId>,
    visited: set<MessageId>, observed: Observed)
    requires Keyed(g) && WalkInv(g, destination, roots, rest + [id], visited, observed)
    requires AncestorOk(g, destination, id) && forall to :: Edge(g, id, to) <==> to in edges
    ensures var c := g.conversations[g.messages[id].conversation];
            WalkInv(g, destination, roots, rest + edges, visited + {id}, observed[c.id := c.revision])
  {
    assert id in rest + [id];
    forall to | to in edges ensures to in ReachableSet(g, roots) { EdgeExtendsReach(g, roots, id, to); }
    ObservingOneMore(g, visited, id);
    forall from, to | from in visited + {id} && Edge(g, from, to) ensures to in visited + {id} || to in rest + edges {
      if from != id { assert to in visited || to in rest + [id]; }
    }
    forall x | x in roots ensures x in visited + {id} || x in rest + edges {
      assert x in visited || x in rest + [id];
    }
    forall x | x in rest + edges ensures x in ReachableSet(g, roots) {
      if x !in edges { assert x in rest + [id]; }
    }
  }

  lemma {:induction false} WalkExact(
    g: Graph, destination: Scope, roots: set<MessageId>, pending: seq<MessageId>, visited: set<MessageId>, observed: Observed)
    requires Keyed(g) && |visited| <= MAX_SOURCE_GRAPH
    requires WalkInv(g, destination, roots, pending, visited, observed)
    ensures Walk(g, destination, pending, visited, observed).Success? <==>
              && (forall id :: id in ReachableSet(g, roots) ==> AncestorOk(g, destination, id))
              && |ReachableSet(g, roots)| <= MAX_SOURCE_GRAPH
    ensures Walk(g, destination, pending, visited, observed).Success? ==>
              Walk(g, destination, pending, visited, observed).value == RevisionsOf(g, ReachableSet(g, roots))
    decreases MAX_SOURCE_GRAPH - |visited|, |pending|
  {
    if pending == [] {
      NothingPending(g, destination, roots, visited, observed);
    } else {
      var id, rest := pending[|pending| - 1], pending[..|pending| - 1];
      assert pending == rest + [id];
      if id in visited {
        DroppingKeepsInv(g, destination, roots, rest, id, visited, observed);
        WalkExact(g, destination, roots, rest, visited, observed);
      } else {
        VisitedFits(g, destination, roots, rest, id, visited, observed);
        VisitExact(g, destination, id);
        if |visited + {id}| <= MAX_SOURCE_GRAPH && AncestorOk(g, destination, id) {
          var (c, edges) := Visit(g, destination, id).value;
          VisitKeepsInv(g, destination, roots, rest, id, edges, visited, observed);
          WalkExact(g, destination, roots, rest + edges, visited + {id}, observed[c.id := c.revision]);
        }
      }
    }
  }

  lemma NothingPending(
    g: Graph, destination: Scope, roots: set<MessageId>, visited: set<MessageId>, observed: Observed)
    requires WalkInv(g, destination, roots, [], visited, observed)
    ensures visited == ReachableSet(g, roots)
  {
    ClosedSetHoldsReach(g, roots, visited);
  }

  lemma VisitedFits(
    g: Graph, destination: Scope, roots: set<MessageId>, rest: seq<MessageId>, id: MessageId,
    visited: set<MessageId>, observed: Observed)
    requires WalkInv(g, destination, roots, rest + [id], visited, observed)
    ensures id in ReachableSet(g, roots) && |visited + {id}| <= |ReachableSet(g, roots)|
  {
    assert id in rest + [id];
    CardinalityMonotone(visited + {id}, ReachableSet(g, roots));
  }

  lemma DroppingKeepsInv(
    g: Graph, destination: Scope, roots: set<MessageId>, rest: seq<MessageId>, id: MessageId,
    visited: set<MessageId>, observed: Observed)
    requires WalkInv(g, destination, roots, rest + [id], visited, observed) && id in visited
    ensures WalkInv(g, destination, roots, rest, visited, observed)
  {
    forall x | x in rest ensures x in rest + [id] {}
    forall x | x in rest + [id] ensures x in rest || x == id {}
  }

  // ---- the rule ----

  lemma StartOfWalk(g: Graph, manifest: Manifest, actor: Identity)
    requires Owned(g, manifest.conversation, actor).Success? && DirectEdges(g, manifest.sources, actor).Success?
    ensures WalkInv(g, g.conversations[manifest.conversation].scope, Roots(manifest),
                    DirectEdges(g, manifest.sources, actor).value, {}, map[])
  {
    DirectEdgesExact(g, manifest.sources, actor);
    var roots, pending := Roots(manifest), DirectEdges(g, manifest.sources, actor).value;
    forall id | id in pending ensures id in ReachableSet(g, roots) { RootIsReachable(g, roots, id); }
    assert RevisionsOf(g, {}) == map[];
  }

  /** Past the checks of the message being written, what is left of the rule is the walk's. */
  lemma WalkDecides(g: Graph, manifest: Manifest, actor: Identity, destination: Scope, pending: seq<MessageId>)
    requires Keyed(g) && Owned(g, manifest.conversation, actor).Success?
    requires destination == g.conversations[manifest.conversation].scope
    requires DirectEdges(g, manifest.sources, actor) == Success(pending)
    ensures var walked := Walk(g, destination, pending, {}, map[]);
            && (walked.Success? <==> AncestryOk(g, destination, Roots(manifest)))
            && (walked.Success? ==> walked.value == RevisionsOf(g, ReachableSet(g, Roots(manifest))))
  {
    StartOfWalk(g, manifest, actor);
    WalkExact(g, destination, Roots(manifest), pending, {}, map[]);
  }

  /** The walk succeeds exactly when the rule allows the reuse, and then reports the revision of every
      conversation reached and of the destination: nothing missed on a cyclic graph, nothing extra. */
  lemma PoliciesExact(g: Graph, manifest: Manifest, actor: Identity)
    requires Keyed(g)
    ensures Policies(g, manifest, actor).Success? <==> Reusable(g, manifest, actor)
    ensures Policies(g, manifest, actor).Success? ==>
              Policies(g, manifest, actor).value ==
              RevisionsOf(g, ReachableSet(g, Roots(manifest)))
              [manifest.conversation := g.conversations[manifest.conversation].revision]
  {
    DirectEdgesExact(g, manifest.sources, actor);
    if Owned(g, manifest.conversation, actor).Success? && DirectEdges(g, manifest.sources, actor).Success? {
      WalkDecides(g, manifest, actor, g.conversations[manifest.conversation].scope,
                  DirectEdges(g, manifest.sources, actor).value);
    }
  }

  lemma {:induction false} MoreRootsReachMore(g: Graph, few: set<MessageId>, many: set<MessageId>)
    requires few <= many
    ensures ReachableSet(g, few) <= ReachableSet(g, many)
  {
    forall id | id in ReachableSet(g, few) ensures id in ReachableSet(g, many) {
      var path :| IsPath(g, path) && path[0] in few && path[|path| - 1] == id;
      assert path[0] in many;
    }
  }

  /** Adding sources never turns a refusal into success. */
  lemma MoreSourcesNeverHelp(g: Graph, few: Manifest, many: Manifest, actor: Identity)
    requires Keyed(g) && few.conversation == many.conversation
    requires forall s :: s in few.sources ==> s in many.sources
    ensures Policies(g, few, actor).Failure? ==> Policies(g, many, actor).Failure?
  {
    PoliciesExact(g, few, actor);
    PoliciesExact(g, many, actor);
    MoreRootsReachMore(g, Roots(few), Roots(many));
    CardinalityMonotone(ReachableSet(g, Roots(few)), ReachableSet(g, Roots(many)));
  }

  lemma SameEdgesReachTheSame(g: Graph, h: Graph, roots: set<MessageId>)
    requires g.messages == h.messages
    ensures ReachableSet(g, roots) == ReachableSet(h, roots)
  {
    forall id ensures Reachable(g, roots, id) <==> Reachable(h, roots, id) {
      if Reachable(g, roots, id) { SamePaths(g, h, roots, id); }
      if Reachable(h, roots, id) { SamePaths(h, g, roots, id); }
    }
  }

  lemma SamePaths(g: Graph, h: Graph, roots: set<MessageId>, id: MessageId)
    requires g.messages == h.messages && Reachable(g, roots, id)
    ensures Reachable(h, roots, id)
  {
    var path :| IsPath(g, path) && path[0] in roots && path[|path| - 1] == id;
    forall i | 0 <= i < |path| - 1 ensures Edge(h, path[i], path[i + 1]) {
      assert Edge(g, path[i], path[i + 1]);
    }
    assert IsPath(h, path);
  }

  lemma RestrictionTightens(g: Graph, h: Graph, manifest: Manifest, actor: Identity, id: ConversationId, participant: Identity)
    requires id in g.conversations && Change(g.conversations[id], participant, g.conversations[id].revision, Restrict).Success?
    requires var next := Change(g.conversations[id], participant, g.conversations[id].revision, Restrict).value;
             h == g.(conversations := g.conversations[id := next])
    requires Reusable(h, manifest, actor)
    ensures Reusable(g, manifest, actor)
  {
    SameEdgesReachTheSame(g, h, Roots(manifest));
    forall x | x in ReachableSet(g, Roots(manifest))
      ensures AncestorOk(g, g.conversations[manifest.conversation].scope, x)
    {
      assert AncestorOk(h, h.conversations[manifest.conversation].scope, x);
    }
  }

  /** Restricting any conversation never turns a refusal into success either: policies only tighten. */
  lemma RestrictionNeverHelps(g: Graph, manifest: Manifest, actor: Identity, id: ConversationId, participant: Identity)
    requires Keyed(g) && id in g.conversations
    requires Change(g.conversations[id], participant, g.conversations[id].revision, Restrict).Success?
    ensures var next := Change(g.conversations[id], participant, g.conversations[id].revision, Restrict).value;
            Policies(g, manifest, actor).Failure? ==>
              Policies(g.(conversations := g.conversations[id := next]), manifest, actor).Failure?
  {
    var next := Change(g.conversations[id], participant, g.conversations[id].revision, Restrict).value;
    var h := g.(conversations := g.conversations[id := next]);
    PoliciesExact(g, manifest, actor);
    PoliciesExact(h, manifest, actor);
    if Reusable(h, manifest, actor) {
      RestrictionTightens(g, h, manifest, actor, id, participant);
    }
  }

  // ---- the rule over the records' own fields ----

  /** A selection fits the message it names, in the version it names, if each of its elements is a range that ends within
      a text block there, or an image block there. */
  lemma FitsExactly(s: Selection, m: Manifest)
    ensures Fits(s, m) <==>
              && s.message == m.message && s.version == m.version
              && forall i :: 0 <= i < |s.elements| ==>
                   && s.elements[i].block < |m.blocks|
                   && (|| (s.elements[i].ImageBlock? && m.blocks[s.elements[i].block].Image?)
                       || (&& s.elements[i].TextRange? && m.blocks[s.elements[i].block].Text?
                           && s.elements[i].end <= m.blocks[s.elements[i].block].bytes))
  {
    if Fits(s, m) {
      assert forall i :: 0 <= i < |s.elements| ==> ElementFits(s.elements[i], m.blocks);
    } else if s.message == m.message && s.version == m.version {
      var i :| 0 <= i < |s.elements| && !ElementFits(s.elements[i], m.blocks);
    }
  }

  /** The actor writes in a retained conversation of their own. */
  predicate Participates(g: Graph, id: ConversationId, actor: Identity) {
    id in g.conversations && (g.conversations[id].scope.low == actor || g.conversations[id].scope.high == actor)
  }

  /** A message may be reused in this pair's conversations: its own conversation is open or of the same pair, and whatever
      it quotes is there and fits. */
  predicate MayLeaveFor(g: Graph, pair: Scope, id: MessageId) {
    && id in g.messages && g.messages[id].conversation in g.conversations
    && var c := g.conversations[g.messages[id].conversation];
       && (c.policy == AcrossRelationships || (c.scope.low == pair.low && c.scope.high == pair.high))
       && forall s :: s in g.messages[id].sources ==> s.message in g.messages && Fits(s, g.messages[s.message])
  }

  /** The whole rule of reuse: the writer participates where they write and wherever they quote directly, every quotation
      fits, everything quoted however indirectly may leave for this pair, and it is at most 1024 messages. */
  lemma PoliciesRule(g: Graph, manifest: Manifest, actor: Identity)
    requires Keyed(g)
    ensures Policies(g, manifest, actor).Success? <==>
              && Participates(g, manifest.conversation, actor)
              && (forall s :: s in manifest.sources ==>
                    && s.message in g.messages && Fits(s, g.messages[s.message])
                    && Participates(g, g.messages[s.message].conversation, actor))
              && (forall id :: id in ReachableSet(g, Roots(manifest)) ==>
                    MayLeaveFor(g, g.conversations[manifest.conversation].scope, id))
              && |ReachableSet(g, Roots(manifest))| <= 1024
  {
    PoliciesExact(g, manifest, actor);
    if manifest.conversation in g.conversations {
      var pair := g.conversations[manifest.conversation].scope;
      forall id | id in ReachableSet(g, Roots(manifest)) ensures AncestorOk(g, pair, id) <==> MayLeaveFor(g, pair, id) {
        if id in g.messages && g.messages[id].conversation in g.conversations {
          PermitsExactly(g.conversations[g.messages[id].conversation], pair);
        }
      }
    }
  }

  /** From the manifest through one quotation after another to a message. */
  ghost predicate Quotes(g: Graph, manifest: Manifest, path: seq<MessageId>) {
    && IsPath(g, path) && exists s :: s in manifest.sources && s.message == path[0]
  }

  lemma {:induction false} PathIsReachable(g: Graph, roots: set<MessageId>, path: seq<MessageId>)
    requires IsPath(g, path) && path[0] in roots
    ensures path[|path| - 1] in ReachableSet(g, roots) && Reachable(g, roots, path[|path| - 1])
    decreases |path|
  {
    if |path| == 1 {
      RootIsReachable(g, roots, path[0]);
    } else {
      var front := path[..|path| - 1];
      forall i | 0 <= i < |front| - 1 ensures Edge(g, front[i], front[i + 1]) {
        assert Edge(g, path[i], path[i + 1]);
      }
      PathIsReachable(g, roots, front);
      assert Edge(g, path[|path| - 2], path[|path| - 1]);
      EdgeExtendsReach(g, roots, front[|front| - 1], path[|path| - 1]);
    }
  }

  /** What a restriction is for: once a participant has restricted a conversation, nothing that quotes a message of it,
      at any distance, can be sent in a conversation of any other pair. */
  lemma RestrictionConfines(g: Graph, manifest: Manifest, actor: Identity, id: ConversationId, participant: Identity,
                            path: seq<MessageId>)
    requires Keyed(g) && id in g.conversations
    requires Change(g.conversations[id], participant, g.conversations[id].revision, Restrict).Success?
    requires var next := Change(g.conversations[id], participant, g.conversations[id].revision, Restrict).value;
             && Quotes(g.(conversations := g.conversations[id := next]), manifest, path)
    requires path[|path| - 1] in g.messages && g.messages[path[|path| - 1]].conversation == id
    requires manifest.conversation in g.conversations ==> g.conversations[manifest.conversation].scope != g.conversations[id].scope
    ensures var next := Change(g.conversations[id], participant, g.conversations[id].revision, Restrict).value;
            Policies(g.(conversations := g.conversations[id := next]), manifest, actor).Failure?
  {
    var next := Change(g.conversations[id], participant, g.conversations[id].revision, Restrict).value;
    var h := g.(conversations := g.conversations[id := next]);
    ChangeSucceedsExactly(g.conversations[id], participant, g.conversations[id].revision, Restrict);
    PathIsReachable(h, Roots(manifest), path);
    PoliciesRule(h, manifest, actor);
  }
}
