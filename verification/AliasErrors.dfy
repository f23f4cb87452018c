/** Shared alias vocabulary (crates/cs-mail-accounts/src/aliases.rs). */
module AliasErrors {
  import opened Wrappers
  import opened Primitives

  datatype AliasError =
    | Invalid | Conflict | AddressTaken | Retired | Restricted
    | Blocked | Coverage | Authentication | Permission

  /** One conversation already admitted on a route, by an authenticated sender. */
  datatype ConversationRecord = ConversationRecord(
    alias: AliasId, conversation: ConversationId, sender: Identity, admittedAt: Time)

  type AdmittedConversation = c: ConversationRecord | c.sender != 0
    witness ConversationRecord(1, 1, 1, 0)

  type Conversations = map<ConversationId, AdmittedConversation>

  /** Collecting a vector into a map keeps the last entry of each conversation. */
  function Collect(existing: seq<AdmittedConversation>): Conversations {
    if existing == [] then map[]
    else
      var last := existing[|existing| - 1];
      Collect(existing[..|existing| - 1])[last.conversation := last]
  }

  predicate DistinctConversations(existing: seq<AdmittedConversation>) {
    forall i, j :: 0 <= i < j < |existing| ==> existing[i].conversation != existing[j].conversation
  }

  /** Every key was carried by an entry, and every entry left its key. */
  lemma {:induction false} CollectKeys(existing: seq<AdmittedConversation>)
    ensures forall c :: c in Collect(existing) ==>
              Collect(existing)[c] in existing && Collect(existing)[c].conversation == c
    ensures forall e :: e in existing ==> e.conversation in Collect(existing)
  {
    if existing != [] {
      var k := |existing| - 1;
      CollectKeys(existing[..k]);
      assert existing == existing[..k] + [existing[k]];
    }
  }

  lemma DistinctSoFar(existing: seq<AdmittedConversation>)
    requires existing != []
    ensures var k := |existing| - 1;
            DistinctConversations(existing) <==>
            DistinctConversations(existing[..k]) && existing[k].conversation !in Collect(existing[..k])
  {
    var k := |existing| - 1;
    var front := existing[..k];
    CollectKeys(front);
    if existing[k].conversation in Collect(front) {
      var i :| 0 <= i < k && front[i] == Collect(front)[existing[k].conversation];
      assert existing[i].conversation == existing[k].conversation;
    } else {
      forall i | 0 <= i < k ensures existing[i].conversation != existing[k].conversation {
        assert front[i] in front;
      }
    }
    DistinctFront(existing, k);
  }

  lemma DistinctFront(existing: seq<AdmittedConversation>, k: nat)
    requires |existing| == k + 1
    ensures DistinctConversations(existing) <==>
            && DistinctConversations(existing[..k])
            && forall i :: 0 <= i < k ==> existing[i].conversation != existing[k].conversation
  {
    var front := existing[..k];
    if DistinctConversations(front) && forall i :: 0 <= i < k ==> existing[i].conversation != existing[k].conversation {
      forall i, j | 0 <= i < j < |existing| ensures existing[i].conversation != existing[j].conversation {
        if j < k { assert existing[i] == front[i] && existing[j] == front[j]; }
      }
    }
    if DistinctConversations(existing) {
      forall i, j | 0 <= i < j < |front| ensures front[i].conversation != front[j].conversation {
        assert existing[i] == front[i] && existing[j] == front[j];
      }
    }
  }

  /** The collected map's size betrays a duplicate. */
  lemma {:induction false} CollectSize(existing: seq<AdmittedConversation>)
    ensures |Collect(existing)| <= |existing|
    ensures |Collect(existing)| == |existing| <==> DistinctConversations(existing)
  {
    if existing != [] {
      var k := |existing| - 1;
      CollectSize(existing[..k]);
      InsertSize(Collect(existing[..k]), existing[k].conversation, existing[k]);
      DistinctSoFar(existing);
    }
  }

  lemma InsertSize<K, V>(m: map<K, V>, k: K, v: V)
    ensures |m[k := v]| == if k in m then |m| else |m| + 1
  {
    assert m[k := v].Keys == m.Keys + {k};
    assert |m[k := v]| == |m[k := v].Keys| && |m| == |m.Keys|;
  }
}
