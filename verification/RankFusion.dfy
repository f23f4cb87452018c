/** Reciprocal-rank fusion (tools/embedding-evaluation/common.py, tools/private-mail-evaluation/evaluate.py), over
    exact reals. */
module RankFusion {
  import opened Wrappers

  type Id = nat

  const FUSION_K := 60
  const DEPTH := 50
  const SHOWN := 5

  ghost predicate DuplicateFree(ranking: seq<Id>) {
    forall i, j :: 0 <= i < j < |ranking| ==> ranking[i] != ranking[j]
  }

  /** `s[:n]`. */
  function Prefix(s: seq<Id>, n: nat): (r: seq<Id>)
    ensures r <= s && |r| <= n && (|r| == n || r == s)
  {
    if n <= |s| then s[..n] else s
  }

  function Share(rank: nat): (r: real)
    ensures r > 0.0
  {
    1.0 / (FUSION_K + rank) as real
  }

  lemma Reciprocals(p: real, q: real, a: real, b: real)
    requires p * a == 1.0 && q * b == 1.0 && 0.0 < a < b && q > 0.0
    ensures p > q
  {
    Product(q, b - a);
    assert (p - q) * a == q * (b - a);
    if p - q <= 0.0 { Product(q - p, a); }
  }

  lemma Product(x: real, y: real)
    requires x >= 0.0 && y > 0.0
    ensures x * y >= 0.0 && (x > 0.0 ==> x * y > 0.0)
  {
  }

  lemma SharesFall(i: nat, j: nat)
    requires i < j
    ensures Share(i) > Share(j)
  {
    Reciprocals(Share(i), Share(j), (FUSION_K + i) as real, (FUSION_K + j) as real);
  }

  /** What one ranking adds to an identifier's score, its first rank being `rank`. */
  function Contribution(ranking: seq<Id>, id: Id, rank: nat): real {
    if ranking == [] then 0.0
    else (if ranking[0] == id then Share(rank) else 0.0) + Contribution(ranking[1..], id, rank + 1)
  }

  function Score(a: seq<Id>, b: seq<Id>, id: Id): real {
    Contribution(a, id, 1) + Contribution(b, id, 1)
  }

  /** Higher scores first, and among equal scores the smaller identifier. */
  predicate Before(a: seq<Id>, b: seq<Id>, x: Id, y: Id) {
    Score(a, b, x) > Score(a, b, y) || (Score(a, b, x) == Score(a, b, y) && x < y)
  }

  ghost predicate Sorted(out: seq<Id>, a: seq<Id>, b: seq<Id>) {
    forall i, j :: 0 <= i < j < |out| ==> Before(a, b, out[i], out[j])
  }

  ghost predicate Lists(out: seq<Id>, ids: set<Id>) {
    forall id :: id in out <==> id in ids
  }

  /** Exactly the identifiers of the two rankings, each once, best first. */
  ghost predicate Fuses(out: seq<Id>, a: seq<Id>, b: seq<Id>) {
    Sorted(out, a, b) && forall id :: id in out <==> id in a || id in b
  }

  // ---- accumulating and sorting ----

  lemma {:induction false} ContributionOfPrefix(ranking: seq<Id>, id: Id, rank: nat, n: nat)
    requires n < |ranking|
    ensures Contribution(ranking[..n + 1], id, rank) ==
            Contribution(ranking[..n], id, rank) + if ranking[n] == id then Share(rank + n) else 0.0
    decreases n
  {
    assert ranking[..n + 1][1..] == ranking[1..][..n];
    if n > 0 {
      assert ranking[..n][1..] == ranking[1..][..n - 1];
      ContributionOfPrefix(ranking[1..], id, rank + 1, n - 1);
    } else {
      assert ranking[..1][1..] == [];
    }
  }

  lemma {:induction false} NoContribution(ranking: seq<Id>, id: Id, rank: nat)
    requires id !in ranking
    ensures Contribution(ranking, id, rank) == 0.0
  {
    if ranking != [] { NoContribution(ranking[1..], id, rank + 1); }
  }

  /** `score[identifier] = score.get(identifier, 0) + ...`, for one ranking. */
  method Accumulate(before: map<Id, real>, ranking: seq<Id>) returns (score: map<Id, real>)
    ensures forall id :: id in score <==> id in before || id in ranking
    ensures forall id :: id in score ==>
              score[id] == (if id in before then before[id] else 0.0) + Contribution(ranking, id, 1)
  {
    score := before;
    for n := 0 to |ranking|
      invariant forall id :: id in score <==> id in before || id in ranking[..n]
      invariant forall id :: id in score ==>
                  score[id] == (if id in before then before[id] else 0.0) + Contribution(ranking[..n], id, 1)
    {
      var id := ranking[n];
      forall other ensures Contribution(ranking[..n + 1], other, 1) ==
                           Contribution(ranking[..n], other, 1) + if id == other then Share(n + 1) else 0.0
      {
        ContributionOfPrefix(ranking, other, 1, n);
      }
      if id !in score { NoContribution(ranking[..n], id, 1); }
      assert ranking[..n + 1] == ranking[..n] + [id];
      score := score[id := (if id in score then score[id] else 0.0) + Share(n + 1)];
    }
    assert ranking[..|ranking|] == ranking;
  }

  function Insert(id: Id, sorted: seq<Id>, a: seq<Id>, b: seq<Id>): seq<Id> {
    if sorted == [] || Before(a, b, id, sorted[0]) then [id] + sorted
    else [sorted[0]] + Insert(id, sorted[1..], a, b)
  }

  lemma {:induction false} InsertElements(id: Id, s: seq<Id>, a: seq<Id>, b: seq<Id>)
    ensures forall other :: other in Insert(id, s, a, b) <==> other == id || other in s
  {
    if s != [] && !Before(a, b, id, s[0]) {
      InsertElements(id, s[1..], a, b);
      assert s == [s[0]] + s[1..];
    }
  }

  lemma {:induction false} InsertSorts(id: Id, s: seq<Id>, a: seq<Id>, b: seq<Id>)
    requires Sorted(s, a, b) && id !in s
    ensures Sorted(Insert(id, s, a, b), a, b)
  {
    if s != [] && !Before(a, b, id, s[0]) {
      var rest := Insert(id, s[1..], a, b);
      InsertSorts(id, s[1..], a, b);
      InsertElements(id, s[1..], a, b);
      assert forall i :: 0 <= i < |rest| ==> rest[i] in rest;
      assert forall i :: 0 <= i < |rest| ==> Before(a, b, s[0], rest[i]);
    }
  }

  /** `sorted(score, key=...)`: the keys in the order of their scores. */
  method SortKeys(score: map<Id, real>, a: seq<Id>, b: seq<Id>) returns (out: seq<Id>)
    ensures Sorted(out, a, b) && Lists(out, score.Keys)
  {
    out := [];
    var rest := score.Keys;
    while rest != {}
      invariant rest <= score.Keys && Sorted(out, a, b)
      invariant forall id :: id in out <==> id in score.Keys && id !in rest
      decreases rest
    {
      var id :| id in rest;
      InsertElements(id, out, a, b);
      InsertSorts(id, out, a, b);
      out := Insert(id, out, a, b);
      rest := rest - {id};
    }
  }

  method Fuse(a: seq<Id>, b: seq<Id>) returns (out: seq<Id>)
    ensures Fuses(out, a, b)
  {
    var score := Accumulate(map[], a);
    score := Accumulate(score, b);
    out := SortKeys(score, a, b);
  }

  method FusedRank(lexical: seq<Id>, semantic: seq<Id>) returns (out: seq<Id>)
    ensures Fuses(out, Prefix(lexical, 50), Prefix(semantic, 50))
  {
    out := Fuse(Prefix(lexical, DEPTH), Prefix(semantic, DEPTH));
  }

  // ---- what the fused ranking is ----

  lemma SameEmptiness(x: seq<Id>, y: seq<Id>)
    requires forall id :: id in x <==> id in y
    ensures x == [] <==> y == []
  {
    if x != [] { assert x[0] in y; }
    if y != [] { assert y[0] in x; }
  }

  lemma {:induction false} SortedUnique(x: seq<Id>, y: seq<Id>, a: seq<Id>, b: seq<Id>)
    requires Sorted(x, a, b) && Sorted(y, a, b) && forall id :: id in x <==> id in y
    ensures x == y
    decreases |x|
  {
    SameEmptiness(x, y);
    if x != [] {
      assert x[0] in x && x[0] in y;
      assert y[0] in y && y[0] in x;
      assert x[0] == y[0];
      forall id ensures id in x[1..] <==> id in y[1..] {
        TailElements(x, a, b, id);
        TailElements(y, a, b, id);
      }
      SortedUnique(x[1..], y[1..], a, b);
      assert x == [x[0]] + x[1..] && y == [y[0]] + y[1..];
    }
  }

  lemma TailElements(x: seq<Id>, a: seq<Id>, b: seq<Id>, id: Id)
    requires Sorted(x, a, b) && x != []
    ensures id in x[1..] <==> id in x && id != x[0]
  {
    assert x == [x[0]] + x[1..];
    assert forall j :: 0 < j < |x| ==> Before(a, b, x[0], x[j]);
  }

  /** There is one fused ranking, and it is the same whichever ranking comes first. */
  lemma FusionIsDetermined(x: seq<Id>, y: seq<Id>, a: seq<Id>, b: seq<Id>)
    requires Fuses(x, a, b) && Fuses(y, b, a)
    ensures x == y
  {
    assert Sorted(y, a, b) by {
      forall i, j | 0 <= i < j < |y| ensures Before(a, b, y[i], y[j]) {
        assert Before(b, a, y[i], y[j]);
      }
    }
    SortedUnique(x, y, a, b);
  }

  lemma {:induction false} ContributionAt(ranking: seq<Id>, i: nat, rank: nat)
    requires DuplicateFree(ranking) && i < |ranking|
    ensures Contribution(ranking, ranking[i], rank) == Share(rank + i)
  {
    if i == 0 {
      NoContribution(ranking[1..], ranking[0], rank + 1);
    } else {
      assert ranking[1..][i - 1] == ranking[i];
      ContributionAt(ranking[1..], i - 1, rank + 1);
    }
  }

  /** x stands ahead of y: wherever y is listed, x is listed earlier. */
  ghost predicate Ahead(ranking: seq<Id>, x: Id, y: Id) {
    forall j :: 0 <= j < |ranking| && ranking[j] == y ==> exists i :: 0 <= i < j && ranking[i] == x
  }

  lemma AheadEarnsMore(ranking: seq<Id>, x: Id, y: Id)
    requires DuplicateFree(ranking) && Ahead(ranking, x, y) && x != y
    ensures Contribution(ranking, x, 1) >= Contribution(ranking, y, 1)
    ensures x in ranking ==> Contribution(ranking, x, 1) > Contribution(ranking, y, 1)
  {
    if j :| 0 <= j < |ranking| && ranking[j] == y {
      var i :| 0 <= i < j && ranking[i] == x;
      ContributionAt(ranking, i, 1);
      ContributionAt(ranking, j, 1);
      SharesFall(1 + i, 1 + j);
    } else {
      NoContribution(ranking, y, 1);
      if i :| 0 <= i < |ranking| && ranking[i] == x {
        ContributionAt(ranking, i, 1);
      } else {
        NoContribution(ranking, x, 1);
      }
    }
  }

  /** What neither ranking disputes the fusion keeps: x ahead of y in both is ahead of y in the result. */
  lemma FusionIsUnanimous(out: seq<Id>, a: seq<Id>, b: seq<Id>, i: nat, j: nat)
    requires Fuses(out, a, b) && DuplicateFree(a) && DuplicateFree(b)
    requires i < |out| && j < |out| && i != j && Ahead(a, out[i], out[j]) && Ahead(b, out[i], out[j])
    ensures i < j
  {
    var x, y := out[i], out[j];
    assert Before(a, b, out[if i < j then i else j], out[if i < j then j else i]);
    AheadEarnsMore(a, x, y);
    AheadEarnsMore(b, x, y);
    assert x in out;
  }

  lemma Falling(ranking: seq<Id>, i: nat, j: nat)
    requires DuplicateFree(ranking) && i < j < |ranking|
    ensures Contribution(ranking, ranking[i], 1) > Contribution(ranking, ranking[j], 1)
  {
    ContributionAt(ranking, i, 1);
    ContributionAt(ranking, j, 1);
    SharesFall(1 + i, 1 + j);
  }

  /** Fusing a ranking with itself, or with nothing, gives it back. */
  lemma FusionOfOne(ranking: seq<Id>, out: seq<Id>, other: seq<Id>)
    requires DuplicateFree(ranking) && (other == ranking || other == []) && Fuses(out, ranking, other)
    ensures out == ranking
  {
    forall i, j | 0 <= i < j < |ranking| ensures Before(ranking, other, ranking[i], ranking[j]) {
      Falling(ranking, i, j);
    }
    SortedUnique(out, ranking, ranking, other);
  }

  // ---- the order of two documents, by their ranks alone ----

  /** One ranking's part of a score: the reciprocal of 60 and the rank, counted from 1, and nothing where it is absent. */
  function Part(rank: Option<nat>): real {
    match rank
    case None => 0.0
    case Some(r) => 1.0 / (60 + r) as real
  }

  ghost predicate RankIn(ranking: seq<Id>, id: Id, rank: Option<nat>) {
    match rank
    case None => id !in ranking
    case Some(r) => 1 <= r <= |ranking| && ranking[r - 1] == id
  }

  lemma PartOfRanking(ranking: seq<Id>, id: Id, rank: Option<nat>)
    requires DuplicateFree(ranking) && RankIn(ranking, id, rank)
    ensures Contribution(ranking, id, 1) == Part(rank)
  {
    match rank
    case None => NoContribution(ranking, id, 1);
    case Some(r) => ContributionAt(ranking, r - 1, 1);
  }

  /** Which of two fused documents comes first: the one whose ranks add up to more, each rank r counting 1 / (60 + r); and
      where they add up to the same, the smaller identifier. */
  lemma FusedOrderExactly(
    out: seq<Id>, a: seq<Id>, b: seq<Id>, i: nat, j: nat, inA: Option<nat>, inB: Option<nat>, otherA: Option<nat>,
    otherB: Option<nat>)
    requires Fuses(out, a, b) && DuplicateFree(a) && DuplicateFree(b) && i < |out| && j < |out| && i != j
    requires RankIn(a, out[i], inA) && RankIn(b, out[i], inB) && RankIn(a, out[j], otherA) && RankIn(b, out[j], otherB)
    ensures i < j <==>
              || Part(inA) + Part(inB) > Part(otherA) + Part(otherB)
              || (Part(inA) + Part(inB) == Part(otherA) + Part(otherB) && out[i] < out[j])
  {
    PartOfRanking(a, out[i], inA);
    PartOfRanking(b, out[i], inB);
    PartOfRanking(a, out[j], otherA);
    PartOfRanking(b, out[j], otherB);
    assert Before(a, b, out[if i < j then i else j], out[if i < j then j else i]);
  }

  /** For two documents in both rankings that is a comparison of whole numbers: with each rank moved on by 60, the sum of
      the one pair times the product of the other. */
  lemma RanksCompareExactly(p: nat, q: nat, r: nat, s: nat)
    ensures Part(Some(p)) + Part(Some(q)) > Part(Some(r)) + Part(Some(s)) <==>
              (120 + p + q) * ((60 + r) * (60 + s)) > (120 + r + s) * ((60 + p) * (60 + q))
  {
    var a, b, c, d := (60 + p) as real, (60 + q) as real, (60 + r) as real, (60 + s) as real;
    SumOfReciprocals(a, b);
    SumOfReciprocals(c, d);
    var x, y := Part(Some(p)) + Part(Some(q)), Part(Some(r)) + Part(Some(s));
    Product(a, b);
    Product(c, d);
    CrossMultiply(x, y, a * b, c * d, a + b, c + d);
    assert ((120 + p + q) * ((60 + r) * (60 + s))) as real == (a + b) * (c * d);
    assert ((120 + r + s) * ((60 + p) * (60 + q))) as real == (c + d) * (a * b);
  }

  lemma SumOfReciprocals(a: real, b: real)
    requires a > 0.0 && b > 0.0
    ensures (1.0 / a + 1.0 / b) * (a * b) == a + b
  {
    var u, v := 1.0 / a, 1.0 / b;
    assert u * a == 1.0 && v * b == 1.0;
    calc {
      (u + v) * (a * b);
      (u * a) * b + (v * b) * a;
      a + b;
    }
  }

  lemma CrossMultiply(x: real, y: real, m: real, n: real, s: real, t: real)
    requires m > 0.0 && n > 0.0 && x * m == s && y * n == t
    ensures x > y <==> s * n > t * m
  {
    var p := m * n;
    Product(m, n);
    assert s * n == x * p;
    assert t * m == y * p;
    if x > y {
      Product(x - y, p);
      assert (x - y) * p == x * p - y * p;
    } else {
      Product(y - x, p);
      assert (y - x) * p == y * p - x * p;
    }
  }

  // ---- one passage per message ----

  function Distinct(ids: seq<Id>, message: Id -> Id, seen: set<Id>): seq<Id> {
    if ids == [] then []
    else if message(ids[0]) in seen then Distinct(ids[1..], message, seen)
    else [ids[0]] + Distinct(ids[1..], message, seen + {message(ids[0])})
  }

  lemma DistinctStep(ids: seq<Id>, i: nat, message: Id -> Id, seen: set<Id>, done: seq<Id>)
    requires i < |ids|
    ensures done + Distinct(ids[i..], message, seen) ==
            if message(ids[i]) in seen then done + Distinct(ids[i + 1..], message, seen)
            else (done + [ids[i]]) + Distinct(ids[i + 1..], message, seen + {message(ids[i])})
  {
    assert ids[i..][0] == ids[i] && ids[i..][1..] == ids[i + 1..];
  }

  method DistinctOf(ids: seq<Id>, message: Id -> Id) returns (result: seq<Id>)
    ensures result == Distinct(ids, message, {})
  {
    var seen := {};
    result := [];
    for i := 0 to |ids|
      invariant result + Distinct(ids[i..], message, seen) == Distinct(ids, message, {})
    {
      var m := message(ids[i]);
      DistinctStep(ids, i, message, seen, result);
      if m !in seen {
        result := result + [ids[i]];
        seen := seen + {m};
      }
    }
  }

  function Messages(ids: seq<Id>, message: Id -> Id): (ms: seq<Id>)
    ensures |ms| == |ids| && forall i :: 0 <= i < |ids| ==> ms[i] == message(ids[i])
  {
    seq(|ids|, i requires 0 <= i < |ids| => message(ids[i]))
  }

  lemma {:induction false} DistinctIsFresh(ids: seq<Id>, message: Id -> Id, seen: set<Id>)
    ensures DuplicateFree(Messages(Distinct(ids, message, seen), message))
    ensures forall id :: id in Distinct(ids, message, seen) ==> message(id) !in seen && id in ids
  {
    if ids != [] {
      var next := if message(ids[0]) in seen then seen else seen + {message(ids[0])};
      DistinctIsFresh(ids[1..], message, next);
      var rest := Distinct(ids[1..], message, next);
      assert forall i :: 0 <= i < |rest| ==> rest[i] in rest;
    }
  }

  /** An identifier is kept exactly when none before it is of the same message. */
  lemma {:induction false} DistinctKeepsFirsts(ids: seq<Id>, message: Id -> Id, seen: set<Id>, id: Id)
    ensures id in Distinct(ids, message, seen) <==>
              message(id) !in seen
              && exists k :: 0 <= k < |ids| && ids[k] == id && forall j :: 0 <= j < k ==> message(ids[j]) != message(id)
    decreases ids
  {
    if ids != [] {
      var m := message(ids[0]);
      var next := if m in seen then seen else seen + {m};
      DistinctKeepsFirsts(ids[1..], message, next, id);
      if k :| 0 <= k < |ids| && ids[k] == id && forall j :: 0 <= j < k ==> message(ids[j]) != message(id) {
        if k > 0 {
          assert ids[1..][k - 1] == id && forall j :: 0 <= j < k - 1 ==> message(ids[1..][j]) == message(ids[j + 1]);
          assert message(ids[0]) != message(id);
        }
      }
      if k :| 0 <= k < |ids[1..]| && ids[1..][k] == id && forall j :: 0 <= j < k ==> message(ids[1..][j]) != message(id) {
        if m != message(id) {
          assert ids[k + 1] == id;
          forall j | 0 <= j < k + 1 ensures message(ids[j]) != message(id) {
            if j > 0 { assert ids[1..][j - 1] == ids[j]; }
          }
        }
      }
    }
  }

  /** Kept in their order: of two identifiers kept, the earlier one also came earlier. */
  lemma {:induction false} DistinctKeepsOrder(ids: seq<Id>, message: Id -> Id, seen: set<Id>, i: nat, j: nat)
    requires i < j < |Distinct(ids, message, seen)|
    ensures exists p, q :: 0 <= p < q < |ids| && ids[p] == Distinct(ids, message, seen)[i] && ids[q] == Distinct(ids, message, seen)[j]
  {
    var kept := Distinct(ids, message, seen);
    if message(ids[0]) in seen {
      DistinctKeepsOrder(ids[1..], message, seen, i, j);
      var p, q :| 0 <= p < q < |ids[1..]| && ids[1..][p] == kept[i] && ids[1..][q] == kept[j];
      assert ids[p + 1] == kept[i] && ids[q + 1] == kept[j];
    } else if i > 0 {
      var next := seen + {message(ids[0])};
      DistinctKeepsOrder(ids[1..], message, next, i - 1, j - 1);
      var p, q :| 0 <= p < q < |ids[1..]| && ids[1..][p] == kept[i] && ids[1..][q] == kept[j];
      assert ids[p + 1] == kept[i] && ids[q + 1] == kept[j];
    } else {
      DistinctIsFresh(ids[1..], message, seen + {message(ids[0])});
      assert kept[j] == Distinct(ids[1..], message, seen + {message(ids[0])})[j - 1];
      var q :| 0 <= q < |ids[1..]| && ids[1..][q] == kept[j];
      assert ids[0] == kept[0] && ids[q + 1] == kept[j];
    }
  }

  /** `representative.setdefault(message, identifier)`, for one ranking. */
  method Represent(before: map<Id, Id>, ranking: seq<Id>, message: Id -> Id) returns (chosen: map<Id, Id>)
    ensures forall m :: m in chosen <==> m in before || m in Messages(ranking, message)
    ensures forall m :: m in chosen ==>
              if m in before then chosen[m] == before[m] else chosen[m] in ranking && message(chosen[m]) == m
  {
    chosen := before;
    for i := 0 to |ranking|
      invariant forall m :: m in chosen <==> m in before || m in Messages(ranking, message)[..i]
      invariant forall m :: m in chosen ==>
                  if m in before then chosen[m] == before[m] else chosen[m] in ranking && message(chosen[m]) == m
    {
      var m := message(ranking[i]);
      if m !in chosen { chosen := chosen[m := ranking[i]]; }
      assert Messages(ranking, message)[..i + 1] == Messages(ranking, message)[..i] + [m];
    }
    assert Messages(ranking, message)[..|ranking|] == Messages(ranking, message);
  }

  /** One identifier per fused message, in fused order: the semantic ranking's where it has the message. */
  ghost predicate Represents(hybrid: seq<Id>, order: seq<Id>, semantic: seq<Id>, lexical: seq<Id>, message: Id -> Id) {
    && |hybrid| == |Prefix(order, 5)|
    && forall i :: 0 <= i < |hybrid| ==>
         message(hybrid[i]) == order[i]
         && hybrid[i] in if order[i] in Messages(semantic, message) then semantic else lexical
  }

  /** The three lists shown for review: messages fused by reciprocal rank, five at most of each. */
  method MethodRankings(semanticIds: seq<Id>, lexicalIds: seq<Id>, message: Id -> Id)
    returns (semantic: seq<Id>, lexical: seq<Id>, hybrid: seq<Id>)
    ensures semantic == Prefix(Distinct(semanticIds, message, {}), 5)
    ensures lexical == Prefix(Distinct(lexicalIds, message, {}), 5)
    ensures exists order ::
              Fuses(order, Messages(Distinct(semanticIds, message, {}), message), Messages(Distinct(lexicalIds, message, {}), message))
              && Represents(hybrid, order, Distinct(semanticIds, message, {}), Distinct(lexicalIds, message, {}), message)
  {
    var s := DistinctOf(semanticIds, message);
    var l := DistinctOf(lexicalIds, message);
    var chosen := Represent(map[], s, message);
    chosen := Represent(chosen, l, message);
    var order := Fuse(Messages(s, message), Messages(l, message));
    assert forall i :: 0 <= i < |order| ==> order[i] in order;
    hybrid := [];
    for i := 0 to |Prefix(order, SHOWN)|
      invariant |hybrid| == i
      invariant forall j :: 0 <= j < i ==> order[j] in chosen && hybrid[j] == chosen[order[j]]
    {
      hybrid := hybrid + [chosen[order[i]]];
    }
    assert Represents(hybrid, order, s, l, message);
    semantic, lexical := Prefix(s, SHOWN), Prefix(l, SHOWN);
  }
}
