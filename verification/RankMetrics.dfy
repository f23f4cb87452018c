/** Retrieval measures (tools/embedding-evaluation/common.py). Discounted gain is compared with the ideal
    ordering over exact reals; the logarithmic discount enters only through being positive and decreasing. */
module RankMetrics {

  type Id = nat

  /** The discounted gain of a grade at a rank. */
  type Weight = (nat, nat) -> real
  type Discount = nat -> real

  /** One judged document: its identifier and its grade. */
  datatype Judged = Judged(id: Id, grade: nat)

  ghost predicate Judgements(relevant: seq<Judged>) {
    && (forall i :: 0 <= i < |relevant| ==> relevant[i].grade > 0)
    && (forall i, j :: 0 <= i < j < |relevant| ==> relevant[i].id != relevant[j].id)
  }

  ghost predicate DuplicateFree(ranking: seq<Id>) {
    forall i, j :: 0 <= i < j < |ranking| ==> ranking[i] != ranking[j]
  }

  /** `relevant.get(identifier, 0)`. */
  function Grade(relevant: seq<Judged>, id: Id): nat {
    if relevant == [] then 0 else if relevant[0].id == id then relevant[0].grade else Grade(relevant[1..], id)
  }

  function Grades(relevant: seq<Judged>): seq<nat> {
    if relevant == [] then [] else [relevant[0].grade] + Grades(relevant[1..])
  }

  function Pow2(n: nat): (p: nat)
    ensures p >= 1
  {
    if n == 0 then 1 else 2 * Pow2(n - 1)
  }

  function Gain(grade: nat): (g: real)
    ensures g >= 0.0
  {
    (Pow2(grade) - 1) as real
  }

  /** `sorted(values, reverse=True)`, by insertion. */
  function Insert(x: nat, sorted: seq<nat>): seq<nat> {
    if sorted == [] || x >= sorted[0] then [x] + sorted else [sorted[0]] + Insert(x, sorted[1..])
  }

  function SortDown(values: seq<nat>): seq<nat> {
    if values == [] then [] else Insert(values[0], SortDown(values[1..]))
  }

  /** `s[:n]`. */
  function Prefix<T(==)>(s: seq<T>, n: nat): (r: seq<T>)
    ensures r <= s && |r| <= n && (|r| == n || r == s)
  {
    if n <= |s| then s[..n] else s
  }

  /** `gains`: the grades found at the first ranks. */
  function Retrieved(ranking: seq<Id>, relevant: seq<Judged>): seq<nat> {
    seq(|ranking|, i requires 0 <= i < |ranking| => Grade(relevant, ranking[i]))
  }

  /** The discounted sum of the grades shown from this rank on. */
  function Discounted(grades: seq<nat>, w: Weight, rank: nat): real {
    if grades == [] then 0.0 else w(rank, grades[0]) + Discounted(grades[1..], w, rank + 1)
  }

  function Dcg(ranking: seq<Id>, relevant: seq<Judged>, w: Weight, cutoff: nat): real {
    Discounted(Retrieved(Prefix(ranking, cutoff), relevant), w, 0)
  }

  function Ideal(relevant: seq<Judged>, w: Weight, cutoff: nat): real {
    Discounted(Prefix(SortDown(Grades(relevant)), cutoff), w, 0)
  }

  function Ndcg(ranking: seq<Id>, relevant: seq<Judged>, w: Weight, cutoff: nat): real
    requires Ideal(relevant, w, cutoff) != 0.0
  {
    Dcg(ranking, relevant, w, cutoff) / Ideal(relevant, w, cutoff)
  }

  // ---- what is asked of the discount ----

  /** Ungraded items gain nothing, better grades gain more, and a better grade is worth more the earlier
      it is shown. */
  predicate Favours(w: Weight, i: nat, j: nat, a: nat, b: nat) {
    && w(i, 0) == 0.0
    && (a <= b ==> w(i, a) <= w(i, b))
    && (i <= j && a <= b ==> w(j, b) - w(j, a) <= w(i, b) - w(i, a))
  }

  predicate FavoursStrictly(w: Weight, i: nat, j: nat, a: nat, b: nat) {
    && (a < b ==> w(i, a) < w(i, b))
    && (i < j && a < b ==> w(j, b) - w(j, a) < w(i, b) - w(i, a))
  }

  ghost predicate Fair(w: Weight) {
    forall i: nat, j: nat, a: nat, b: nat :: Favours(w, i, j, a, b)
  }

  ghost predicate Strict(w: Weight) {
    forall i: nat, j: nat, a: nat, b: nat :: FavoursStrictly(w, i, j, a, b)
  }

  predicate Drops(d: Discount, i: nat, j: nat) {
    d(i) > 0.0 && (i <= j ==> d(i) >= d(j))
  }

  predicate DropsStrictly(d: Discount, i: nat, j: nat) {
    d(i) > 0.0 && (i < j ==> d(i) > d(j))
  }

  /** Positive and non-increasing. */
  ghost predicate NonIncreasing(d: Discount) {
    forall i: nat, j: nat :: Drops(d, i, j)
  }

  /** Positive and strictly decreasing, as 1 / log2(rank + 2) is. */
  ghost predicate Decreasing(d: Discount) {
    forall i: nat, j: nat :: DropsStrictly(d, i, j)
  }

  /** The weight the program uses: (2^grade - 1) times the discount of the rank. */
  function Weigh(d: Discount): Weight {
    (i: nat, g: nat) => Gain(g) * d(i)
  }

  lemma {:induction false} GainIsMonotone(a: nat, b: nat)
    requires a <= b
    ensures Gain(a) <= Gain(b)
    ensures a < b ==> Gain(a) < Gain(b)
  {
    if a < b { GainIsMonotone(a, b - 1); }
  }

  lemma Products(x: real, y: real, p: real, q: real)
    requires 0.0 <= x <= y && p >= q > 0.0
    ensures 0.0 <= x * p <= y * p && y * q - x * q <= y * p - x * p
    ensures x < y ==> x * p < y * p
    ensures x < y && p > q ==> y * q - x * q < y * p - x * p
  {
    assert (y - x) * (p - q) >= 0.0 && (y - x) * p >= 0.0;
    if x < y && p > q { assert (y - x) * (p - q) > 0.0; }
  }

  lemma DropsAreFavoured(d: Discount, i: nat, j: nat, a: nat, b: nat)
    requires d(i) > 0.0 && d(j) > 0.0 && (i <= j ==> d(i) >= d(j))
    ensures Favours(Weigh(d), i, j, a, b)
  {
    if a <= b {
      GainIsMonotone(a, b);
      Products(Gain(a), Gain(b), d(i), if i <= j then d(j) else d(i));
    }
  }

  lemma StrictDropsAreFavoured(d: Discount, i: nat, j: nat, a: nat, b: nat)
    requires d(i) > 0.0 && d(j) > 0.0 && (i < j ==> d(i) > d(j))
    ensures FavoursStrictly(Weigh(d), i, j, a, b)
  {
    if a < b {
      GainIsMonotone(a, b);
      Products(Gain(a), Gain(b), d(i), if i < j then d(j) else d(i));
    }
  }

  /** Any positive non-increasing discount gives a fair weight, and a strictly decreasing one a strict one. */
  lemma DiscountsAreFair(d: Discount)
    ensures NonIncreasing(d) ==> Fair(Weigh(d))
    ensures Decreasing(d) ==> Fair(Weigh(d)) && Strict(Weigh(d))
  {
    if NonIncreasing(d) {
      forall i: nat, j: nat, a: nat, b: nat ensures Favours(Weigh(d), i, j, a, b) {
        assert Drops(d, i, j) && Drops(d, j, j);
        DropsAreFavoured(d, i, j, a, b);
      }
    }
    if Decreasing(d) {
      forall i: nat, j: nat, a: nat, b: nat
        ensures Favours(Weigh(d), i, j, a, b) && FavoursStrictly(Weigh(d), i, j, a, b)
      {
        assert DropsStrictly(d, i, j) && DropsStrictly(d, j, j);
        DropsAreFavoured(d, i, j, a, b);
        StrictDropsAreFavoured(d, i, j, a, b);
      }
    }
  }

  // ---- sorting ----

  ghost predicate SortedDown(s: seq<nat>) {
    forall i, j :: 0 <= i < j < |s| ==> s[i] >= s[j]
  }

  lemma {:induction false} InsertBounded(x: nat, s: seq<nat>, bound: nat)
    requires x <= bound && forall j :: 0 <= j < |s| ==> s[j] <= bound
    ensures |Insert(x, s)| == |s| + 1 && forall j :: 0 <= j < |Insert(x, s)| ==> Insert(x, s)[j] <= bound
  {
    if s != [] && x < s[0] { InsertBounded(x, s[1..], bound); }
  }

  lemma {:induction false} InsertSorts(x: nat, s: seq<nat>)
    requires SortedDown(s)
    ensures SortedDown(Insert(x, s))
  {
    if s != [] && x < s[0] {
      InsertSorts(x, s[1..]);
      InsertBounded(x, s[1..], s[0]);
    }
  }

  lemma {:induction false} InsertKeepsElements(x: nat, s: seq<nat>)
    ensures multiset(Insert(x, s)) == multiset(s) + multiset{x}
    ensures |Insert(x, s)| == |s| + 1
  {
    if s != [] && x < s[0] {
      InsertKeepsElements(x, s[1..]);
      assert s == [s[0]] + s[1..];
    }
  }

  lemma {:induction false} SortDownSorts(values: seq<nat>)
    ensures SortedDown(SortDown(values)) && multiset(SortDown(values)) == multiset(values)
    ensures |SortDown(values)| == |values|
  {
    if values != [] {
      SortDownSorts(values[1..]);
      InsertSorts(values[0], SortDown(values[1..]));
      InsertKeepsElements(values[0], SortDown(values[1..]));
      assert values == [values[0]] + values[1..];
    }
  }

  lemma HeadIsLargest(s: seq<nat>, g: nat)
    requires SortedDown(s) && g in multiset(s)
    ensures s != [] && g <= s[0]
  {
    var k :| 0 <= k < |s| && s[k] == g;
  }

  lemma SameElementsSameLength<T>(a: seq<T>, b: seq<T>)
    requires multiset(a) == multiset(b)
    ensures |a| == |b|
  {
    assert |multiset(a)| == |a| && |multiset(b)| == |b|;
  }

  lemma SameHead(a: seq<nat>, b: seq<nat>)
    requires SortedDown(a) && SortedDown(b) && multiset(a) == multiset(b) && a != [] && b != []
    ensures a[0] == b[0] && multiset(a[1..]) == multiset(b[1..])
  {
    assert a[0] in multiset(a) && b[0] in multiset(b);
    HeadIsLargest(b, a[0]);
    HeadIsLargest(a, b[0]);
    TakeOut(a, 0);
    TakeOut(b, 0);
  }

  lemma {:induction false} SortedUnique(a: seq<nat>, b: seq<nat>)
    requires SortedDown(a) && SortedDown(b) && multiset(a) == multiset(b)
    ensures a == b
  {
    SameElementsSameLength(a, b);
    if a != [] {
      SameHead(a, b);
      SortedUnique(a[1..], b[1..]);
      assert a == [a[0]] + a[1..] && b == [b[0]] + b[1..];
    }
  }

  lemma TakeOut<T>(s: seq<T>, k: nat)
    requires k < |s|
    ensures multiset(s[..k] + s[k + 1..]) == multiset(s) - multiset{s[k]}
    ensures k == 0 ==> multiset(s[1..]) == multiset(s) - multiset{s[0]}
  {
    assert s == s[..k] + [s[k]] + s[k + 1..];
    if k == 0 { assert s[..k] + s[k + 1..] == s[1..]; }
  }

  // ---- the best grades first ----

  /** The discounted sum of at most n grades. */
  function Top(s: seq<nat>, w: Weight, rank: nat, n: nat): real {
    if s == [] || n == 0 then 0.0 else w(rank, s[0]) + Top(s[1..], w, rank + 1, n - 1)
  }

  lemma {:induction false} TopIsPrefix(s: seq<nat>, w: Weight, rank: nat, n: nat)
    ensures Discounted(Prefix(s, n), w, rank) == Top(s, w, rank, n)
    decreases n
  {
    if s != [] && n > 0 {
      assert Prefix(s, n)[0] == s[0] && Prefix(s, n)[1..] == Prefix(s[1..], n - 1);
      TopIsPrefix(s[1..], w, rank + 1, n - 1);
    }
  }

  lemma TopOfCons(x: nat, s: seq<nat>, w: Weight, rank: nat, n: nat)
    requires n > 0
    ensures Top([x] + s, w, rank, n) == w(rank, x) + Top(s, w, rank + 1, n - 1)
  {
    assert ([x] + s)[1..] == s;
  }

  lemma InsertLater(x: nat, s: seq<nat>, w: Weight, rank: nat, n: nat)
    requires s != [] && x < s[0] && n > 0
    ensures Top(Insert(x, s), w, rank, n) == w(rank, s[0]) + Top(Insert(x, s[1..]), w, rank + 1, n - 1)
  {
    TopOfCons(s[0], Insert(x, s[1..]), w, rank, n);
  }

  lemma InsertFirst(x: nat, s: seq<nat>, w: Weight, rank: nat, n: nat)
    requires (s == [] || x >= s[0]) && n > 0
    ensures Top(Insert(x, s), w, rank, n) == w(rank, x) + Top(s, w, rank + 1, n - 1)
  {
    TopOfCons(x, s, w, rank, n);
  }

  /** Showing one value first and the rest in order is no better than showing all of them in order. */
  lemma {:induction false} BestFirst(x: nat, s: seq<nat>, w: Weight, rank: nat, n: nat)
    requires Fair(w) && n > 0
    ensures w(rank, x) + Top(s, w, rank + 1, n - 1) <= Top(Insert(x, s), w, rank, n)
    decreases |s|
  {
    if s == [] || x >= s[0] {
      InsertFirst(x, s, w, rank, n);
    } else {
      InsertLater(x, s, w, rank, n);
      assert Favours(w, rank, rank + 1, x, s[0]);
      if n > 1 {
        BestFirst(x, s[1..], w, rank + 1, n - 1);
      }
    }
  }

  lemma BestFirstStrictly(x: nat, s: seq<nat>, w: Weight, rank: nat, n: nat)
    requires Fair(w) && Strict(w) && n > 0 && s != [] && x < s[0]
    ensures w(rank, x) + Top(s, w, rank + 1, n - 1) < Top(Insert(x, s), w, rank, n)
  {
    InsertLater(x, s, w, rank, n);
    assert FavoursStrictly(w, rank, rank + 1, x, s[0]);
    if n > 1 {
      BestFirst(x, s[1..], w, rank + 1, n - 1);
    }
  }

  /** An ungraded item first only pushes everything else down. */
  lemma {:induction false} LaterIsWorse(s: seq<nat>, w: Weight, rank: nat, n: nat)
    requires Fair(w) && n > 0
    ensures Top(s, w, rank + 1, n - 1) <= Top(s, w, rank, n)
    decreases |s|
  {
    if s != [] {
      assert Favours(w, rank, rank + 1, 0, s[0]) && Favours(w, rank + 1, rank + 1, 0, s[0]);
      if n > 1 {
        LaterIsWorse(s[1..], w, rank + 1, n - 1);
      }
    }
  }

  lemma LaterIsStrictlyWorse(s: seq<nat>, w: Weight, rank: nat, n: nat)
    requires Fair(w) && Strict(w) && n > 0 && s != [] && s[0] > 0
    ensures Top(s, w, rank + 1, n - 1) < Top(s, w, rank, n)
  {
    assert Favours(w, rank, rank + 1, 0, s[0]) && Favours(w, rank + 1, rank + 1, 0, s[0]);
    assert FavoursStrictly(w, rank, rank + 1, 0, s[0]);
    if n > 1 {
      LaterIsWorse(s[1..], w, rank + 1, n - 1);
    }
  }

  function Bag(s: seq<Judged>): multiset<nat> {
    multiset(Grades(s))
  }

  lemma BagOfCons(j: Judged, s: seq<Judged>)
    ensures Bag([j] + s) == Bag(s) + multiset{j.grade}
  {
    assert ([j] + s)[1..] == s;
    assert Grades([j] + s) == [j.grade] + Grades(s);
  }

  lemma {:induction false} GradesTakeOut(s: seq<Judged>, k: nat)
    requires k < |s|
    ensures Bag(s) == Bag(s[..k] + s[k + 1..]) + multiset{s[k].grade}
  {
    assert s == [s[0]] + s[1..];
    BagOfCons(s[0], s[1..]);
    if k == 0 {
      assert s[..0] + s[1..] == s[1..];
    } else {
      var rest := s[1..][..k - 1] + s[1..][k..];
      GradesTakeOut(s[1..], k - 1);
      assert s[..k] + s[k + 1..] == [s[0]] + rest;
      BagOfCons(s[0], rest);
    }
  }

  /** Taking one judged document out takes its grade out of the sorted grades. */
  lemma SortedTakeOut(relevant: seq<Judged>, k: nat)
    requires k < |relevant|
    ensures SortDown(Grades(relevant)) ==
            Insert(relevant[k].grade, SortDown(Grades(relevant[..k] + relevant[k + 1..])))
    ensures SortedDown(SortDown(Grades(relevant[..k] + relevant[k + 1..])))
  {
    var others := relevant[..k] + relevant[k + 1..];
    GradesTakeOut(relevant, k);
    SortDownSorts(Grades(relevant));
    SortDownSorts(Grades(others));
    InsertSorts(relevant[k].grade, SortDown(Grades(others)));
    InsertKeepsElements(relevant[k].grade, SortDown(Grades(others)));
    SortedUnique(SortDown(Grades(relevant)), Insert(relevant[k].grade, SortDown(Grades(others))));
  }

  lemma {:induction false} GradeWithout(relevant: seq<Judged>, k: nat, id: Id)
    requires k < |relevant| && relevant[k].id != id
    ensures Grade(relevant[..k] + relevant[k + 1..], id) == Grade(relevant, id)
  {
    var others := relevant[..k] + relevant[k + 1..];
    if k == 0 {
      assert others == relevant[1..];
    } else {
      assert others[0] == relevant[0] && others[1..] == relevant[1..][..k - 1] + relevant[1..][k..];
      GradeWithout(relevant[1..], k - 1, id);
    }
  }

  lemma RestWithout(ranking: seq<Id>, relevant: seq<Judged>, k: nat)
    requires ranking != [] && DuplicateFree(ranking) && k < |relevant| && relevant[k].id == ranking[0]
    ensures Retrieved(ranking[1..], relevant) == Retrieved(ranking[1..], relevant[..k] + relevant[k + 1..])
  {
    forall i | 0 <= i < |ranking| - 1
      ensures Grade(relevant, ranking[1..][i]) == Grade(relevant[..k] + relevant[k + 1..], ranking[1..][i])
    {
      GradeWithout(relevant, k, ranking[1..][i]);
    }
  }

  lemma {:induction false} FindJudged(relevant: seq<Judged>, id: Id) returns (k: nat)
    requires Grade(relevant, id) > 0
    ensures k < |relevant| && relevant[k].id == id && relevant[k].grade == Grade(relevant, id)
  {
    if relevant[0].id == id {
      k := 0;
    } else {
      var rest := FindJudged(relevant[1..], id);
      k := rest + 1;
    }
  }

  lemma SplitFirst(ranking: seq<Id>, relevant: seq<Judged>, w: Weight, rank: nat)
    requires ranking != []
    ensures Retrieved(ranking, relevant)[1..] == Retrieved(ranking[1..], relevant)
    ensures Discounted(Retrieved(ranking, relevant), w, rank) ==
            w(rank, Grade(relevant, ranking[0])) + Discounted(Retrieved(ranking[1..], relevant), w, rank + 1)
  {
    assert Retrieved(ranking, relevant)[1..] == Retrieved(ranking[1..], relevant);
  }

  lemma SplitJudged(ranking: seq<Id>, relevant: seq<Judged>, w: Weight, rank: nat) returns (k: nat)
    requires ranking != [] && DuplicateFree(ranking) && Grade(relevant, ranking[0]) > 0
    ensures k < |relevant|
    ensures Retrieved(ranking, relevant) ==
            [relevant[k].grade] + Retrieved(ranking[1..], relevant[..k] + relevant[k + 1..])
    ensures Discounted(Retrieved(ranking, relevant), w, rank) ==
            w(rank, relevant[k].grade) + Discounted(Retrieved(ranking[1..], relevant[..k] + relevant[k + 1..]), w, rank + 1)
  {
    k := FindJudged(relevant, ranking[0]);
    SplitFirst(ranking, relevant, w, rank);
    RestWithout(ranking, relevant, k);
    assert Retrieved(ranking, relevant) == [relevant[k].grade] + Retrieved(ranking[1..], relevant);
  }

  /** The rearrangement inequality: no n distinct documents, in any order, gain more than the n best grades
      in descending order. */
  lemma {:induction false} NoRankingBeatsIdeal(ranking: seq<Id>, relevant: seq<Judged>, w: Weight, rank: nat, n: nat)
    requires DuplicateFree(ranking) && |ranking| <= n && Fair(w)
    ensures Discounted(Retrieved(ranking, relevant), w, rank) <= Top(SortDown(Grades(relevant)), w, rank, n)
    decreases |ranking|
  {
    if ranking == [] {
      TopIsNotNegative(SortDown(Grades(relevant)), w, rank, n);
    } else if Grade(relevant, ranking[0]) == 0 {
      SplitFirst(ranking, relevant, w, rank);
      NoRankingBeatsIdeal(ranking[1..], relevant, w, rank + 1, n - 1);
      LaterIsWorse(SortDown(Grades(relevant)), w, rank, n);
      assert Favours(w, rank, rank, 0, 0);
    } else {
      var k := SplitJudged(ranking, relevant, w, rank);
      var others := relevant[..k] + relevant[k + 1..];
      NoRankingBeatsIdeal(ranking[1..], others, w, rank + 1, n - 1);
      SortedTakeOut(relevant, k);
      BestFirst(relevant[k].grade, SortDown(Grades(others)), w, rank, n);
    }
  }

  lemma {:induction false} TopIsNotNegative(s: seq<nat>, w: Weight, rank: nat, n: nat)
    requires Fair(w)
    ensures Top(s, w, rank, n) >= 0.0
    decreases n
  {
    if s != [] && n > 0 {
      assert Favours(w, rank, rank, 0, s[0]);
      TopIsNotNegative(s[1..], w, rank + 1, n - 1);
    }
  }

  lemma GainsNothingLess(grades: seq<nat>, w: Weight, rank: nat)
    requires Fair(w)
    ensures Discounted(grades, w, rank) >= 0.0
  {
    TopIsPrefix(grades, w, rank, |grades|);
    TopIsNotNegative(grades, w, rank, |grades|);
    assert Prefix(grades, |grades|) == grades;
  }

  lemma TopIsPositive(s: seq<nat>, w: Weight, rank: nat, n: nat)
    requires Fair(w) && s != [] && n > 0 && w(rank, s[0]) > 0.0
    ensures Top(s, w, rank, n) > 0.0
  {
    TopIsNotNegative(s[1..], w, rank + 1, n - 1);
  }

  // ---- reaching the ideal ----

  /** The grade shown at a rank; past the end, none. */
  function At(grades: seq<nat>, i: nat): nat {
    if i < |grades| then grades[i] else 0
  }

  /** The first n ranks show the same grades, whatever ungraded items pad either list. */
  predicate Shows(grades: seq<nat>, best: seq<nat>, n: nat) {
    forall i: nat :: i < n ==> At(grades, i) == At(best, i)
  }

  lemma ShowsOneMore(x: nat, grades: seq<nat>, best: seq<nat>, n: nat)
    requires Shows(grades, best, n)
    ensures Shows([x] + grades, [x] + best, n + 1)
  {
    forall i: nat | i < n + 1 ensures At([x] + grades, i) == At([x] + best, i) {
      if i > 0 { assert At(grades, i - 1) == At(best, i - 1); }
    }
  }

  /** Where every mistake costs, only the ideal order reaches the ideal sum. */
  lemma {:induction false} OnlyIdealReachesIdeal(ranking: seq<Id>, relevant: seq<Judged>, w: Weight, rank: nat, n: nat)
    requires DuplicateFree(ranking) && |ranking| <= n && Fair(w) && Strict(w) && Judgements(relevant)
    requires Discounted(Retrieved(ranking, relevant), w, rank) >= Top(SortDown(Grades(relevant)), w, rank, n)
    ensures Shows(Retrieved(ranking, relevant), SortDown(Grades(relevant)), n)
    decreases |ranking|
  {
    BestIsPositive(relevant);
    var s := SortDown(Grades(relevant));
    if s == [] {
      NothingJudged(ranking, relevant);
    } else if ranking == [] {
      if n > 0 {
        assert Favours(w, rank, rank, 0, s[0]) && FavoursStrictly(w, rank, rank, 0, s[0]);
        TopIsPositive(s, w, rank, n);
      }
    } else if Grade(relevant, ranking[0]) == 0 {
      UngradedFirstLoses(ranking, relevant, w, rank, n);
    } else {
      var k := SplitJudged(ranking, relevant, w, rank);
      var others := relevant[..k] + relevant[k + 1..];
      BestComesFirst(ranking, relevant, w, rank, n, k);
      OnlyIdealReachesIdeal(ranking[1..], others, w, rank + 1, n - 1);
      ShowsOneMore(relevant[k].grade, Retrieved(ranking[1..], others), SortDown(Grades(others)), n - 1);
    }
  }

  lemma UngradedFirstLoses(ranking: seq<Id>, relevant: seq<Judged>, w: Weight, rank: nat, n: nat)
    requires ranking != [] && relevant != [] && Grade(relevant, ranking[0]) == 0
    requires DuplicateFree(ranking) && |ranking| <= n && Fair(w) && Strict(w) && Judgements(relevant)
    ensures Discounted(Retrieved(ranking, relevant), w, rank) < Top(SortDown(Grades(relevant)), w, rank, n)
  {
    BestIsPositive(relevant);
    SplitFirst(ranking, relevant, w, rank);
    NoRankingBeatsIdeal(ranking[1..], relevant, w, rank + 1, n - 1);
    LaterIsStrictlyWorse(SortDown(Grades(relevant)), w, rank, n);
    assert Favours(w, rank, rank, 0, 0);
  }

  /** A graded item first reaches the ideal only when its grade is the best and the rest reach theirs. */
  lemma BestComesFirst(ranking: seq<Id>, relevant: seq<Judged>, w: Weight, rank: nat, n: nat, k: nat)
    requires ranking != [] && DuplicateFree(ranking) && |ranking| <= n && Fair(w) && Strict(w) && k < |relevant|
    requires Discounted(Retrieved(ranking, relevant), w, rank) ==
             w(rank, relevant[k].grade) + Discounted(Retrieved(ranking[1..], relevant[..k] + relevant[k + 1..]), w, rank + 1)
    requires Discounted(Retrieved(ranking, relevant), w, rank) >= Top(SortDown(Grades(relevant)), w, rank, n)
    ensures SortDown(Grades(relevant)) ==
            [relevant[k].grade] + SortDown(Grades(relevant[..k] + relevant[k + 1..]))
    ensures Discounted(Retrieved(ranking[1..], relevant[..k] + relevant[k + 1..]), w, rank + 1) >=
            Top(SortDown(Grades(relevant[..k] + relevant[k + 1..])), w, rank + 1, n - 1)
  {
    var others := relevant[..k] + relevant[k + 1..];
    var x, best := relevant[k].grade, SortDown(Grades(others));
    SortedTakeOut(relevant, k);
    NoRankingBeatsIdeal(ranking[1..], others, w, rank + 1, n - 1);
    if best != [] && x < best[0] {
      BestFirstStrictly(x, best, w, rank, n);
    } else {
      InsertFirst(x, best, w, rank, n);
    }
  }

  lemma NothingJudged(ranking: seq<Id>, relevant: seq<Judged>)
    requires relevant == []
    ensures forall i :: 0 <= i < |ranking| ==> Retrieved(ranking, relevant)[i] == 0
  {
  }

  lemma BestIsPositive(relevant: seq<Judged>)
    requires Judgements(relevant)
    ensures |SortDown(Grades(relevant))| == |relevant|
    ensures relevant != [] ==> SortDown(Grades(relevant))[0] > 0
  {
    SortDownSorts(Grades(relevant));
    GradesArePositive(relevant);
    if relevant != [] {
      assert SortDown(Grades(relevant))[0] in multiset(SortDown(Grades(relevant)));
    }
  }

  lemma {:induction false} GradesArePositive(relevant: seq<Judged>)
    requires Judgements(relevant)
    ensures |Grades(relevant)| == |relevant| && forall g :: g in multiset(Grades(relevant)) ==> g > 0
  {
    if relevant != [] { GradesArePositive(relevant[1..]); }
  }

  // ---- the measure ----

  lemma Quotient(a: real, b: real)
    requires 0.0 <= a <= b && b > 0.0
    ensures 0.0 <= a / b <= 1.0 && (a / b == 1.0 <==> a == b)
  {
    assert a == (a / b) * b;
  }

  lemma GradedGainsSomething(d: Discount, rank: nat, grade: nat)
    requires NonIncreasing(d) && grade > 0
    ensures Weigh(d)(rank, grade) > 0.0
  {
    GainIsMonotone(0, grade);
    assert Drops(d, rank, rank);
    Products(Gain(0), Gain(grade), d(rank), d(rank));
  }

  lemma IdealIsPositive(relevant: seq<Judged>, d: Discount, cutoff: nat)
    requires Judgements(relevant) && relevant != [] && NonIncreasing(d) && cutoff > 0
    ensures Ideal(relevant, Weigh(d), cutoff) > 0.0
  {
    BestIsPositive(relevant);
    DiscountsAreFair(d);
    var s := SortDown(Grades(relevant));
    GradedGainsSomething(d, 0, s[0]);
    TopIsPositive(s, Weigh(d), 0, cutoff);
    TopIsPrefix(s, Weigh(d), 0, cutoff);
  }

  /** No ranking without a repeat up to the cut-off gains more than the ideal one, under any positive
      non-increasing discount; and the ideal is positive, so the quotient is defined and lies in [0, 1]. */
  lemma NdcgIsBounded(ranking: seq<Id>, relevant: seq<Judged>, d: Discount, cutoff: nat)
    requires DuplicateFree(Prefix(ranking, cutoff)) && Judgements(relevant) && relevant != []
    requires NonIncreasing(d) && cutoff > 0
    ensures Ideal(relevant, Weigh(d), cutoff) > 0.0
    ensures Dcg(ranking, relevant, Weigh(d), cutoff) <= Ideal(relevant, Weigh(d), cutoff)
    ensures 0.0 <= Ndcg(ranking, relevant, Weigh(d), cutoff) <= 1.0
  {
    var w := Weigh(d);
    DiscountsAreFair(d);
    NoRankingBeatsIdeal(Prefix(ranking, cutoff), relevant, w, 0, cutoff);
    TopIsPrefix(SortDown(Grades(relevant)), w, 0, cutoff);
    IdealIsPositive(relevant, d, cutoff);
    GainsNothingLess(Retrieved(Prefix(ranking, cutoff), relevant), w, 0);
    Quotient(Dcg(ranking, relevant, w, cutoff), Ideal(relevant, w, cutoff));
  }

  function Tail(s: seq<nat>): (t: seq<nat>)
    ensures forall i: nat :: At(t, i) == At(s, i + 1)
  {
    if s == [] then [] else s[1..]
  }

  lemma {:induction false} SameShownSameTop(x: seq<nat>, y: seq<nat>, w: Weight, rank: nat, n: nat)
    requires Shows(x, y, n) && Fair(w)
    ensures Top(x, w, rank, n) == Top(y, w, rank, n)
    decreases n
  {
    if n > 0 {
      assert At(x, 0) == At(y, 0);
      forall i: nat | i < n - 1 ensures At(Tail(x), i) == At(Tail(y), i) {
        assert At(x, i + 1) == At(y, i + 1);
      }
      SameShownSameTop(Tail(x), Tail(y), w, rank + 1, n - 1);
      assert Favours(w, rank, rank, 0, 0);
    }
  }

  lemma SameShownSameSum(x: seq<nat>, y: seq<nat>, w: Weight, rank: nat, n: nat)
    requires Shows(x, y, n) && Fair(w) && |x| <= n
    ensures Discounted(x, w, rank) == Discounted(Prefix(y, n), w, rank)
  {
    SameShownSameTop(x, y, w, rank, n);
    TopIsPrefix(x, w, rank, n);
    TopIsPrefix(y, w, rank, n);
    assert Prefix(x, n) == x;
  }

  /** Under a strictly decreasing discount, which the logarithm's is, a ranking scores exactly 1 if and only
      if it shows the ideal grades rank by rank. */
  lemma PerfectExactlyWhenIdeal(ranking: seq<Id>, relevant: seq<Judged>, d: Discount, cutoff: nat)
    requires DuplicateFree(Prefix(ranking, cutoff)) && Judgements(relevant) && relevant != []
    requires Decreasing(d) && cutoff > 0
    ensures Ideal(relevant, Weigh(d), cutoff) > 0.0
    ensures Ndcg(ranking, relevant, Weigh(d), cutoff) == 1.0 <==>
              Shows(Retrieved(Prefix(ranking, cutoff), relevant), SortDown(Grades(relevant)), cutoff)
  {
    var w := Weigh(d);
    DecreasingDrops(d);
    DiscountsAreFair(d);
    NdcgIsBounded(ranking, relevant, d, cutoff);
    GainsNothingLess(Retrieved(Prefix(ranking, cutoff), relevant), w, 0);
    Quotient(Dcg(ranking, relevant, w, cutoff), Ideal(relevant, w, cutoff));
    if Ndcg(ranking, relevant, w, cutoff) == 1.0 {
      TopIsPrefix(SortDown(Grades(relevant)), w, 0, cutoff);
      OnlyIdealReachesIdeal(Prefix(ranking, cutoff), relevant, w, 0, cutoff);
    }
    if Shows(Retrieved(Prefix(ranking, cutoff), relevant), SortDown(Grades(relevant)), cutoff) {
      SameShownSameSum(Retrieved(Prefix(ranking, cutoff), relevant), SortDown(Grades(relevant)), w, 0, cutoff);
    }
  }

  lemma DecreasingDrops(d: Discount)
    requires Decreasing(d)
    ensures NonIncreasing(d)
  {
    forall i: nat, j: nat ensures Drops(d, i, j) {
      assert DropsStrictly(d, i, j);
    }
  }

  function Ids(relevant: seq<Judged>): seq<Id> {
    if relevant == [] then [] else [relevant[0].id] + Ids(relevant[1..])
  }

  /** Listing the judged items first shows, rank by rank, their grades and then nothing. */
  lemma ListedGrades(items: seq<Judged>, others: seq<Id>, relevant: seq<Judged>, cutoff: nat)
    requires Judgements(relevant) && multiset(items) == multiset(relevant)
    requires DuplicateFree(Prefix(Ids(items) + others, cutoff))
    ensures Shows(Retrieved(Prefix(Ids(items) + others, cutoff), relevant), Grades(items), cutoff)
  {
    var ranking := Ids(items) + others;
    IdsAndGrades(items);
    forall i: nat | i < cutoff && i < |ranking|
      ensures Grade(relevant, ranking[i]) == if i < |items| then items[i].grade else 0
    {
      if i < |items| {
        assert items[i] in multiset(items);
        assert items[i] in multiset(relevant);
        GradeOfJudged(relevant, items[i]);
      } else {
        UnlistedIsUngraded(items, relevant, Prefix(ranking, cutoff), i);
      }
    }
  }

  /** Graded items listed in descending grade order, with anything after them, score exactly 1 under any
      positive non-increasing discount. */
  lemma DescendingOrderIsPerfect(items: seq<Judged>, others: seq<Id>, relevant: seq<Judged>, d: Discount, cutoff: nat)
    requires Judgements(relevant) && relevant != [] && multiset(items) == multiset(relevant)
    requires SortedDown(Grades(items)) && DuplicateFree(Prefix(Ids(items) + others, cutoff))
    requires NonIncreasing(d) && cutoff > 0
    ensures Ideal(relevant, Weigh(d), cutoff) > 0.0 && Ndcg(Ids(items) + others, relevant, Weigh(d), cutoff) == 1.0
  {
    var ranking, w := Ids(items) + others, Weigh(d);
    NdcgIsBounded(ranking, relevant, d, cutoff);
    GradesPermute(items, relevant);
    SortDownSorts(Grades(relevant));
    SortedUnique(Grades(items), SortDown(Grades(relevant)));
    ListedGrades(items, others, relevant, cutoff);
    DiscountsAreFair(d);
    SameShownSameSum(Retrieved(Prefix(ranking, cutoff), relevant), SortDown(Grades(relevant)), w, 0, cutoff);
    GainsNothingLess(Retrieved(Prefix(ranking, cutoff), relevant), w, 0);
    Quotient(Dcg(ranking, relevant, w, cutoff), Ideal(relevant, w, cutoff));
  }

  lemma {:induction false} IdsAndGrades(items: seq<Judged>)
    ensures |Ids(items)| == |items| == |Grades(items)|
    ensures forall i :: 0 <= i < |items| ==> Ids(items)[i] == items[i].id && Grades(items)[i] == items[i].grade
  {
    if items != [] { IdsAndGrades(items[1..]); }
  }

  lemma {:induction false} GradeOfJudged(relevant: seq<Judged>, item: Judged)
    requires Judgements(relevant) && item in relevant
    ensures Grade(relevant, item.id) == item.grade
  {
    if relevant[0] != item {
      var k :| 0 <= k < |relevant| && relevant[k] == item;
      assert relevant[1..][k - 1] == item;
      GradeOfJudged(relevant[1..], item);
    }
  }

  lemma {:induction false} GradeOfUnjudged(relevant: seq<Judged>, id: Id)
    requires forall i :: 0 <= i < |relevant| ==> relevant[i].id != id
    ensures Grade(relevant, id) == 0
  {
    if relevant != [] { GradeOfUnjudged(relevant[1..], id); }
  }

  lemma UnlistedIsUngraded(items: seq<Judged>, relevant: seq<Judged>, ranking: seq<Id>, i: nat)
    requires multiset(items) == multiset(relevant) && DuplicateFree(ranking)
    requires |items| <= i < |ranking| && forall j :: 0 <= j < |items| ==> ranking[j] == items[j].id
    ensures Grade(relevant, ranking[i]) == 0
  {
    forall k | 0 <= k < |relevant| ensures relevant[k].id != ranking[i] {
      assert relevant[k] in multiset(items);
      var j :| 0 <= j < |items| && items[j] == relevant[k];
      assert ranking[j] != ranking[i];
    }
    GradeOfUnjudged(relevant, ranking[i]);
  }

  lemma FindElement<T>(s: seq<T>, item: T) returns (k: nat)
    requires item in multiset(s)
    ensures k < |s| && s[k] == item
  {
    k :| 0 <= k < |s| && s[k] == item;
  }

  lemma {:induction false} GradesPermute(a: seq<Judged>, b: seq<Judged>)
    requires multiset(a) == multiset(b)
    ensures Bag(a) == Bag(b)
    decreases |a|
  {
    SameElementsSameLength(a, b);
    if a != [] {
      assert a[0] in multiset(a);
      var k := FindElement(b, a[0]);
      TakeOut(a, 0);
      TakeOut(b, k);
      GradesPermute(a[1..], b[..k] + b[k + 1..]);
      GradesTakeOut(b, k);
      assert a == [a[0]] + a[1..];
      BagOfCons(a[0], a[1..]);
    }
  }

  // ---- exactly which rankings respect the bound ----

  /** However the documents are graded, this ranking gains no more than the ideal one. */
  ghost predicate NeverExceeds(ranking: seq<Id>, d: Discount, cutoff: nat) {
    forall relevant :: Judgements(relevant) && relevant != [] ==>
      Dcg(ranking, relevant, Weigh(d), cutoff) <= Ideal(relevant, Weigh(d), cutoff)
  }

  /** These documents, each graded 1. */
  function Ones(ids: seq<Id>): seq<Judged> {
    if ids == [] then [] else [Judged(ids[0], 1)] + Ones(ids[1..])
  }

  predicate AllOne(grades: seq<nat>) {
    forall i :: 0 <= i < |grades| ==> grades[i] == 1
  }

  lemma {:induction false} OnesAreJudged(ids: seq<Id>)
    ensures |Ones(ids)| == |ids| == |Grades(Ones(ids))| && AllOne(Grades(Ones(ids)))
    ensures forall i :: 0 <= i < |ids| ==> Ones(ids)[i] == Judged(ids[i], 1)
  {
    if ids != [] { OnesAreJudged(ids[1..]); }
  }

  lemma FirstRepeat(ids: seq<Id>) returns (j: nat)
    requires !DuplicateFree(ids)
    ensures 0 < j < |ids| && ids[j] in ids[..j] && DuplicateFree(ids[..j])
    decreases |ids|
  {
    var n := |ids| - 1;
    if DuplicateFree(ids[..n]) {
      j := n;
    } else {
      j := FirstRepeat(ids[..n]);
      assert ids[..n][..j] == ids[..j];
    }
  }

  lemma {:induction false} TopGrows(s: seq<nat>, w: Weight, rank: nat, few: nat, many: nat)
    requires Fair(w) && few <= many
    ensures Top(s, w, rank, few) <= Top(s, w, rank, many)
    decreases few
  {
    if s != [] && few > 0 {
      TopGrows(s[1..], w, rank + 1, few - 1, many - 1);
    } else {
      TopIsNotNegative(s, w, rank, many);
    }
  }

  /** One 1 more is worth more. */
  lemma {:induction false} OneMoreGainsMore(longer: seq<nat>, shorter: seq<nat>, d: Discount, rank: nat, n: nat)
    requires AllOne(longer) && AllOne(shorter) && |longer| == |shorter| + 1 && NonIncreasing(d) && |shorter| <= n
    ensures Top(longer, Weigh(d), rank, |longer|) > Top(shorter, Weigh(d), rank, n)
    decreases |shorter|
  {
    if shorter == [] {
      GradedGainsSomething(d, rank, 1);
      assert longer[1..] == [];
    } else {
      OneMoreGainsMore(longer[1..], shorter[1..], d, rank + 1, n - 1);
    }
  }

  /** Grading the distinct documents before the first repeat 1 each makes the repeat count twice. */
  lemma RepeatExceeds(ranking: seq<Id>, d: Discount, cutoff: nat)
    requires NonIncreasing(d) && !DuplicateFree(Prefix(ranking, cutoff))
    ensures !NeverExceeds(ranking, d, cutoff)
  {
    var p, w := Prefix(ranking, cutoff), Weigh(d);
    var j := FirstRepeat(p);
    var relevant := Ones(p[..j]);
    OnesAreJudged(p[..j]);
    assert Judgements(relevant) && relevant != [];
    var shown := Retrieved(p, relevant);
    forall i | 0 <= i < j + 1 ensures shown[i] == 1 {
      var k :| 0 <= k < j && p[k] == p[i];
      assert relevant[k] == Judged(p[i], 1);
      GradeOfJudged(relevant, relevant[k]);
    }
    DiscountsAreFair(d);
    TopGrows(shown, w, 0, j + 1, |shown|);
    TopIsPrefix(shown, w, 0, |shown|);
    assert Prefix(shown, |shown|) == shown;
    TopOfPrefix(shown, w, 0, j + 1);
    OnesAreIdeal(relevant, d, cutoff);
    OneMoreGainsMore(shown[..j + 1], Grades(relevant), d, 0, cutoff);
  }

  lemma TopOfPrefix(s: seq<nat>, w: Weight, rank: nat, n: nat)
    requires n <= |s|
    ensures Top(s, w, rank, n) == Top(s[..n], w, rank, n)
  {
    TopIsPrefix(s, w, rank, n);
    TopIsPrefix(s[..n], w, rank, n);
    assert Prefix(s, n) == s[..n] && Prefix(s[..n], n) == s[..n];
  }

  lemma OnesAreIdeal(relevant: seq<Judged>, d: Discount, cutoff: nat)
    requires AllOne(Grades(relevant))
    ensures Ideal(relevant, Weigh(d), cutoff) == Top(Grades(relevant), Weigh(d), 0, cutoff)
  {
    SortDownSorts(Grades(relevant));
    SortedUnique(SortDown(Grades(relevant)), Grades(relevant));
    TopIsPrefix(Grades(relevant), Weigh(d), 0, cutoff);
  }

  /** Under a positive non-increasing discount a ranking gains at most the ideal, whatever the grades, if and
      only if no document appears twice among the ranks that are scored. */
  lemma BoundedExactlyWhenDuplicateFree(ranking: seq<Id>, d: Discount, cutoff: nat)
    requires NonIncreasing(d) && cutoff > 0
    ensures NeverExceeds(ranking, d, cutoff) <==> DuplicateFree(Prefix(ranking, cutoff))
  {
    if DuplicateFree(Prefix(ranking, cutoff)) {
      forall relevant | Judgements(relevant) && relevant != []
        ensures Dcg(ranking, relevant, Weigh(d), cutoff) <= Ideal(relevant, Weigh(d), cutoff)
      {
        NdcgIsBounded(ranking, relevant, d, cutoff);
      }
    } else {
      RepeatExceeds(ranking, d, cutoff);
    }
  }

  /** Duplicates break the bound: one relevant document listed twice scores above 1. */
  lemma DuplicatesExceedOne(d: Discount)
    requires NonIncreasing(d)
    ensures Dcg([7, 7], [Judged(7, 1)], Weigh(d), 10) > Ideal([Judged(7, 1)], Weigh(d), 10)
  {
    var relevant, w := [Judged(7, 1)], Weigh(d);
    assert Drops(d, 1, 1);
    assert Retrieved(Prefix([7, 7], 10), relevant) == [1, 1];
    assert SortDown(Grades(relevant)) == [1];
    assert Pow2(1) == 2 && Gain(1) == 1.0;
    assert [1, 1][1..] == [1] && [1][1..] == [];
    assert Discounted([1, 1], w, 0) == w(0, 1) + Discounted([1], w, 1);
    assert Discounted([1], w, 1) == w(1, 1);
    assert Discounted([1], w, 0) == w(0, 1);
  }

  // ---- the measure, term by term ----

  /** What a grade weighs at a rank: one less than a power of two, nothing for 0 and from one grade to the next twice as
      much and one, times the rank's discount. */
  lemma WeighExactly(d: Discount, rank: nat, grade: nat)
    ensures Weigh(d)(rank, 0) == 0.0 && Weigh(d)(rank, grade + 1) == 2.0 * Weigh(d)(rank, grade) + d(rank)
  {
  }

  lemma {:induction false} DiscountedConcat(a: seq<nat>, b: seq<nat>, w: Weight, rank: nat)
    ensures Discounted(a + b, w, rank) == Discounted(a, w, rank) + Discounted(b, w, rank + |a|)
  {
    if a == [] {
      assert a + b == b;
    } else {
      assert (a + b)[1..] == a[1..] + b;
      DiscountedConcat(a[1..], b, w, rank + 1);
    }
  }

  lemma RetrievedGrows(ranking: seq<Id>, id: Id, relevant: seq<Judged>)
    ensures Retrieved(ranking + [id], relevant) == Retrieved(ranking, relevant) + [Grade(relevant, id)]
  {
  }

  lemma OneDiscounted(grade: nat, w: Weight, rank: nat)
    ensures Discounted([grade], w, rank) == w(rank, grade)
  {
    assert [grade][1..] == [];
  }

  /** One document more adds the weight of its grade at the place it takes, while there is room, and nothing after the
      cutoff. */
  lemma DcgGrows(ranking: seq<Id>, id: Id, relevant: seq<Judged>, w: Weight, cutoff: nat)
    ensures Dcg(ranking + [id], relevant, w, cutoff) ==
            Dcg(ranking, relevant, w, cutoff) + if |ranking| < cutoff then w(|ranking|, Grade(relevant, id)) else 0.0
  {
    var longer := ranking + [id];
    if |ranking| < cutoff {
      assert Prefix(longer, cutoff) == longer && Prefix(ranking, cutoff) == ranking;
      RetrievedGrows(ranking, id, relevant);
      DiscountedConcat(Retrieved(ranking, relevant), [Grade(relevant, id)], w, 0);
      OneDiscounted(Grade(relevant, id), w, |ranking|);
    } else {
      assert Prefix(longer, cutoff) == Prefix(ranking, cutoff);
    }
  }

  /** An empty ranking gains nothing. */
  lemma NothingGainsNothing(relevant: seq<Judged>, w: Weight, cutoff: nat)
    ensures Dcg([], relevant, w, cutoff) == 0.0
  {
    assert Prefix<Id>([], cutoff) == [];
    assert Retrieved([], relevant) == [];
  }

  /** A judged document has its grade, and any other one none. */
  lemma {:induction false} GradeExactly(relevant: seq<Judged>, id: Id)
    requires Judgements(relevant)
    ensures forall i :: 0 <= i < |relevant| && relevant[i].id == id ==> Grade(relevant, id) == relevant[i].grade
    ensures (forall i :: 0 <= i < |relevant| ==> relevant[i].id != id) ==> Grade(relevant, id) == 0
  {
    if relevant != [] { GradeExactly(relevant[1..], id); }
  }

  lemma SortIsUnique(values: seq<nat>, sorted: seq<nat>)
    requires SortedDown(sorted) && multiset(sorted) == multiset(values)
    ensures SortDown(values) == sorted
  {
    SortDownSorts(values);
    SortedUnique(SortDown(values), sorted);
  }

  /** What a ranking is measured against: the same sum over all the grades there are, in descending order. */
  lemma IdealExactly(relevant: seq<Judged>, grades: seq<nat>, w: Weight, cutoff: nat)
    requires SortedDown(grades) && multiset(grades) == multiset(Grades(relevant))
    ensures Ideal(relevant, w, cutoff) == Discounted(Prefix(grades, cutoff), w, 0)
  {
    SortIsUnique(Grades(relevant), grades);
  }
}
