/** Canonical ASCII DNS names (crates/cs-mail-adapters/src/lib.rs): parsing is a canonicalization,
    and the string-suffix subdomain test is exactly "the parent's labels end the child's". */
module DomainNames {
  import opened Wrappers

  const MAX_NAME := 253
  const MAX_LABEL := 63

  datatype DomainError = InvalidDomain

  predicate IsAscii(s: string) {
    forall i :: 0 <= i < |s| ==> s[i] <= '\U{7F}'
  }

  function LowerChar(c: char): char {
    if 'A' <= c <= 'Z' then ((c as int) + 32) as char else c
  }

  function Lower(s: string): string {
    seq(|s|, i requires 0 <= i < |s| => LowerChar(s[i]))
  }

  function TrimDots(s: string): string {
    if |s| > 0 && s[|s| - 1] == '.' then TrimDots(s[..|s| - 1]) else s
  }

  /** `str::split('.')`: always at least one label. */
  function Split(s: string): (labels: seq<string>)
    ensures |labels| > 0
  {
    if s == "" then [""] else Extend(s[0], Split(s[1..]))
  }

  /** A dot opens a new first label; any other character joins the one there. */
  function Extend(c: char, labels: seq<string>): (more: seq<string>)
    requires |labels| > 0
    ensures |more| > 0
  {
    if c == '.' then [""] + labels else [[c] + labels[0]] + labels[1..]
  }

  function Join(labels: seq<string>): string
    requires |labels| > 0
  {
    if |labels| == 1 then labels[0] else labels[0] + "." + Join(labels[1..])
  }

  predicate LabelChar(c: char) {
    'a' <= c <= 'z' || 'A' <= c <= 'Z' || '0' <= c <= '9' || c == '-'
  }

  predicate ValidLabel(l: string) {
    && 0 < |l| <= MAX_LABEL
    && l[0] != '-'
    && l[|l| - 1] != '-'
    && forall i :: 0 <= i < |l| ==> LabelChar(l[i])
  }

  predicate ValidLabels(labels: seq<string>) {
    forall i :: 0 <= i < |labels| ==> ValidLabel(labels[i])
  }

  /** The checks on a normalized name. */
  function Checked(input: string, normalized: string): Result<string, DomainError> {
    if normalized == "" || |normalized| > MAX_NAME || !IsAscii(input) then Failure(InvalidDomain)
    else if !ValidLabels(Split(normalized)) then Failure(InvalidDomain)
    else Success(normalized)
  }

  function ParseAscii(input: string): Result<string, DomainError> {
    Checked(input, Lower(TrimDots(input)))
  }

  /** Parsing as documented: the root dot is optional, so there is at most one to take away. */
  function ParseDocumented(input: string): Result<string, DomainError> {
    Checked(input, Lower(if |input| > 0 && input[|input| - 1] == '.' then input[..|input| - 1] else input))
  }

  predicate EndsInTwoDots(s: string) {
    |s| > 1 && s[|s| - 1] == '.' && s[|s| - 2] == '.'
  }

  predicate IsSelfOrSubdomainOf(child: string, parent: string) {
    || child == parent
    || (&& |parent| <= |child|
        && child[|child| - |parent|..] == parent
        && (var prefix := child[..|child| - |parent|]; |prefix| > 0 && prefix[|prefix| - 1] == '.'))
  }

  /** The names parsing can return, described without parsing. */
  predicate Canonical(s: string) {
    && 0 < |s| <= MAX_NAME
    && Lower(s) == s
    && ValidLabels(Split(s))
  }

  predicate IsSuffix(suffix: seq<string>, whole: seq<string>) {
    |suffix| <= |whole| && whole[|whole| - |suffix|..] == suffix
  }

  // ---- splitting and joining ----

  lemma {:induction false} JoinOfSplit(s: string)
    ensures Join(Split(s)) == s
  {
    if s != "" {
      JoinOfSplit(s[1..]);
      var rest := Split(s[1..]);
      if s[0] == '.' {
        assert Split(s)[1..] == rest;
        assert Join(Split(s)) == "" + "." + s[1..];
      } else if |rest| > 1 {
        assert Split(s)[1..] == rest[1..];
      }
    }
  }

  lemma SplitFirst(c: char, s: string)
    ensures Split([c] + s) == Extend(c, Split(s))
  {
    assert ([c] + s)[1..] == s;
  }

  lemma ExtendOfConcat(c: char, rest: seq<string>, tail: seq<string>)
    requires |rest| > 0
    ensures Extend(c, rest + tail) == Extend(c, rest) + tail
  {
    assert (rest + tail)[1..] == rest[1..] + tail;
  }

  lemma {:induction false} SplitOfConcat(a: string, b: string)
    ensures Split(a + "." + b) == Split(a) + Split(b)
  {
    if a == "" {
      assert "" + "." + b == ['.'] + b;
      SplitFirst('.', b);
    } else {
      SplitOfConcat(a[1..], b);
      assert a + "." + b == [a[0]] + (a[1..] + "." + b);
      SplitFirst(a[0], a[1..] + "." + b);
      ExtendOfConcat(a[0], Split(a[1..]), Split(b));
    }
  }

  lemma {:induction false} SplitOfLabel(l: string)
    requires '.' !in l
    ensures Split(l) == [l]
  {
    if l != "" {
      SplitOfLabel(l[1..]);
      assert l == [l[0]] + l[1..];
    }
  }

  lemma {:induction false} SplitHasNoDots(s: string)
    ensures forall i :: 0 <= i < |Split(s)| ==> '.' !in Split(s)[i]
  {
    if s != "" {
      SplitHasNoDots(s[1..]);
      var rest := Split(s[1..]);
      forall i | 0 <= i < |Split(s)| ensures '.' !in Split(s)[i] {
        if s[0] == '.' {
          if i > 0 { assert Split(s)[i] == rest[i - 1]; }
        } else if i > 0 {
          assert Split(s)[i] == rest[i];
        }
      }
    }
  }

  lemma {:induction false} SplitOfJoin(labels: seq<string>)
    requires |labels| > 0
    requires forall i :: 0 <= i < |labels| ==> '.' !in labels[i]
    ensures Split(Join(labels)) == labels
  {
    if |labels| == 1 {
      SplitOfLabel(labels[0]);
    } else {
      SplitOfJoin(labels[1..]);
      SplitOfConcat(labels[0], Join(labels[1..]));
      SplitOfLabel(labels[0]);
      assert labels == [labels[0]] + labels[1..];
    }
  }

  lemma {:induction false} JoinOfConcat(a: seq<string>, b: seq<string>)
    requires |a| > 0 && |b| > 0
    ensures Join(a + b) == Join(a) + "." + Join(b)
  {
    if |a| == 1 {
      assert (a + b)[1..] == b;
    } else {
      JoinOfConcat(a[1..], b);
      assert (a + b)[1..] == a[1..] + b;
    }
  }

  // ---- canonicalization ----

  lemma {:induction false} TrimmedHasNoTrailingDot(s: string)
    ensures TrimDots(s) == "" || TrimDots(s)[|TrimDots(s)| - 1] != '.'
    ensures IsAscii(s) ==> IsAscii(TrimDots(s))
  {
    if |s| > 0 && s[|s| - 1] == '.' {
      TrimmedHasNoTrailingDot(s[..|s| - 1]);
    }
  }

  lemma LowerLower(s: string)
    ensures Lower(Lower(s)) == Lower(s)
    ensures IsAscii(s) ==> IsAscii(Lower(s))
  {
  }

  /** A canonical name is ASCII, ends in no dot and is returned unchanged: the results of parsing are
      exactly the canonical names, and parsing again changes nothing. */
  lemma ParsingIsCanonicalization(input: string)
    ensures ParseAscii(input).Success? ==>
              && Canonical(ParseAscii(input).value)
              && ParseAscii(ParseAscii(input).value) == ParseAscii(input)
    ensures Canonical(input) <==> ParseAscii(input) == Success(input)
  {
    if ParseAscii(input).Success? {
      LowerLower(TrimDots(input));
      CanonicalIsFixed(ParseAscii(input).value);
    }
    if Canonical(input) {
      CanonicalIsFixed(input);
    }
  }

  lemma CanonicalIsFixed(s: string)
    requires Canonical(s)
    ensures ParseAscii(s) == Success(s)
  {
    JoinOfSplit(s);
    CanonicalEnds(Split(s));
  }

  lemma {:induction false} CanonicalEnds(labels: seq<string>)
    requires |labels| > 0 && ValidLabels(labels)
    ensures Join(labels) != "" && Join(labels)[|Join(labels)| - 1] != '.'
    ensures IsAscii(Join(labels))
  {
    if |labels| == 1 {
      forall i | 0 <= i < |labels[0]| ensures labels[0][i] <= '\U{7F}' { assert LabelChar(labels[0][i]); }
      assert LabelChar(labels[0][|labels[0]| - 1]);
    } else {
      CanonicalEnds(labels[1..]);
      forall i | 0 <= i < |labels[0]| ensures labels[0][i] <= '\U{7F}' {
        assert ValidLabel(labels[0]) && LabelChar(labels[0][i]);
      }
    }
  }

  lemma {:induction false} TrimIgnoresCase(a: string, b: string)
    requires Lower(a) == Lower(b)
    ensures Lower(TrimDots(a)) == Lower(TrimDots(b))
  {
    assert |a| == |Lower(a)| == |b|;
    if |a| > 0 {
      var k := |a| - 1;
      assert LowerChar(a[k]) == Lower(a)[k] == Lower(b)[k] == LowerChar(b[k]);
      if a[k] == '.' {
        assert Lower(a[..k]) == Lower(a)[..k] == Lower(b)[..k] == Lower(b[..k]);
        TrimIgnoresCase(a[..k], b[..k]);
      }
    }
  }

  /** Case never matters, and neither does any number of trailing root dots. */
  lemma ParsingIgnoresCaseAndRootDots(a: string, b: string)
    requires Lower(a) == Lower(b)
    ensures ParseAscii(a) == ParseAscii(b)
    ensures ParseAscii(a + ".") == ParseAscii(a)
  {
    TrimIgnoresCase(a, b);
    forall i | 0 <= i < |a| ensures a[i] <= '\U{7F}' <==> b[i] <= '\U{7F}' {
      assert LowerChar(a[i]) == Lower(a)[i] == Lower(b)[i] == LowerChar(b[i]);
    }
    assert (a + ".")[..|a|] == a;
    assert TrimDots(a + ".") == TrimDots(a);
    assert IsAscii(a + ".") <==> IsAscii(a) by {
      if IsAscii(a + ".") { forall i | 0 <= i < |a| ensures a[i] <= '\U{7F}' { assert (a + ".")[i] == a[i]; } }
    }
  }

  lemma TrailingDotIsNoName(s: string)
    requires |s| > 0 && s[|s| - 1] == '.'
    ensures !ValidLabels(Split(s))
  {
    var front := s[..|s| - 1];
    assert s == front + "." + "";
    SplitOfConcat(front, "");
    assert Split(s)[|Split(s)| - 1] == "" && !ValidLabel("");
  }

  lemma OneDotAsDocumented(input: string)
    requires !EndsInTwoDots(input)
    ensures ParseAscii(input) == ParseDocumented(input)
  {
    if |input| > 0 && input[|input| - 1] == '.' {
      var front := input[..|input| - 1];
      assert TrimDots(input) == TrimDots(front) == front;
    }
  }

  lemma TwoDotsAreRefusedAsDocumented(input: string)
    requires EndsInTwoDots(input)
    ensures ParseDocumented(input).Failure?
  {
    var one := input[..|input| - 1];
    assert Lower(one)[|one| - 1] == LowerChar(one[|one| - 1]) == '.';
    TrailingDotIsNoName(Lower(one));
  }

  lemma ParsesWhatTrimsToCanonical(input: string)
    ensures ParseAscii(input).Success? <==> IsAscii(input) && Canonical(Lower(TrimDots(input)))
  {
    LowerLower(TrimDots(input));
  }

  /** Parsing differs from what is documented on exactly the names that end in two dots or more and are otherwise
      well formed: those are accepted instead of refused. */
  lemma ParsesAsDocumentedExactly(input: string)
    ensures ParseAscii(input) != ParseDocumented(input) <==>
              EndsInTwoDots(input) && IsAscii(input) && Canonical(Lower(TrimDots(input)))
    ensures ParseAscii(input) != ParseDocumented(input) ==> ParseDocumented(input) == Failure(InvalidDomain)
  {
    ParsesWhatTrimsToCanonical(input);
    if EndsInTwoDots(input) { TwoDotsAreRefusedAsDocumented(input); } else { OneDotAsDocumented(input); }
  }

  /** The shortest such name. */
  lemma TwoDotsAreAccepted()
    ensures ParseAscii("a..") == Success("a") && ParseDocumented("a..").Failure?
  {
    assert "a.."[..2] == "a." && "a."[..1] == "a";
    assert TrimDots("a..") == TrimDots("a.") == TrimDots("a") == "a";
    assert Lower("a") == "a";
    SplitOfLabel("a");
    ParsesAsDocumentedExactly("a..");
    assert LabelChar('a');
  }

  // ---- the subdomain order ----

  /** The string test and the label test agree, whatever the names. */
  lemma SubdomainIsLabelSuffix(child: string, parent: string)
    ensures IsSelfOrSubdomainOf(child, parent) <==> IsSuffix(Split(parent), Split(child))
  {
    var c, p := Split(child), Split(parent);
    if IsSelfOrSubdomainOf(child, parent) && child != parent {
      var k := |child| - |parent|;
      assert child == child[..k - 1] + "." + parent;
      SplitOfConcat(child[..k - 1], parent);
    }
    if IsSuffix(p, c) {
      JoinOfSplit(child);
      JoinOfSplit(parent);
      var k := |c| - |p|;
      assert c == c[..k] + p;
      if k == 0 {
        assert c == p;
      } else {
        JoinOfConcat(c[..k], p);
        assert child == Join(c[..k]) + "." + parent;
      }
    }
  }

  /** A partial order on names whose up-sets are chains: two ancestors of one name are comparable. */
  lemma SubdomainOrder(a: string, b: string, c: string)
    ensures IsSelfOrSubdomainOf(a, a)
    ensures IsSelfOrSubdomainOf(a, b) && IsSelfOrSubdomainOf(b, a) ==> a == b
    ensures IsSelfOrSubdomainOf(a, b) && IsSelfOrSubdomainOf(b, c) ==> IsSelfOrSubdomainOf(a, c)
    ensures IsSelfOrSubdomainOf(a, b) && IsSelfOrSubdomainOf(a, c) ==>
              IsSelfOrSubdomainOf(b, c) || IsSelfOrSubdomainOf(c, b)
  {
    SubdomainIsLabelSuffix(a, b);
    SubdomainIsLabelSuffix(b, c);
    SubdomainIsLabelSuffix(a, c);
    SubdomainIsLabelSuffix(c, b);
    var x, y, z := Split(a), Split(b), Split(c);
    if IsSuffix(y, x) && IsSuffix(z, y) {
      assert x[|x| - |z|..] == x[|x| - |y|..][|y| - |z|..];
    }
    if IsSuffix(y, x) && IsSuffix(z, x) {
      if |z| <= |y| {
        assert x[|x| - |z|..] == x[|x| - |y|..][|y| - |z|..];
      } else {
        assert x[|x| - |y|..] == x[|x| - |z|..][|z| - |y|..];
      }
    }
  }
}
