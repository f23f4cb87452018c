/** The passages an index is built from (tools/private-mail-evaluation/evaluate.py): overlapping windows of
    tokens, recorded as byte ranges of the UTF-8 body and checked against it later. */
module PassageWindows {
  import opened Wrappers
  import opened Utf8

  const STRIDE := 320
  const WIDTH := 384
  const SHARED := 64
  const MOST := 20000

  /** The characters a token came from, end excluded. */
  datatype Offset = Offset(start: nat, end: nat)

  /** A body and the offsets the tokenizer maps it to. */
  datatype Document = Document(text: seq<Scalar>, offsets: seq<Offset>)

  /** A digest is represented by the bytes it was taken of. */
  datatype Passage = Passage(id: nat, document: nat, text: seq<Scalar>, start: nat, end: nat, checksum: seq<Byte>)

  datatype Failure = NoTokens | BadRange | NotCovered | BadCount

  /** Python's half-open slice, for non-negative bounds. */
  function Slice<T>(s: seq<T>, a: nat, b: nat): seq<T> {
    var from := if a < |s| then a else |s|;
    var to := if b < |s| then b else |s|;
    if from <= to then s[from..to] else []
  }

  predicate Blank(s: seq<Scalar>, isSpace: Scalar -> bool) {
    forall i :: 0 <= i < |s| ==> isSpace(s[i])
  }

  /** Offsets that span at least one character. */
  function Spanning(offsets: seq<Offset>): seq<Offset> {
    if offsets == [] then []
    else (if offsets[0].end > offsets[0].start then [offsets[0]] else []) + Spanning(offsets[1..])
  }

  /** In order, each after the one before, all within the text. */
  ghost predicate InOrder(offsets: seq<Offset>, size: nat) {
    && (forall i :: 0 <= i < |offsets| ==> offsets[i].start < offsets[i].end <= size)
    && (forall i, j :: 0 <= i < j < |offsets| ==> offsets[i].end <= offsets[j].start)
  }

  // ---- the windows promised ----

  function Least(a: nat, b: nat): nat {
    if a < b then a else b
  }

  /** The larger of 1 and (n - 64) / 320 rounded up. */
  function Windows(n: nat): (count: nat)
    ensures count >= 1
  {
    if n <= SHARED + STRIDE then 1 else (n - SHARED + STRIDE - 1) / STRIDE
  }

  function FirstToken(k: nat): nat {
    STRIDE * k
  }

  function StopToken(k: nat, n: nat): nat {
    Least(STRIDE * k + WIDTH, n)
  }

  /** A window ends with the last token exactly when it is the last of the count, and each one before starts. */
  lemma WindowsCount(n: nat, k: nat)
    requires n > 0
    ensures k + 1 < Windows(n) <==> 320 * k + 384 < n
    ensures k + 1 == Windows(n) ==> StopToken(k, n) == n && FirstToken(k) < n
    ensures k < Windows(n) ==> FirstToken(k) < n
    ensures FirstToken(k) == 320 * k && StopToken(k, n) <= n
  {
  }

  /** Windows hold at most 384 tokens; one that has a successor holds exactly 384 and shares exactly 64 with it. */
  lemma WindowsOverlap(n: nat, k: nat)
    requires n > 0 && k < Windows(n)
    ensures FirstToken(k) < StopToken(k, n) <= FirstToken(k) + 384
    ensures k + 1 < Windows(n) ==>
              StopToken(k, n) == FirstToken(k) + 384 && StopToken(k, n) - FirstToken(k + 1) == 64
    ensures k + 2 < Windows(n) ==> StopToken(k, n) <= FirstToken(k + 2)
  {
    WindowsCount(n, k);
    if k + 1 < Windows(n) { WindowsCount(n, k + 1); }
  }

  /** Every token is in some window. */
  lemma EveryTokenIsCovered(n: nat, i: nat)
    requires i < n
    ensures exists k: nat :: k < Windows(n) && FirstToken(k) <= i < StopToken(k, n)
  {
    var k := if i < WIDTH then 0 else (i - SHARED) / STRIDE;
    WindowsCount(n, k);
    if k > 0 { WindowsCount(n, k - 1); }
    assert k < Windows(n) && FirstToken(k) <= i < StopToken(k, n);
  }

  function RangeStart(offsets: seq<Offset>, at: nat): nat
    requires at < |offsets|
  {
    if at != 0 then offsets[at].start else 0
  }

  function RangeEnd(text: seq<Scalar>, offsets: seq<Offset>, at: nat): nat
    requires at < |offsets|
  {
    var endToken := Least(at + WIDTH, |offsets|);
    if endToken == |offsets| then |text| else offsets[endToken - 1].end
  }

  function From(offsets: seq<Offset>, k: nat): nat
    requires FirstToken(k) < |offsets|
  {
    RangeStart(offsets, FirstToken(k))
  }

  function To(text: seq<Scalar>, offsets: seq<Offset>, k: nat): nat
    requires FirstToken(k) < |offsets|
  {
    RangeEnd(text, offsets, FirstToken(k))
  }

  /** The range of window k: never empty, within the text, and starting no later than the one before ended. */
  lemma RangesAreSound(text: seq<Scalar>, offsets: seq<Offset>, k: nat)
    requires offsets != [] && InOrder(offsets, |text|) && k < Windows(|offsets|)
    ensures FirstToken(k) < |offsets|
    ensures From(offsets, k) < To(text, offsets, k) <= |text|
    ensures k + 1 == Windows(|offsets|) ==> To(text, offsets, k) == |text|
    ensures k + 1 < Windows(|offsets|) ==> FirstToken(k + 1) < |offsets| && From(offsets, k + 1) < To(text, offsets, k)
  {
    var n := |offsets|;
    WindowsCount(n, k);
    WindowsOverlap(n, k);
    var stop := StopToken(k, n);
    assert offsets[FirstToken(k)].start < offsets[FirstToken(k)].end <= offsets[stop - 1].end;
    if k + 1 < Windows(n) {
      WindowsCount(n, k + 1);
      assert offsets[FirstToken(k + 1)].end <= offsets[stop - 1].end;
    }
  }

  /** Every character of the text is in some passage. */
  lemma {:induction false} EveryCharacterIsCovered(text: seq<Scalar>, offsets: seq<Offset>, p: nat, k: nat)
    requires offsets != [] && InOrder(offsets, |text|) && p < |text| && k < Windows(|offsets|)
    requires FirstToken(k) < |offsets| && From(offsets, k) <= p
    ensures exists w: nat :: w < Windows(|offsets|) && FirstToken(w) < |offsets|
                             && From(offsets, w) <= p < To(text, offsets, w)
    decreases Windows(|offsets|) - k
  {
    RangesAreSound(text, offsets, k);
    if p >= To(text, offsets, k) {
      EveryCharacterIsCovered(text, offsets, p, k + 1);
    }
  }

  /** The characters a window stands for: from its first token to its last, the first window from the start of the text and
      the last to its end. */
  lemma WindowCharacters(text: seq<Scalar>, offsets: seq<Offset>, k: nat)
    requires offsets != [] && k < Windows(|offsets|)
    ensures 320 * k < |offsets| && FirstToken(k) < |offsets|
    ensures From(offsets, k) == if k == 0 then 0 else offsets[320 * k].start
    ensures k + 1 < Windows(|offsets|) ==> 320 * k + 383 < |offsets| && To(text, offsets, k) == offsets[320 * k + 383].end
    ensures k + 1 == Windows(|offsets|) ==> To(text, offsets, k) == |text|
  {
    WindowsCount(|offsets|, k);
    WindowsOverlap(|offsets|, k);
  }

  // ---- cutting one document ----

  ghost predicate Cuttable(doc: Document) {
    Spanning(doc.offsets) != [] && InOrder(Spanning(doc.offsets), |doc.text|)
  }

  /** The passage of a range of characters, with the matching range of bytes. */
  function Cut(text: seq<Scalar>, a: nat, b: nat, id: nat, document: nat): Passage
    requires a <= b <= |text|
  {
    var start := |Encode(text[..a])|;
    Passage(id, document, text[a..b], start, start + |Encode(text[a..b])|, Encode(text[a..b]))
  }

  function PassageAt(id: nat, document: nat, text: seq<Scalar>, offsets: seq<Offset>, k: nat): Passage
    requires FirstToken(k) < |offsets| && From(offsets, k) <= To(text, offsets, k) <= |text|
  {
    Cut(text, From(offsets, k), To(text, offsets, k), id, document)
  }

  /** The passages of one document are its windows, in order and numbered on. */
  ghost predicate AreWindows(passages: seq<Passage>, firstId: nat, document: nat, text: seq<Scalar>, offsets: seq<Offset>) {
    forall k :: 0 <= k < |passages| ==>
      FirstToken(k) < |offsets| && From(offsets, k) <= To(text, offsets, k) <= |text|
      && passages[k] == PassageAt(firstId + k, document, text, offsets, k)
  }

  /** How far the windows before window k reach. */
  function Reached(text: seq<Scalar>, offsets: seq<Offset>, k: nat): nat
    requires k > 0 ==> FirstToken(k - 1) < |offsets|
  {
    if k == 0 then 0 else To(text, offsets, k - 1)
  }

  /** The loop's assertions hold at every window: the range is proper and no text is skipped before it. */
  lemma WindowIsSound(text: seq<Scalar>, offsets: seq<Offset>, k: nat)
    requires offsets != [] && InOrder(offsets, |text|) && k < Windows(|offsets|)
    ensures FirstToken(k) < |offsets| && (k > 0 ==> FirstToken(k - 1) < |offsets|)
    ensures From(offsets, k) < To(text, offsets, k) <= |text|
    ensures From(offsets, k) <= Reached(text, offsets, k) <= To(text, offsets, k)
    ensures FirstToken(k) + WIDTH >= |offsets| <==> k + 1 == Windows(|offsets|)
    ensures FirstToken(k) + STRIDE == FirstToken(k + 1)
  {
    var n := |offsets|;
    RangesAreSound(text, offsets, k);
    WindowsCount(n, k);
    if k > 0 {
      RangesAreSound(text, offsets, k - 1);
      WindowsOverlap(n, k - 1);
      assert StopToken(k - 1, n) - 1 < StopToken(k, n) - 1;
    }
  }

  /** The characters of one window, end excluded. */
  datatype Range = Range(start: nat, end: nat)

  predicate Fit(ranges: seq<Range>, size: nat) {
    forall i :: 0 <= i < |ranges| ==> ranges[i].start <= ranges[i].end <= size
  }

  function Passages(text: seq<Scalar>, ranges: seq<Range>, document: nat, firstId: nat): (passages: seq<Passage>)
    requires Fit(ranges, |text|)
    ensures |passages| == |ranges|
  {
    seq(|ranges|, i requires 0 <= i < |ranges| => Cut(text, ranges[i].start, ranges[i].end, firstId + i, document))
  }

  /** The loop's assertion: a range within the text, with only blanks skipped before it. */
  predicate Proper(text: seq<Scalar>, lastEnd: nat, a: nat, b: nat, isSpace: Scalar -> bool) {
    0 <= a < b <= |text| && Blank(Slice(text, lastEnd, a), isSpace)
  }

  /** The loop over one document's windows, from a window's first token on. */
  function CutFrom(text: seq<Scalar>, offsets: seq<Offset>, isSpace: Scalar -> bool, at: nat, lastEnd: nat, ranges: seq<Range>)
    : (r: Result<seq<Range>, Failure>)
    requires Fit(ranges, |text|)
    ensures r.Success? ==> Fit(r.value, |text|)
    decreases |offsets| - at
  {
    if at >= |offsets| then Failure(NotCovered) else
      var a, b := RangeStart(offsets, at), RangeEnd(text, offsets, at);
      if !Proper(text, lastEnd, a, b, isSpace) then Failure(BadRange) else
        var reached := if b > lastEnd then b else lastEnd;
        if at + WIDTH >= |offsets| then
          if reached != |text| then Failure(NotCovered) else Success(ranges + [Range(a, b)])
        else CutFrom(text, offsets, isSpace, at + STRIDE, reached, ranges + [Range(a, b)])
  }

  function CutDocument(doc: Document, document: nat, firstId: nat, isSpace: Scalar -> bool): Result<seq<Passage>, Failure> {
    if Spanning(doc.offsets) == [] then Failure(NoTokens)
    else
      match CutFrom(doc.text, Spanning(doc.offsets), isSpace, 0, 0, [])
      case Failure(e) => Failure(e)
      case Success(ranges) => Success(Passages(doc.text, ranges, document, firstId))
  }

  method ChunkDocument(doc: Document, document: nat, firstId: nat, isSpace: Scalar -> bool)
    returns (r: Result<seq<Passage>, Failure>)
    ensures r == CutDocument(doc, document, firstId, isSpace)
  {
    var text, offsets := doc.text, Spanning(doc.offsets);
    if offsets == [] { return Failure(NoTokens); }
    var passages: seq<Passage> := [];
    ghost var ranges: seq<Range> := [];
    var lastEnd, at := 0, 0;
    while at < |offsets|
      invariant 0 <= at && 0 <= lastEnd && Fit(ranges, |text|) && passages == Passages(text, ranges, document, firstId)
      invariant CutFrom(text, offsets, isSpace, at, lastEnd, ranges) == CutFrom(text, offsets, isSpace, 0, 0, [])
    {
      var endToken := Least(at + WIDTH, |offsets|);
      var a, b := RangeStart(offsets, at), RangeEnd(text, offsets, at);
      if !Proper(text, lastEnd, a, b, isSpace) { return Failure(BadRange); }
      OneMorePassage(text, ranges, Range(a, b), document, firstId);
      passages := passages + [Cut(text, a, b, firstId + |passages|, document)];
      ranges := ranges + [Range(a, b)];
      lastEnd := if b > lastEnd then b else lastEnd;
      if endToken == |offsets| {
        return if lastEnd != |text| then Failure(NotCovered) else Success(passages);
      }
      at := at + STRIDE;
    }
    return Failure(NotCovered);
  }

  lemma OneMorePassage(text: seq<Scalar>, ranges: seq<Range>, range: Range, document: nat, firstId: nat)
    requires Fit(ranges, |text|) && range.start <= range.end <= |text|
    ensures Fit(ranges + [range], |text|)
    ensures Passages(text, ranges + [range], document, firstId) ==
            Passages(text, ranges, document, firstId) + [Cut(text, range.start, range.end, firstId + |ranges|, document)]
  {
  }

  // ---- with the offsets in order ----

  /** The first windows, by their ranges. */
  ghost predicate AreRanges(ranges: seq<Range>, text: seq<Scalar>, offsets: seq<Offset>) {
    forall k :: 0 <= k < |ranges| ==>
      FirstToken(k) < |offsets| && From(offsets, k) <= To(text, offsets, k) <= |text|
      && ranges[k] == Range(From(offsets, k), To(text, offsets, k))
  }

  lemma RangesFit(ranges: seq<Range>, text: seq<Scalar>, offsets: seq<Offset>)
    requires AreRanges(ranges, text, offsets)
    ensures Fit(ranges, |text|) && (|ranges| > 0 ==> FirstToken(|ranges| - 1) < |offsets|)
  {
  }

  lemma OneMoreRange(ranges: seq<Range>, next: seq<Range>, text: seq<Scalar>, offsets: seq<Offset>)
    requires AreRanges(ranges, text, offsets) && FirstToken(|ranges|) < |offsets|
    requires From(offsets, |ranges|) <= To(text, offsets, |ranges|) <= |text|
    requires next == ranges + [Range(From(offsets, |ranges|), To(text, offsets, |ranges|))]
    ensures AreRanges(next, text, offsets)
  {
  }

  lemma CutStep(text: seq<Scalar>, offsets: seq<Offset>, isSpace: Scalar -> bool, at: nat, lastEnd: nat, ranges: seq<Range>)
    requires at < |offsets| && RangeStart(offsets, at) < RangeEnd(text, offsets, at) <= |text| && Fit(ranges, |text|)
    requires RangeStart(offsets, at) <= lastEnd <= RangeEnd(text, offsets, at)
    ensures var next := ranges + [Range(RangeStart(offsets, at), RangeEnd(text, offsets, at))];
            Fit(next, |text|)
            && CutFrom(text, offsets, isSpace, at, lastEnd, ranges) ==
               if at + WIDTH >= |offsets| then Success(next)
               else CutFrom(text, offsets, isSpace, at + STRIDE, RangeEnd(text, offsets, at), next)
  {
    assert Slice(text, lastEnd, RangeStart(offsets, at)) == [];
  }

  lemma {:induction false} CutFromSucceeds(text: seq<Scalar>, offsets: seq<Offset>, isSpace: Scalar -> bool, ranges: seq<Range>)
    requires offsets != [] && InOrder(offsets, |text|) && |ranges| < Windows(|offsets|)
    requires AreRanges(ranges, text, offsets)
    ensures Fit(ranges, |text|) && (|ranges| > 0 ==> FirstToken(|ranges| - 1) < |offsets|)
    ensures var r := CutFrom(text, offsets, isSpace, FirstToken(|ranges|), Reached(text, offsets, |ranges|), ranges);
            r.Success? && |r.value| == Windows(|offsets|) && AreRanges(r.value, text, offsets)
    decreases Windows(|offsets|) - |ranges|
  {
    var k := |ranges|;
    WindowIsSound(text, offsets, k);
    var next := ranges + [Range(From(offsets, k), To(text, offsets, k))];
    OneMoreRange(ranges, next, text, offsets);
    RangesFit(ranges, text, offsets);
    CutStep(text, offsets, isSpace, FirstToken(k), Reached(text, offsets, k), ranges);
    if k + 1 < Windows(|offsets|) {
      CutFromSucceeds(text, offsets, isSpace, next);
    } else {
      assert CutFrom(text, offsets, isSpace, FirstToken(k), Reached(text, offsets, k), ranges) == Success(next);
    }
  }

  lemma RangesAreWindows(ranges: seq<Range>, doc: Document, document: nat, firstId: nat)
    requires AreRanges(ranges, doc.text, Spanning(doc.offsets)) && Fit(ranges, |doc.text|)
    ensures AreWindows(Passages(doc.text, ranges, document, firstId), firstId, document, doc.text, Spanning(doc.offsets))
  {
  }

  /** A body whose token offsets are in order is cut into exactly the promised windows, and no assertion fails;
      one with no token of any length is refused. */
  lemma DocumentIsCut(doc: Document, document: nat, firstId: nat, isSpace: Scalar -> bool)
    ensures Spanning(doc.offsets) == [] ==> CutDocument(doc, document, firstId, isSpace) == Failure(NoTokens)
    ensures Cuttable(doc) ==>
              var r := CutDocument(doc, document, firstId, isSpace);
              r.Success? && |r.value| == Windows(|Spanning(doc.offsets)|)
              && AreWindows(r.value, firstId, document, doc.text, Spanning(doc.offsets))
  {
    if Cuttable(doc) {
      CutFromSucceeds(doc.text, Spanning(doc.offsets), isSpace, []);
      RangesAreWindows(CutFrom(doc.text, Spanning(doc.offsets), isSpace, 0, 0, []).value, doc, document, firstId);
    }
  }

  // ---- checking a passage against the stored body ----

  /** The byte-range check: the recorded range decodes to the passage, and its checksum is the one recorded. */
  predicate Verifies(body: seq<Scalar>, p: Passage) {
    var selected := Slice(Encode(body), p.start, p.end);
    selected == p.checksum && Decode(selected) == Some(p.text)
  }

  /** A range of characters becomes the matching range of bytes. */
  lemma RangeOfEncoding(text: seq<Scalar>, a: nat, b: nat)
    requires a <= b <= |text|
    ensures var start := |Encode(text[..a])|;
            start + |Encode(text[a..b])| <= |Encode(text)|
            && Encode(text)[start..start + |Encode(text[a..b])|] == Encode(text[a..b])
  {
    assert text == text[..a] + (text[a..b] + text[b..]);
    EncodeConcat(text[..a], text[a..b] + text[b..]);
    EncodeConcat(text[a..b], text[b..]);
  }

  /** Every passage cut from a body passes the check against that body. */
  lemma PassagesVerify(text: seq<Scalar>, offsets: seq<Offset>, id: nat, document: nat, k: nat)
    requires FirstToken(k) < |offsets| && From(offsets, k) <= To(text, offsets, k) <= |text|
    ensures Verifies(text, PassageAt(id, document, text, offsets, k))
  {
    var a, b := From(offsets, k), To(text, offsets, k);
    RangeOfEncoding(text, a, b);
    DecodesExactly(Encode(text[a..b]), text[a..b]);
  }

  /** The check decides: the stored range passes if and only if the body reads exactly as the passage there. */
  lemma VerifiesExactly(body: seq<Scalar>, p: Passage)
    requires p.checksum == Encode(p.text)
    ensures Verifies(body, p) <==> Slice(Encode(body), p.start, p.end) == Encode(p.text)
  {
    DecodesExactly(Slice(Encode(body), p.start, p.end), p.text);
  }

  // ---- all documents ----

  ghost function TotalWindows(docs: seq<Document>): nat {
    if docs == [] then 0
    else TotalWindows(docs[..|docs| - 1]) + Windows(|Spanning(docs[|docs| - 1].offsets)|)
  }

  /** Every passage is numbered by its place and checks against the body of its document. */
  ghost predicate Indexed(docs: seq<Document>, passages: seq<Passage>) {
    forall i :: 0 <= i < |passages| ==>
      && passages[i].id == i + 1 && passages[i].document < |docs|
      && Verifies(docs[passages[i].document].text, passages[i])
  }

  lemma WindowsVerify(docs: seq<Document>, i: nat, before: seq<Passage>, cut: seq<Passage>)
    requires i < |docs| && Indexed(docs, before)
    requires AreWindows(cut, |before| + 1, i, docs[i].text, Spanning(docs[i].offsets))
    ensures Indexed(docs, before + cut)
  {
    forall k | 0 <= k < |cut|
      ensures cut[k].id == |before| + 1 + k && cut[k].document == i && Verifies(docs[i].text, cut[k])
    {
      PassagesVerify(docs[i].text, Spanning(docs[i].offsets), |before| + 1 + k, i, k);
    }
  }

  ghost predicate AllCuttable(docs: seq<Document>) {
    forall i :: 0 <= i < |docs| ==> Cuttable(docs[i])
  }

  /** One document more: its windows join those already cut. */
  lemma OneMoreDocument(docs: seq<Document>, i: nat, before: seq<Passage>, isSpace: Scalar -> bool)
    requires i < |docs| && Cuttable(docs[i]) && |before| == TotalWindows(docs[..i]) && Indexed(docs, before)
    ensures var cut := CutDocument(docs[i], i, |before| + 1, isSpace);
            cut.Success? && |before + cut.value| == TotalWindows(docs[..i + 1]) && Indexed(docs, before + cut.value)
  {
    var cut := CutDocument(docs[i], i, |before| + 1, isSpace);
    DocumentIsCut(docs[i], i, |before| + 1, isSpace);
    WindowsVerify(docs, i, before, cut.value);
    assert docs[..i + 1][..i] == docs[..i];
  }

  /** All documents in turn, from document i on; the first failure is the failure of the whole. */
  function CutAll(docs: seq<Document>, i: nat, isSpace: Scalar -> bool, passages: seq<Passage>): Result<seq<Passage>, Failure>
    decreases |docs| - i
  {
    if i >= |docs| then
      if 0 < |passages| <= MOST then Success(passages) else Failure(BadCount)
    else
      match CutDocument(docs[i], i, |passages| + 1, isSpace)
      case Failure(e) => Failure(e)
      case Success(cut) => CutAll(docs, i + 1, isSpace, passages + cut)
  }

  /** Cutting every document: as long as each can be cut, the count is the sum of their windows, the only failure
      is a count outside 1 to 20000, and every passage is verifiable against its body. */
  method Chunk(docs: seq<Document>, isSpace: Scalar -> bool) returns (r: Result<seq<Passage>, Failure>)
    ensures r == CutAll(docs, 0, isSpace, [])
    ensures AllCuttable(docs) ==>
              (r.Success? <==> 0 < TotalWindows(docs) <= 20000)
              && (r.Failure? ==> r.error == BadCount)
              && (r.Success? ==> |r.value| == TotalWindows(docs) && Indexed(docs, r.value))
  {
    var passages: seq<Passage> := [];
    for i := 0 to |docs|
      invariant CutAll(docs, i, isSpace, passages) == CutAll(docs, 0, isSpace, [])
      invariant AllCuttable(docs) ==> |passages| == TotalWindows(docs[..i]) && Indexed(docs, passages)
    {
      var cut := ChunkDocument(docs[i], i, |passages| + 1, isSpace);
      if AllCuttable(docs) { OneMoreDocument(docs, i, passages, isSpace); }
      if cut.Failure? { return Failure(cut.error); }
      passages := passages + cut.value;
    }
    assert docs[..|docs|] == docs;
    if !(0 < |passages| <= MOST) { return Failure(BadCount); }
    return Success(passages);
  }
}
