/** The scanner that keeps long integers exact (apps/cs-mail-web/app.js): before parsing JSON text it turns
    every integer literal of sixteen digits or more into a string. */
module JsonScanner {

  const LONG := 16

  predicate IsDigit(c: char) {
    '0' <= c <= '9'
  }

  /** `[0-9.eE+-]`. */
  predicate InNumber(c: char) {
    IsDigit(c) || c == '.' || c == 'e' || c == 'E' || c == '+' || c == '-'
  }

  predicate AllDigits(s: string) {
    forall i :: 0 <= i < |s| ==> IsDigit(s[i])
  }

  /** `/^\d{16,}$/`. */
  predicate IsLong(literal: string) {
    |literal| >= LONG && AllDigits(literal)
  }

  function Quoted(literal: string): string {
    "\"" + literal + "\""
  }

  function Shown(literal: string): string {
    if IsLong(literal) then Quoted(literal) else literal
  }

  /** The length of the number characters a text starts with. */
  function Run(s: string): (n: nat)
    ensures n <= |s|
  {
    if s == [] || !InNumber(s[0]) then 0 else 1 + Run(s[1..])
  }

  // ---- what the scan writes, outside and inside string literals ----

  function Outside(s: string): string
    decreases s
  {
    if s == [] then []
    else if s[0] == '"' then [s[0]] + Within(s[1..])
    else if IsDigit(s[0]) then
      var j := Run(s);
      assert j >= 1;
      Shown(s[..j]) + Outside(s[j..])
    else [s[0]] + Outside(s[1..])
  }

  /** An escape takes the next character with it; past the end of the text that reads as `undefined`. */
  function Within(s: string): string
    decreases s
  {
    if s == [] then []
    else if s[0] == '\\' then
      (if |s| == 1 then "\\undefined" else s[..2] + Within(s[2..]))
    else if s[0] == '"' then [s[0]] + Outside(s[1..])
    else [s[0]] + Within(s[1..])
  }

  lemma Append(done: string, piece: string, rest: string)
    ensures done + (piece + rest) == (done + piece) + rest
  {
  }

  /** The output when the scan stands at index i with `out` written. */
  function Continue(text: string, i: nat, inString: bool, out: string): string
    decreases |text| - i
  {
    if i >= |text| then out
    else if inString then
      if text[i] == '\\' then
        Continue(text, i + 2, true, out + [text[i]] + if i + 1 < |text| then [text[i + 1]] else "undefined")
      else Continue(text, i + 1, text[i] != '"', out + [text[i]])
    else if text[i] == '"' then Continue(text, i + 1, true, out + [text[i]])
    else if IsDigit(text[i]) then
      var j := NumberEnd(text, i);
      Continue(text, if j > i then j else i + 1, false, out + Shown(text[i..j]))
    else Continue(text, i + 1, false, out + [text[i]])
  }

  function NumberEnd(text: string, i: nat): (j: nat)
    requires i <= |text|
    ensures i <= j <= |text|
    decreases |text| - i
  {
    if i < |text| && InNumber(text[i]) then NumberEnd(text, i + 1) else i
  }

  /** The scan as the program runs it, with its index and its in-string flag. */
  method Scan(text: string) returns (out: string)
    ensures out == Outside(text)
  {
    out := "";
    var inString := false;
    var i := 0;
    while i < |text|
      invariant 0 <= i && Continue(text, i, inString, out) == Continue(text, 0, false, "")
    {
      var c := text[i];
      if inString {
        out := out + [c];
        if c == '\\' {
          i := i + 1;
          out := out + if i < |text| then [text[i]] else "undefined";
        } else if c == '"' {
          inString := false;
        }
      } else if c == '"' {
        inString := true;
        out := out + [c];
      } else if '0' <= c <= '9' {
        var j := i;
        while j < |text| && InNumber(text[j])
          invariant i <= j <= |text| && NumberEnd(text, j) == NumberEnd(text, i)
        {
          j := j + 1;
        }
        out := out + Shown(text[i..j]);
        i := j - 1;
      } else {
        out := out + [c];
      }
      i := i + 1;
    }
    ContinueWrites(text, 0, false, "");
    assert text[0..] == text;
  }

  lemma {:induction false} NumberEndIsRun(text: string, i: nat)
    requires i <= |text|
    ensures NumberEnd(text, i) == i + Run(text[i..])
    decreases |text| - i
  {
    if i < |text| && InNumber(text[i]) {
      assert text[i..][1..] == text[i + 1..];
      NumberEndIsRun(text, i + 1);
    }
  }

  /** What is still to be written from an index on. */
  function Rest(text: string, i: nat, inString: bool): string {
    if i >= |text| then [] else if inString then Within(text[i..]) else Outside(text[i..])
  }

  lemma OneCharacter(text: string, i: nat, inString: bool)
    requires i < |text| && (if inString then text[i] != '\\' else !IsDigit(text[i]))
    ensures Rest(text, i, inString) == [text[i]] + Rest(text, i + 1, if text[i] == '"' then !inString else inString)
  {
    assert text[i..][0] == text[i] && text[i..][1..] == text[i + 1..];
  }

  lemma OneEscape(text: string, i: nat)
    requires i < |text| && text[i] == '\\'
    ensures Rest(text, i, true) ==
            [text[i]] + (if i + 1 < |text| then [text[i + 1]] else "undefined") + Rest(text, i + 2, true)
  {
    assert text[i..][0] == text[i] && Within([]) == [];
    if i + 1 < |text| {
      assert text[i..][..2] == [text[i]] + [text[i + 1]] && text[i..][2..] == text[i + 2..];
      assert i + 2 == |text| ==> text[i + 2..] == [];
    } else {
      assert "\\undefined" == [text[i]] + "undefined" + [];
    }
  }

  lemma LiteralFirst(s: string)
    requires s != [] && IsDigit(s[0])
    ensures Run(s) >= 1 && Outside(s) == Shown(s[..Run(s)]) + Outside(s[Run(s)..])
  {
  }

  lemma OneLiteral(text: string, i: nat, j: nat)
    requires i < |text| && IsDigit(text[i]) && j == NumberEnd(text, i)
    ensures i < j && Rest(text, i, false) == Shown(text[i..j]) + Rest(text, j, false)
  {
    var s := text[i..];
    NumberEndIsRun(text, i);
    LiteralFirst(s);
    assert s[..j - i] == text[i..j] && s[j - i..] == text[j..];
  }

  lemma {:induction false} ContinueWrites(text: string, i: nat, inString: bool, out: string)
    ensures Continue(text, i, inString, out) == out + Rest(text, i, inString)
    decreases |text| - i
  {
    if i >= |text| {
      assert out + [] == out;
    } else if inString && text[i] == '\\' {
      var piece := [text[i]] + if i + 1 < |text| then [text[i + 1]] else "undefined";
      OneEscape(text, i);
      ContinueWrites(text, i + 2, true, out + piece);
      Append(out, piece, Rest(text, i + 2, true));
      Append(out, [text[i]], if i + 1 < |text| then [text[i + 1]] else "undefined");
    } else if !inString && text[i] != '"' && IsDigit(text[i]) {
      var j := NumberEnd(text, i);
      OneLiteral(text, i, j);
      ContinueWrites(text, j, false, out + Shown(text[i..j]));
      Append(out, Shown(text[i..j]), Rest(text, j, false));
    } else {
      var next := if text[i] == '"' then !inString else inString;
      OneCharacter(text, i, inString);
      ContinueWrites(text, i + 1, next, out + [text[i]]);
      Append(out, [text[i]], Rest(text, i + 1, next));
    }
  }

  // ---- scanning twice ----

  predicate Plain(s: string) {
    forall i :: 0 <= i < |s| ==> s[i] != '"' && s[i] != '\\'
  }

  lemma {:induction false} PlainIsCopied(s: string, rest: string)
    requires Plain(s)
    ensures Within(s + rest) == s + Within(rest)
    decreases s
  {
    if s == [] {
      assert s + rest == rest;
    } else {
      assert (s + rest)[1..] == s[1..] + rest;
      PlainIsCopied(s[1..], rest);
    }
  }

  lemma {:induction false} RunOfConcat(s: string, rest: string)
    requires (forall i :: 0 <= i < |s| ==> InNumber(s[i])) && (rest == [] || !InNumber(rest[0]))
    ensures Run(s + rest) == |s|
    decreases s
  {
    if s == [] {
      assert s + rest == rest;
    } else {
      assert (s + rest)[1..] == s[1..] + rest;
      RunOfConcat(s[1..], rest);
    }
  }

  lemma {:induction false} RunStops(s: string)
    ensures forall i :: 0 <= i < Run(s) ==> InNumber(s[i])
    ensures Run(s) < |s| ==> !InNumber(s[Run(s)])
  {
    if s != [] && InNumber(s[0]) { RunStops(s[1..]); }
  }

  /** A short literal, or one with more than digits, is copied up to where it ends. */
  lemma OutsideOfLiteral(literal: string, rest: string)
    requires literal != [] && IsDigit(literal[0]) && (forall i :: 0 <= i < |literal| ==> InNumber(literal[i]))
    requires rest == [] || !InNumber(rest[0])
    ensures Outside(literal + rest) == Shown(literal) + Outside(rest)
  {
    RunOfConcat(literal, rest);
    assert (literal + rest)[..|literal|] == literal && (literal + rest)[|literal|..] == rest;
  }

  lemma Enclosed(body: string, rest: string)
    ensures Quoted(body) + rest == "\"" + (body + ("\"" + rest))
  {
  }

  lemma QuoteOpens(s: string)
    ensures Outside("\"" + s) == "\"" + Within(s)
  {
    assert ("\"" + s)[1..] == s;
  }

  lemma QuoteCloses(s: string)
    ensures Within("\"" + s) == "\"" + Outside(s)
  {
    assert ("\"" + s)[1..] == s;
  }

  /** A quoted literal is copied as any string literal is. */
  lemma OutsideOfQuoted(literal: string, rest: string)
    requires Plain(literal)
    ensures Outside(Quoted(literal) + rest) == Quoted(literal) + Outside(rest)
  {
    Enclosed(literal, rest);
    QuoteOpens(literal + ("\"" + rest));
    PlainIsCopied(literal, "\"" + rest);
    QuoteCloses(rest);
    Enclosed(literal, Outside(rest));
  }

  lemma OutsideKeepsFirst(s: string)
    ensures s == [] ==> Outside(s) == []
    ensures s != [] && !IsDigit(s[0]) ==> Outside(s) != [] && Outside(s)[0] == s[0]
  {
  }

  /** Scanning a second time changes nothing, whatever the text, well-formed or not. */
  lemma {:induction false} ScanIsIdempotent(s: string)
    ensures Outside(Outside(s)) == Outside(s)
    decreases s, 1
  {
    if s == [] {
    } else if s[0] == '"' {
      WithinIsIdempotent(s[1..]);
      assert ([s[0]] + Within(s[1..]))[1..] == Within(s[1..]);
    } else if IsDigit(s[0]) {
      var j := Run(s);
      RunStops(s);
      var literal, rest := s[..j], Outside(s[j..]);
      ScanIsIdempotent(s[j..]);
      OutsideKeepsFirst(s[j..]);
      if IsLong(literal) {
        OutsideOfQuoted(literal, rest);
      } else {
        OutsideOfLiteral(literal, rest);
      }
    } else {
      ScanIsIdempotent(s[1..]);
      assert ([s[0]] + Outside(s[1..]))[1..] == Outside(s[1..]);
    }
  }

  lemma FirstOfWithin(c: char, rest: string)
    requires c != '\\'
    ensures Within([c] + rest) == [c] + if c == '"' then Outside(rest) else Within(rest)
  {
    assert ([c] + rest)[1..] == rest;
  }

  lemma EscapeOfWithin(c: char, rest: string)
    ensures Within(['\\', c] + rest) == ['\\', c] + Within(rest)
  {
    assert (['\\', c] + rest)[..2] == ['\\', c] && (['\\', c] + rest)[2..] == rest;
  }

  lemma Dangling()
    ensures Within("\\undefined") == "\\undefined"
  {
    var tail := "ndefined";
    assert "\\undefined" == ['\\', 'u'] + tail;
    EscapeOfWithin('u', tail);
    PlainIsCopied(tail, []);
    assert tail + [] == tail;
  }

  lemma {:induction false} WithinIsIdempotent(s: string)
    ensures Within(Within(s)) == Within(s)
    decreases s, 0
  {
    if s == [] {
    } else if s[0] == '\\' {
      if |s| == 1 {
        Dangling();
      } else {
        WithinIsIdempotent(s[2..]);
        assert s[..2] == ['\\', s[1]];
        EscapeOfWithin(s[1], Within(s[2..]));
      }
    } else {
      if s[0] == '"' { ScanIsIdempotent(s[1..]); } else { WithinIsIdempotent(s[1..]); }
      FirstOfWithin(s[0], if s[0] == '"' then Outside(s[1..]) else Within(s[1..]));
    }
  }

  // ---- JSON tokens (RFC 8259, sections 2, 6 and 7) ----

  /** One character of a string literal, as written. */
  datatype Piece = Bare(c: char) | Escape(c: char)

  datatype Token =
    | Str(pieces: seq<Piece>)
    | Number(minus: bool, whole: string, fraction: string, mark: string, exponent: string)
    | Structural(c: char)
    | Word(text: string)

  function PieceText(p: Piece): string {
    match p
    case Bare(c) => [c]
    case Escape(c) => ['\\', c]
  }

  function PiecesText(pieces: seq<Piece>): string {
    if pieces == [] then [] else PieceText(pieces[0]) + PiecesText(pieces[1..])
  }

  /** The number after its sign. */
  function Magnitude(t: Token): string
    requires t.Number?
  {
    t.whole + (if t.fraction == [] then [] else "." + t.fraction) + (if t.mark == [] then [] else t.mark + t.exponent)
  }

  function TokenText(t: Token): string {
    match t
    case Str(pieces) => Quoted(PiecesText(pieces))
    case Number(minus, _, _, _, _) => (if minus then "-" else "") + Magnitude(t)
    case Structural(c) => [c]
    case Word(text) => text
  }

  function Render(tokens: seq<Token>): string {
    if tokens == [] then [] else TokenText(tokens[0]) + Render(tokens[1..])
  }

  predicate ValidPieces(pieces: seq<Piece>) {
    forall i :: 0 <= i < |pieces| ==> pieces[i].Bare? ==> pieces[i].c != '"' && pieces[i].c != '\\'
  }

  predicate ValidNumber(t: Token)
    requires t.Number?
  {
    && t.whole != [] && AllDigits(t.whole) && (t.whole[0] == '0' ==> |t.whole| == 1)
    && AllDigits(t.fraction)
    && t.mark in {"", "e", "E", "e+", "E+", "e-", "E-"}
    && AllDigits(t.exponent) && (t.mark != [] ==> t.exponent != [])
  }

  predicate ValidToken(t: Token) {
    match t
    case Str(pieces) => ValidPieces(pieces)
    case Number(_, _, _, _, _) => ValidNumber(t)
    case Structural(c) => c in "[]{}:, \t\n\r"
    case Word(text) => text in {"true", "false", "null"}
  }

  /** Tokens of a JSON text: after a number comes white space, a structural character or nothing. */
  predicate WellFormed(tokens: seq<Token>) {
    && (forall i :: 0 <= i < |tokens| ==> ValidToken(tokens[i]))
    && (forall i :: 0 <= i < |tokens| - 1 ==> tokens[i].Number? ==> tokens[i + 1].Structural?)
  }

  predicate IsInteger(t: Token) {
    t.Number? && t.fraction == [] && t.mark == []
  }

  predicate LongInteger(t: Token) {
    IsInteger(t) && |t.whole| >= LONG
  }

  predicate LongNegative(t: Token) {
    LongInteger(t) && t.minus
  }

  function AsPieces(digits: string): seq<Piece> {
    seq(|digits|, i requires 0 <= i < |digits| => Bare(digits[i]))
  }

  /** What the scan is for: a long unsigned integer becomes the string of its digits, and nothing else changes. */
  function Kept(t: Token): Token {
    if LongInteger(t) && !t.minus then Str(AsPieces(t.whole)) else t
  }

  function KeptAll(tokens: seq<Token>): seq<Token> {
    if tokens == [] then [] else [Kept(tokens[0])] + KeptAll(tokens[1..])
  }

  // ---- the scan over one token ----

  lemma {:induction false} PiecesAreCopied(pieces: seq<Piece>, rest: string)
    requires ValidPieces(pieces)
    ensures Within(PiecesText(pieces) + rest) == PiecesText(pieces) + Within(rest)
    decreases pieces
  {
    if pieces == [] {
      assert PiecesText(pieces) + rest == rest;
    } else {
      var head, tail := PieceText(pieces[0]), PiecesText(pieces[1..]);
      var s := PiecesText(pieces) + rest;
      Append(head, tail, rest);
      PiecesAreCopied(pieces[1..], rest);
      Append(head, tail, Within(rest));
      if pieces[0].Bare? {
        assert s[1..] == tail + rest;
      } else {
        assert s[0] == '\\' && s[..2] == head && s[2..] == tail + rest;
      }
    }
  }

  /** String literals are copied unchanged, escapes and all. */
  lemma StringIsCopied(pieces: seq<Piece>, rest: string)
    requires ValidPieces(pieces)
    ensures Outside(TokenText(Str(pieces)) + rest) == TokenText(Str(pieces)) + Outside(rest)
  {
    var body := PiecesText(pieces);
    Enclosed(body, rest);
    QuoteOpens(body + ("\"" + rest));
    PiecesAreCopied(pieces, "\"" + rest);
    QuoteCloses(rest);
    Enclosed(body, Outside(rest));
  }

  lemma {:induction false} QuotedIsString(digits: string)
    ensures PiecesText(AsPieces(digits)) == digits && TokenText(Str(AsPieces(digits))) == Quoted(digits)
    decreases digits
  {
    if digits != [] {
      QuotedIsString(digits[1..]);
      assert AsPieces(digits)[1..] == AsPieces(digits[1..]);
    }
  }

  lemma MagnitudeIsOneRun(t: Token)
    requires t.Number? && ValidNumber(t)
    ensures Magnitude(t) != [] && IsDigit(Magnitude(t)[0])
    ensures forall i :: 0 <= i < |Magnitude(t)| ==> InNumber(Magnitude(t)[i])
    ensures IsLong(Magnitude(t)) <==> LongInteger(t)
    ensures IsInteger(t) ==> Magnitude(t) == t.whole
  {
    var m, n := Magnitude(t), |t.whole|;
    if t.fraction != [] {
      assert m[n] == '.';
    } else if t.mark != [] {
      assert m[n] == t.mark[0] && !IsDigit(m[n]);
    } else {
      assert m == t.whole;
    }
  }

  lemma SignThen(rest: string)
    ensures Outside("-" + rest) == "-" + Outside(rest)
  {
    assert ("-" + rest)[1..] == rest;
  }

  /** What the scan writes for a token. */
  function Written(t: Token): string {
    if LongNegative(t) then "-" + Quoted(t.whole) else TokenText(Kept(t))
  }

  function WrittenAll(tokens: seq<Token>): string {
    if tokens == [] then [] else Written(tokens[0]) + WrittenAll(tokens[1..])
  }

  lemma NumberIsWritten(t: Token, rest: string)
    requires t.Number? && ValidNumber(t) && (rest == [] || !InNumber(rest[0]))
    ensures Outside(TokenText(t) + rest) == Written(t) + Outside(rest)
  {
    MagnitudeIsOneRun(t);
    OutsideOfLiteral(Magnitude(t), rest);
    if LongInteger(t) { QuotedIsString(t.whole); }
    var piece := if LongInteger(t) then Quoted(t.whole) else Magnitude(t);
    if t.minus {
      Append("-", Magnitude(t), rest);
      SignThen(Magnitude(t) + rest);
      Append("-", piece, Outside(rest));
    } else {
      assert TokenText(t) == Magnitude(t);
    }
  }

  lemma {:induction false} WordIsCopied(text: string, rest: string)
    requires forall i :: 0 <= i < |text| ==> text[i] != '"' && !IsDigit(text[i])
    ensures Outside(text + rest) == text + Outside(rest)
    decreases text
  {
    if text == [] {
      assert text + rest == rest;
    } else {
      assert (text + rest)[1..] == text[1..] + rest;
      WordIsCopied(text[1..], rest);
    }
  }

  lemma TokenIsWritten(t: Token, rest: string)
    requires ValidToken(t) && (t.Number? ==> rest == [] || !InNumber(rest[0]))
    ensures Outside(TokenText(t) + rest) == Written(t) + Outside(rest)
  {
    match t
    case Str(pieces) => StringIsCopied(pieces, rest);
    case Number(_, _, _, _, _) => NumberIsWritten(t, rest);
    case Structural(c) => WordIsCopied([c], rest);
    case Word(text) => WordIsCopied(text, rest);
  }

  /** The scan writes each token of a well-formed text for itself. */
  lemma {:induction false} ScanIsTokenwise(tokens: seq<Token>)
    requires WellFormed(tokens)
    ensures Outside(Render(tokens)) == WrittenAll(tokens)
  {
    if tokens != [] {
      var rest := Render(tokens[1..]);
      if |tokens| > 1 && tokens[0].Number? {
        assert tokens[1..][0] == tokens[1];
        assert rest[0] == tokens[1].c;
      }
      ScanIsTokenwise(tokens[1..]);
      TokenIsWritten(tokens[0], rest);
    }
  }

  // ---- exactly when that is what was meant ----

  function Excess(tokens: seq<Token>): nat {
    if tokens == [] then 0 else (if LongNegative(tokens[0]) then 2 else 0) + Excess(tokens[1..])
  }

  lemma {:induction false} WrittenIsLonger(tokens: seq<Token>)
    ensures |WrittenAll(tokens)| == |Render(KeptAll(tokens))| + Excess(tokens)
    ensures Excess(tokens) == 0 ==> WrittenAll(tokens) == Render(KeptAll(tokens))
  {
    if tokens != [] {
      WrittenIsLonger(tokens[1..]);
      assert KeptAll(tokens)[1..] == KeptAll(tokens[1..]);
      if LongNegative(tokens[0]) {
        assert Magnitude(tokens[0]) == tokens[0].whole;
      }
    }
  }

  lemma {:induction false} ExcessIsNegatives(tokens: seq<Token>)
    ensures Excess(tokens) == 0 <==> forall i :: 0 <= i < |tokens| ==> !LongNegative(tokens[i])
  {
    if tokens != [] {
      ExcessIsNegatives(tokens[1..]);
      assert forall i :: 0 < i < |tokens| ==> tokens[i] == tokens[1..][i - 1];
    }
  }

  /** The scan turns the long unsigned integers into strings and leaves every other token as it was, if and
      only if no negative integer has sixteen digits or more. */
  lemma ScanKeepsTokensExactly(tokens: seq<Token>)
    requires WellFormed(tokens)
    ensures Outside(Render(tokens)) == Render(KeptAll(tokens)) <==>
              forall i :: 0 <= i < |tokens| ==> !LongNegative(tokens[i])
  {
    ScanIsTokenwise(tokens);
    WrittenIsLonger(tokens);
    ExcessIsNegatives(tokens);
  }

  /** The tokens kept are again a well-formed text, with no long unsigned integer left in it. */
  lemma {:induction false} KeptIsWellFormed(tokens: seq<Token>)
    requires WellFormed(tokens)
    ensures |KeptAll(tokens)| == |tokens| && WellFormed(KeptAll(tokens))
    ensures forall i :: 0 <= i < |tokens| ==> KeptAll(tokens)[i] == Kept(tokens[i])
    ensures forall t :: t in KeptAll(tokens) && LongInteger(t) ==> t.minus
  {
    if tokens != [] {
      KeptIsWellFormed(tokens[1..]);
      var rest := KeptAll(tokens[1..]);
      assert forall i :: 0 < i < |tokens| ==> tokens[i] == tokens[1..][i - 1] && KeptAll(tokens)[i] == rest[i - 1];
    }
  }

  // ---- what a long negative integer does ----

  /** No minus sign outside a string literal or a number stands before anything but a digit. */
  predicate MinusOutside(s: string)
    decreases s
  {
    if s == [] then true
    else if s[0] == '"' then MinusWithin(s[1..])
    else if IsDigit(s[0]) then
      assert Run(s) >= 1;
      MinusOutside(s[Run(s)..])
    else (s[0] == '-' ==> |s| > 1 && IsDigit(s[1])) && MinusOutside(s[1..])
  }

  predicate MinusWithin(s: string)
    decreases s
  {
    if s == [] then true
    else if s[0] == '\\' then |s| == 1 || MinusWithin(s[2..])
    else if s[0] == '"' then MinusOutside(s[1..])
    else MinusWithin(s[1..])
  }

  lemma {:induction false} MinusInPieces(pieces: seq<Piece>, rest: string)
    requires ValidPieces(pieces)
    ensures MinusWithin(PiecesText(pieces) + rest) <==> MinusWithin(rest)
    decreases pieces
  {
    if pieces == [] {
      assert PiecesText(pieces) + rest == rest;
    } else {
      var head, tail := PieceText(pieces[0]), PiecesText(pieces[1..]);
      var s := PiecesText(pieces) + rest;
      Append(head, tail, rest);
      MinusInPieces(pieces[1..], rest);
      if pieces[0].Bare? {
        assert s[1..] == tail + rest;
      } else {
        assert s[0] == '\\' && s[2..] == tail + rest;
      }
    }
  }

  lemma MinusAtQuote(s: string)
    ensures MinusOutside("\"" + s) <==> MinusWithin(s)
    ensures MinusWithin("\"" + s) <==> MinusOutside(s)
  {
    assert ("\"" + s)[1..] == s;
  }

  lemma MinusInString(pieces: seq<Piece>, rest: string)
    requires ValidPieces(pieces)
    ensures MinusOutside(TokenText(Str(pieces)) + rest) <==> MinusOutside(rest)
  {
    Enclosed(PiecesText(pieces), rest);
    MinusAtQuote(PiecesText(pieces) + ("\"" + rest));
    MinusInPieces(pieces, "\"" + rest);
    MinusAtQuote(rest);
  }

  lemma MinusSkipsRun(s: string)
    requires s != [] && IsDigit(s[0])
    ensures MinusOutside(s) <==> MinusOutside(s[Run(s)..])
  {
  }

  lemma MinusBeforeDigit(s: string)
    requires s != [] && IsDigit(s[0])
    ensures MinusOutside("-" + s) <==> MinusOutside(s)
  {
    assert ("-" + s)[1..] == s;
  }

  lemma MinusInNumber(t: Token, rest: string)
    requires t.Number? && ValidNumber(t) && (rest == [] || !InNumber(rest[0]))
    ensures MinusOutside(TokenText(t) + rest) <==> MinusOutside(rest)
  {
    var m := Magnitude(t);
    MagnitudeIsOneRun(t);
    RunOfConcat(m, rest);
    MinusSkipsRun(m + rest);
    assert (m + rest)[|m|..] == rest;
    if t.minus {
      Append("-", m, rest);
      MinusBeforeDigit(m + rest);
    } else {
      assert TokenText(t) == m;
    }
  }

  lemma {:induction false} MinusInWord(text: string, rest: string)
    requires forall i :: 0 <= i < |text| ==> text[i] != '"' && text[i] != '-' && !IsDigit(text[i])
    ensures MinusOutside(text + rest) <==> MinusOutside(rest)
    decreases text
  {
    if text == [] {
      assert text + rest == rest;
    } else {
      assert (text + rest)[1..] == text[1..] + rest;
      MinusInWord(text[1..], rest);
    }
  }

  lemma MinusInToken(t: Token, rest: string)
    requires ValidToken(t) && (t.Number? ==> rest == [] || !InNumber(rest[0]))
    ensures MinusOutside(TokenText(t) + rest) <==> MinusOutside(rest)
  {
    match t
    case Str(pieces) => MinusInString(pieces, rest);
    case Number(_, _, _, _, _) => MinusInNumber(t, rest);
    case Structural(c) => MinusInWord([c], rest);
    case Word(text) => MinusInWord(text, rest);
  }

  lemma NumberEnds(tokens: seq<Token>)
    requires WellFormed(tokens) && tokens != [] && tokens[0].Number?
    ensures Render(tokens[1..]) == [] || !InNumber(Render(tokens[1..])[0])
    ensures WrittenAll(tokens[1..]) == [] || !InNumber(WrittenAll(tokens[1..])[0])
  {
    if |tokens| > 1 {
      assert tokens[1..][0] == tokens[1];
      assert Render(tokens[1..])[0] == tokens[1].c && WrittenAll(tokens[1..])[0] == tokens[1].c;
    }
  }

  lemma {:induction false} TokensMindTheirMinus(tokens: seq<Token>)
    requires WellFormed(tokens)
    ensures MinusOutside(Render(tokens))
  {
    if tokens != [] {
      if tokens[0].Number? { NumberEnds(tokens); }
      TokensMindTheirMinus(tokens[1..]);
      MinusInToken(tokens[0], Render(tokens[1..]));
    }
  }

  lemma {:induction false} LongNegativesLeaveAMinus(tokens: seq<Token>, k: nat)
    requires WellFormed(tokens) && k < |tokens| && LongNegative(tokens[k])
    ensures !MinusOutside(WrittenAll(tokens))
  {
    var rest := WrittenAll(tokens[1..]);
    if LongNegative(tokens[0]) {
      var s := WrittenAll(tokens);
      assert s[0] == '-' && s[1] == '"';
    } else {
      LongNegativesLeaveAMinus(tokens[1..], k - 1);
      if tokens[0].Number? { NumberEnds(tokens); }
      MinusInToken(Kept(tokens[0]), rest);
    }
  }

  /** The scan turns JSON tokens into JSON tokens if and only if no negative integer has sixteen digits or more:
      each of those comes out as a bare minus sign before a string, which no JSON text has. */
  lemma OutputIsJsonExactly(tokens: seq<Token>)
    requires WellFormed(tokens)
    ensures (exists others :: WellFormed(others) && Render(others) == Outside(Render(tokens))) <==>
              forall i :: 0 <= i < |tokens| ==> !LongNegative(tokens[i])
  {
    ScanIsTokenwise(tokens);
    if k :| 0 <= k < |tokens| && LongNegative(tokens[k]) {
      LongNegativesLeaveAMinus(tokens, k);
      forall others | WellFormed(others) ensures Render(others) != Outside(Render(tokens)) {
        TokensMindTheirMinus(others);
      }
    } else {
      ScanKeepsTokensExactly(tokens);
      KeptIsWellFormed(tokens);
    }
  }

  /** One such text: any long negative integer on its own. */
  lemma LongNegativeAlone(digits: string)
    requires IsLong(digits) && digits[0] != '0'
    ensures var t := Number(true, digits, "", "", "");
            WellFormed([t]) && Render([t]) == "-" + digits && Outside("-" + digits) == "-" + Quoted(digits)
  {
    var t := Number(true, digits, "", "", "");
    assert Magnitude(t) == digits;
    assert [t][1..] == [];
    assert Render([t]) == TokenText(t) + Render([]) == TokenText(t);
    ScanIsTokenwise([t]);
    assert WrittenAll([t]) == Written(t) + WrittenAll([]) == Written(t);
  }

  // ---- what the scan is for: no number a double cannot hold ----

  function Value(digits: string): nat
    requires AllDigits(digits)
  {
    if digits == [] then 0 else 10 * Value(digits[..|digits| - 1]) + (digits[|digits| - 1] - '0') as nat
  }

  function PowerOfTen(n: nat): nat {
    if n == 0 then 1 else 10 * PowerOfTen(n - 1)
  }

  lemma {:induction false} PowersGrow(m: nat, n: nat)
    requires m <= n
    ensures PowerOfTen(m) <= PowerOfTen(n)
  {
    if m < n { PowersGrow(m, n - 1); }
  }

  lemma {:induction false} ValueBounds(digits: string)
    requires AllDigits(digits) && digits != []
    ensures Value(digits) < PowerOfTen(|digits|)
    ensures digits[0] != '0' ==> PowerOfTen(|digits| - 1) <= Value(digits)
  {
    if |digits| > 1 {
      ValueBounds(digits[..|digits| - 1]);
    } else {
      assert digits[..|digits| - 1] == [];
    }
  }

  lemma FifteenDigits()
    ensures PowerOfTen(15) == 1_000_000_000_000_000
  {
    assert PowerOfTen(5) == 100_000;
    assert PowerOfTen(10) == 10_000_000_000;
  }

  /** Sixteen digits is a number of 1,000,000,000,000,000 or more, and nothing else is. */
  lemma LengthIsSize(literal: string)
    requires AllDigits(literal) && literal != [] && (|literal| == 1 || literal[0] != '0')
    ensures |literal| >= 16 <==> Value(literal) >= 1_000_000_000_000_000
  {
    FifteenDigits();
    ValueBounds(literal);
    if |literal| >= 16 { PowersGrow(15, |literal| - 1); } else { PowersGrow(|literal|, 15); }
  }

  /** An unsigned integer literal is left a number exactly below 10 to the 15, so never one beyond 2 to the 53, from where
      on a double would round it; any larger one becomes the string of its digits, wherever in a text it stands. */
  lemma UnquotedIsExact(literal: string, rest: string)
    requires AllDigits(literal) && literal != [] && (|literal| == 1 || literal[0] != '0')
    requires rest == [] || !InNumber(rest[0])
    ensures Value(literal) < 1_000_000_000_000_000 ==> Outside(literal + rest) == literal + Outside(rest)
    ensures Value(literal) >= 1_000_000_000_000_000 ==> Outside(literal + rest) == "\"" + literal + "\"" + Outside(rest)
    ensures Outside(literal + rest) == literal + Outside(rest) ==> Value(literal) <= 9_007_199_254_740_992
  {
    LengthIsSize(literal);
    OutsideOfLiteral(literal, rest);
    if Value(literal) >= 1_000_000_000_000_000 {
      assert Outside(literal + rest)[0] == '"' && (literal + Outside(rest))[0] == literal[0];
    }
  }

  /** So no unsigned integer a parser then reads as a number exceeds 2 to the 53. */
  lemma KeptIntegersAreExact(tokens: seq<Token>, t: Token)
    requires WellFormed(tokens) && t in KeptAll(tokens) && IsInteger(t) && !t.minus
    ensures AllDigits(t.whole) && Value(t.whole) < 1_000_000_000_000_000 <= 9_007_199_254_740_992
  {
    KeptIsWellFormed(tokens);
    var i :| 0 <= i < |KeptAll(tokens)| && KeptAll(tokens)[i] == t;
    assert ValidToken(t);
    LengthIsSize(t.whole);
  }
}
