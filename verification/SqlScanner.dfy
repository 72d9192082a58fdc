/** The SQL scanner behind countPlaceholders: a lexical grammar, the tokeniser it determines, and the
    six-state loop proved to count the grammar's parameter tokens. A character stands for one byte of the
    query; every character the scanner looks for is ASCII, so the results cover all byte strings. */
module SqlScanner {
  import opened Prelude

  datatype Quote = Single | Double | Backtick

  function Mark(q: Quote): char {
    match q
    case Single => '\''
    case Double => '"'
    case Backtick => '`'
  }

  /** One unit of quoted text: a character as it stands, a doubled quote mark, or a backslash pair. */
  datatype Piece = Literal(c: char) | Doubled | Escaped(c: char)

  datatype Token =
    | Plain(c: char)
    | Param
    | Quoted(quote: Quote, body: seq<Piece>, closed: bool)
    | LineComment(dashes: bool, text: string, end: Option<char>)
    | BlockComment(text: string, closed: bool)

  // ---------- The grammar: how tokens are written, and which sequences are proper ----------

  function RenderPiece(q: Quote, p: Piece): string {
    match p
    case Literal(c) => [c]
    case Doubled => [Mark(q), Mark(q)]
    case Escaped(c) => ['\\', c]
  }

  function DecodePiece(q: Quote, p: Piece): char {
    match p
    case Literal(c) => c
    case Doubled => Mark(q)
    case Escaped(c) => c
  }

  /** The text that a quoted body stands for. */
  function Decode(q: Quote, body: seq<Piece>): (s: string)
    ensures |s| == |body|
  {
    seq(|body|, i requires 0 <= i < |body| => DecodePiece(q, body[i]))
  }

  lemma DecodeCons(q: Quote, p: Piece, body: seq<Piece>)
    ensures Decode(q, [p] + body) == [DecodePiece(q, p)] + Decode(q, body)
  {
  }

  /** Everything after the opening mark of a quoted token. */
  function RenderBody(q: Quote, body: seq<Piece>, closed: bool): string {
    if body == [] then (if closed then [Mark(q)] else "")
    else RenderPiece(q, body[0]) + RenderBody(q, body[1..], closed)
  }

  function Opener(t: Token): string {
    match t
    case Plain(c) => [c]
    case Param => "?"
    case Quoted(q, _, _) => [Mark(q)]
    case LineComment(dashes, _, _) => if dashes then "--" else "#"
    case BlockComment(_, _) => "/*"
  }

  function Remainder(t: Token): string {
    match t
    case Plain(_) => ""
    case Param => ""
    case Quoted(q, body, closed) => RenderBody(q, body, closed)
    case LineComment(_, text, end) => LineText(text, end)
    case BlockComment(text, closed) => BlockText(text, closed)
  }

  function LineText(text: string, end: Option<char>): string {
    text + (if end.Some? then [end.value] else [])
  }

  function BlockText(text: string, closed: bool): string {
    text + (if closed then "*/" else "")
  }

  function RenderToken(t: Token): string {
    Opener(t) + Remainder(t)
  }

  function Render(ts: seq<Token>): string {
    if ts == [] then "" else RenderToken(ts[0]) + Render(ts[1..])
  }

  /** A quoted body that is properly written. Backslash escapes only outside backticks; a backslash stands
      for itself only as the very last character of an unterminated string. */
  predicate ProperBody(q: Quote, body: seq<Piece>, closed: bool) {
    body == [] ||
    (&& ProperBody(q, body[1..], closed)
     && match body[0]
        case Literal(c) => c != Mark(q) && (c == '\\' ==> q == Backtick || (!closed && |body| == 1))
        case Doubled => true
        case Escaped(_) => q != Backtick)
  }

  predicate QuotedEnd(q: Quote, closed: bool, rest: string) {
    if closed then rest == "" || rest[0] != Mark(q) else rest == ""
  }

  predicate IsLineEnd(c: char) {
    c == '\n' || c == '\r'
  }

  predicate OpensDashComment(s: string) {
    |s| >= 3 && s[0] == '-' && s[1] == '-' && s[2] <= ' '
  }

  predicate OpensBlockComment(s: string) {
    |s| >= 2 && s[0] == '/' && s[1] == '*'
  }

  /** The first closer of the comment is the one written after the text. */
  predicate ProperBlock(text: string, closed: bool) {
    text == "" ||
    (&& ProperBlock(text[1..], closed)
     && !(text[0] == '*' && BlockText(text[1..], closed) != "" && BlockText(text[1..], closed)[0] == '/'))
  }

  /** Whether t, followed by the text rest, is a maximal token. */
  predicate ProperToken(t: Token, rest: string) {
    match t
    case Plain(c) =>
      c !in {'?', '\'', '"', '`', '#'} && !OpensDashComment([c] + rest) && !OpensBlockComment([c] + rest)
    case Param => true
    case Quoted(q, body, closed) =>
      ProperBody(q, body, closed) &&
      QuotedEnd(q, closed, rest)
    case LineComment(dashes, text, end) =>
      (forall c <- text :: !IsLineEnd(c)) &&
      (if end.Some? then IsLineEnd(end.value) else rest == "") &&
      (dashes ==> Remainder(t) != "" && Remainder(t)[0] <= ' ')
    case BlockComment(text, closed) =>
      ProperBlock(text, closed) && (!closed ==> rest == "")
  }

  predicate Proper(ts: seq<Token>) {
    ts == [] || (ProperToken(ts[0], Render(ts[1..])) && Proper(ts[1..]))
  }

  function ParamCount(ts: seq<Token>): nat {
    if ts == [] then 0 else (if ts[0].Param? then 1 else 0) + ParamCount(ts[1..])
  }

  // ---------- The tokeniser ----------

  datatype QuotedScan = QuotedScan(body: seq<Piece>, closed: bool, rest: string)

  function ScanQuoted(q: Quote, s: string): (r: QuotedScan)
    ensures |r.rest| <= |s|
  {
    if s == "" then QuotedScan([], false, "")
    else if s[0] == '\\' && q != Backtick && |s| > 1 then
      var r := ScanQuoted(q, s[2..]);
      r.(body := [Escaped(s[1])] + r.body)
    else if s[0] == Mark(q) then
      if |s| > 1 && s[1] == Mark(q) then
        var r := ScanQuoted(q, s[2..]);
        r.(body := [Doubled] + r.body)
      else QuotedScan([], true, s[1..])
    else
      var r := ScanQuoted(q, s[1..]);
      r.(body := [Literal(s[0])] + r.body)
  }

  datatype LineScan = LineScan(text: string, end: Option<char>, rest: string)

  function ScanLine(s: string): (r: LineScan)
    ensures |r.rest| <= |s|
  {
    if s == "" then LineScan("", None, "")
    else if IsLineEnd(s[0]) then LineScan("", Some(s[0]), s[1..])
    else
      var r := ScanLine(s[1..]);
      r.(text := [s[0]] + r.text)
  }

  datatype BlockScan = BlockScan(text: string, closed: bool, rest: string)

  function ScanBlock(s: string): (r: BlockScan)
    ensures |r.rest| <= |s|
  {
    if s == "" then BlockScan("", false, "")
    else if |s| > 1 && s[0] == '*' && s[1] == '/' then BlockScan("", true, s[2..])
    else
      var r := ScanBlock(s[1..]);
      r.(text := [s[0]] + r.text)
  }

  function QuoteOf(c: char): Option<Quote> {
    if c == '\'' then Some(Single) else if c == '"' then Some(Double) else if c == '`' then Some(Backtick) else None
  }

  /** The first token of a non-empty text and what follows it. */
  function NextToken(s: string): (r: (Token, string))
    requires s != ""
    ensures |r.1| < |s|
  {
    if s[0] == '?' then (Param, s[1..])
    else if QuoteOf(s[0]).Some? then
      var q := QuoteOf(s[0]).value;
      var r := ScanQuoted(q, s[1..]);
      (Quoted(q, r.body, r.closed), r.rest)
    else if s[0] == '#' then
      var r := ScanLine(s[1..]);
      (LineComment(false, r.text, r.end), r.rest)
    else if OpensDashComment(s) then
      var r := ScanLine(s[2..]);
      (LineComment(true, r.text, r.end), r.rest)
    else if OpensBlockComment(s) then
      var r := ScanBlock(s[2..]);
      (BlockComment(r.text, r.closed), r.rest)
    else (Plain(s[0]), s[1..])
  }

  function Lex(s: string): seq<Token>
    decreases |s|
  {
    if s == "" then [] else
    var (t, rest) := NextToken(s);
    [t] + Lex(rest)
  }

  // ---------- Every text has exactly one proper token sequence, and Lex finds it ----------

  lemma BodyCons(q: Quote, p: Piece, body: seq<Piece>, closed: bool, rest: string)
    ensures RenderBody(q, [p] + body, closed) + rest == RenderPiece(q, p) + (RenderBody(q, body, closed) + rest)
    ensures ProperBody(q, [p] + body, closed) <==>
      && ProperBody(q, body, closed)
      && match p
         case Literal(c) => c != Mark(q) && (c == '\\' ==> q == Backtick || (!closed && body == []))
         case Doubled => true
         case Escaped(_) => q != Backtick
  {
    assert ([p] + body)[1..] == body;
  }

  predicate ClosesHere(q: Quote, s: string) {
    s != "" && s[0] == Mark(q) && (|s| == 1 || s[1] != Mark(q))
  }

  lemma FirstPiece(q: Quote, s: string) returns (p: Piece, n: nat)
    requires s != "" && !ClosesHere(q, s)
    ensures 0 < n <= |s| && s == RenderPiece(q, p) + s[n..]
    ensures var r := ScanQuoted(q, s[n..]); ScanQuoted(q, s) == r.(body := [p] + r.body)
    ensures match p
      case Literal(c) => c != Mark(q) && (c == '\\' ==> q == Backtick || s[n..] == "")
      case Doubled => true
      case Escaped(_) => q != Backtick
  {
    var escaped := s[0] == '\\' && q != Backtick && |s| > 1;
    p := if s[0] == Mark(q) then Doubled else if escaped then Escaped(s[1]) else Literal(s[0]);
    n := if s[0] == Mark(q) || escaped then 2 else 1;
    assert s[..n] == RenderPiece(q, p);
    assert s == s[..n] + s[n..];
  }

  lemma {:induction false} ScanQuotedSound(q: Quote, s: string)
    ensures var r := ScanQuoted(q, s);
      && s == RenderBody(q, r.body, r.closed) + r.rest
      && ProperBody(q, r.body, r.closed)
      && QuotedEnd(q, r.closed, r.rest)
    decreases |s|
  {
    if s == "" {
    } else if ClosesHere(q, s) {
      assert s == [s[0]] + s[1..];
    } else {
      hide RenderBody, ProperBody, ScanQuoted, RenderPiece;
      var p, n := FirstPiece(q, s);
      var r := ScanQuoted(q, s[n..]);
      ScanQuotedSound(q, s[n..]);
      NothingScanned(q);
      BodyCons(q, p, r.body, r.closed, r.rest);
    }
  }

  lemma NothingScanned(q: Quote)
    ensures ScanQuoted(q, "") == QuotedScan([], false, "")
  {
  }

  lemma {:induction false} ScanLineSound(s: string)
    ensures var r := ScanLine(s);
      && s == LineText(r.text, r.end) + r.rest
      && (forall c <- r.text :: !IsLineEnd(c))
      && (if r.end.Some? then IsLineEnd(r.end.value) else r.rest == "")
  {
    if s != "" && !IsLineEnd(s[0]) {
      ScanLineSound(s[1..]);
      assert s == [s[0]] + s[1..];
    }
  }

  lemma {:induction false} ScanBlockSound(s: string)
    ensures var r := ScanBlock(s);
      && s == BlockText(r.text, r.closed) + r.rest
      && ProperBlock(r.text, r.closed)
      && (!r.closed ==> r.rest == "")
  {
    if s == "" {
    } else if |s| > 1 && s[0] == '*' && s[1] == '/' {
      assert s == "*/" + s[2..];
    } else {
      hide BlockText, ProperBlock;
      var r := ScanBlock(s[1..]);
      assert ScanBlock(s) == r.(text := [s[0]] + r.text);
      hide ScanBlock;
      ScanBlockSound(s[1..]);
      BlockCons(s[0], r.text, r.closed, r.rest);
      assert s == [s[0]] + s[1..];
      var text := BlockText(r.text, r.closed);
      assert text != "" ==> text[0] == (text + r.rest)[0] == s[1];
    }
  }

  lemma BlockCons(c: char, text: string, closed: bool, rest: string)
    ensures BlockText([c] + text, closed) + rest == [c] + (BlockText(text, closed) + rest)
    ensures ProperBlock([c] + text, closed) <==>
      && ProperBlock(text, closed)
      && !(c == '*' && BlockText(text, closed) != "" && BlockText(text, closed)[0] == '/')
  {
    assert ([c] + text)[1..] == text;
  }

  lemma OpenerFirst(s: string)
    requires s != ""
    ensures var (t, rest) := NextToken(s); |Opener(t)| <= |s| && s[..|Opener(t)|] == Opener(t)
  {
    hide ScanQuoted, ScanLine, ScanBlock;
  }

  lemma NextTokenSound(s: string)
    requires s != ""
    ensures var (t, rest) := NextToken(s);
      s == RenderToken(t) + rest && ProperToken(t, rest)
  {
    OpenerFirst(s);
    RemainderSound(s);
    hide NextToken, ProperToken, Opener, Remainder;
    var (t, rest) := NextToken(s);
    Reassemble(s, Opener(t), Remainder(t), rest);
  }

  lemma Reassemble(s: string, a: string, b: string, c: string)
    requires |a| <= |s| && s[..|a|] == a && s[|a|..] == b + c
    ensures s == a + b + c
  {
    assert s == s[..|a|] + s[|a|..];
    assert a + (b + c) == a + b + c;
  }

  lemma RemainderSound(s: string)
    requires s != ""
    ensures var (t, rest) := NextToken(s);
      |Opener(t)| <= |s| && s[|Opener(t)|..] == Remainder(t) + rest && ProperToken(t, rest)
  {
    if s[0] == '?' {
    } else if QuoteOf(s[0]).Some? {
      ScanQuotedSound(QuoteOf(s[0]).value, s[1..]);
    } else if s[0] == '#' {
      ScanLineSound(s[1..]);
    } else if OpensDashComment(s) {
      DashSound(s);
    } else if OpensBlockComment(s) {
      ScanBlockSound(s[2..]);
    } else {
      assert [s[0]] + s[1..] == s;
    }
  }

  lemma DashSound(s: string)
    requires OpensDashComment(s)
    ensures var r := ScanLine(s[2..]);
      s[2..] == LineText(r.text, r.end) + r.rest && ProperToken(LineComment(true, r.text, r.end), r.rest)
  {
    ScanLineSound(s[2..]);
    assert s[2..][0] == s[2];
  }

  /** Existence: the tokens of any text are proper and render back to it. */
  lemma {:induction false} LexSound(s: string)
    ensures Render(Lex(s)) == s && Proper(Lex(s))
    decreases |s|
  {
    if s != "" {
      var (t, rest) := NextToken(s);
      NextTokenSound(s);
      LexSound(rest);
      assert Lex(s)[1..] == Lex(rest);
    }
  }

  lemma {:induction false} ScanQuotedComplete(q: Quote, body: seq<Piece>, closed: bool, rest: string)
    requires ProperBody(q, body, closed)
    requires QuotedEnd(q, closed, rest)
    ensures ScanQuoted(q, RenderBody(q, body, closed) + rest) == QuotedScan(body, closed, rest)
  {
    if body == [] {
      if closed { assert (RenderBody(q, body, closed) + rest)[1..] == rest; }
    } else {
      var p, tail := body[0], body[1..];
      assert body == [p] + tail;
      assert tail == [] && !closed ==> RenderBody(q, tail, closed) + rest == "";
      BodyCons(q, p, tail, closed, rest);
      hide RenderBody, ProperBody, ScanQuoted, RenderPiece;
      ScanQuotedComplete(q, tail, closed, rest);
      ScanPiece(q, p, RenderBody(q, tail, closed) + rest);
    }
  }

  lemma ScanPiece(q: Quote, p: Piece, more: string)
    requires match p
      case Literal(c) => c != Mark(q) && (c == '\\' ==> q == Backtick || more == "")
      case Doubled => true
      case Escaped(_) => q != Backtick
    ensures var r := ScanQuoted(q, more);
      ScanQuoted(q, RenderPiece(q, p) + more) == r.(body := [p] + r.body)
  {
    var s := RenderPiece(q, p) + more;
    assert s[|RenderPiece(q, p)|..] == more;
  }

  lemma {:induction false} ScanLineComplete(text: string, end: Option<char>, rest: string)
    requires forall c <- text :: !IsLineEnd(c)
    requires if end.Some? then IsLineEnd(end.value) else rest == ""
    ensures ScanLine(LineText(text, end) + rest) == LineScan(text, end, rest)
  {
    var s := LineText(text, end) + rest;
    if text == "" {
      if end.Some? { assert s[1..] == rest; }
    } else {
      ScanLineComplete(text[1..], end, rest);
      assert s[1..] == LineText(text[1..], end) + rest;
      assert text == [text[0]] + text[1..];
    }
  }

  lemma {:induction false} ScanBlockComplete(text: string, closed: bool, rest: string)
    requires ProperBlock(text, closed)
    requires !closed ==> rest == ""
    ensures ScanBlock(BlockText(text, closed) + rest) == BlockScan(text, closed, rest)
  {
    var s := BlockText(text, closed) + rest;
    if text == "" {
      if closed { assert s[2..] == rest; }
    } else {
      ScanBlockComplete(text[1..], closed, rest);
      assert s[1..] == BlockText(text[1..], closed) + rest;
      assert text == [text[0]] + text[1..];
    }
  }

  lemma PlainAt(c: char, rest: string)
    requires ProperToken(Plain(c), rest)
    ensures NextToken([c] + rest) == (Plain(c), rest)
  {
    assert ([c] + rest)[1..] == rest;
  }

  lemma QuotedAt(q: Quote, body: seq<Piece>, closed: bool, rest: string)
    requires ProperToken(Quoted(q, body, closed), rest)
    ensures NextToken([Mark(q)] + (RenderBody(q, body, closed) + rest)) == (Quoted(q, body, closed), rest)
  {
    ScanQuotedComplete(q, body, closed, rest);
    assert ([Mark(q)] + (RenderBody(q, body, closed) + rest))[1..] == RenderBody(q, body, closed) + rest;
  }

  lemma LineAt(dashes: bool, text: string, end: Option<char>, rest: string)
    requires ProperToken(LineComment(dashes, text, end), rest)
    ensures var s := (if dashes then "--" else "#") + (LineText(text, end) + rest);
      NextToken(s) == (LineComment(dashes, text, end), rest)
  {
    var more := LineText(text, end) + rest;
    ScanLineComplete(text, end, rest);
    assert ("--" + more)[2..] == more && ("#" + more)[1..] == more;
    assert dashes ==> ("--" + more)[2] == LineText(text, end)[0];
  }

  lemma BlockAt(text: string, closed: bool, rest: string)
    requires ProperToken(BlockComment(text, closed), rest)
    ensures NextToken("/*" + (BlockText(text, closed) + rest)) == (BlockComment(text, closed), rest)
  {
    var more := BlockText(text, closed) + rest;
    ScanBlockComplete(text, closed, rest);
    assert ("/*" + more)[2..] == more;
  }

  lemma NextTokenComplete(t: Token, rest: string)
    requires ProperToken(t, rest)
    ensures RenderToken(t) + rest != "" && NextToken(RenderToken(t) + rest) == (t, rest)
  {
    assert RenderToken(t) + rest == Opener(t) + (Remainder(t) + rest);
    match t {
      case Plain(c) =>
        PlainAt(c, rest);
        assert Remainder(t) + rest == rest;
      case Param =>
        assert ("?" + rest)[1..] == rest;
        assert Remainder(t) + rest == rest;
      case Quoted(q, body, closed) => QuotedAt(q, body, closed, rest);
      case LineComment(dashes, text, end) => LineAt(dashes, text, end, rest);
      case BlockComment(text, closed) => BlockAt(text, closed, rest);
    }
  }

  lemma LexStep(t: Token, rest: string)
    requires RenderToken(t) + rest != "" && NextToken(RenderToken(t) + rest) == (t, rest)
    ensures Lex(RenderToken(t) + rest) == [t] + Lex(rest)
  {
  }

  /** Uniqueness: a proper token sequence is the one Lex finds in its text. */
  lemma {:induction false} LexUnique(ts: seq<Token>)
    requires Proper(ts)
    ensures Lex(Render(ts)) == ts
  {
    if ts != [] {
      var rest := Render(ts[1..]);
      NextTokenComplete(ts[0], rest);
      LexUnique(ts[1..]);
      LexStep(ts[0], rest);
      assert ts == [ts[0]] + ts[1..];
    }
  }

  /** The count is how often the parameter token occurs. */
  lemma {:induction false} ParamsCounted(ts: seq<Token>)
    ensures ParamCount(ts) == multiset(ts)[Param]
  {
    if ts != [] {
      ParamsCounted(ts[1..]);
      assert ts == [ts[0]] + ts[1..];
    }
  }

  // ---------- The rules in terms of text ----------

  /** The parameters of a text. */
  function Params(s: string): nat {
    ParamCount(Lex(s))
  }

  lemma ParamsAfter(t: Token, rest: string)
    requires ProperToken(t, rest)
    ensures Params(RenderToken(t) + rest) == (if t.Param? then 1 else 0) + Params(rest)
  {
    NextTokenComplete(t, rest);
    LexStep(t, rest);
    assert Lex(RenderToken(t) + rest)[1..] == Lex(rest);
  }

  /** A question mark counts, and a character that starts nothing else does not. */
  lemma MarkRule(c: char, s: string)
    ensures Params("") == 0 && Params("?" + s) == 1 + Params(s)
    ensures c !in {'?', '\'', '"', '`', '#', '-', '/'} ==> Params([c] + s) == Params(s)
  {
    ParamsAfter(Param, s);
    assert RenderToken(Param) + s == "?" + s;
    if c !in {'?', '\'', '"', '`', '#', '-', '/'} {
      ParamsAfter(Plain(c), s);
      assert RenderToken(Plain(c)) + s == [c] + s;
    }
  }

  /** A minus sign or a slash is an ordinary character unless it starts a comment. */
  lemma OperatorRule(s: string)
    ensures !(|s| >= 2 && s[0] == '-' && s[1] <= ' ') ==> Params("-" + s) == Params(s)
    ensures !(s != "" && s[0] == '*') ==> Params("/" + s) == Params(s)
  {
    if !(|s| >= 2 && s[0] == '-' && s[1] <= ' ') {
      ParamsAfter(Plain('-'), s);
      assert RenderToken(Plain('-')) + s == "-" + s;
    }
    if !(s != "" && s[0] == '*') {
      ParamsAfter(Plain('/'), s);
      assert RenderToken(Plain('/')) + s == "/" + s;
    }
  }

  /** Text written as it stands. */
  function AsWritten(x: string): (body: seq<Piece>)
    ensures |body| == |x|
  {
    seq(|x|, i requires 0 <= i < |x| => Literal(x[i]))
  }

  lemma {:induction false} AsWrittenBody(q: Quote, x: string, closed: bool)
    requires Mark(q) !in x && (q == Backtick || '\\' !in x)
    ensures RenderBody(q, AsWritten(x), closed) == x + (if closed then [Mark(q)] else "")
    ensures ProperBody(q, AsWritten(x), closed)
  {
    if x != "" {
      AsWrittenBody(q, x[1..], closed);
      assert x == [x[0]] + x[1..] && AsWritten(x)[1..] == AsWritten(x[1..]);
      BodyCons(q, Literal(x[0]), AsWritten(x[1..]), closed, "");
      assert AsWritten(x) == [Literal(x[0])] + AsWritten(x[1..]);
      assert RenderBody(q, AsWritten(x), closed) + "" == RenderBody(q, AsWritten(x), closed);
      assert RenderBody(q, AsWritten(x[1..]), closed) + "" == RenderBody(q, AsWritten(x[1..]), closed);
    } else {
      assert AsWritten(x) == [];
    }
  }

  lemma QuotedParams(q: Quote, body: seq<Piece>, text: string, closed: bool, s: string)
    requires ProperBody(q, body, closed) && RenderBody(q, body, closed) == text && QuotedEnd(q, closed, s)
    ensures Params([Mark(q)] + text + s) == Params(s)
  {
    hide ProperBody, RenderBody;
    ParamsAfter(Quoted(q, body, closed), s);
    assert RenderToken(Quoted(q, body, closed)) == [Mark(q)] + text;
  }

  /** Nothing in quotes counts, closed or not. */
  lemma QuoteRule(m: char, x: string, s: string)
    requires m in {'\'', '"', '`'} && m !in x && (m == '`' || '\\' !in x)
    ensures Params([m] + x) == 0
    ensures s == "" || s[0] != m ==> Params([m] + (x + [m]) + s) == Params(s)
  {
    var q := QuoteOf(m).value;
    assert Mark(q) == m;
    AsWrittenBody(q, x, false);
    QuotedParams(q, AsWritten(x), x + "", false, "");
    assert [m] + (x + "") + "" == [m] + x;
    if s == "" || s[0] != m {
      AsWrittenBody(q, x, true);
      QuotedParams(q, AsWritten(x), x + [m], true, s);
    }
    MarkRule('?', "");
  }

  /** A doubled quote mark does not close; neither does one after a backslash, except in backticks, where a backslash
      stands for itself. */
  lemma EscapeRule(m: char, c: char, x: string, s: string)
    requires m in {'\'', '"', '`'} && m !in x && (m == '`' || '\\' !in x) && (s == "" || s[0] != m)
    ensures Params([m] + ([m, m] + (x + [m])) + s) == Params(s)
    ensures m != '`' ==> Params([m] + (['\\', c] + (x + [m])) + s) == Params(s)
    ensures m == '`' ==> Params("`\\`" + s) == Params(s)
  {
    var q := QuoteOf(m).value;
    assert Mark(q) == m;
    AsWrittenBody(q, x, true);
    var body := AsWritten(x);
    BodyCons(q, Doubled, body, true, "");
    BodyCons(q, Escaped(c), body, true, "");
    hide ProperBody, AsWritten;
    PieceFirst(q, Doubled, body, x + [m]);
    QuotedParams(q, [Doubled] + body, [m, m] + (x + [m]), true, s);
    if m != '`' {
      PieceFirst(q, Escaped(c), body, x + [m]);
      QuotedParams(q, [Escaped(c)] + body, ['\\', c] + (x + [m]), true, s);
    } else {
      QuoteRule('`', "\\", s);
      assert "`" + ("\\" + "`") == "`\\`";
    }
  }

  lemma PieceFirst(q: Quote, p: Piece, body: seq<Piece>, text: string)
    requires RenderBody(q, body, true) == text
    ensures RenderBody(q, [p] + body, true) == RenderPiece(q, p) + text
  {
    assert ([p] + body)[1..] == body;
  }

  lemma LineParams(dashes: bool, text: string, end: Option<char>, s: string)
    requires ProperToken(LineComment(dashes, text, end), s)
    ensures Params((if dashes then "--" else "#") + LineText(text, end) + s) == Params(s)
  {
    ParamsAfter(LineComment(dashes, text, end), s);
  }

  lemma LineClosed(dashes: bool, x: string, e: char, s: string)
    requires e in {'\n', '\r'} && '\n' !in x && '\r' !in x && (dashes ==> x == "" || x[0] <= ' ')
    ensures Params((if dashes then "--" else "#") + x + [e] + s) == Params(s)
  {
    LineParams(dashes, x, Some(e), s);
    var open := if dashes then "--" else "#";
    hide Params;
    assert open + (x + [e]) + s == open + x + [e] + s;
  }

  lemma LineOpen(dashes: bool, x: string)
    requires '\n' !in x && '\r' !in x && (dashes ==> x != "" && x[0] <= ' ')
    ensures Params((if dashes then "--" else "#") + x) == 0
  {
    LineParams(dashes, x, None, "");
    MarkRule('?', "");
    var open := if dashes then "--" else "#";
    hide Params;
    assert open + (x + "") + "" == open + x;
  }

  /** Nothing counts up to the end of a line after a number sign, or after two minus signs and a blank or control
      character. */
  lemma LineRule(x: string, e: char, s: string)
    requires e in {'\n', '\r'} && '\n' !in x && '\r' !in x
    ensures Params("#" + x + [e] + s) == Params(s) && Params("#" + x) == 0
    ensures x == "" || x[0] <= ' ' ==> Params("--" + x + [e] + s) == Params(s)
    ensures x != "" && x[0] <= ' ' ==> Params("--" + x) == 0
  {
    hide Params;
    LineClosed(false, x, e, s);
    LineOpen(false, x);
    if x == "" || x[0] <= ' ' {
      LineClosed(true, x, e, s);
    }
    if x != "" && x[0] <= ' ' {
      LineOpen(true, x);
    }
  }

  lemma {:induction false} BlockProper(x: string, closed: bool)
    requires forall i | 0 <= i < |x| - 1 :: !(x[i] == '*' && x[i + 1] == '/')
    ensures ProperBlock(x, closed)
  {
    if x != "" {
      BlockProper(x[1..], closed);
    }
  }

  /** Nothing counts between a slash and a star and the next star and slash, or the end. */
  lemma BlockRule(x: string, s: string)
    requires forall i | 0 <= i < |x| - 1 :: !(x[i] == '*' && x[i + 1] == '/')
    ensures Params("/*" + x + "*/" + s) == Params(s) && Params("/*" + x) == 0
  {
    BlockProper(x, true);
    BlockProper(x, false);
    hide ProperBlock;
    ParamsAfter(BlockComment(x, true), s);
    ParamsAfter(BlockComment(x, false), "");
    MarkRule('?', "");
    assert "/*" + (x + "*/") + s == "/*" + x + "*/" + s && "/*" + (x + "") + "" == "/*" + x;
  }

  // ---------- The six-state loop ----------

  datatype State = InPlain | InQuoted(quote: Quote) | InLine | InBlock

  /** The parameters still to come when the scanner is in the given state in front of s. */
  function ParamsFrom(state: State, s: string): nat {
    match state
    case InPlain => ParamCount(Lex(s))
    case InQuoted(q) => ParamCount(Lex(ScanQuoted(q, s).rest))
    case InLine => ParamCount(Lex(ScanLine(s).rest))
    case InBlock => ParamCount(Lex(ScanBlock(s).rest))
  }

  lemma ParamsFromPlain(s: string)
    requires s != ""
    ensures ParamsFrom(InPlain, s) ==
      if s[0] == '?' then 1 + ParamsFrom(InPlain, s[1..])
      else if QuoteOf(s[0]).Some? then ParamsFrom(InQuoted(QuoteOf(s[0]).value), s[1..])
      else if s[0] == '#' then ParamsFrom(InLine, s[1..])
      else if OpensDashComment(s) then ParamsFrom(InLine, s[2..])
      else if OpensBlockComment(s) then ParamsFrom(InBlock, s[2..])
      else ParamsFrom(InPlain, s[1..])
  {
    var (t, rest) := NextToken(s);
    assert Lex(s)[1..] == Lex(rest);
  }

  /** countPlaceholders returns the number of parameter tokens, for every text. */
  method CountPlaceholders(query: string) returns (count: nat)
    ensures count == ParamCount(Lex(query)) == multiset(Lex(query))[Param]
  {
    var state := InPlain;
    count := 0;
    var i := 0;
    assert query[0..] == query;
    while i < |query|
      invariant 0 <= i <= |query|
      invariant count + ParamsFrom(state, query[i..]) == ParamCount(Lex(query))
    {
      var ch := query[i];
      ghost var s := query[i..];
      assert s[1..] == query[i + 1..];
      assert i + 1 < |query| ==> s[1] == query[i + 1] && s[2..] == query[i + 2..];
      assert i + 2 < |query| ==> s[2] == query[i + 2];
      match state {
        case InPlain =>
          ParamsFromPlain(s);
          if ch == '?' {
            count := count + 1;
          } else if ch == '\'' {
            state := InQuoted(Single);
          } else if ch == '"' {
            state := InQuoted(Double);
          } else if ch == '`' {
            state := InQuoted(Backtick);
          } else if ch == '#' {
            state := InLine;
          } else if ch == '-' {
            if i + 2 < |query| && query[i + 1] == '-' && query[i + 2] <= ' ' {
              state := InLine;
              i := i + 1;
            }
          } else if ch == '/' {
            if i + 1 < |query| && query[i + 1] == '*' {
              state := InBlock;
              i := i + 1;
            }
          }
        case InQuoted(q) =>
          if ch == '\\' && q != Backtick && i + 1 < |query| {
            i := i + 1;
          } else if ch == Mark(q) {
            if i + 1 < |query| && query[i + 1] == Mark(q) {
              i := i + 1;
            } else {
              state := InPlain;
            }
          }
        case InLine =>
          if IsLineEnd(ch) {
            state := InPlain;
          }
        case InBlock =>
          if ch == '*' && i + 1 < |query| && query[i + 1] == '/' {
            state := InPlain;
            i := i + 1;
          }
      }
      i := i + 1;
    }
    assert query[i..] == "";
    hide *;
    ParamsCounted(Lex(query));
  }
}
