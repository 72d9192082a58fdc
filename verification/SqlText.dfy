/** SQL text the driver writes: quoted identifiers and CREATE TABLE, read back with the driver's own scanner. */
module SqlText {
  import opened SqlScanner

  // ---------- Text that the scanner passes through ----------

  predicate InertChar(c: char) {
    c != '?' && c != '\'' && c != '"' && c != '`' && c != '#' && c != '-' && c != '/'
  }

  predicate Inert(s: string) {
    forall i :: 0 <= i < |s| ==> InertChar(s[i])
  }

  /** Inert, except that a minus sign may stand before an inert character. */
  predicate Calm(s: string) {
    s == "" ||
    (&& (InertChar(s[0]) || (s[0] == '-' && |s| > 1 && InertChar(s[1])))
     && Calm(s[1..]))
  }

  function Plains(s: string): (ts: seq<Token>)
    ensures |ts| == |s|
  {
    seq(|s|, i requires 0 <= i < |s| => Plain(s[i]))
  }

  lemma {:induction false} InertCalm(s: string)
    requires Inert(s)
    ensures Calm(s)
  {
    if s != "" { InertCalm(s[1..]); }
  }

  lemma {:induction false} CalmConcat(s: string, t: string)
    requires Calm(s) && Calm(t)
    ensures Calm(s + t)
  {
    if s == "" {
      assert s + t == t;
    } else {
      CalmConcat(s[1..], t);
      assert (s + t)[1..] == s[1..] + t;
    }
  }

  lemma {:induction false} LexCalm(s: string, t: string)
    requires Calm(s)
    ensures Lex(s + t) == Plains(s) + Lex(t)
  {
    if s == "" {
      assert s + t == t;
    } else {
      LexCalm(s[1..], t);
      CalmHead(s, t);
      assert Plains(s) == [Plain(s[0])] + Plains(s[1..]);
    }
  }

  lemma CalmHead(s: string, t: string)
    requires s != "" && Calm(s)
    ensures Lex(s + t) == [Plain(s[0])] + Lex(s[1..] + t)
  {
    var u := s + t;
    assert u[1..] == s[1..] + t;
    assert |s| > 1 ==> u[1] == s[1];
  }

  lemma LexToken(t: Token, rest: string)
    requires ProperToken(t, rest)
    ensures Lex(RenderToken(t) + rest) == [t] + Lex(rest)
  {
    NextTokenComplete(t, rest);
    LexStep(t, rest);
  }

  // ---------- Quoted identifiers ----------

  /** strings.ReplaceAll(name, "`", "``"). */
  function DoubleBackticks(name: string): string {
    if name == "" then "" else (if name[0] == '`' then "``" else [name[0]]) + DoubleBackticks(name[1..])
  }

  function QuoteIdentifier(name: string): string {
    "`" + DoubleBackticks(name) + "`"
  }

  function IdentBody(name: string): seq<Piece> {
    seq(|name|, i requires 0 <= i < |name| => if name[i] == '`' then Doubled else Literal(name[i]))
  }

  /** The token that a quoted identifier is. */
  function Ident(name: string): Token {
    Quoted(Backtick, IdentBody(name), true)
  }

  lemma {:induction false} IdentRenders(name: string)
    ensures DoubleBackticks(name) + "`" == RenderBody(Backtick, IdentBody(name), true)
    ensures ProperBody(Backtick, IdentBody(name), true)
  {
    if name != "" {
      IdentRenders(name[1..]);
      assert IdentBody(name)[1..] == IdentBody(name[1..]);
    }
  }

  /** Whatever the name, its quoted form is one backtick token, which decodes to the name. */
  lemma IdentQuoted(name: string)
    ensures QuoteIdentifier(name) == RenderToken(Ident(name))
    ensures Decode(Backtick, IdentBody(name)) == name
    ensures forall rest :: rest == "" || rest[0] != '`' ==> ProperToken(Ident(name), rest)
  {
    IdentRenders(name);
  }

  /** The identifiers among tokens, decoded. */
  function Names(ts: seq<Token>): seq<string> {
    if ts == [] then [] else NameIn(ts[0]) + Names(ts[1..])
  }

  function NameIn(t: Token): seq<string> {
    if t.Quoted? && t.quote == Backtick then [Decode(Backtick, t.body)] else []
  }

  predicate NoParamOrComment(ts: seq<Token>) {
    forall t <- ts :: t.Plain? || t.Quoted?
  }

  lemma {:induction false} NamesAppend(ts: seq<Token>, us: seq<Token>)
    ensures Names(ts + us) == Names(ts) + Names(us)
  {
    hide NameIn;
    if ts == [] {
      assert ts + us == us;
    } else {
      assert (ts + us)[1..] == ts[1..] + us;
      assert Names(ts + us) == NameIn(ts[0]) + Names(ts[1..] + us) && Names(ts) == NameIn(ts[0]) + Names(ts[1..]);
      NamesAppend(ts[1..], us);
      hide Names;
      assert NameIn(ts[0]) + (Names(ts[1..]) + Names(us)) == NameIn(ts[0]) + Names(ts[1..]) + Names(us);
    }
  }

  lemma {:induction false} NamesPlains(s: string)
    ensures Names(Plains(s)) == []
  {
    if s != "" {
      NamesPlains(s[1..]);
      assert Plains(s)[1..] == Plains(s[1..]);
    }
  }

  lemma NamesIdent(name: string)
    ensures Names([Ident(name)]) == [name]
  {
    IdentQuoted(name);
  }

  // ---------- Building text from left to right ----------

  /** The text so far is a sequence of finished tokens: whatever follows is scanned on its own. */
  ghost predicate Splits(sql: string, ts: seq<Token>) {
    forall t :: Lex(sql + t) == ts + Lex(t)
  }

  lemma SplitsNothing()
    ensures Splits("", [])
  {
    forall t
      ensures Lex("" + t) == [] + Lex(t)
    {
      assert "" + t == t;
    }
  }

  lemma SplitsWhole(sql: string, ts: seq<Token>)
    requires Splits(sql, ts)
    ensures Lex(sql) == ts
  {
    assert sql + "" == sql;
    assert ts + Lex("") == ts;
  }

  lemma SplitsText(sql: string, ts: seq<Token>, s: string)
    requires Splits(sql, ts) && Calm(s)
    ensures Splits(sql + s, ts + Plains(s))
  {
    hide Lex, Calm;
    forall t
      ensures Lex(sql + s + t) == ts + Plains(s) + Lex(t)
    {
      assert sql + s + t == sql + (s + t);
      LexCalm(s, t);
    }
  }

  /** A token followed by text, where the text keeps the token apart from what comes later. */
  lemma SplitsToken(sql: string, ts: seq<Token>, u: Token, s: string)
    requires Splits(sql, ts) && Calm(s) && forall t :: ProperToken(u, s + t)
    ensures Splits(sql + RenderToken(u) + s, ts + [u] + Plains(s))
  {
    hide Lex, Calm, RenderToken, ProperToken;
    forall t
      ensures Lex(sql + RenderToken(u) + s + t) == ts + [u] + Plains(s) + Lex(t)
    {
      assert sql + RenderToken(u) + s + t == sql + (RenderToken(u) + (s + t));
      LexToken(u, s + t);
      LexCalm(s, t);
      assert ts + [u] + Plains(s) + Lex(t) == ts + ([u] + (Plains(s) + Lex(t)));
    }
  }

  lemma SplitsIdent(sql: string, ts: seq<Token>, name: string, s: string)
    requires Splits(sql, ts) && Calm(s) && s != ""
    ensures Splits(sql + QuoteIdentifier(name) + s, ts + [Ident(name)] + Plains(s))
  {
    hide QuoteIdentifier, Ident, Splits;
    IdentQuoted(name);
    assert s[0] != '`';
    assert forall t :: (s + t)[0] == s[0];
    SplitsToken(sql, ts, Ident(name), s);
  }

  // ---------- QuoteIdentifiers ----------

  /** strings.Join. */
  function Join(parts: seq<string>, sep: string): string {
    if parts == [] then "" else if |parts| == 1 then parts[0] else parts[0] + sep + Join(parts[1..], sep)
  }

  function Quoteds(parts: seq<string>): (qs: seq<string>)
    ensures |qs| == |parts|
  {
    seq(|parts|, i requires 0 <= i < |parts| => QuoteIdentifier(parts[i]))
  }

  function QuoteIdentifiers(parts: seq<string>): string {
    Join(Quoteds(parts), ".")
  }

  lemma IdentThenDot(name: string, rest: string)
    ensures Lex(QuoteIdentifier(name) + "." + rest) == [Ident(name), Plain('.')] + Lex(rest)
  {
    hide Lex, QuoteIdentifier, Ident, ProperToken;
    IdentQuoted(name);
    LexToken(Ident(name), "." + rest);
    assert QuoteIdentifier(name) + "." + rest == RenderToken(Ident(name)) + ("." + rest);
    InertCalm(".");
    LexCalm(".", rest);
    assert [Ident(name)] + (Plains(".") + Lex(rest)) == [Ident(name), Plain('.')] + Lex(rest);
  }

  lemma IdentAlone(name: string)
    ensures Lex(QuoteIdentifier(name)) == [Ident(name)]
  {
    hide QuoteIdentifier, Ident, ProperToken;
    IdentQuoted(name);
    LexToken(Ident(name), "");
    assert RenderToken(Ident(name)) + "" == QuoteIdentifier(name);
    assert [Ident(name)] + Lex("") == [Ident(name)];
  }

  lemma {:induction false} JoinedNames(parts: seq<string>)
    ensures Names(Lex(QuoteIdentifiers(parts))) == parts && NoParamOrComment(Lex(QuoteIdentifiers(parts)))
  {
    hide QuoteIdentifier, Lex, Names;
    if parts == [] {
      NothingNamed();
    } else {
      var first, rest := parts[0], QuoteIdentifiers(parts[1..]);
      NamesIdent(first);
      if |parts| == 1 {
        IdentAlone(first);
        assert parts == [first];
      } else {
        JoinedNames(parts[1..]);
        assert Quoteds(parts)[1..] == Quoteds(parts[1..]);
        assert QuoteIdentifiers(parts) == QuoteIdentifier(first) + "." + rest;
        IdentThenDot(first, rest);
        NamesAppend([Ident(first), Plain('.')], Lex(rest));
        DotNames(first);
        assert parts == [first] + parts[1..];
      }
    }
  }

  lemma NothingNamed()
    ensures Lex("") == [] && Names([]) == []
  {
  }

  lemma DotNames(name: string)
    ensures Names([Ident(name), Plain('.')]) == [name]
  {
    NamesIdent(name);
    NamesAppend([Ident(name)], [Plain('.')]);
    assert [Ident(name)] + [Plain('.')] == [Ident(name), Plain('.')];
    assert Names([Plain('.')]) == [];
  }

  /** No two lists of names have the same quoted form. */
  lemma QuoteIdentifiersInjective(p: seq<string>, q: seq<string>)
    requires QuoteIdentifiers(p) == QuoteIdentifiers(q)
    ensures p == q
  {
    JoinedNames(p);
    JoinedNames(q);
  }

  lemma {:induction false} NothingDoubled(name: string)
    requires '`' !in name
    ensures DoubleBackticks(name) == name
  {
    if name != "" {
      NothingDoubled(name[1..]);
      assert name == [name[0]] + name[1..];
    }
  }

  lemma {:induction false} DoubledParts(a: string, b: string)
    ensures DoubleBackticks(a + b) == DoubleBackticks(a) + DoubleBackticks(b)
  {
    if a == "" {
      assert a + b == b;
    } else {
      var first := if a[0] == '`' then "``" else [a[0]];
      assert (a + b)[0] == a[0] && (a + b)[1..] == a[1..] + b;
      assert DoubleBackticks(a + b) == first + DoubleBackticks(a[1..] + b) && DoubleBackticks(a) == first + DoubleBackticks(a[1..]);
      DoubledParts(a[1..], b);
      hide DoubleBackticks;
      assert first + (DoubleBackticks(a[1..]) + DoubleBackticks(b)) == first + DoubleBackticks(a[1..]) + DoubleBackticks(b);
    }
  }

  /** A name stands between backticks, each backtick of its own doubled, and a dot stands between two names. */
  lemma QuotedSpelled(a: string, b: string, more: seq<string>)
    requires '`' !in a && '`' !in b
    ensures QuoteIdentifier(a) == "`" + a + "`" && QuoteIdentifier(a + "`" + b) == "`" + (a + "``" + b) + "`"
    ensures QuoteIdentifiers([]) == "" && QuoteIdentifiers([a]) == "`" + a + "`"
    ensures more != [] ==> QuoteIdentifiers([a] + more) == "`" + a + "`." + QuoteIdentifiers(more)
  {
    NothingDoubled(a);
    NothingDoubled(b);
    DoubledParts(a + "`", b);
    DoubledParts(a, "`");
    assert "`"[1..] == "" && DoubleBackticks("`") == "``";
    if more != [] {
      assert Quoteds([a] + more)[1..] == Quoteds(more);
    }
  }
}
