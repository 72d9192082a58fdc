/** parseMariaDBTypeValues: the ENUM('a','b') and SET('a','b') declaration parser, against the grammar it accepts.
    A quoted value follows the scanner's single-quote rules. */
module TypeValues {
  import opened Prelude
  import opened SqlScanner

  // ---------- The grammar ----------

  /** One written value and the separator text after its closing quote. */
  datatype Item = Item(body: seq<Piece>, after: string)
  datatype Listing = Listing(lead: string, items: seq<Item>)

  predicate IsSeparator(s: string) {
    forall i :: 0 <= i < |s| ==> s[i] == ' ' || s[i] == ','
  }

  /** Any spaces and commas before, between and after, with at least one comma between two values. */
  predicate ProperItems(items: seq<Item>) {
    items == [] ||
    (&& ProperBody(Single, items[0].body, true)
     && IsSeparator(items[0].after) && (|items| > 1 ==> ',' in items[0].after)
     && ProperItems(items[1..]))
  }

  predicate ProperListing(d: Listing) {
    IsSeparator(d.lead) && ProperItems(d.items)
  }

  function RenderItems(items: seq<Item>): string {
    if items == [] then "" else "'" + (RenderBody(Single, items[0].body, true) + (items[0].after + RenderItems(items[1..])))
  }

  function RenderListing(d: Listing): string {
    d.lead + RenderItems(d.items)
  }

  function ValuesOf(items: seq<Item>): seq<string> {
    if items == [] then [] else [Decode(Single, items[0].body)] + ValuesOf(items[1..])
  }

  // ---------- The parser as a function ----------

  datatype Parsed = Values(values: seq<string>) | Invalid | InvalidAt(pos: int) | Unterminated

  function SkipSeparators(s: string): (r: string)
    ensures |r| <= |s| && (r != "" ==> r[0] != ' ' && r[0] != ',')
  {
    if s != "" && (s[0] == ' ' || s[0] == ',') then SkipSeparators(s[1..]) else s
  }

  function SkipSpaces(s: string): (r: string)
    ensures |r| <= |s| && (r != "" ==> r[0] != ' ')
  {
    if s != "" && s[0] == ' ' then SkipSpaces(s[1..]) else s
  }

  function Prepend(vs: seq<string>, p: Parsed): Parsed {
    if p.Values? then Values(vs + p.values) else p
  }

  /** The parse of what remains, s, of an input of length n. */
  function ParseList(n: int, s: string): Parsed
    decreases |s|
  {
    var t := SkipSeparators(s);
    if t == "" then Values([])
    else if t[0] != '\'' then InvalidAt(n - |t|)
    else
      var r := ScanQuoted(Single, t[1..]);
      if !r.closed then Unterminated else
      var u := SkipSpaces(r.rest);
      if u != "" && u[0] != ',' then InvalidAt(n - |u|)
      else Prepend([Decode(Single, r.body)], ParseList(n, u))
  }

  function FindLast(s: string, c: char): (i: int)
    ensures -1 <= i < |s| && (i >= 0 ==> s[i] == c) && forall j :: i < j < |s| ==> s[j] != c
  {
    if s == "" then -1 else if s[|s| - 1] == c then |s| - 1 else FindLast(s[..|s| - 1], c)
  }

  function ParseDeclaration(columnType: string): Parsed {
    var open, close := Find(columnType, '('), FindLast(columnType, ')');
    if open == |columnType| || close <= open then Invalid
    else ParseList(close - open - 1, columnType[open + 1..close])
  }

  // ---------- The loops ----------

  datatype ValueRead = ValueRead(value: string, closed: bool, rest: string)

  /** What a quoted text after its opening quote stands for, and what follows it. */
  function ReadFrom(s: string): ValueRead {
    var r := ScanQuoted(Single, s);
    ValueRead(Decode(Single, r.body), r.closed, r.rest)
  }

  function Extended(value: string, r: ValueRead): ValueRead {
    r.(value := value + r.value)
  }

  lemma ReadStep(s: string)
    requires s != ""
    ensures ReadFrom(s) ==
      if s[0] == '\\' && |s| > 1 then Extended([s[1]], ReadFrom(s[2..]))
      else if s[0] == '\'' then
        if |s| > 1 && s[1] == '\'' then Extended("'", ReadFrom(s[2..])) else ValueRead("", true, s[1..])
      else Extended([s[0]], ReadFrom(s[1..]))
  {
    if s[0] == '\\' && |s| > 1 {
      DecodeCons(Single, Escaped(s[1]), ScanQuoted(Single, s[2..]).body);
    } else if s[0] == '\'' {
      if |s| > 1 && s[1] == '\'' {
        DecodeCons(Single, Doubled, ScanQuoted(Single, s[2..]).body);
      }
    } else {
      DecodeCons(Single, Literal(s[0]), ScanQuoted(Single, s[1..]).body);
    }
  }

  lemma ExtendedTwice(v: string, w: string, r: ValueRead)
    ensures Extended(v, Extended(w, r)) == Extended(v + w, r)
    ensures Extended("", r) == r
  {
    assert v + (w + r.value) == v + w + r.value && "" + r.value == r.value;
  }

  /** The inner loop: from after an opening quote to after its closing quote, if there is one. */
  method ReadValue(input: string, start: nat) returns (value: string, pos: nat, closed: bool)
    requires start <= |input|
    ensures start <= pos <= |input|
    ensures ValueRead(value, closed, input[pos..]) == ReadFrom(input[start..])
  {
    hide ReadFrom, Extended;
    value, pos, closed := "", start, false;
    ExtendedTwice("", "", ReadFrom(input[start..]));
    while pos < |input|
      invariant start <= pos <= |input|
      invariant Extended(value, ReadFrom(input[pos..])) == ReadFrom(input[start..])
      invariant !closed
      decreases |input| - pos
    {
      ghost var s := input[pos..];
      var ch := input[pos];
      ReadStep(s);
      pos := pos + 1;
      assert s[1..] == input[pos..];
      assert pos < |input| ==> s[1] == input[pos] && s[2..] == input[pos + 1..];
      if ch == '\\' && pos < |input| {
        ExtendedTwice(value, [input[pos]], ReadFrom(input[pos + 1..]));
        value := value + [input[pos]];
        pos := pos + 1;
        continue;
      }
      if ch == '\'' {
        if pos < |input| && input[pos] == '\'' {
          ExtendedTwice(value, "'", ReadFrom(input[pos + 1..]));
          value := value + "'";
          pos := pos + 1;
          continue;
        }
        closed := true;
        ClosedReading(value, input[pos..]);
        return;
      }
      ExtendedTwice(value, [ch], ReadFrom(input[pos..]));
      value := value + [ch];
    }
    assert input[pos..] == "";
    OpenReading(value);
  }

  lemma ClosedReading(value: string, rest: string)
    ensures Extended(value, ValueRead("", true, rest)) == ValueRead(value, true, rest)
  {
  }

  lemma OpenReading(value: string)
    ensures Extended(value, ReadFrom("")) == ValueRead(value, false, "")
  {
  }

  lemma ListStep(n: int, s: string)
    ensures var t := SkipSeparators(s);
      && (t == "" ==> ParseList(n, s) == Values([]))
      && (t != "" && t[0] != '\'' ==> ParseList(n, s) == InvalidAt(n - |t|))
      && (t != "" && t[0] == '\'' ==>
            var r := ReadFrom(t[1..]);
            var u := SkipSpaces(r.rest);
            && (!r.closed ==> ParseList(n, s) == Unterminated)
            && (r.closed && u != "" && u[0] != ',' ==> ParseList(n, s) == InvalidAt(n - |u|))
            && (r.closed && (u == "" || u[0] == ',') ==> ParseList(n, s) == Prepend([r.value], ParseList(n, u))))
  {
  }

  lemma PrependTwice(vs: seq<string>, ws: seq<string>, p: Parsed)
    ensures Prepend(vs, Prepend(ws, p)) == Prepend(vs + ws, p)
  {
    if p.Values? { assert vs + (ws + p.values) == vs + ws + p.values; }
  }

  method SkipWhile(input: string, start: nat, commas: bool) returns (pos: nat)
    requires start <= |input|
    ensures start <= pos <= |input|
    ensures input[pos..] == if commas then SkipSeparators(input[start..]) else SkipSpaces(input[start..])
  {
    pos := start;
    while pos < |input| && (input[pos] == ' ' || (commas && input[pos] == ','))
      invariant start <= pos <= |input|
      invariant SkipSeparators(input[pos..]) == SkipSeparators(input[start..]) || !commas
      invariant SkipSpaces(input[pos..]) == SkipSpaces(input[start..]) || commas
    {
      assert input[pos..][1..] == input[pos + 1..];
      pos := pos + 1;
    }
  }

  /** parseMariaDBTypeValues. */
  method ParseTypeValues(columnType: string) returns (r: Parsed)
    ensures r == ParseDeclaration(columnType)
  {
    hide ParseList, ReadFrom, SkipSeparators, SkipSpaces;
    var open, close := Find(columnType, '('), FindLast(columnType, ')');
    if open == |columnType| || close <= open {
      return Invalid;
    }
    var input := columnType[open + 1..close];
    var values: seq<string> := [];
    var pos: nat := 0;
    assert input[0..] == input;
    PrependNothing(ParseList(|input|, input));
    while pos < |input|
      invariant pos <= |input|
      invariant Prepend(values, ParseList(|input|, input[pos..])) == ParseList(|input|, input)
      decreases |input| - pos
    {
      ListStep(|input|, input[pos..]);
      pos := SkipWhile(input, pos, true);
      if pos == |input| {
        return Values(values);
      }
      if input[pos] != '\'' {
        return InvalidAt(pos);
      }
      assert input[pos..][1..] == input[pos + 1..];
      var value, closed;
      value, pos, closed := ReadValue(input, pos + 1);
      if !closed {
        return Unterminated;
      }
      ghost var before := values;
      values := values + [value];
      pos := SkipWhile(input, pos, false);
      if pos < |input| && input[pos] != ',' {
        return InvalidAt(pos);
      }
      PrependTwice(before, [value], ParseList(|input|, input[pos..]));
    }
    assert input[pos..] == "";
    NothingLeft(|input|);
    r := Values(values);
  }

  lemma PrependNothing(p: Parsed)
    ensures Prepend([], p) == p
  {
  }

  lemma NothingLeft(n: int)
    ensures ParseList(n, "") == Values([])
  {
  }

  // ---------- The parser accepts exactly the grammar ----------

  lemma {:induction false} SkipAll(lead: string, rest: string)
    requires IsSeparator(lead) && (rest != "" ==> rest[0] != ' ' && rest[0] != ',')
    ensures SkipSeparators(lead + rest) == rest
  {
    if lead == "" {
      assert lead + rest == rest;
    } else {
      SkipAll(lead[1..], rest);
      assert (lead + rest)[1..] == lead[1..] + rest;
    }
  }

  /** Leading spaces go; what is left of a separator is empty or starts with a comma. */
  lemma {:induction false} SkipBlanks(after: string, rest: string) returns (left: string)
    requires IsSeparator(after) && (rest != "" ==> rest[0] != ' ')
    ensures SkipSpaces(after + rest) == left + rest
    ensures IsSeparator(left) && (left != "" ==> left[0] == ',') && (',' in after ==> left != "")
  {
    if after != "" && after[0] == ' ' {
      left := SkipBlanks(after[1..], rest);
      assert (after + rest)[1..] == after[1..] + rest;
      assert ',' in after ==> ',' in after[1..];
    } else {
      left := after;
      assert after == "" ==> after + rest == rest;
    }
  }

  /** Every proper way of writing a list of values is read back as that list. */
  lemma {:induction false} ListingParses(n: int, d: Listing)
    requires ProperListing(d)
    ensures ParseList(n, RenderListing(d)) == Values(ValuesOf(d.items))
    decreases |d.items|
  {
    hide ParseList, ReadFrom, SkipSeparators, SkipSpaces, ProperBody, RenderBody, Decode;
    var tail := RenderItems(d.items);
    SkipAll(d.lead, tail);
    ListStep(n, RenderListing(d));
    if d.items != [] {
      var item, more := d.items[0], d.items[1..];
      var rest := item.after + RenderItems(more);
      assert tail[1..] == RenderBody(Single, item.body, true) + rest;
      assert |d.items| == 1 ==> rest == item.after;
      assert |d.items| > 1 ==> item.after != "" && rest[0] == item.after[0];
      ReadBody(item.body, rest);
      var left := SkipBlanks(item.after, RenderItems(more));
      assert left == "" && more == [] ==> left + RenderItems(more) == "";
      ListingParses(n, Listing(left, more));
    }
  }

  lemma ReadBody(body: seq<Piece>, rest: string)
    requires ProperBody(Single, body, true) && (rest == "" || rest[0] != '\'')
    ensures ReadFrom(RenderBody(Single, body, true) + rest) == ValueRead(Decode(Single, body), true, rest)
  {
    ScanQuotedComplete(Single, body, true, rest);
  }

  lemma SeparatorCons(s: string, more: string)
    requires s != "" && (s[0] == ' ' || s[0] == ',') && IsSeparator(more)
    ensures IsSeparator([s[0]] + more)
    ensures forall rest :: s[1..] == more + rest ==> s == [s[0]] + more + rest
  {
    forall rest | s[1..] == more + rest
      ensures s == [s[0]] + more + rest
    {
      assert s == [s[0]] + s[1..];
    }
  }

  lemma {:induction false} SkippedSeparators(s: string) returns (lead: string)
    ensures IsSeparator(lead) && s == lead + SkipSeparators(s)
  {
    if s != "" && (s[0] == ' ' || s[0] == ',') {
      var more := SkippedSeparators(s[1..]);
      lead := [s[0]] + more;
      SeparatorCons(s, more);
    } else {
      lead := "";
    }
  }

  lemma {:induction false} SkippedSpaces(s: string) returns (lead: string)
    ensures IsSeparator(lead) && s == lead + SkipSpaces(s)
  {
    if s != "" && s[0] == ' ' {
      var more := SkippedSpaces(s[1..]);
      lead := [s[0]] + more;
      SeparatorCons(s, more);
    } else {
      lead := "";
    }
  }

  /** Whatever the parser accepts is a proper way of writing the list it returns. */
  lemma {:induction false} ListingFound(n: int, s: string) returns (d: Listing)
    requires ParseList(n, s).Values?
    ensures ProperListing(d) && RenderListing(d) == s && ValuesOf(d.items) == ParseList(n, s).values
    decreases |s|
  {
    hide SkipSeparators, SkipSpaces, ProperBody, RenderBody, Decode, ScanQuoted;
    var t := SkipSeparators(s);
    var lead := SkippedSeparators(s);
    if t == "" {
      d := Listing(lead, []);
    } else {
      var r := ScanQuoted(Single, t[1..]);
      ScanQuotedSound(Single, t[1..]);
      var u := SkipSpaces(r.rest);
      var blanks := SkippedSpaces(r.rest);
      var e := ListingFound(n, u);
      d := Wrapped(lead, r.body, blanks, e);
      assert t == "'" + t[1..];
    }
  }

  lemma Wrapped(lead: string, body: seq<Piece>, blanks: string, e: Listing) returns (d: Listing)
    requires IsSeparator(lead) && IsSeparator(blanks) && ProperListing(e) && ProperBody(Single, body, true)
    requires RenderListing(e) != "" ==> RenderListing(e)[0] == ','
    ensures ProperListing(d)
    ensures RenderListing(d) == lead + ("'" + (RenderBody(Single, body, true) + (blanks + RenderListing(e))))
    ensures ValuesOf(d.items) == [Decode(Single, body)] + ValuesOf(e.items)
  {
    hide ProperBody, RenderBody, Decode;
    var items := [Item(body, blanks + e.lead)] + e.items;
    d := Listing(lead, items);
    assert items[1..] == e.items;
    assert blanks + e.lead + RenderItems(e.items) == blanks + RenderListing(e);
    if e.items != [] {
      assert RenderListing(e)[|e.lead|] == '\'';
      assert e.lead != "" && e.lead[0] == ',';
      assert ',' in blanks + e.lead;
    }
  }

  /** A declaration around a listing: any prefix without an opening and any suffix without a closing parenthesis. */
  ghost predicate Declares(columnType: string, prefix: string, d: Listing, suffix: string) {
    && columnType == prefix + ['('] + RenderListing(d) + [')'] + suffix
    && '(' !in prefix && ')' !in suffix && ProperListing(d)
  }

  /** The round trip: however each value is escaped and however the commas are spaced, the declaration is read back
      as its values, which may contain parentheses, commas, quotes and backslashes. */
  lemma DeclarationParses(columnType: string, prefix: string, d: Listing, suffix: string)
    requires Declares(columnType, prefix, d, suffix)
    ensures ParseDeclaration(columnType) == Values(ValuesOf(d.items))
  {
    hide RenderListing, ProperListing, ParseList;
    var inner := RenderListing(d);
    assert columnType == prefix + ['('] + (inner + [')'] + suffix);
    FindAt(prefix, '(', inner + [')'] + suffix);
    assert columnType == (prefix + ['('] + inner) + [')'] + suffix;
    LastAt(prefix + ['('] + inner, ')', suffix);
    assert columnType[|prefix| + 1..|prefix| + 1 + |inner|] == inner;
    ListingParses(|inner|, d);
  }

  lemma {:induction false} LastAt(a: string, c: char, b: string)
    requires c !in b
    ensures FindLast(a + [c] + b, c) == |a|
    decreases |b|
  {
    var s := a + [c] + b;
    if b != "" {
      var front := b[..|b| - 1];
      assert b == front + [b[|b| - 1]];
      LastAt(a, c, front);
      assert s[..|s| - 1] == a + [c] + front;
      assert s[|s| - 1] == b[|b| - 1];
    }
  }

  /** Acceptance is exactly membership in the grammar. */
  lemma DeclarationAccepted(columnType: string)
    ensures ParseDeclaration(columnType).Values? <==> exists prefix, d, suffix :: Declares(columnType, prefix, d, suffix)
  {
    hide RenderListing, ProperListing, ParseList, ParseDeclaration;
    if prefix, d, suffix :| Declares(columnType, prefix, d, suffix) {
      DeclarationParses(columnType, prefix, d, suffix);
    }
    if ParseDeclaration(columnType).Values? {
      DeclarationFound(columnType);
    }
  }

  lemma DeclarationFound(columnType: string)
    requires ParseDeclaration(columnType).Values?
    ensures exists prefix, d, suffix :: Declares(columnType, prefix, d, suffix)
  {
    hide RenderListing, ProperListing, ParseList;
    var open, close := Find(columnType, '('), FindLast(columnType, ')');
    var input := columnType[open + 1..close];
    var d := ListingFound(close - open - 1, input);
    assert columnType == columnType[..open] + ['('] + input + [')'] + columnType[close + 1..];
    assert Declares(columnType, columnType[..open], d, columnType[close + 1..]);
  }

  // ---------- In terms of text ----------

  /** A value with its quotes and backslashes doubled. */
  function Doubling(v: string): string {
    if v == "" then ""
    else (if v[0] == '\'' then "''" else if v[0] == '\\' then "\\\\" else [v[0]]) + Doubling(v[1..])
  }

  function Quoted(v: string): string {
    "'" + Doubling(v) + "'"
  }

  function CommaSeparated(vs: seq<string>): string {
    if vs == [] then "" else if |vs| == 1 then Quoted(vs[0]) else Quoted(vs[0]) + "," + CommaSeparated(vs[1..])
  }

  function PieceOf(c: char): Piece {
    if c == '\'' then Doubled else if c == '\\' then Escaped('\\') else Literal(c)
  }

  function PiecesOf(v: string): (body: seq<Piece>)
    ensures |body| == |v|
  {
    seq(|v|, i requires 0 <= i < |v| => PieceOf(v[i]))
  }

  lemma {:induction false} DoublingRenders(v: string)
    ensures RenderBody(Single, PiecesOf(v), true) == Doubling(v) + "'"
    ensures ProperBody(Single, PiecesOf(v), true) && Decode(Single, PiecesOf(v)) == v
  {
    if v != "" {
      DoublingRenders(v[1..]);
      assert PiecesOf(v) == [PieceOf(v[0])] + PiecesOf(v[1..]);
      assert PiecesOf(v)[1..] == PiecesOf(v[1..]);
      assert v == [v[0]] + v[1..];
      DecodeCons(Single, PieceOf(v[0]), PiecesOf(v[1..]));
    }
  }

  function ItemsOf(vs: seq<string>): seq<Item> {
    if vs == [] then [] else [Item(PiecesOf(vs[0]), if |vs| == 1 then "" else ",")] + ItemsOf(vs[1..])
  }

  lemma ItemFirst(item: Item, more: seq<Item>)
    requires ProperItems(more) && ProperBody(Single, item.body, true) && IsSeparator(item.after) && (more != [] ==> ',' in item.after)
    ensures var items := [item] + more;
      && ProperItems(items) && ValuesOf(items) == [Decode(Single, item.body)] + ValuesOf(more)
      && RenderItems(items) == "'" + (RenderBody(Single, item.body, true) + (item.after + RenderItems(more)))
  {
    assert ([item] + more)[1..] == more;
  }

  lemma {:induction false} ItemsRender(vs: seq<string>)
    ensures ProperItems(ItemsOf(vs)) && RenderItems(ItemsOf(vs)) == CommaSeparated(vs) && ValuesOf(ItemsOf(vs)) == vs
    ensures |ItemsOf(vs)| == |vs|
  {
    if vs != [] {
      var more, after := ItemsOf(vs[1..]), if |vs| == 1 then "" else ",";
      ItemsRender(vs[1..]);
      DoublingRenders(vs[0]);
      assert vs == [vs[0]] + vs[1..];
      hide ProperBody, RenderBody, Decode, Doubling, PiecesOf, ProperItems, RenderItems, ValuesOf;
      ItemFirst(Item(PiecesOf(vs[0]), after), more);
      QuotedAnd(Doubling(vs[0]), after, RenderItems(more));
    }
  }

  lemma QuotedAnd(body: string, after: string, more: string)
    ensures "'" + ((body + "'") + (after + more)) == "'" + body + "'" + after + more
    ensures after == more == "" ==> "'" + body + "'" + after + more == "'" + body + "'"
  {
  }

  /** Any values, written with doubled quotes and backslashes and commas between them, are read back. */
  lemma ValuesReadBack(prefix: string, vs: seq<string>, suffix: string)
    requires '(' !in prefix && ')' !in suffix
    ensures ParseDeclaration(prefix + "(" + CommaSeparated(vs) + ")" + suffix) == Values(vs)
  {
    ItemsRender(vs);
    hide CommaSeparated, ItemsOf, ParseDeclaration, RenderItems, ProperItems, ValuesOf;
    var d := Listing("", ItemsOf(vs));
    assert RenderListing(d) == CommaSeparated(vs) by {
      assert "" + RenderItems(ItemsOf(vs)) == RenderItems(ItemsOf(vs));
    }
    DeclarationParses(prefix + "(" + CommaSeparated(vs) + ")" + suffix, prefix, d, suffix);
  }

  /** A backslash makes any character stand for itself. */
  lemma BackslashReads(prefix: string, c: char, suffix: string)
    requires '(' !in prefix && ')' !in suffix
    ensures ParseDeclaration(prefix + "(" + ("'\\" + [c] + "'") + ")" + suffix) == Values([[c]])
  {
    var body := [Escaped(c)];
    var d := Listing("", [Item(body, "")]);
    assert body[1..] == [] && d.items[1..] == [];
    assert RenderBody(Single, body, true) == ['\\', c] + "'";
    ItemFirst(Item(body, ""), []);
    assert RenderItems([]) == "" && [Item(body, "")] + [] == [Item(body, "")];
    assert RenderListing(d) == "'\\" + [c] + "'";
    assert Decode(Single, body) == [c] && ValuesOf(d.items) == [[c]] + ValuesOf([]);
    hide ParseDeclaration, RenderListing, ProperListing, ValuesOf;
    DeclarationParses(prefix + "(" + ("'\\" + [c] + "'") + ")" + suffix, prefix, d, suffix);
  }

  /** There is nothing to parse exactly when no opening parenthesis stands before a closing one. */
  lemma InvalidWhen(columnType: string)
    ensures ParseDeclaration(columnType) == Invalid <==>
            forall i, j | 0 <= i < j < |columnType| :: !(columnType[i] == '(' && columnType[j] == ')')
  {
    var open, close := Find(columnType, '('), FindLast(columnType, ')');
    if open < |columnType| && open < close {
      NeverInvalid(close - open - 1, columnType[open + 1..close]);
    }
  }

  lemma {:induction false} NeverInvalid(n: int, s: string)
    ensures ParseList(n, s) != Invalid
    decreases |s|
  {
    hide SkipSeparators, SkipSpaces, ScanQuoted, Decode;
    var t := SkipSeparators(s);
    if t != "" && t[0] == '\'' {
      NeverInvalid(n, SkipSpaces(ScanQuoted(Single, t[1..]).rest));
    }
  }

  /** An error names the first character, neither a space nor a comma, that cannot stand where it does: what comes before it
      is a proper listing. */
  lemma {:induction false} ErrorPosition(n: int, s: string) returns (d: Listing)
    requires ParseList(n, s).InvalidAt?
    ensures var k := ParseList(n, s).pos - (n - |s|);
            0 <= k < |s| && s[k] != ' ' && s[k] != ',' && ProperListing(d) && RenderListing(d) == s[..k]
    decreases |s|
  {
    hide SkipSeparators, SkipSpaces, ProperBody, RenderBody, Decode, ScanQuoted;
    var t := SkipSeparators(s);
    var lead := SkippedSeparators(s);
    if t[0] != '\'' {
      d := Listing(lead, []);
      assert s[..|lead|] == lead && lead + "" == lead;
    } else {
      var r := ScanQuoted(Single, t[1..]);
      ScanQuotedSound(Single, t[1..]);
      assert t == "'" + t[1..];
      var u := SkipSpaces(r.rest);
      var blanks := SkippedSpaces(r.rest);
      if u != "" && u[0] != ',' {
        NoItems();
        d := ErrorBehind(s, lead, r.body, blanks, u, Listing("", []), 0);
      } else {
        var e := ErrorPosition(n, u);
        d := ErrorBehind(s, lead, r.body, blanks, u, e, ParseList(n, u).pos - (n - |u|));
      }
    }
  }

  lemma NoItems()
    ensures ProperListing(Listing("", [])) && RenderListing(Listing("", [])) == ""
  {
  }

  /** A value and its spaces, in front of the listing that precedes the error. */
  lemma ErrorBehind(s: string, lead: string, body: seq<Piece>, blanks: string, u: string, e: Listing, k: nat) returns (d: Listing)
    requires IsSeparator(lead) && IsSeparator(blanks) && ProperBody(Single, body, true)
    requires s == lead + ("'" + (RenderBody(Single, body, true) + (blanks + u))) && k < |u|
    requires ProperListing(e) && RenderListing(e) == u[..k] && (k > 0 ==> u[0] == ',')
    ensures var before := |s| - |u|; ProperListing(d) && RenderListing(d) == s[..before + k] && s[before + k] == u[k]
  {
    hide ProperListing, RenderListing, ProperBody, RenderBody, IsSeparator;
    assert k > 0 ==> u[..k][0] == u[0];
    d := Wrapped(lead, body, blanks, e);
    ErrorPrefix(s, lead, RenderBody(Single, body, true), blanks, u, k);
  }

  lemma ErrorPrefix(s: string, lead: string, body: string, blanks: string, u: string, k: nat)
    requires s == lead + ("'" + (body + (blanks + u))) && k < |u|
    ensures var before := |s| - |u|;
            s[..before + k] == lead + ("'" + (body + (blanks + u[..k]))) && s[before + k] == u[k]
  {
    assert u == u[..k] + u[k..];
  }
}
