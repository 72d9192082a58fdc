/** The CREATE TABLE text for an Arrow schema, and what the scanner finds in it. */
module CreateTable {
  import opened Prelude
  import opened Decimal
  import opened SqlScanner
  import opened SqlText
  import opened TimeCodec

  datatype ArrowType =
    | Boolean | Int8 | Int16 | Int32 | Int64 | Uint8 | Uint16 | Uint32 | Uint64 | Float32 | Float64
    | Utf8 | Binary | FixedSizeBinary | BinaryView | LargeBinary | Date32
    | Timestamp(unit: Unit, timeZone: string) | Time32(unit: Unit) | Time64(unit: Unit) | Duration(unit: Unit)
    | DecimalType(precision: int, scale: int)
    | OtherType

  datatype Field = Field(name: string, arrowType: ArrowType, nullable: bool)

  /** The type part of arrowToMariaDBType; None where the code panics. */
  function BaseType(t: ArrowType): Option<string> {
    match t
    case Boolean => Some("BOOLEAN")
    case Int8 => Some("TINYINT")
    case Int16 => Some("SMALLINT")
    case Int32 => Some("INT")
    case Int64 => Some("BIGINT")
    case Uint8 => Some("TINYINT UNSIGNED")
    case Uint16 => Some("SMALLINT UNSIGNED")
    case Uint32 => Some("INT UNSIGNED")
    case Uint64 => Some("BIGINT UNSIGNED")
    case Float32 => Some("FLOAT")
    case Float64 => Some("DOUBLE")
    case Utf8 => Some("TEXT")
    case Binary => Some("BLOB")
    case FixedSizeBinary => Some("BLOB")
    case BinaryView => Some("BLOB")
    case LargeBinary => Some("LONGBLOB")
    case Date32 => Some("DATE")
    case Timestamp(unit, timeZone) =>
      var precision := match unit case Second => "" case Millisecond => "(3)" case Microsecond => "(6)" case Nanosecond => "(6)";
      Some((if timeZone != "" then "TIMESTAMP" else "DATETIME") + precision)
    case Time32(unit) =>
      (match unit case Second => Some("TIME") case Millisecond => Some("TIME(3)") case Microsecond => None case Nanosecond => None)
    case Time64(unit) =>
      (match unit case Second => None case Millisecond => None case Microsecond => Some("TIME(6)") case Nanosecond => Some("TIME(6)"))
    case Duration(unit) =>
      (match unit case Second => Some("TIME") case Millisecond => Some("TIME(3)") case Microsecond => Some("TIME(6)") case Nanosecond => Some("TIME(6)"))
    case DecimalType(p, s) => Some("DECIMAL(" + FormatInt(p) + "," + FormatInt(s) + ")")
    case OtherType => Some("TEXT")
  }

  function ColumnType(f: Field): string {
    BaseType(f.arrowType).GetOr("") + if f.nullable then " NULL" else " NOT NULL"
  }

  /** The TIME declaration with p fractional digits. */
  function TimeColumn(p: nat): string {
    if p == 0 then "TIME" else "TIME(" + FormatInt(p) + ")"
  }

  /** A duration column is declared with a precision that leads back to its unit, except for nanoseconds. */
  lemma DurationColumn(u: Unit) returns (p: nat)
    ensures BaseType(Duration(u)) == Some(TimeColumn(p))
    ensures UnitFor(Some(p)) == u <==> u != Nanosecond
  {
    p := match u case Second => 0 case Millisecond => 3 case Microsecond => 6 case Nanosecond => 6;
    assert FormatInt(3) == "3" && FormatInt(6) == "6";
    assert "TIME(" + "3" + ")" == "TIME(3)" && "TIME(" + "6" + ")" == "TIME(6)";
  }

  // ---------- What the column types hold ----------

  /** The values that MariaDB documents for its integer types. */
  function IntegerRange(text: string): Option<(int, int)> {
    if text == "TINYINT" then Some((-128, 127))
    else if text == "TINYINT UNSIGNED" then Some((0, 255))
    else if text == "SMALLINT" then Some((-32_768, 32_767))
    else if text == "SMALLINT UNSIGNED" then Some((0, 65_535))
    else if text == "INT" then Some((-2_147_483_648, 2_147_483_647))
    else if text == "INT UNSIGNED" then Some((0, 4_294_967_295))
    else if text == "BIGINT" then Some((-0x8000_0000_0000_0000, 0x7fff_ffff_ffff_ffff))
    else if text == "BIGINT UNSIGNED" then Some((0, 0xffff_ffff_ffff_ffff))
    else None
  }

  /** The values of an Arrow integer of the given width. */
  function ArrowRange(bits: nat, signed: bool): (int, int) {
    var n := match bits case 8 => 256 case 16 => 65_536 case 32 => 0x1_0000_0000 case _ => 0x1_0000_0000_0000_0000;
    if signed then (-(n / 2), n / 2 - 1) else (0, n - 1)
  }

  function IntegerOf(t: ArrowType): Option<(nat, bool)> {
    match t
    case Int8 => Some((8, true))
    case Int16 => Some((16, true))
    case Int32 => Some((32, true))
    case Int64 => Some((64, true))
    case Uint8 => Some((8, false))
    case Uint16 => Some((16, false))
    case Uint32 => Some((32, false))
    case Uint64 => Some((64, false))
    case _ => None
  }

  lemma SignedRanges()
    ensures IntegerRange("TINYINT") == Some(ArrowRange(8, true)) && IntegerRange("SMALLINT") == Some(ArrowRange(16, true))
    ensures IntegerRange("INT") == Some(ArrowRange(32, true)) && IntegerRange("BIGINT") == Some(ArrowRange(64, true))
  {
  }

  lemma UnsignedRanges()
    ensures IntegerRange("TINYINT UNSIGNED") == Some(ArrowRange(8, false))
    ensures IntegerRange("SMALLINT UNSIGNED") == Some(ArrowRange(16, false))
    ensures IntegerRange("INT UNSIGNED") == Some(ArrowRange(32, false))
    ensures IntegerRange("BIGINT UNSIGNED") == Some(ArrowRange(64, false))
  {
  }

  /** An integer column holds exactly the values of its Arrow type. */
  lemma IntegerColumn(t: ArrowType)
    requires IntegerOf(t).Some?
    ensures BaseType(t).Some? && IntegerRange(BaseType(t).value) == Some(ArrowRange(IntegerOf(t).value.0, IntegerOf(t).value.1))
  {
    SignedRanges();
    UnsignedRanges();
    hide IntegerRange, ArrowRange;
  }

  /** The fractional digits of a temporal type: the fewest of none, three and six that count the unit, six for nanoseconds. */
  function UnitDigits(u: Unit): nat {
    if PerSecond(u) == 1 then 0 else if PerSecond(u) <= 1_000 then 3 else 6
  }

  lemma TimeColumns()
    ensures TimeColumn(0) == "TIME" && TimeColumn(3) == "TIME(3)" && TimeColumn(6) == "TIME(6)"
    ensures TimeColumn(0)[4..] == "" && TimeColumn(3)[4..] == "(3)" && TimeColumn(6)[4..] == "(6)"
  {
    assert FormatInt(3) == "3" && FormatInt(6) == "6";
    assert "TIME(" + "3" + ")" == "TIME(3)" && "TIME(" + "6" + ")" == "TIME(6)";
  }

  /** A temporal column is declared with the digits of its unit, a timestamp by whether it has a time zone; a 32-bit time
      that is finer than milliseconds, or a 64-bit one that is coarser than microseconds, is what panics. */
  lemma TemporalColumn(u: Unit, zone: string)
    ensures |TimeColumn(UnitDigits(u))| >= 4
    ensures BaseType(Timestamp(u, zone)) == Some((if zone == "" then "DATETIME" else "TIMESTAMP") + TimeColumn(UnitDigits(u))[4..])
    ensures BaseType(Duration(u)) == Some(TimeColumn(UnitDigits(u)))
    ensures BaseType(Time32(u)) == if PerSecond(u) <= 1_000 then Some(TimeColumn(UnitDigits(u))) else None
    ensures BaseType(Time64(u)) == if PerSecond(u) >= 1_000_000 then Some(TimeColumn(UnitDigits(u))) else None
  {
    TimeColumns();
    hide TimeColumn;
  }

  /** No other type panics, and a field is declared NOT NULL exactly when it is not nullable. */
  lemma NullableColumn(f: Field)
    ensures BaseType(f.arrowType).None? ==> f.arrowType.Time32? || f.arrowType.Time64?
    ensures var base := BaseType(f.arrowType).GetOr("");
      && base <= ColumnType(f)
      && (ColumnType(f)[|base|..] == " NOT NULL" <==> !f.nullable) && (ColumnType(f)[|base|..] == " NULL" <==> f.nullable)
  {
  }

  /** The remaining types by name. */
  lemma NamedColumn()
    ensures BaseType(Boolean) == Some("BOOLEAN") && BaseType(Float32) == Some("FLOAT") && BaseType(Float64) == Some("DOUBLE")
    ensures BaseType(Utf8) == Some("TEXT") && BaseType(OtherType) == Some("TEXT") && BaseType(Date32) == Some("DATE")
    ensures BaseType(Binary) == BaseType(FixedSizeBinary) == BaseType(BinaryView) == Some("BLOB")
    ensures BaseType(LargeBinary) == Some("LONGBLOB")
  {
  }

  /** A decimal type's precision and scale in decimal digits, and negative ones with their sign. */
  lemma DecimalColumn()
    ensures BaseType(DecimalType(10, -2)) == Some("DECIMAL(10,-2)")
  {
    assert Digits(1) == "1" && Digits(10) == Digits(1) + "0" && Digits(2) == "2";
    assert Zeros(0) == "";
    assert FormatInt(10) == "10" && FormatInt(-2) == "-2";
    hide FormatInt;
    assert "DECIMAL(" + "10" + "," + "-2" + ")" == "DECIMAL(10,-2)";
  }

  // ---------- The type text disturbs nothing ----------

  lemma {:induction false} DigitsCalm(s: string)
    requires AllDigits(s)
    ensures Calm(s)
  {
    assert forall i :: 0 <= i < |s| ==> s[i] in s;
    InertCalm(s);
  }

  lemma NumberCalm(i: int)
    ensures Calm(FormatInt(i))
  {
    if i < 0 {
      PaddedNegative(0, -i);
      var s := FormatInt(i);
      DigitsCalm(s[1..]);
      assert s[1] in s[1..];
    } else {
      PaddedDigits(0, i);
      DigitsCalm(FormatInt(i));
    }
  }

  lemma DecimalCalm(p: int, s: int)
    ensures Calm("DECIMAL(" + FormatInt(p) + "," + FormatInt(s) + ")")
  {
    hide Calm;
    NumberCalm(p);
    NumberCalm(s);
    InertCalm("DECIMAL(");
    InertCalm(",");
    InertCalm(")");
    CalmConcat("DECIMAL(", FormatInt(p));
    CalmConcat("DECIMAL(" + FormatInt(p), ",");
    CalmConcat("DECIMAL(" + FormatInt(p) + ",", FormatInt(s));
    CalmConcat("DECIMAL(" + FormatInt(p) + "," + FormatInt(s), ")");
  }

  lemma IntegerTypeCalm(t: ArrowType)
    requires t.Int8? || t.Int16? || t.Int32? || t.Int64? || t.Uint8? || t.Uint16? || t.Uint32? || t.Uint64?
    ensures Calm(BaseType(t).GetOr(""))
  {
    hide Calm;
    InertCalm("TINYINT");
    InertCalm("SMALLINT");
    InertCalm("INT");
    InertCalm("BIGINT");
    InertCalm(" UNSIGNED");
    CalmConcat("TINYINT", " UNSIGNED");
    CalmConcat("SMALLINT", " UNSIGNED");
    CalmConcat("INT", " UNSIGNED");
    CalmConcat("BIGINT", " UNSIGNED");
    assert "TINYINT" + " UNSIGNED" == "TINYINT UNSIGNED" && "SMALLINT" + " UNSIGNED" == "SMALLINT UNSIGNED";
    assert "INT" + " UNSIGNED" == "INT UNSIGNED" && "BIGINT" + " UNSIGNED" == "BIGINT UNSIGNED";
  }

  lemma TemporalTypeCalm(t: ArrowType)
    requires t.Date32? || t.Timestamp? || t.Time32? || t.Time64? || t.Duration?
    ensures Calm(BaseType(t).GetOr(""))
  {
    hide Calm;
    InertCalm("");
    InertCalm("(3)");
    InertCalm("(6)");
    InertCalm("DATE");
    InertCalm("TIME");
    InertCalm("TIMESTAMP");
    InertCalm("DATETIME");
    assert "TIME" + "(3)" == "TIME(3)" && "TIME" + "(6)" == "TIME(6)";
    CalmConcat("TIME", "(3)");
    CalmConcat("TIME", "(6)");
    if t.Timestamp? {
      var base := if t.timeZone != "" then "TIMESTAMP" else "DATETIME";
      CalmConcat(base, "");
      CalmConcat(base, "(3)");
      CalmConcat(base, "(6)");
    }
  }

  lemma OtherTypeCalm(t: ArrowType)
    requires t.Boolean? || t.Float32? || t.Float64? || t.Utf8? || t.Binary? || t.FixedSizeBinary? || t.BinaryView?
      || t.LargeBinary? || t.OtherType?
    ensures Calm(BaseType(t).GetOr(""))
  {
    hide Calm;
    InertCalm("BOOLEAN");
    InertCalm("FLOAT");
    InertCalm("DOUBLE");
    InertCalm("TEXT");
    InertCalm("BLOB");
    InertCalm("LONGBLOB");
  }

  lemma BaseTypeCalm(t: ArrowType)
    ensures Calm(BaseType(t).GetOr(""))
  {
    hide Calm;
    if t.DecimalType? {
      DecimalCalm(t.precision, t.scale);
    } else if t.Date32? || t.Timestamp? || t.Time32? || t.Time64? || t.Duration? {
      TemporalTypeCalm(t);
    } else if t.Int8? || t.Int16? || t.Int32? || t.Int64? || t.Uint8? || t.Uint16? || t.Uint32? || t.Uint64? {
      IntegerTypeCalm(t);
    } else {
      OtherTypeCalm(t);
    }
  }

  lemma ColumnTypeCalm(f: Field)
    ensures Calm(ColumnType(f))
  {
    hide Calm;
    BaseTypeCalm(f.arrowType);
    InertCalm(" NULL");
    InertCalm(" NOT NULL");
    CalmConcat(BaseType(f.arrowType).GetOr(""), if f.nullable then " NULL" else " NOT NULL");
  }

  // ---------- The statement ----------

  function FieldNames(fields: seq<Field>): seq<string> {
    if fields == [] then [] else FieldNames(fields[..|fields| - 1]) + [fields[|fields| - 1].name]
  }

  /** The tokens of the column list, identifiers kept whole. */
  function FieldTokens(fields: seq<Field>): seq<Token> {
    if fields == [] then [] else
    var f := fields[|fields| - 1];
    FieldTokens(fields[..|fields| - 1]) + Plains(if |fields| > 1 then ", " else "") + [Ident(f.name)] + Plains(" " + ColumnType(f))
  }

  function StatementTokens(head: string, table: string, fields: seq<Field>): seq<Token> {
    Plains(head) + [Ident(table)] + Plains(" (") + FieldTokens(fields) + Plains(")")
  }

  function Head(ifNotExists: bool, temporary: bool): string {
    (if temporary then "CREATE TEMPORARY TABLE " else "CREATE TABLE ") + if ifNotExists then "IF NOT EXISTS " else ""
  }

  /** Each column: its quoted name, a blank and its type. */
  function ColumnTexts(fields: seq<Field>): (texts: seq<string>)
    ensures |texts| == |fields|
  {
    seq(|fields|, i requires 0 <= i < |fields| => QuoteIdentifier(fields[i].name) + " " + ColumnType(fields[i]))
  }

  lemma NoColumns()
    ensures Join(ColumnTexts([]), ", ") == ""
  {
  }

  lemma {:induction false} JoinSnoc(parts: seq<string>, part: string, sep: string)
    ensures Join(parts + [part], sep) == Join(parts, sep) + (if parts == [] then "" else sep) + part
  {
    if parts == [] {
      assert [] + [part] == [part];
    } else {
      assert (parts + [part])[1..] == parts[1..] + [part];
      JoinSnoc(parts[1..], part, sep);
      JoinParts(parts, sep);
      JoinParts(parts + [part], sep);
      hide Join;
      if |parts| == 1 {
        assert parts[0] + sep + ("" + "" + part) == parts[0] + sep + part;
      } else {
        assert parts[0] + sep + (Join(parts[1..], sep) + sep + part) == parts[0] + sep + Join(parts[1..], sep) + sep + part;
      }
    }
  }

  lemma JoinParts(parts: seq<string>, sep: string)
    requires parts != []
    ensures Join(parts, sep) == if |parts| == 1 then parts[0] else parts[0] + sep + Join(parts[1..], sep)
    ensures Join([], sep) == ""
  {
  }

  lemma ColumnAdded(opening: string, before: string, text: string, fields: seq<Field>, i: nat)
    requires i < |fields| && before == opening + Join(ColumnTexts(fields[..i]), ", ")
    requires text == before + (if i > 0 then ", " else "") + QuoteIdentifier(fields[i].name) + (" " + ColumnType(fields[i]))
    ensures text == opening + Join(ColumnTexts(fields[..i + 1]), ", ")
  {
    hide QuoteIdentifier, ColumnType, Join;
    var column := QuoteIdentifier(fields[i].name) + " " + ColumnType(fields[i]);
    assert ColumnTexts(fields[..i + 1]) == ColumnTexts(fields[..i]) + [column];
    JoinSnoc(ColumnTexts(fields[..i]), column, ", ");
    var joined, separator := Join(ColumnTexts(fields[..i]), ", "), if i > 0 then ", " else "";
    assert text == opening + joined + separator + column;
    assert opening + (joined + separator + column) == opening + joined + separator + column;
  }

  lemma HeadSpelled()
    ensures Head(false, false) == "CREATE TABLE "
    ensures Head(true, false) == "CREATE TABLE IF NOT EXISTS "
    ensures Head(false, true) == "CREATE TEMPORARY TABLE "
    ensures Head(true, true) == "CREATE TEMPORARY TABLE IF NOT EXISTS "
  {
  }

  /** createTable's text: for every table name and field list it is scanned as exactly these tokens, or the type
      mapping panics. */
  method BuildCreateTable(table: string, fields: seq<Field>, ifNotExists: bool, temporary: bool) returns (sql: Option<string>)
    ensures sql.None? <==> exists i :: 0 <= i < |fields| && BaseType(fields[i].arrowType).None?
    ensures sql.Some? ==> Lex(sql.value) == StatementTokens(Head(ifNotExists, temporary), table, fields)
    ensures sql.Some? ==>
      sql.value == (if temporary then "CREATE TEMPORARY TABLE " else "CREATE TABLE ") + (if ifNotExists then "IF NOT EXISTS " else "")
                   + QuoteIdentifier(table) + " (" + Join(ColumnTexts(fields), ", ") + ")"
  {
    hide Lex, Calm, BaseType, Splits, QuoteIdentifier, Ident, FieldTokens, Plains;
    var text := if temporary then "CREATE TEMPORARY TABLE " else "CREATE TABLE ";
    if ifNotExists {
      text := text + "IF NOT EXISTS ";
    }
    assert text == Head(ifNotExists, temporary);
    HeadSplits(ifNotExists, temporary);
    ghost var start := Plains(text) + [Ident(table)] + Plains(" (");
    InertCalm(" (");
    SplitsIdent(text, Plains(text), table, " (");
    text := text + QuoteIdentifier(table);
    text := text + " (";
    NoFields(start, fields);
    ghost var opening := text;
    assert fields[..0] == [] && opening + "" == opening;
    NoColumns();
    for i := 0 to |fields|
      invariant Splits(text, start + FieldTokens(fields[..i]))
      invariant text == opening + Join(ColumnTexts(fields[..i]), ", ")
      invariant forall j :: 0 <= j < i ==> BaseType(fields[j].arrowType).Some?
    {
      ghost var before := text;
      if i > 0 {
        text := text + ", ";
      }
      text := text + QuoteIdentifier(fields[i].name);
      text := text + " ";
      var base := BaseType(fields[i].arrowType);
      if base.None? {
        return None;
      }
      text := text + (base.value + if fields[i].nullable then " NULL" else " NOT NULL");
      FieldSplits(before, start, fields, i);
      assert text == before + (if i > 0 then ", " else "") + QuoteIdentifier(fields[i].name) + (" " + ColumnType(fields[i]));
      ColumnAdded(opening, before, text, fields, i);
    }
    assert fields[..|fields|] == fields;
    InertCalm(")");
    SplitsText(text, start + FieldTokens(fields), ")");
    text := text + ")";
    SplitsWhole(text, start + FieldTokens(fields) + Plains(")"));
    sql := Some(text);
  }

  lemma FieldSplits(text: string, start: seq<Token>, fields: seq<Field>, i: nat)
    requires i < |fields| && Splits(text, start + FieldTokens(fields[..i]))
    ensures Splits(text + (if i > 0 then ", " else "") + QuoteIdentifier(fields[i].name) + (" " + ColumnType(fields[i])),
                   start + FieldTokens(fields[..i + 1]))
  {
    hide Splits, Calm, ColumnType, QuoteIdentifier, FieldTokens, Plains;
    var separator := if i > 0 then ", " else "";
    var ts := start + FieldTokens(fields[..i]);
    InertCalm(separator);
    SplitsText(text, ts, separator);
    SpacedType(fields[i]);
    SplitsIdent(text + separator, ts + Plains(separator), fields[i].name, " " + ColumnType(fields[i]));
    FieldSnoc(fields, i);
    assert ts + Plains(separator) + [Ident(fields[i].name)] + Plains(" " + ColumnType(fields[i]))
      == start + FieldTokens(fields[..i + 1]);
  }

  lemma CreateCalm(temporary: bool)
    ensures Calm(if temporary then "CREATE TEMPORARY TABLE " else "CREATE TABLE ")
  {
    hide Calm;
    if temporary {
      InertCalm("CREATE TEMPORARY TABLE ");
    } else {
      InertCalm("CREATE TABLE ");
    }
  }

  lemma HeadSplits(ifNotExists: bool, temporary: bool)
    ensures Splits(Head(ifNotExists, temporary), Plains(Head(ifNotExists, temporary)))
  {
    hide Splits, Calm;
    var head := Head(ifNotExists, temporary);
    var first := if temporary then "CREATE TEMPORARY TABLE " else "CREATE TABLE ";
    var second := if ifNotExists then "IF NOT EXISTS " else "";
    CreateCalm(temporary);
    InertCalm(second);
    CalmConcat(first, second);
    SplitsNothing();
    SplitsText("", [], head);
    assert "" + head == head && [] + Plains(head) == Plains(head);
  }

  lemma SpacedType(f: Field)
    ensures Calm(" " + ColumnType(f))
  {
    hide Calm;
    InertCalm(" ");
    ColumnTypeCalm(f);
    CalmConcat(" ", ColumnType(f));
  }

  lemma NoFields(start: seq<Token>, fields: seq<Field>)
    ensures start + FieldTokens(fields[..0]) == start
  {
  }

  lemma FieldSnoc(fields: seq<Field>, i: nat)
    requires i < |fields|
    ensures FieldTokens(fields[..i + 1]) == FieldTokens(fields[..i]) + Plains(if i > 0 then ", " else "")
      + [Ident(fields[i].name)] + Plains(" " + ColumnType(fields[i]))
  {
    assert fields[..i + 1][..i] == fields[..i];
  }

  // ---------- What the tokens say ----------

  lemma PlainsQuiet(s: string)
    ensures NoParamOrComment(Plains(s)) && Names(Plains(s)) == []
  {
    NamesPlains(s);
  }

  lemma {:induction false} FieldTokensNamed(fields: seq<Field>)
    ensures NoParamOrComment(FieldTokens(fields)) && Names(FieldTokens(fields)) == FieldNames(fields)
  {
    hide Names, Plains, Ident, ColumnType;
    if fields == [] {
      NothingNamed();
    } else {
      var f, front := fields[|fields| - 1], fields[..|fields| - 1];
      FieldTokensNamed(front);
      Segment(FieldTokens(front), FieldNames(front), if |fields| > 1 then ", " else "", f.name, " " + ColumnType(f));
    }
  }

  lemma Segment(ts: seq<Token>, names: seq<string>, before: string, name: string, after: string)
    requires NoParamOrComment(ts) && Names(ts) == names
    ensures var us := ts + Plains(before) + [Ident(name)] + Plains(after);
      NoParamOrComment(us) && Names(us) == names + [name]
  {
    hide Names, Plains;
    PlainsQuiet(before);
    PlainsQuiet(after);
    NamesIdent(name);
    NamesAppend(ts, Plains(before));
    NamesAppend(ts + Plains(before), [Ident(name)]);
    NamesAppend(ts + Plains(before) + [Ident(name)], Plains(after));
    assert names + [] + [name] + [] == names + [name];
  }

  /** The statement holds no parameter and no comment, and its identifiers decode to the table's name followed by the
      field names: no name can end its quotes or add anything to the statement. */
  lemma StatementMeaning(head: string, table: string, fields: seq<Field>)
    ensures var ts := StatementTokens(head, table, fields);
      NoParamOrComment(ts) && ParamCount(ts) == 0 && Names(ts) == [table] + FieldNames(fields)
  {
    hide Names, Plains, Ident, FieldTokens;
    var start := Plains(head) + [Ident(table)] + Plains(" (");
    var ts := StatementTokens(head, table, fields);
    NothingNamed();
    Segment([], [], head, table, " (");
    assert [] + Plains(head) == Plains(head) && [] + [table] == [table];
    FieldTokensNamed(fields);
    PlainsQuiet(")");
    NamesAppend(start, FieldTokens(fields));
    NamesAppend(start + FieldTokens(fields), Plains(")"));
    assert [table] + FieldNames(fields) + [] == [table] + FieldNames(fields);
    QuietNoParams(ts);
  }

  lemma {:induction false} QuietNoParams(ts: seq<Token>)
    requires NoParamOrComment(ts)
    ensures ParamCount(ts) == 0
  {
    if ts != [] {
      assert ts[0] in ts;
      assert forall t <- ts[1..] :: t in ts;
      QuietNoParams(ts[1..]);
    }
  }
}
