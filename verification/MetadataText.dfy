/** The fixed, parameter-free text of the metadata queries, in pieces of whole names that are inert to the scanner. */
module MetadataText {
  import opened SqlText

  type InertText = s: string | Inert(s) witness ""
  type Fixed = seq<InertText>

  function Cat(pieces: Fixed): (s: string)
    ensures Inert(s)
  {
    if pieces == [] then "" else Cat(pieces[..|pieces| - 1]) + pieces[|pieces| - 1]
  }

  const OBJECTS_SELECT_1: Fixed := ["\n\t\tSELECT", "\n\t\t\ts.SCHEMA_NAME AS ", "CATALOG_NAME,"]
  const OBJECTS_SELECT_2: Fixed := ["\n\t\t\tsch.DB_SCHEMA_NAME,", "\n\t\t\tt.TABLE_NAME,"]
  const OBJECTS_SELECT_3: Fixed := ["\n\t\t\tt.TABLE_TYPE,", "\n\t\t\tc.ORDINAL_POSITION,"]
  const OBJECTS_SELECT_4: Fixed := ["\n\t\t\tc.COLUMN_NAME,", "\n\t\t\tc.COLUMN_COMMENT,"]
  const OBJECTS_SELECT_5: Fixed := ["\n\t\t\tc.DATA_TYPE,", "\n\t\t\tc.COLUMN_TYPE,"]
  const OBJECTS_SELECT_6: Fixed := ["\n\t\t\tc.IS_NULLABLE,", "\n\t\t\tc.COLUMN_DEFAULT,"]
  const OBJECTS_SELECT_7: Fixed := ["\n\t\t\tc.CHARACTER_MAXIMUM_LENGTH,"]
  const OBJECTS_SELECT_8: Fixed := ["\n\t\t\tc.CHARACTER_OCTET_LENGTH,"]
  const OBJECTS_SELECT_9: Fixed := ["\n\t\t\tc.NUMERIC_PRECISION,", "\n\t\t\tc.NUMERIC_SCALE,"]
  const OBJECTS_SELECT_10: Fixed := ["\n\t\t\tc.DATETIME_PRECISION,", "\n\t\t\tc.EXTRA,"]
  const OBJECTS_SELECT_11: Fixed := ["\n\t\t\tc.GENERATION_EXPRESSION"]
  const OBJECTS_SELECT_12: Fixed := ["\n\t\tFROM INFORMATION_SCHEMA.", "SCHEMATA s"]
  const OBJECTS_SELECT: Fixed :=
    OBJECTS_SELECT_1 + OBJECTS_SELECT_2 + OBJECTS_SELECT_3 + OBJECTS_SELECT_4 + OBJECTS_SELECT_5 + OBJECTS_SELECT_6 +
    OBJECTS_SELECT_7 + OBJECTS_SELECT_8 + OBJECTS_SELECT_9 + OBJECTS_SELECT_10 + OBJECTS_SELECT_11 + OBJECTS_SELECT_12
  const SCHEMA_JOIN_OPEN: Fixed := ["\n\t\tLEFT JOIN (SELECT "]
  const SCHEMA_JOIN_CLOSE: Fixed := [" AS DB_SCHEMA_NAME) sch", "\n\t\t\tON 1=1"]
  const TABLE_JOIN_1: Fixed := ["\n\t\tLEFT JOIN ", "INFORMATION_SCHEMA.TABLES t"]
  const TABLE_JOIN_2: Fixed := ["\n\t\t\tON s.SCHEMA_NAME = ", "t.TABLE_SCHEMA"]
  const TABLE_JOIN_3: Fixed := ["\n\t\t\tAND sch.DB_SCHEMA_NAME IS ", "NOT NULL"]
  const TABLE_JOIN: Fixed :=
    TABLE_JOIN_1 + TABLE_JOIN_2 + TABLE_JOIN_3
  const COLUMN_JOIN_1: Fixed := ["\n\t\tLEFT JOIN ", "INFORMATION_SCHEMA.COLUMNS c"]
  const COLUMN_JOIN_2: Fixed := ["\n\t\t\tON t.TABLE_SCHEMA = ", "c.TABLE_SCHEMA"]
  const COLUMN_JOIN_3: Fixed := ["\n\t\t\tAND t.TABLE_NAME = ", "c.TABLE_NAME"]
  const COLUMN_JOIN: Fixed :=
    COLUMN_JOIN_1 + COLUMN_JOIN_2 + COLUMN_JOIN_3
  const OBJECTS_ORDER_1: Fixed := [" ORDER BY s.SCHEMA_NAME, ", "t.TABLE_NAME, "]
  const OBJECTS_ORDER_2: Fixed := ["c.ORDINAL_POSITION"]
  const OBJECTS_ORDER: Fixed :=
    OBJECTS_ORDER_1 + OBJECTS_ORDER_2
  const CONSTRAINTS_SELECT_1: Fixed := ["SELECT", "\n\t\ttc.CONSTRAINT_SCHEMA,", "\n\t\ttc.TABLE_NAME,"]
  const CONSTRAINTS_SELECT_2: Fixed := ["\n\t\ttc.CONSTRAINT_NAME,", "\n\t\ttc.CONSTRAINT_TYPE,"]
  const CONSTRAINTS_SELECT_3: Fixed := ["\n\t\tkcu.ORDINAL_POSITION,", "\n\t\tkcu.COLUMN_NAME,"]
  const CONSTRAINTS_SELECT_4: Fixed := ["\n\t\tkcu.REFERENCED_TABLE_SCHEMA,"]
  const CONSTRAINTS_SELECT_5: Fixed := ["\n\t\tkcu.REFERENCED_TABLE_NAME,"]
  const CONSTRAINTS_SELECT_6: Fixed := ["\n\t\tkcu.REFERENCED_COLUMN_NAME"]
  const CONSTRAINTS_SELECT_7: Fixed := ["\n\tFROM INFORMATION_SCHEMA.", "TABLE_CONSTRAINTS tc"]
  const CONSTRAINTS_SELECT_8: Fixed := ["\n\tJOIN INFORMATION_SCHEMA.", "TABLES t"]
  const CONSTRAINTS_SELECT_9: Fixed := ["\n\t  ON t.TABLE_SCHEMA = ", "tc.TABLE_SCHEMA AND "]
  const CONSTRAINTS_SELECT_10: Fixed := ["t.TABLE_NAME = tc.TABLE_NAME"]
  const CONSTRAINTS_SELECT_11: Fixed := ["\n\tLEFT JOIN INFORMATION_SCHEMA."]
  const CONSTRAINTS_SELECT_12: Fixed := ["KEY_COLUMN_USAGE kcu"]
  const CONSTRAINTS_SELECT_13: Fixed := ["\n\t  ON kcu.CONSTRAINT_SCHEMA = "]
  const CONSTRAINTS_SELECT_14: Fixed := ["tc.CONSTRAINT_SCHEMA", "\n\t AND kcu.TABLE_NAME = "]
  const CONSTRAINTS_SELECT_15: Fixed := ["tc.TABLE_NAME", "\n\t AND kcu.CONSTRAINT_NAME = "]
  const CONSTRAINTS_SELECT_16: Fixed := ["tc.CONSTRAINT_NAME", "\n\tWHERE 1=1"]
  const CONSTRAINTS_SELECT: Fixed :=
    CONSTRAINTS_SELECT_1 + CONSTRAINTS_SELECT_2 + CONSTRAINTS_SELECT_3 + CONSTRAINTS_SELECT_4 + CONSTRAINTS_SELECT_5 +
    CONSTRAINTS_SELECT_6 + CONSTRAINTS_SELECT_7 + CONSTRAINTS_SELECT_8 + CONSTRAINTS_SELECT_9 +
    CONSTRAINTS_SELECT_10 + CONSTRAINTS_SELECT_11 + CONSTRAINTS_SELECT_12 + CONSTRAINTS_SELECT_13 +
    CONSTRAINTS_SELECT_14 + CONSTRAINTS_SELECT_15 + CONSTRAINTS_SELECT_16
  const CONSTRAINTS_ORDER_1: Fixed := [" ORDER BY tc.CONSTRAINT_SCHEMA,", " tc.TABLE_NAME, "]
  const CONSTRAINTS_ORDER_2: Fixed := ["tc.CONSTRAINT_NAME, ", "kcu.ORDINAL_POSITION"]
  const CONSTRAINTS_ORDER: Fixed :=
    CONSTRAINTS_ORDER_1 + CONSTRAINTS_ORDER_2
  const STATISTICS_SELECT_1: Fixed := ["\n\t\tSELECT TABLE_SCHEMA, ", "TABLE_NAME, TABLE_ROWS, "]
  const STATISTICS_SELECT_2: Fixed := ["AVG_ROW_LENGTH,", "\n\t\t       DATA_LENGTH, "]
  const STATISTICS_SELECT_3: Fixed := ["INDEX_LENGTH", "\n\t\tFROM INFORMATION_SCHEMA.", "TABLES"]
  const STATISTICS_SELECT_4: Fixed := ["\n\t\tWHERE TABLE_TYPE = "]
  const STATISTICS_SELECT: Fixed :=
    STATISTICS_SELECT_1 + STATISTICS_SELECT_2 + STATISTICS_SELECT_3 + STATISTICS_SELECT_4
  const STATISTICS_ORDER: Fixed := ["\n\t\tORDER BY TABLE_SCHEMA, ", "TABLE_NAME"]
  const INDEX_SELECT_1: Fixed := ["\n\t\tSELECT TABLE_SCHEMA, "]
  const INDEX_SELECT_2: Fixed := ["TABLE_NAME, COLUMN_NAME, ", "MAX(CARDINALITY)"]
  const INDEX_SELECT_3: Fixed := ["\n\t\tFROM INFORMATION_SCHEMA.", "STATISTICS"]
  const INDEX_SELECT_4: Fixed := ["\n\t\tWHERE CARDINALITY IS NOT ", "NULL"]
  const INDEX_SELECT: Fixed :=
    INDEX_SELECT_1 + INDEX_SELECT_2 + INDEX_SELECT_3 + INDEX_SELECT_4
  const INDEX_ORDER_1: Fixed := ["\n\t\tGROUP BY TABLE_SCHEMA, "]
  const INDEX_ORDER_2: Fixed := ["TABLE_NAME, COLUMN_NAME"]
  const INDEX_ORDER_3: Fixed := ["\n\t\tORDER BY TABLE_SCHEMA, "]
  const INDEX_ORDER_4: Fixed := ["TABLE_NAME, COLUMN_NAME"]
  const INDEX_ORDER: Fixed :=
    INDEX_ORDER_1 + INDEX_ORDER_2 + INDEX_ORDER_3 + INDEX_ORDER_4
}
