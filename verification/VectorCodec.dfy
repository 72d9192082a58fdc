/** VECTOR columns: little-endian float32 rows flattened into one child array. A float is its 32-bit pattern, which
    both conversions carry unchanged. The list builder is assumed to pad its child on a null row. */
module VectorCodec {
  import opened Prelude

  type Byte = b: int | 0 <= b < 256
  type Word = w: int | 0 <= w < 0x1_0000_0000

  // ---------- binary.LittleEndian ----------

  function Uint32(b: seq<Byte>): Word
    requires |b| == 4
  {
    var b0: int, b1: int, b2: int, b3: int := b[0], b[1], b[2], b[3];
    b0 + 0x100 * b1 + 0x1_0000 * b2 + 0x100_0000 * b3
  }

  function PutUint32(w: Word): (b: seq<Byte>)
    ensures |b| == 4
  {
    [w % 0x100, w / 0x100 % 0x100, w / 0x1_0000 % 0x100, w / 0x100_0000]
  }

  function DecodeRow(raw: seq<Byte>): (words: seq<Word>)
    requires |raw| % 4 == 0
    ensures 4 * |words| == |raw|
  {
    if raw == [] then [] else DecodeRow(raw[..|raw| - 4]) + [Uint32(raw[|raw| - 4..])]
  }

  function EncodeRow(words: seq<Word>): (raw: seq<Byte>)
    ensures |raw| == 4 * |words|
  {
    if words == [] then [] else EncodeRow(words[..|words| - 1]) + PutUint32(words[|words| - 1])
  }

  /** The number that four bytes of a row stand for, the least significant first. */
  predicate LittleEndian(w: Word, raw: seq<Byte>, at: nat) {
    at + 4 <= |raw| &&
    var a: int, b: int, c: int, d: int := raw[at], raw[at + 1], raw[at + 2], raw[at + 3];
    w as int == a + 256 * b + 65_536 * c + 16_777_216 * d
  }

  /** Element i of a row is in bytes 4i to 4i+3. */
  lemma {:induction false} DecodeAt(raw: seq<Byte>, i: nat)
    requires |raw| % 4 == 0 && i < |DecodeRow(raw)|
    ensures LittleEndian(DecodeRow(raw)[i], raw, 4 * i)
  {
    var front := raw[..|raw| - 4];
    if i < |DecodeRow(front)| {
      DecodeAt(front, i);
    }
  }

  lemma {:induction false} EncodeAt(words: seq<Word>, i: nat)
    requires i < |words|
    ensures LittleEndian(words[i], EncodeRow(words), 4 * i)
  {
    var raw := EncodeRow(words);
    RowWordsRoundTrip(words);
    hide DecodeRow, EncodeRow, LittleEndian;
    DecodeAt(raw, i);
  }

  lemma WordRoundTrip(w: Word)
    ensures Uint32(PutUint32(w)) == w
  {
    var v: int := w;
    assert v / 0x1_0000 == v / 0x100 / 0x100 && v / 0x100_0000 == v / 0x1_0000 / 0x100;
    assert v == 0x100 * (v / 0x100) + v % 0x100;
  }

  lemma BytesRoundTrip(b: seq<Byte>)
    requires |b| == 4
    ensures PutUint32(Uint32(b)) == b
  {
    var b0: int, b1: int, b2: int, b3: int := b[0], b[1], b[2], b[3];
    var w := Uint32(b);
    assert w / 0x100 == b1 + 0x100 * b2 + 0x1_0000 * b3;
    assert w / 0x1_0000 == b2 + 0x100 * b3;
    assert w / 0x100_0000 == b3;
    assert b == [b[0], b[1], b[2], b[3]];
  }

  /** Decoding and encoding are inverse, both ways. */
  lemma {:induction false} RowBytesRoundTrip(raw: seq<Byte>)
    requires |raw| % 4 == 0
    ensures EncodeRow(DecodeRow(raw)) == raw
  {
    if raw != [] {
      RowBytesRoundTrip(raw[..|raw| - 4]);
      BytesRoundTrip(raw[|raw| - 4..]);
      var words := DecodeRow(raw);
      assert words[..|words| - 1] == DecodeRow(raw[..|raw| - 4]);
      assert raw == raw[..|raw| - 4] + raw[|raw| - 4..];
    }
  }

  lemma {:induction false} RowWordsRoundTrip(words: seq<Word>)
    ensures DecodeRow(EncodeRow(words)) == words
  {
    if words != [] {
      var front, w := words[..|words| - 1], words[|words| - 1];
      RowWordsRoundTrip(front);
      WordRoundTrip(w);
      var raw := EncodeRow(words);
      assert raw[..|raw| - 4] == EncodeRow(front) && raw[|raw| - 4..] == PutUint32(w);
    }
  }

  lemma DecodeSnoc(raw: seq<Byte>, offset: nat)
    requires offset + 4 <= |raw| && offset % 4 == 0
    ensures DecodeRow(raw[..offset + 4]) == DecodeRow(raw[..offset]) + [Uint32(raw[offset..offset + 4])]
  {
    hide Uint32;
    assert raw[..offset + 4][..offset] == raw[..offset];
    assert raw[..offset + 4][offset..] == raw[offset..offset + 4];
  }

  lemma EncodeSnoc(words: seq<Word>, i: nat)
    requires i < |words|
    ensures EncodeRow(words[..i + 1]) == EncodeRow(words[..i]) + PutUint32(words[i])
  {
    hide PutUint32;
    assert words[..i + 1][..i] == words[..i];
  }

  /** The append loop over a row's bytes. */
  method AppendWords(before: seq<Word>, raw: seq<Byte>) returns (child: seq<Word>)
    requires |raw| % 4 == 0
    ensures child == before + DecodeRow(raw)
    ensures forall i: nat | i < |raw| / 4 :: LittleEndian(child[|before| + i], raw, 4 * i)
  {
    hide Uint32, DecodeRow, LittleEndian;
    child := before;
    var offset := 0;
    NoBytes();
    assert raw[..0] == [] && before + [] == before;
    while offset < |raw|
      invariant 0 <= offset <= |raw| && offset % 4 == 0
      invariant child == before + DecodeRow(raw[..offset])
      decreases |raw| - offset
    {
      DecodeSnoc(raw, offset);
      child := child + [Uint32(raw[offset..offset + 4])];
      offset := offset + 4;
    }
    assert raw[..|raw|] == raw;
    AllDecoded(raw);
  }

  lemma AllDecoded(raw: seq<Byte>)
    requires |raw| % 4 == 0
    ensures forall i: nat | i < |raw| / 4 :: LittleEndian(DecodeRow(raw)[i], raw, 4 * i)
  {
    hide LittleEndian, DecodeRow;
    forall i: nat | i < |raw| / 4
      ensures LittleEndian(DecodeRow(raw)[i], raw, 4 * i)
    {
      DecodeAt(raw, i);
    }
  }

  lemma AllEncoded(words: seq<Word>)
    ensures forall i: nat | i < |words| :: LittleEndian(words[i], EncodeRow(words), 4 * i)
  {
    hide LittleEndian, EncodeRow;
    forall i: nat | i < |words|
      ensures LittleEndian(words[i], EncodeRow(words), 4 * i)
    {
      EncodeAt(words, i);
    }
  }

  lemma NoBytes()
    ensures DecodeRow([]) == [] && EncodeRow([]) == []
  {
  }

  /** The conversion loop: each element written over its four bytes of a zeroed buffer. */
  method ConvertWords(child: seq<Word>, start: nat, dim: nat) returns (raw: seq<Byte>)
    requires start + dim <= |child|
    ensures raw == EncodeRow(child[start..start + dim])
    ensures forall i: nat | i < dim :: LittleEndian(child[start + i], raw, 4 * i)
  {
    AllEncoded(child[start..start + dim]);
    hide PutUint32, EncodeRow, LittleEndian;
    ghost var words := child[start..start + dim];
    NoBytes();
    raw := seq(dim * 4, _ => 0);
    assert words[..0] == [];
    for i := 0 to dim
      invariant |raw| == dim * 4
      invariant raw[..4 * i] == EncodeRow(words[..i])
    {
      assert words[i] == child[start + i];
      EncodeSnoc(words, i);
      var b := PutUint32(child[start + i]);
      ghost var done := raw[..4 * i];
      raw := raw[..4 * i] + b + raw[4 * i + 4..];
      assert raw[..4 * i + 4] == done + b;
    }
    assert words[..dim] == words && raw[..4 * dim] == raw;
  }

  // ---------- The builder and the two conversions ----------

  datatype SqlValue = Null | Raw(bytes: seq<Byte>) | Other

  /** The child elements of row i. */
  function RowElements(child: seq<Word>, dim: nat, i: nat): seq<Word>
    requires dim * (i + 1) <= |child|
  {
    RowBounds(dim, i, i + 1);
    child[dim * i..dim * (i + 1)]
  }

  lemma RowBounds(dim: nat, i: nat, j: nat)
    requires i <= j
    ensures 0 <= dim * i <= dim * j
    ensures dim * (i + 1) == dim * i + dim
  {
  }

  ghost predicate RowHolds(dim: nat, validity: seq<bool>, child: seq<Word>, rows: seq<Option<seq<Byte>>>, i: nat) {
    && i < |rows| && i < |validity| && dim * (i + 1) <= |child|
    && (validity[i] <==> rows[i].Some?)
    && (rows[i].Some? ==> |rows[i].value| == 4 * dim && RowElements(child, dim, i) == DecodeRow(rows[i].value))
  }

  /** The child holds dim elements per row, null rows included, and the elements of each non-null row decode it. */
  ghost predicate Represents(dim: nat, validity: seq<bool>, child: seq<Word>, rows: seq<Option<seq<Byte>>>) {
    && |rows| == |validity| && |child| == dim * |validity|
    && forall i: nat :: i < |rows| ==> RowHolds(dim, validity, child, rows, i)
  }

  lemma RowAppended(dim: nat, validity: seq<bool>, child: seq<Word>, rows: seq<Option<seq<Byte>>>,
                    words: seq<Word>, row: Option<seq<Byte>>)
    requires Represents(dim, validity, child, rows) && |words| == dim
    requires row.Some? ==> |row.value| == 4 * dim && DecodeRow(row.value) == words
    ensures Represents(dim, validity + [row.Some?], child + words, rows + [row])
  {
    var n := |rows|;
    RowBounds(dim, n, n + 1);
    assert RowElements(child + words, dim, n) == words;
    forall i: nat | i < n
      ensures RowHolds(dim, validity + [row.Some?], child + words, rows + [row], i)
    {
      assert RowHolds(dim, validity, child, rows, i);
      RowBounds(dim, i + 1, n);
      RowBounds(dim, i, i + 1);
      assert RowElements(child + words, dim, i) == RowElements(child, dim, i);
    }
  }

  lemma RowReturned(dim: nat, validity: seq<bool>, child: seq<Word>, rows: seq<Option<seq<Byte>>>, i: nat)
    requires Represents(dim, validity, child, rows) && i < |validity|
    ensures i < |rows| && (validity[i] <==> rows[i].Some?)
    ensures 0 <= dim * i <= dim * i + dim <= |child|
    ensures validity[i] ==> EncodeRow(child[dim * i..dim * i + dim]) == rows[i].value
  {
    hide EncodeRow, DecodeRow;
    assert RowHolds(dim, validity, child, rows, i);
    RowBounds(dim, i, i + 1);
    if validity[i] {
      RowBytesRoundTrip(rows[i].value);
    }
  }

  class VectorColumn {
    const dim: nat
    var validity: seq<bool>
    var child: seq<Word>
    /** What was appended, row by row. */
    ghost var rows: seq<Option<seq<Byte>>>

    ghost predicate Valid()
      reads this
    {
      Represents(dim, validity, child, rows)
    }

    constructor (dim: nat)
      ensures Valid() && this.dim == dim && rows == []
    {
      this.dim := dim;
      validity, child, rows := [], [], [];
    }

    /** A null or a value of exactly dim floats adds one row; anything else is an error and changes nothing. */
    method AppendValue(v: SqlValue) returns (ok: bool)
      requires Valid()
      modifies this
      ensures Valid()
      ensures ok <==> v.Null? || (v.Raw? && |v.bytes| == 4 * dim)
      ensures rows == old(rows) + (if !ok then [] else if v.Null? then [None] else [Some(v.bytes)])
      ensures !ok ==> validity == old(validity) && child == old(child)
      ensures old(child) <= child && old(validity) <= validity
      ensures ok && v.Raw? ==> forall i: nat | i < dim ::
        |old(child)| + i < |child| && LittleEndian(child[|old(child)| + i], v.bytes, 4 * i)
    {
      hide Represents, DecodeRow, LittleEndian;
      match v {
        case Other =>
          return false;
        case Null =>
          RowAppended(dim, validity, child, rows, seq(dim, _ => 0), None);
          validity := validity + [false];
          child := child + seq(dim, _ => 0);
          rows := rows + [None];
        case Raw(raw) =>
          if |raw| != dim * 4 {
            return false;
          }
          RowAppended(dim, validity, child, rows, DecodeRow(raw), Some(raw));
          validity := validity + [true];
          child := AppendWords(child, raw);
          rows := rows + [Some(raw)];
      }
      ok := true;
    }

    /** ConvertArrowToGo: every row converts back to what was appended. */
    method Convert(index: nat) returns (value: Option<seq<Byte>>)
      requires Valid() && index < |validity|
      ensures value == rows[index]
    {
      hide EncodeRow, Represents;
      RowReturned(dim, validity, child, rows, index);
      if !validity[index] {
        return None;
      }
      var raw := ConvertWords(child, dim * index, dim);
      value := Some(raw);
    }
  }
}
