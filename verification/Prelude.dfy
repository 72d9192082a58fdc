/** Option, and the table keys that three parts of the driver build by joining names with NUL. */
module Prelude {
  datatype Option<+T> = None | Some(value: T) {
    function GetOr(default: T): T {
      if Some? then value else default
    }
  }

  /** strings.IndexByte, with the length in place of -1. */
  function Find(s: string, c: char): (i: nat)
    ensures i <= |s| && (forall j :: 0 <= j < i ==> s[j] != c) && (i < |s| ==> s[i] == c)
  {
    if s == "" then 0
    else if s[0] == c then 0
    else 1 + Find(s[1..], c)
  }

  lemma FindAt(a: string, c: char, b: string)
    requires c !in a
    ensures Find(a + [c] + b, c) == |a|
  {
    var s := a + [c] + b;
    assert forall j :: 0 <= j < |a| ==> s[j] == a[j];
    assert s[|a|] == c;
  }

  const NUL: char := '\0'

  predicate NulFree(s: string) {
    NUL !in s
  }

  /** The composite map key: catalog, a NUL, table. */
  function TableKey(catalog: string, table: string): string {
    catalog + [NUL] + table
  }

  /** Two pairs share a key only if they are the same pair, as soon as both catalogs are free of NUL;
      nothing is asked of the table names. */
  lemma TableKeyInjective(c1: string, t1: string, c2: string, t2: string)
    requires NulFree(c1) && NulFree(c2)
    requires TableKey(c1, t1) == TableKey(c2, t2)
    ensures c1 == c2 && t1 == t2
  {
    var k1, k2 := TableKey(c1, t1), TableKey(c2, t2);
    assert k1[|c1|] == NUL && k2[|c2|] == NUL;
    assert forall i :: 0 <= i < |c1| ==> k1[i] == c1[i] != NUL;
    assert forall i :: 0 <= i < |c2| ==> k2[i] == c2[i] != NUL;
    assert |c1| == |c2|;
    assert c1 == k1[..|c1|] && c2 == k2[..|c1|];
    assert t1 == k1[|c1| + 1..] && t2 == k2[|c1| + 1..];
  }

  /** A NUL in a catalog name does confuse two pairs. */
  lemma TableKeyConfusesNul()
    ensures exists c1, t1, c2, t2 :: (c1 != c2 || t1 != t2) && TableKey(c1, t1) == TableKey(c2, t2)
  {
    var c1, t1, c2, t2 := "a\0b", "c", "a", "b\0c";
    assert TableKey(c1, t1) == TableKey(c2, t2);
  }
}
