/** Error structs shared with C. Their memory comes from malloc and calloc and goes back through free, which is called
    only on NULL or on memory that is still allocated: a pointer freed twice would break the contract of Free. */
module CErrors {
  import opened Prelude

  /** One allocation, by what it is used for. */
  datatype Block =
    | Bytes(data: string)
    | Pointers(cells: seq<nat>)
    | Sizes(sizes: seq<nat>)
    | Details(details: CDetails)
    | Struct

  /** MariaDBError; the pointers are addresses, 0 is NULL. */
  datatype CDetails = CDetails(message: nat, keys: nat, values: nat, lengths: nat, count: nat)

  /** Which function the release member points to. */
  datatype Releaser = NoRelease | ReleaseMessage | ReleaseDetails

  /** The fields of an AdbcError. */
  datatype Fields = Fields(message: nat, vendorCode: int, sqlState: string, release: Releaser, privateData: nat)

  datatype Serialized = Serialized(bytes: string) | NotSerialized(message: string)
  datatype Detail = Detail(key: string, value: Serialized)

  /** The ADBC status codes. */
  datatype Status = OK | Unknown | NotImplemented | NotFound | AlreadyExists | InvalidArgument | InvalidState | InvalidData
    | Integrity | Internal | IO | Cancelled | Timeout | Unauthenticated | Unauthorized

  datatype GoError = GoError(code: Status, message: string, vendorCode: int, sqlState: string, details: seq<Detail>)

  /** What a Go call reports. */
  datatype Failure = Adbc(error: GoError) | Other(text: string)

  /** errToAdbcErr's result. */
  function StatusOf(err: Failure): Status {
    match err
    case Adbc(e) => e.code
    case Other(_) => Unknown
  }

  /** What a stream callback returns; zero is success. */
  datatype Errno = Zero | EIO | ENOTSUP | ENOENT | EEXIST | EINVAL | ECANCELED | ETIMEDOUT | EACCES

  function ErrnoOf(status: Status): (code: Errno)
    ensures code != Zero
    ensures code == EINVAL <==> status in {InvalidArgument, InvalidState}
    ensures code == EACCES <==> status in {Unauthenticated, Unauthorized}
    ensures code == ENOTSUP <==> status == NotImplemented
    ensures code == ENOENT <==> status == NotFound
    ensures code == EEXIST <==> status == AlreadyExists
    ensures code == ECANCELED <==> status == Cancelled
    ensures code == ETIMEDOUT <==> status == Timeout
  {
    match status
    case NotImplemented => ENOTSUP
    case NotFound => ENOENT
    case AlreadyExists => EEXIST
    case InvalidArgument => EINVAL
    case InvalidState => EINVAL
    case Cancelled => ECANCELED
    case Timeout => ETIMEDOUT
    case Unauthenticated => EACCES
    case Unauthorized => EACCES
    case _ => EIO
  }

  type Blocks = map<nat, Block>

  /** ADBC_ERROR_VENDOR_CODE_PRIVATE_DATA, INT32_MIN. */
  const PRIVATE_DATA: int := -0x8000_0000

  const PREFIX := "[mariadb] "

  class Memory {
    var blocks: Blocks

    ghost predicate Valid()
      reads this
    {
      0 !in blocks
    }

    /** calloc and C.CString: any address that is not in use. */
    method Allocate(b: Block) returns (p: nat)
      requires Valid()
      modifies this
      ensures Valid() && p != 0 && p !in old(blocks) && blocks == old(blocks)[p := b]
    {
      FreshAddress(blocks.Keys);
      p :| p != 0 && p !in blocks;
      blocks := blocks[p := b];
    }

    /** malloc of nothing may return NULL. */
    method AllocateBytes(data: string, nullIfEmpty: bool) returns (p: nat)
      requires Valid()
      modifies this
      ensures Valid() && p !in old(blocks)
      ensures if data == "" && nullIfEmpty then p == 0 && blocks == old(blocks)
              else p != 0 && blocks == old(blocks)[p := Bytes(data)]
    {
      if data == "" && nullIfEmpty {
        return 0;
      }
      p := Allocate(Bytes(data));
    }

    method Write(p: nat, b: Block)
      requires Valid() && p in blocks
      modifies this
      ensures Valid() && blocks == old(blocks)[p := b]
    {
      blocks := blocks[p := b];
    }

    method Free(p: nat)
      requires Valid() && (p == 0 || p in blocks)
      modifies this
      ensures Valid() && blocks == old(blocks) - {p}
    {
      blocks := blocks - {p};
    }
  }

  lemma {:induction false} AddressBound(s: set<nat>) returns (n: nat)
    ensures forall p <- s :: p < n
  {
    if s == {} {
      n := 0;
    } else {
      var p :| p in s;
      var m := AddressBound(s - {p});
      n := if p < m then m else p + 1;
      assert forall q <- s :: q == p || q in s - {p};
    }
  }

  lemma FreshAddress(s: set<nat>)
    ensures exists p: nat :: p != 0 && p !in s
  {
    var n := AddressBound(s);
    assert n + 1 != 0 && n + 1 !in s;
  }

  // ---------- What an error struct owns ----------

  /** k0, v0, k1, v1, ... */
  function Pairs(keys: seq<nat>, values: seq<nat>): seq<nat>
    requires |keys| == |values|
  {
    var last := |keys| - 1;
    if keys == [] then [] else Pairs(keys[..last], values[..last]) + [keys[last], values[last]]
  }

  lemma {:induction false} PairsAt(keys: seq<nat>, values: seq<nat>)
    requires |keys| == |values|
    ensures |Pairs(keys, values)| == 2 * |keys|
    ensures forall i | 0 <= i < |keys| :: Pairs(keys, values)[2 * i] == keys[i] && Pairs(keys, values)[2 * i + 1] == values[i]
  {
    if keys != [] {
      var last := |keys| - 1;
      PairsAt(keys[..last], values[..last]);
      forall i | 0 <= i < |keys|
        ensures Pairs(keys, values)[2 * i] == keys[i] && Pairs(keys, values)[2 * i + 1] == values[i]
      {
        if i < last {
          assert Pairs(keys[..last], values[..last])[2 * i] == keys[..last][i];
          assert Pairs(keys[..last], values[..last])[2 * i + 1] == values[..last][i];
        }
      }
    }
  }

  predicate IsArrays(blocks: Blocks, d: CDetails) {
    && d.keys in blocks && blocks[d.keys].Pointers? && |blocks[d.keys].cells| == d.count
    && d.values in blocks && blocks[d.values].Pointers? && |blocks[d.values].cells| == d.count
    && d.lengths in blocks && blocks[d.lengths].Sizes? && |blocks[d.lengths].sizes| == d.count
  }

  predicate Laid(blocks: Blocks, e: Fields) {
    e.release.ReleaseDetails? ==>
      && e.privateData in blocks && blocks[e.privateData].Details?
      && var d := blocks[e.privateData].details;
         if d.count == 0 then d.keys == 0 && d.values == 0 && d.lengths == 0 else IsArrays(blocks, d)
  }

  function KeyCells(blocks: Blocks, d: CDetails): (cells: seq<nat>)
    requires d.count > 0 ==> IsArrays(blocks, d)
    ensures |cells| == d.count
  {
    if d.count == 0 then [] else blocks[d.keys].cells
  }

  function ValueCells(blocks: Blocks, d: CDetails): (cells: seq<nat>)
    requires d.count > 0 ==> IsArrays(blocks, d)
    ensures |cells| == d.count
  {
    if d.count == 0 then [] else blocks[d.values].cells
  }

  /** Everything the release function of the struct passes to free. */
  function Frees(blocks: Blocks, e: Fields): seq<nat>
    requires Laid(blocks, e)
  {
    match e.release
    case NoRelease => []
    case ReleaseMessage => [e.message]
    case ReleaseDetails =>
      var d := blocks[e.privateData].details;
      [e.privateData, e.message, d.keys, d.values, d.lengths] + Pairs(KeyCells(blocks, d), ValueCells(blocks, d))
  }

  /** Each address can be freed in turn. */
  predicate FreeOnce(blocks: Blocks, f: seq<nat>) {
    && (forall p <- f :: p == 0 || p in blocks)
    && (forall i, j | 0 <= i < j < |f| && f[i] == f[j] :: f[i] == 0)
  }

  predicate Sound(blocks: Blocks, e: Fields) {
    Laid(blocks, e) && FreeOnce(blocks, Frees(blocks, e))
  }

  /** The memory that belongs to the struct. */
  function Owned(blocks: Blocks, e: Fields): set<nat>
    requires Laid(blocks, e)
  {
    set p | p in Frees(blocks, e) && p != 0
  }

  // ---------- The two getters ----------

  /** What a C reader sees at a char pointer. */
  function CString(data: string): string {
    data[..Find(data, NUL)]
  }

  predicate HasDetails(e: Fields) {
    e.release.ReleaseDetails? && e.privateData != 0
  }

  /** MariaDBErrorGetDetailCount. */
  function DetailCount(blocks: Blocks, e: Fields): nat
    requires Laid(blocks, e)
  {
    if !HasDetails(e) then 0 else blocks[e.privateData].details.count
  }

  /** MariaDBErrorGetDetail: key, value and length, null for an index out of range. */
  function DetailAt(blocks: Blocks, e: Fields, index: int): (nat, nat, nat)
    requires Laid(blocks, e)
  {
    if !HasDetails(e) then (0, 0, 0)
    else
      var d := blocks[e.privateData].details;
      if index < 0 || index >= d.count then (0, 0, 0)
      else (blocks[d.keys].cells[index], blocks[d.values].cells[index], blocks[d.lengths].sizes[index])
  }


  function Elements(f: seq<nat>): set<nat> {
    set p | p in f
  }

  /** An address that is not among those freed so far is still allocated. */
  lemma StillThere(blocks: Blocks, f: seq<nat>, lo: nat, hi: nat, i: nat)
    requires FreeOnce(blocks, f) && 0 !in blocks && lo <= hi <= |f| && i < |f| && !(lo <= i < hi) && f[i] != 0
    ensures f[i] in blocks - Elements(f[lo..hi])
  {
    assert f[i] in f;
  }

  /** Every message starts with the driver's prefix, once. */
  function Prefixed(text: string): (s: string)
    ensures "[mariadb] " <= s && ("[mariadb] " <= text ==> s == text) && (!("[mariadb] " <= text) ==> s[10..] == text)
  {
    if PREFIX <= text then text else PREFIX + text
  }

  // ---------- Filling in details ----------

  function Payload(d: Detail): string {
    match d.value
    case Serialized(bytes) => bytes
    case NotSerialized(message) => message
  }

  /** len bytes read at p are s. */
  predicate ReadsAs(blocks: Blocks, p: nat, len: nat, s: string) {
    if len == 0 then s == ""
    else p in blocks && blocks[p].Bytes? && len <= |blocks[p].data| && blocks[p].data[..len] == s
  }

  predicate Stored(blocks: Blocks, key: nat, value: nat, len: nat, d: Detail) {
    && key in blocks && blocks[key] == Bytes(d.key + [NUL])
    && len == |Payload(d)| && ReadsAs(blocks, value, len, Payload(d))
  }

  /** f is the memory added to base, each address of it freed once if all of f is. */
  predicate Added(base: Blocks, blocks: Blocks, f: seq<nat>) {
    && FreeOnce(blocks, f) && 0 !in base && 0 !in blocks
    && (forall p <- f :: p !in base)
    && (forall p <- base :: p in blocks && blocks[p] == base[p])
    && (forall p <- blocks :: p in base || p in f)
  }

  lemma AddedMore(base: Blocks, blocks: Blocks, f: seq<nat>, p: nat, b: Block)
    requires Added(base, blocks, f) && p !in blocks
    ensures p != 0 ==> Added(base, blocks[p := b], f + [p])
    ensures p == 0 ==> Added(base, blocks, f + [p])
  {
  }

  lemma AddedTwo(base: Blocks, p: nat, q: nat, a: Block, b: Block, c: Block)
    requires 0 !in base && p != 0 && q != 0 && p !in base && q !in base && p != q
    ensures Added(base, base[p := a][q := b][p := c], [p, q])
  {
  }

  lemma AddedOnly(base: Blocks, blocks: Blocks, e: Fields)
    requires Laid(blocks, e) && Added(base, blocks, Frees(blocks, e))
    ensures Sound(blocks, e) && blocks - Owned(blocks, e) == base
  {
  }

  predicate BytesKept(before: Blocks, after: Blocks) {
    forall p <- before :: before[p].Bytes? ==> p in after && after[p] == before[p]
  }

  lemma StoredKept(before: Blocks, after: Blocks, key: nat, value: nat, len: nat, d: Detail)
    requires Stored(before, key, value, len, d) && BytesKept(before, after)
    ensures Stored(after, key, value, len, d)
  {
  }

  /** Memory outside the given addresses keeps its contents. */
  predicate Untouched(before: Blocks, after: Blocks, except: set<nat>) {
    forall p <- before :: p !in except ==> p in after && after[p] == before[p]
  }

  lemma UntouchedTwice(a: Blocks, b: Blocks, c: Blocks, except: set<nat>)
    requires Untouched(a, b, {}) && Untouched(b, c, except) && BytesKept(b, c)
    ensures Untouched(a, c, except) && BytesKept(a, c)
  {
  }

  function ZeroCells(n: nat): seq<nat> {
    seq(n, _ => 0)
  }

  lemma ZeroCellsStep(s: seq<nat>, n: nat, x: nat)
    requires n > 0
    ensures (s + ZeroCells(n))[|s| := x] == s + [x] + ZeroCells(n - 1)
  {
  }

  predicate ArraysHold(blocks: Blocks, shell: seq<nat>, ks: seq<nat>, vs: seq<nat>, ls: seq<nat>) {
    && |shell| == 5 && (forall p <- shell :: p in blocks)
    && blocks[shell[2]] == Pointers(ks) && blocks[shell[3]] == Pointers(vs) && blocks[shell[4]] == Sizes(ls)
  }

  lemma ArraysKept(before: Blocks, after: Blocks, shell: seq<nat>, ks: seq<nat>, vs: seq<nat>, ls: seq<nat>)
    requires ArraysHold(before, shell, ks, vs, ls) && Untouched(before, after, {})
    ensures ArraysHold(after, shell, ks, vs, ls)
  {
  }

  /** The three arrays after |ks| of their n entries have been filled in; shell is the details, the message and the
      arrays themselves. */
  predicate Filled(base: Blocks, blocks: Blocks, shell: seq<nat>, ks: seq<nat>, vs: seq<nat>, ls: seq<nat>,
                   details: seq<Detail>)
  {
    && |ks| == |vs| == |ls| <= |details|
    && Added(base, blocks, shell + Pairs(ks, vs))
    && ArraysHold(blocks, shell, ks + ZeroCells(|details| - |ks|), vs + ZeroCells(|details| - |ks|), ls + ZeroCells(|details| - |ks|))
    && forall j | 0 <= j < |ks| :: Stored(blocks, ks[j], vs[j], ls[j], details[j])
  }

  lemma AddedWrite(base: Blocks, blocks: Blocks, f: seq<nat>, p: nat, b: Block)
    requires Added(base, blocks, f) && p in f && p in blocks
    ensures Added(base, blocks[p := b], f)
  {
    var after := blocks[p := b];
    assert after.Keys == blocks.Keys;
  }

  lemma PairsMore(shell: seq<nat>, ks: seq<nat>, vs: seq<nat>, k: nat, v: nat)
    requires |ks| == |vs|
    ensures shell + Pairs(ks + [k], vs + [v]) == shell + Pairs(ks, vs) + [k] + [v]
  {
    assert (ks + [k])[..|ks|] == ks && (vs + [v])[..|vs|] == vs;
  }

  lemma StoredMore(before: Blocks, after: Blocks, ks: seq<nat>, vs: seq<nat>, ls: seq<nat>, details: seq<Detail>,
                   k: nat, v: nat, len: nat)
    requires |ks| == |vs| == |ls| < |details| && BytesKept(before, after)
    requires forall j | 0 <= j < |ks| :: Stored(before, ks[j], vs[j], ls[j], details[j])
    requires Stored(after, k, v, len, details[|ks|])
    ensures forall j | 0 <= j < |ks| + 1 :: Stored(after, (ks + [k])[j], (vs + [v])[j], (ls + [len])[j], details[j])
  {
    hide Stored, BytesKept;
    forall j | 0 <= j < |ks| + 1
      ensures Stored(after, (ks + [k])[j], (vs + [v])[j], (ls + [len])[j], details[j])
    {
      if j < |ks| {
        StoredKept(before, after, ks[j], vs[j], ls[j], details[j]);
      }
    }
  }

  lemma FilledMore(base: Blocks, before: Blocks, after: Blocks, shell: seq<nat>, ks: seq<nat>, vs: seq<nat>, ls: seq<nat>,
                   details: seq<Detail>, k: nat, v: nat, len: nat)
    requires Filled(base, before, shell, ks, vs, ls, details) && |ks| < |details|
    requires Added(base, after, shell + Pairs(ks, vs) + [k] + [v]) && BytesKept(before, after)
    requires var rest := ZeroCells(|details| - |ks|);
             ArraysHold(after, shell, (ks + rest)[|ks| := k], (vs + rest)[|ks| := v], (ls + rest)[|ks| := len])
    requires Stored(after, k, v, len, details[|ks|])
    ensures Filled(base, after, shell, ks + [k], vs + [v], ls + [len], details)
  {
    hide Added, ArraysHold, Stored, BytesKept, Pairs, ZeroCells;
    var rest := |details| - |ks|;
    ZeroCellsStep(ks, rest, k);
    ZeroCellsStep(vs, rest, v);
    ZeroCellsStep(ls, rest, len);
    PairsMore(shell, ks, vs, k, v);
    StoredMore(before, after, ks, vs, ls, details, k, v, len);
  }

  /** The details path is taken by a caller that has asked for private_data, unless a vendor code replaces an empty
      list of details. */
  predicate AttachesDetails(vendorCode: int, e: GoError) {
    vendorCode == PRIVATE_DATA && (e.details != [] || e.vendorCode == 0 || e.vendorCode == PRIVATE_DATA)
  }

  /** Attaching details overwrites what the struct held without releasing it. */
  predicate Replaces(vendorCode: int, err: Failure) {
    err.Adbc? && AttachesDetails(vendorCode, err.error)
  }

  /** What C sees of an error with details: the message, the count, and at each index what was stored there. */
  ghost predicate Attached(blocks: Blocks, e: Fields, err: GoError) {
    && Laid(blocks, e) && e.release.ReleaseDetails?
    && e.message in blocks && blocks[e.message] == Bytes(err.message + [NUL])
    && DetailCount(blocks, e) == |err.details|
    && forall i | 0 <= i < |err.details| ::
         var (key, value, len) := DetailAt(blocks, e, i); Stored(blocks, key, value, len, err.details[i])
  }

  /** What C reads of a failure: its SQL state, and its details or its prefixed message. */
  ghost predicate Says(blocks: Blocks, e: Fields, err: Failure) {
    match err
    case Adbc(error) =>
      && e.sqlState == error.sqlState
      && if e.release == ReleaseDetails then Attached(blocks, e, error) else SaysText(blocks, e, error.message)
    case Other(text) => SaysText(blocks, e, text)
  }

  ghost predicate SaysText(blocks: Blocks, e: Fields, text: string) {
    e.release == ReleaseMessage && e.message in blocks && blocks[e.message] == Bytes(Prefixed(text) + [NUL])
  }

  /** Details are attached for a caller that asked for them, unless there are none and a vendor code to report instead. */
  predicate DetailsFor(vendorCode: int, err: Failure) {
    && vendorCode == -2_147_483_648 && err.Adbc?
    && (err.error.details != [] || err.error.vendorCode == 0 || err.error.vendorCode == -2_147_483_648)
  }

  /** While details are attached, index i reads back as the i-th detail: its key up to the first NUL, so the whole key
      exactly if it has none, and its bytes, or what went wrong when they were serialized, at full length. Any other index
      gives nulls. The message is the error's own, without the prefix. */
  lemma DetailReadsBack(blocks: Blocks, e: Fields, err: GoError, i: int)
    requires Attached(blocks, e, err)
    ensures if 0 <= i < |err.details| then
              var (key, value, len) := DetailAt(blocks, e, i);
              && key in blocks && blocks[key].Bytes?
              && CString(blocks[key].data) == CString(err.details[i].key)
              && (CString(blocks[key].data) == err.details[i].key <==> NulFree(err.details[i].key))
              && var payload := match err.details[i].value case Serialized(bytes) => bytes case NotSerialized(text) => text;
                 && len == |payload|
                 && (payload != "" ==> value in blocks && blocks[value].Bytes? && payload <= blocks[value].data)
            else DetailAt(blocks, e, i) == (0, 0, 0)
    ensures DetailCount(blocks, e) == |err.details|
    ensures e.message in blocks && blocks[e.message] == Bytes(err.message + "\0")
  {
    if 0 <= i < |err.details| {
      CStringOf(err.details[i].key);
    }
  }

  lemma CStringOf(s: string)
    ensures CString(s + [NUL]) == CString(s) && (CString(s) == s <==> NulFree(s))
  {
    var n, m := Find(s, NUL), Find(s + [NUL], NUL);
    assert forall j | 0 <= j < |s| :: (s + [NUL])[j] == s[j];
    assert (s + [NUL])[|s|] == NUL;
    assert m == n;
    assert (s + [NUL])[..n] == s[..n];
  }

  lemma SameOwner(blocks: Blocks, e: Fields, other: Fields)
    requires Sound(blocks, e) && other == e.(vendorCode := other.vendorCode, sqlState := other.sqlState)
    ensures Sound(blocks, other) && Owned(blocks, other) == Owned(blocks, e)
  {
    assert Frees(blocks, other) == Frees(blocks, e);
  }

  lemma OwnsMessage(blocks: Blocks, e: Fields)
    requires e.release == ReleaseMessage && e.message != 0
    ensures Laid(blocks, e) && Owned(blocks, e) == {e.message}
  {
    assert e.message in Frees(blocks, e);
  }

  lemma FilledNone(base: Blocks, blocks: Blocks, shell: seq<nat>, details: seq<Detail>)
    requires Added(base, blocks, shell) && details != []
    requires ArraysHold(blocks, shell, ZeroCells(|details|), ZeroCells(|details|), ZeroCells(|details|))
    ensures Filled(base, blocks, shell, [], [], [], details)
  {
    hide Added, ArraysHold, Stored;
    assert shell + Pairs([], []) == shell;
    assert [] + ZeroCells(|details|) == ZeroCells(|details|);
  }

  /** Writing to the details themselves disturbs neither the arrays nor what they point to. */
  lemma FilledWrite(base: Blocks, blocks: Blocks, shell: seq<nat>, ks: seq<nat>, vs: seq<nat>, ls: seq<nat>,
                    details: seq<Detail>, b: Block)
    requires Filled(base, blocks, shell, ks, vs, ls, details) && blocks[shell[0]].Details?
    ensures Filled(base, blocks[shell[0] := b], shell, ks, vs, ls, details)
  {
    assert shell[0] in shell + Pairs(ks, vs);
    AddedWrite(base, blocks, shell + Pairs(ks, vs), shell[0], b);
    hide Added, Pairs;
    forall j | 0 <= j < |ks|
      ensures Stored(blocks[shell[0] := b], ks[j], vs[j], ls[j], details[j])
    {
      StoredKept(blocks, blocks[shell[0] := b], ks[j], vs[j], ls[j], details[j]);
    }
  }

  /** The finished struct frees exactly the memory that was added for it. */
  lemma DetailsLaid(base: Blocks, blocks: Blocks, shell: seq<nat>, ks: seq<nat>, vs: seq<nat>, ls: seq<nat>,
                    e: Fields, n: nat)
    requires |ks| == |vs| == |ls| == n > 0 && ArraysHold(blocks, shell, ks, vs, ls)
    requires e.release == ReleaseDetails && shell[..2] == [e.privateData, e.message]
    requires blocks[shell[0]] == Details(CDetails(shell[1], shell[2], shell[3], shell[4], n))
    ensures Laid(blocks, e) && Frees(blocks, e) == shell + Pairs(ks, vs)
    ensures shell[0] != 0 ==> DetailCount(blocks, e) == n && forall i | 0 <= i < n :: DetailAt(blocks, e, i) == (ks[i], vs[i], ls[i])
  {
    assert e.privateData == shell[..2][0] == shell[0] && e.message == shell[..2][1] == shell[1];
    assert shell == [shell[0], shell[1], shell[2], shell[3], shell[4]];
  }

  lemma SoundWithDetails(base: Blocks, blocks: Blocks, shell: seq<nat>, ks: seq<nat>, vs: seq<nat>, ls: seq<nat>,
                         e: Fields, err: GoError)
    requires Filled(base, blocks, shell, ks, vs, ls, err.details) && |ks| == |err.details| > 0
    requires e.release == ReleaseDetails && shell[..2] == [e.privateData, e.message]
    requires blocks[shell[0]] == Details(CDetails(shell[1], shell[2], shell[3], shell[4], |ks|))
    requires blocks[shell[1]] == Bytes(err.message + [NUL])
    ensures Sound(blocks, e) && blocks - Owned(blocks, e) == base && Attached(blocks, e, err)
  {
    assert ks + ZeroCells(0) == ks && vs + ZeroCells(0) == vs && ls + ZeroCells(0) == ls;
    DetailsLaid(base, blocks, shell, ks, vs, ls, e, |ks|);
    assert shell[0] != 0 by {
      assert shell[0] in shell + Pairs(ks, vs);
    }
    assert e.message == shell[..2][1] == shell[1];
    hide Added, Pairs, Frees, Owned, Sound, Laid, DetailAt, DetailCount, Stored;
    AddedOnly(base, blocks, e);
  }

  lemma SoundWithoutDetails(base: Blocks, blocks: Blocks, e: Fields, err: GoError)
    requires Added(base, blocks, [e.privateData, e.message]) && err.details == [] && e.release == ReleaseDetails
    requires e.privateData in blocks && blocks[e.privateData] == Details(CDetails(e.message, 0, 0, 0, 0))
    requires e.message in blocks && blocks[e.message] == Bytes(err.message + [NUL])
    ensures Sound(blocks, e) && blocks - Owned(blocks, e) == base && Attached(blocks, e, err)
  {
    var f := [e.privateData, e.message];
    assert Frees(blocks, e) == f + [0, 0, 0];
    assert forall p <- f :: p in Frees(blocks, e);
    assert Added(base, blocks, Frees(blocks, e));
    AddedOnly(base, blocks, e);
  }

  // ---------- The struct ----------

  /** Once the details' own memory is gone, the first five addresses can be freed. */
  lemma ShellLeft(blocks: Blocks, f: seq<nat>)
    requires FreeOnce(blocks, f) && 0 !in blocks && |f| >= 5
    ensures FreeOnce(blocks - Elements(f[5..]), f[..5])
  {
    assert f[..5] == [f[0], f[1], f[2], f[3], f[4]];
    assert f[5..|f|] == f[5..];
    forall i | 0 <= i < 5 && f[i] != 0
      ensures f[i] in blocks - Elements(f[5..])
    {
      StillThere(blocks, f, 5, |f|, i);
    }
  }

  lemma FiveOnce(blocks: Blocks, a: nat, b: nat, c: nat, d: nat, e: nat)
    requires FreeOnce(blocks, [a, b, c, d, e])
    ensures (a == 0 || a in blocks) && (b == 0 || b in blocks) && (c == 0 || c in blocks) && (d == 0 || d in blocks)
         && (e == 0 || e in blocks)
    ensures (a == 0 || a !in {b, c, d, e}) && (b == 0 || b !in {c, d, e}) && (c == 0 || c !in {d, e}) && (d == 0 || d != e)
  {
    var f := [a, b, c, d, e];
    assert f[0] == a && f[1] == b && f[2] == c && f[3] == d && f[4] == e;
    assert forall i | 0 <= i < 5 :: f[i] in f;
  }

  lemma MinusFive(blocks: Blocks, a: nat, b: nat, c: nat, d: nat, e: nat)
    ensures blocks - {c} - {d} - {e} - {a} - {b} == blocks - {a, b, c, d, e}
  {
  }

  lemma MinusAll(blocks: Blocks, f: seq<nat>)
    requires |f| >= 5
    ensures blocks - Elements(f[5..]) - {f[0], f[1], f[2], f[3], f[4]} == blocks - Elements(f)
  {
    assert f == f[..5] + f[5..];
    assert f[..5] == [f[0], f[1], f[2], f[3], f[4]];
  }

  lemma OwnedAll(blocks: Blocks, e: Fields)
    requires Laid(blocks, e) && 0 !in blocks
    ensures blocks - Elements(Frees(blocks, e)) == blocks - Owned(blocks, e)
  {
  }

  lemma PairAt(f: seq<nat>, ks: seq<nat>, vs: seq<nat>, i: nat)
    requires |f| >= 5 && |ks| == |vs| && f[5..] == Pairs(ks, vs) && i < |ks|
    ensures |f| == 5 + 2 * |ks| && f[5 + 2 * i] == ks[i] && f[6 + 2 * i] == vs[i]
  {
    PairsAt(ks, vs);
    assert f[5..][2 * i] == ks[i] && f[5..][2 * i + 1] == vs[i];
  }

  lemma NoneFreed(blocks: Blocks, f: seq<nat>)
    requires |f| >= 5
    ensures blocks - Elements(f[5..5]) == blocks
  {
  }

  class AdbcError {
    var message: nat
    var vendorCode: int
    var sqlState: string
    var release: Releaser
    var privateData: nat
    const memory: Memory

    ghost function Value(): Fields
      reads this
    {
      Fields(message, vendorCode, sqlState, release, privateData)
    }

    ghost predicate Valid()
      reads this, memory
    {
      memory.Valid() && Sound(memory.blocks, Value())
    }

    /** Zeroed memory. */
    constructor (memory: Memory)
      ensures this.memory == memory
      ensures Value() == Fields(0, 0, "", NoRelease, 0)
    {
      message, vendorCode, sqlState, release, privateData := 0, 0, "", NoRelease, 0;
      this.memory := memory;
    }

    /** MariaDBReleaseErrWithDetails. */
    method ReleaseErrWithDetails()
      requires Valid()
      modifies this, memory
      ensures memory.Valid()
      ensures if old(HasDetails(Value()))
              then memory.blocks == old(memory.blocks) - old(Owned(memory.blocks, Value()))
                   && Value() == old(Value()).(message := 0, release := NoRelease, privateData := 0)
              else memory.blocks == old(memory.blocks) && Value() == old(Value())
    {
      if release != ReleaseDetails || privateData == 0 {
        return;
      }
      hide FreeOnce, Pairs;
      ghost var before := memory.blocks;
      ghost var f := Frees(before, Value());
      var details := memory.blocks[privateData].details;
      PairsAt(KeyCells(before, details), ValueCells(before, details));
      assert f[..5] == [privateData, message, details.keys, details.values, details.lengths];
      assert f[5..] == Pairs(KeyCells(before, details), ValueCells(before, details));
      OwnedAll(before, Value());
      MinusAll(before, f);
      ShellLeft(before, f);
      assert f[..5] == [f[0], f[1], f[2], f[3], f[4]];
      hide Frees, KeyCells, ValueCells, Laid, Owned, Elements;
      FreeDetails(details, f, before);
      FreeShell(details);
    }

    method FreeDetails(details: CDetails, ghost f: seq<nat>, ghost before: Blocks)
      requires memory.Valid() && memory.blocks == before && FreeOnce(before, f)
      requires details.count > 0 ==> IsArrays(before, details)
      requires |f| == 5 + 2 * details.count && f[..5] == [privateData, message, details.keys, details.values, details.lengths]
      requires f[5..] == Pairs(KeyCells(before, details), ValueCells(before, details))
      modifies memory
      ensures memory.Valid() && memory.blocks == before - Elements(f[5..])
    {
      hide FreeOnce, Pairs, Elements;
      ghost var ks, vs := KeyCells(before, details), ValueCells(before, details);
      NoneFreed(before, f);
      assert f[2] == f[..5][2] && f[3] == f[..5][3];
      var i := 0;
      while i < details.count
        invariant 0 <= i <= details.count
        invariant memory.Valid() && memory.blocks == before - Elements(f[5..5 + 2 * i])
      {
        PairAt(f, ks, vs, i);
        FreeDetail(details, i, f, before);
        i := i + 1;
      }
      assert f[5..5 + 2 * i] == f[5..];
    }

    /** One turn of its loop. */
    method FreeDetail(details: CDetails, i: nat, ghost f: seq<nat>, ghost before: Blocks)
      requires memory.Valid() && 0 !in before && FreeOnce(before, f) && IsArrays(before, details) && i < details.count
      requires |f| == 5 + 2 * details.count && f[2] == details.keys && f[3] == details.values
      requires f[5 + 2 * i] == before[details.keys].cells[i] && f[6 + 2 * i] == before[details.values].cells[i]
      requires memory.blocks == before - Elements(f[5..5 + 2 * i])
      modifies memory
      ensures memory.Valid() && memory.blocks == before - Elements(f[5..7 + 2 * i])
    {
      ghost var n := 5 + 2 * i;
      StillThere(before, f, 5, n, 2);
      StillThere(before, f, 5, n + 1, 3);
      if f[n] != 0 {
        StillThere(before, f, 5, n, n);
      }
      if f[n + 1] != 0 {
        StillThere(before, f, 5, n + 1, n + 1);
      }
      hide FreeOnce;
      memory.Free(memory.blocks[details.keys].cells[i]);
      assert f[5..n] + [f[n]] == f[5..n + 1];
      assert memory.blocks == before - Elements(f[5..n + 1]);
      memory.Free(memory.blocks[details.values].cells[i]);
      assert f[5..n + 1] + [f[n + 1]] == f[5..n + 2];
    }

    /** The tail of MariaDBReleaseErrWithDetails: the three arrays, the details and the message. */
    method FreeShell(details: CDetails)
      requires memory.Valid()
      requires FreeOnce(memory.blocks, [privateData, message, details.keys, details.values, details.lengths])
      modifies this, memory
      ensures memory.Valid()
      ensures memory.blocks == old(memory.blocks)
                               - {old(privateData), old(message), details.keys, details.values, details.lengths}
      ensures Value() == old(Value()).(message := 0, release := NoRelease, privateData := 0)
    {
      FiveOnce(memory.blocks, privateData, message, details.keys, details.values, details.lengths);
      MinusFive(memory.blocks, privateData, message, details.keys, details.values, details.lengths);
      hide FreeOnce;
      memory.Free(details.keys);
      memory.Free(details.values);
      memory.Free(details.lengths);
      memory.Free(privateData);
      memory.Free(message);
      message := 0;
      release := NoRelease;
      privateData := 0;
    }

    /** MariaDBerrRelease. A second call finds no release function and does nothing. */
    method ReleaseError()
      requires Valid()
      modifies this, memory
      ensures Valid() && release == NoRelease
      ensures memory.blocks == old(memory.blocks) - old(Owned(memory.blocks, Value()))
      ensures vendorCode == old(vendorCode) && sqlState == old(sqlState)
      ensures old(release) == NoRelease ==> Value() == old(Value())
    {
      match release {
        case NoRelease =>
        case ReleaseMessage =>
          assert message in Frees(memory.blocks, Value());
          memory.Free(message);
          message := 0;
          release := NoRelease;
        case ReleaseDetails =>
          ReleaseErrWithDetails();
          release := NoRelease;
      }
    }

    /** setErr. */
    method SetErr(text: string)
      requires Valid()
      modifies this, memory
      ensures Valid() && release == ReleaseMessage
      ensures message !in old(memory.blocks) - old(Owned(memory.blocks, Value()))
      ensures memory.blocks
           == (old(memory.blocks) - old(Owned(memory.blocks, Value())))[message := Bytes(Prefixed(text) + [NUL])]
      ensures vendorCode == old(vendorCode) && sqlState == old(sqlState)
    {
      if release != NoRelease {
        ReleaseError();
      }
      var msg;
      if PREFIX <= text {
        msg := text;
      } else {
        msg := PREFIX + text;
      }
      message := memory.Allocate(Bytes(msg + [NUL]));
      release := ReleaseMessage;
    }

    method StoreCells(i: nat, keys: nat, values: nat, lengths: nat, k: nat, v: nat, len: nat,
                      ghost base: Blocks, ghost shell: seq<nat>, ghost f: seq<nat>,
                      ghost ks: seq<nat>, ghost vs: seq<nat>, ghost ls: seq<nat>)
      requires memory.Valid() && shell <= f && Added(base, memory.blocks, f)
      requires ArraysHold(memory.blocks, shell, ks, vs, ls) && i < |ks| == |vs| == |ls|
      requires shell[2..] == [keys, values, lengths]
      modifies memory
      ensures memory.Valid() && Added(base, memory.blocks, f) && BytesKept(old(memory.blocks), memory.blocks)
      ensures ArraysHold(memory.blocks, shell, ks[i := k], vs[i := v], ls[i := len])
      ensures Untouched(old(memory.blocks), memory.blocks, {keys, values, lengths})
    {
      assert shell[2] == keys && shell[3] == values && shell[4] == lengths;
      assert f[2] == keys && f[3] == values && f[4] == lengths;
      assert keys != 0 && values != 0 && lengths != 0;
      assert keys != values && values != lengths && keys != lengths;
      AddedWrite(base, memory.blocks, f, keys, Pointers(ks[i := k]));
      memory.Write(keys, Pointers(memory.blocks[keys].cells[i := k]));
      AddedWrite(base, memory.blocks, f, values, Pointers(vs[i := v]));
      memory.Write(values, Pointers(memory.blocks[values].cells[i := v]));
      AddedWrite(base, memory.blocks, f, lengths, Sizes(ls[i := len]));
      memory.Write(lengths, Sizes(memory.blocks[lengths].sizes[i := len]));
    }

    /** nullIfEmpty: what malloc(0) returns. */
    method AllocateDetail(detail: Detail, nullIfEmpty: bool, ghost base: Blocks, ghost f: seq<nat>)
      returns (k: nat, v: nat, len: nat)
      requires memory.Valid() && Added(base, memory.blocks, f)
      modifies memory
      ensures memory.Valid() && Added(base, memory.blocks, f + [k] + [v])
      ensures Stored(memory.blocks, k, v, len, detail)
      ensures Untouched(old(memory.blocks), memory.blocks, {})
    {
      hide Added;
      ghost var b0 := memory.blocks;
      k := memory.Allocate(Bytes(detail.key + [NUL]));
      AddedMore(base, b0, f, k, Bytes(detail.key + [NUL]));
      ghost var b1 := memory.blocks;
      match detail.value {
        case NotSerialized(msg) =>
          v := memory.Allocate(Bytes(msg + [NUL]));
          len := |msg|;
          AddedMore(base, b1, f + [k], v, Bytes(msg + [NUL]));
        case Serialized(bytes) =>
          v := memory.AllocateBytes(bytes, nullIfEmpty);
          len := |bytes|;
          AddedMore(base, b1, f + [k], v, Bytes(bytes));
      }
    }

    /** One turn of the loop of setErrWithDetails. */
    method StoreDetail(i: nat, details: seq<Detail>, nullIfEmpty: bool, keys: nat, values: nat, lengths: nat,
                       ghost base: Blocks, ghost shell: seq<nat>, ghost ks: seq<nat>, ghost vs: seq<nat>, ghost ls: seq<nat>)
      returns (k: nat, v: nat, len: nat)
      requires memory.Valid() && i == |ks| < |details|
      requires Filled(base, memory.blocks, shell, ks, vs, ls, details)
      requires shell[2..] == [keys, values, lengths]
      modifies memory
      ensures memory.Valid()
      ensures Filled(base, memory.blocks, shell, ks + [k], vs + [v], ls + [len], details)
      ensures Untouched(old(memory.blocks), memory.blocks, {keys, values, lengths})
    {
      ghost var f, rest := shell + Pairs(ks, vs), ZeroCells(|details| - i);
      ghost var b0 := memory.blocks;
      assert ArraysHold(b0, shell, ks + rest, vs + rest, ls + rest);
      hide Added, Filled, Stored, Pairs, FreeOnce, ZeroCells, BytesKept, Untouched, ArraysHold;
      k, v, len := AllocateDetail(details[i], nullIfEmpty, base, f);
      ghost var b2 := memory.blocks;
      ArraysKept(b0, b2, shell, ks + rest, vs + rest, ls + rest);
      StoreCells(i, keys, values, lengths, k, v, len, base, shell, f + [k] + [v], ks + rest, vs + rest, ls + rest);
      UntouchedTwice(b0, b2, memory.blocks, {keys, values, lengths});
      StoredKept(b2, memory.blocks, k, v, len, details[i]);
      FilledMore(base, b0, memory.blocks, shell, ks, vs, ls, details, k, v, len);
    }

    method AllocateArrays(n: nat, ghost base: Blocks) returns (keys: nat, values: nat, lengths: nat)
      requires memory.Valid() && n > 0 && privateData != 0 && message != 0
      requires Added(base, memory.blocks, [privateData, message]) && privateData in memory.blocks && message in memory.blocks
      modifies memory
      ensures memory.Valid() && Untouched(old(memory.blocks), memory.blocks, {})
      ensures keys !in old(memory.blocks) && values !in old(memory.blocks) && lengths !in old(memory.blocks)
      ensures var shell := [privateData, message, keys, values, lengths];
              Added(base, memory.blocks, shell) && ArraysHold(memory.blocks, shell, ZeroCells(n), ZeroCells(n), ZeroCells(n))
    {
      hide Added, ZeroCells;
      ghost var b0 := memory.blocks;
      keys := memory.Allocate(Pointers(ZeroCells(n)));
      AddedMore(base, b0, [privateData, message], keys, Pointers(ZeroCells(n)));
      assert [privateData, message] + [keys] == [privateData, message, keys];
      ghost var b1 := memory.blocks;
      values := memory.Allocate(Pointers(ZeroCells(n)));
      AddedMore(base, b1, [privateData, message, keys], values, Pointers(ZeroCells(n)));
      assert [privateData, message, keys] + [values] == [privateData, message, keys, values];
      ghost var b2 := memory.blocks;
      lengths := memory.Allocate(Sizes(ZeroCells(n)));
      AddedMore(base, b2, [privateData, message, keys, values], lengths, Sizes(ZeroCells(n)));
      assert [privateData, message, keys, values] + [lengths] == [privateData, message, keys, values, lengths];
    }

    /** The path of setErrWithDetails that fills in private_data. It does not look at the previous release function. */
    method AttachDetails(e: GoError, nullIfEmpty: bool)
      requires memory.Valid()
      modifies this, memory
      ensures Valid() && release == ReleaseDetails && vendorCode == old(vendorCode) && sqlState == old(sqlState)
      ensures Attached(memory.blocks, Value(), e)
      ensures memory.blocks - Owned(memory.blocks, Value()) == old(memory.blocks)
    {
      hide Added, Sound, Laid, Owned, Attached;
      ghost var base := memory.blocks;
      privateData := memory.Allocate(Details(CDetails(0, 0, 0, 0, 0)));
      message := memory.Allocate(Bytes(e.message + [NUL]));
      release := ReleaseDetails;
      AddedTwo(base, privateData, message, Details(CDetails(0, 0, 0, 0, 0)), Bytes(e.message + [NUL]),
               Details(CDetails(message, 0, 0, 0, 0)));
      memory.Write(privateData, Details(CDetails(message, 0, 0, 0, 0)));
      if |e.details| > 0 {
        FillArrays(e, nullIfEmpty, base);
      } else {
        SoundWithoutDetails(base, memory.blocks, Value(), e);
      }
    }

    method FillArrays(e: GoError, nullIfEmpty: bool, ghost base: Blocks)
      requires memory.Valid() && |e.details| > 0 && release == ReleaseDetails && privateData != 0 && message != 0
      requires Added(base, memory.blocks, [privateData, message])
      requires privateData in memory.blocks && memory.blocks[privateData] == Details(CDetails(message, 0, 0, 0, 0))
      requires message in memory.blocks && memory.blocks[message] == Bytes(e.message + [NUL])
      modifies memory
      ensures Valid() && Attached(memory.blocks, Value(), e)
      ensures memory.blocks - Owned(memory.blocks, Value()) == base
    {
      var n := |e.details|;
      hide Filled, Added, Stored, Sound, Attached, Owned, Pairs, ArraysHold, ZeroCells;
      var keys, values, lengths := AllocateArrays(n, base);
      ghost var shell := [privateData, message, keys, values, lengths];
      ghost var ks: seq<nat>, vs: seq<nat>, ls: seq<nat> := [], [], [];
      FilledNone(base, memory.blocks, shell, e.details);
      FilledWrite(base, memory.blocks, shell, ks, vs, ls, e.details, Details(CDetails(message, keys, values, lengths, 0)));
      memory.Write(privateData, Details(CDetails(message, keys, values, lengths, 0)));
      var i := 0;
      while i < n
        invariant 0 <= i <= n && memory.Valid() && |ks| == i
        invariant Filled(base, memory.blocks, shell, ks, vs, ls, e.details)
        invariant privateData in memory.blocks && message in memory.blocks
        invariant memory.blocks[privateData] == Details(CDetails(message, keys, values, lengths, 0))
        invariant memory.blocks[message] == Bytes(e.message + [NUL])
      {
        var k, v, len := StoreDetail(i, e.details, nullIfEmpty, keys, values, lengths, base, shell, ks, vs, ls);
        ks, vs, ls := ks + [k], vs + [v], ls + [len];
        i := i + 1;
      }
      FilledWrite(base, memory.blocks, shell, ks, vs, ls, e.details, Details(CDetails(message, keys, values, lengths, n)));
      memory.Write(privateData, Details(CDetails(message, keys, values, lengths, n)));
      SoundWithDetails(base, memory.blocks, shell, ks, vs, ls, Value(), e);
    }

    /** setErrWithDetails. */
    method SetErrWithDetails(e: GoError, nullIfEmpty: bool)
      requires Valid()
      modifies this, memory
      ensures Valid() && sqlState == e.sqlState && release != NoRelease
      ensures Says(memory.blocks, Value(), Adbc(e))
      ensures release == ReleaseDetails <==> DetailsFor(old(vendorCode), Adbc(e))
      ensures if AttachesDetails(old(vendorCode), e)
              then Attached(memory.blocks, Value(), e) && vendorCode == old(vendorCode)
                   && memory.blocks - Owned(memory.blocks, Value()) == old(memory.blocks)
              else release == ReleaseMessage && message in memory.blocks
                   && memory.blocks[message] == Bytes(Prefixed(e.message) + [NUL])
                   && vendorCode == (if e.vendorCode == PRIVATE_DATA then old(vendorCode) else e.vendorCode)
                   && memory.blocks - Owned(memory.blocks, Value())
                      == old(memory.blocks) - old(Owned(memory.blocks, Value()))
    {
      ghost var given := Value();
      hide FreeOnce, Frees, Attached, Prefixed;
      sqlState := e.sqlState;
      if vendorCode != PRIVATE_DATA {
        if e.vendorCode != PRIVATE_DATA {
          vendorCode := e.vendorCode;
        }
        SameOwner(memory.blocks, given, Value());
        SetErr(e.message);
        OwnsMessage(memory.blocks, Value());
        return;
      }
      var numDetails := |e.details|;
      if numDetails == 0 && e.vendorCode != 0 && e.vendorCode != PRIVATE_DATA {
        vendorCode := e.vendorCode;
        SameOwner(memory.blocks, given, Value());
        SetErr(e.message);
        OwnsMessage(memory.blocks, Value());
        return;
      }
      AttachDetails(e, nullIfEmpty);
    }

    /** errToAdbcErr: an ADBC error carries details, any other error only its text. */
    method ErrToAdbcErr(err: Failure, nullIfEmpty: bool) returns (status: Status)
      requires Valid()
      modifies this, memory
      ensures Valid() && release != NoRelease && status == StatusOf(err)
      ensures status == (if err.Adbc? then err.error.code else Unknown)
      ensures Says(memory.blocks, Value(), err)
      ensures release == ReleaseDetails <==> DetailsFor(old(vendorCode), err)
      ensures memory.blocks - Owned(memory.blocks, Value())
           == old(memory.blocks) - (if Replaces(old(vendorCode), err) then {} else old(Owned(memory.blocks, Value())))
    {
      match err {
        case Adbc(e) =>
          ghost var b := memory.blocks;
          hide Sound, Laid, Owned, Attached, Says;
          SetErrWithDetails(e, nullIfEmpty);
          assert b - {} == b;
          status := e.code;
        case Other(text) =>
          SetErr(text);
          OwnsMessage(memory.blocks, Value());
          status := Unknown;
      }
    }

    /** Setting an error and releasing it gives back everything the struct owned before, except when details are
        attached over an error that was not released: that error's memory is never freed. */
    method SetThenRelease(e: GoError, nullIfEmpty: bool)
      requires Valid()
      modifies this, memory
      ensures Valid() && release == NoRelease
      ensures memory.blocks
           == old(memory.blocks) - (if AttachesDetails(old(vendorCode), e) then {} else old(Owned(memory.blocks, Value())))
      ensures old(release) == NoRelease ==> memory.blocks == old(memory.blocks)
    {
      assert release == NoRelease ==> Owned(memory.blocks, Value()) == {};
      hide Sound, Laid, Owned, Attached;
      SetErrWithDetails(e, nullIfEmpty);
      ReleaseError();
      ReleaseError();
    }
  }

  /** cArrayStream and the stream struct it is stored in: live while private_data is not null. */
  class ArrayStream {
    const memory: Memory
    var live: bool
    var adbcErr: AdbcError?
    var address: nat
    var status: Status

    ghost predicate Valid()
      reads this, adbcErr, memory
    {
      && memory.Valid()
      && (adbcErr == null <==> address == 0)
      && (adbcErr != null && live ==>
            && adbcErr.memory == memory && adbcErr.Valid()
            && address in memory.blocks && memory.blocks[address] == Struct
            && address !in Owned(memory.blocks, adbcErr.Value()))
    }

    /** The memory the stream is responsible for: its one error struct and what that owns. */
    ghost function Mine(): set<nat>
      reads this, adbcErr, memory
      requires Valid()
    {
      if adbcErr == null || !live then {} else {address} + Owned(memory.blocks, adbcErr.Value())
    }

    constructor (memory: Memory)
      requires memory.Valid()
      ensures this.memory == memory && live && adbcErr == null && status == OK && Valid() && Mine() == {}
    {
      this.memory := memory;
      live, adbcErr, address, status := true, null, 0, OK;
    }

    /** maybeError: the previous error is released before the next one is set. */
    method MaybeError(err: Option<Failure>, nullIfEmpty: bool) returns (errno: Errno)
      requires Valid() && live
      modifies this, memory, if adbcErr == null then {} else {adbcErr}
      ensures Valid() && live && (old(adbcErr) != null ==> adbcErr == old(adbcErr))
      ensures old(adbcErr) == null && adbcErr != null ==> fresh(adbcErr)
      ensures err.Some? ==> adbcErr != null && adbcErr.release != NoRelease && Says(memory.blocks, adbcErr.Value(), err.value)
      ensures err.Some? ==> (adbcErr.release == ReleaseDetails <==> DetailsFor(-2_147_483_648, err.value))
      ensures memory.blocks - Mine() == old(memory.blocks) - old(Mine())
      ensures errno == (if err.None? then Zero else ErrnoOf(StatusOf(err.value)))
      ensures status == (if err.None? then old(status) else StatusOf(err.value))
    {
      if err.None? {
        return Zero;
      }
      hide Sound, Laid, Owned;
      if adbcErr != null {
        adbcErr.ReleaseError();
      } else {
        Calloc();
      }
      Report(err.value, nullIfEmpty, memory.blocks - {address});
      errno := ErrnoOf(status);
    }

    method Calloc()
      requires Valid() && adbcErr == null && live
      modifies this`adbcErr, this`address, memory
      ensures Valid() && live && adbcErr != null && fresh(adbcErr) && adbcErr.release == NoRelease
      ensures memory.blocks - {address} == old(memory.blocks)
    {
      address := memory.Allocate(Struct);
      adbcErr := new AdbcError(memory);
    }

    method Report(err: Failure, nullIfEmpty: bool, ghost rest: Blocks)
      requires Valid() && live && adbcErr != null && adbcErr.release == NoRelease && memory.blocks - {address} == rest
      modifies this`status, memory, adbcErr
      ensures Valid() && adbcErr.release != NoRelease && status == StatusOf(err)
      ensures Says(memory.blocks, adbcErr.Value(), err)
      ensures adbcErr.release == ReleaseDetails <==> DetailsFor(-2_147_483_648, err)
      ensures memory.blocks - Mine() == rest
    {
      assert Owned(memory.blocks, adbcErr.Value()) == {};
      adbcErr.vendorCode := PRIVATE_DATA;
      assert Owned(memory.blocks, adbcErr.Value()) == {};
      ghost var b := memory.blocks;
      hide Sound, Laid, Owned;
      status := adbcErr.ErrToAdbcErr(err, nullIfEmpty);
      ghost var after := memory.blocks;
      assert after - Owned(after, adbcErr.Value()) == b;
      assert after - ({address} + Owned(after, adbcErr.Value())) == after - Owned(after, adbcErr.Value()) - {address};
      assert b[address] == Struct && address in memory.blocks - Owned(memory.blocks, adbcErr.Value());
    }

    /** MariaDBArrayStreamGetNext when the reader has no more batches, and GetSchema when it has no schema. */
    method Next(err: Option<Failure>, nullIfEmpty: bool) returns (errno: Errno)
      requires Valid()
      modifies this, memory, if adbcErr == null then {} else {adbcErr}
      ensures Valid() && live == old(live)
      ensures adbcErr == old(adbcErr) || fresh(adbcErr)
      ensures memory.blocks - Mine() == old(memory.blocks) - old(Mine())
      ensures errno == (if !live then EINVAL else if err.None? then Zero else ErrnoOf(StatusOf(err.value)))
      ensures live && err.Some? ==> adbcErr != null && Says(memory.blocks, adbcErr.Value(), err.value)
      ensures status == (if live && err.Some? then StatusOf(err.value) else old(status))
    {
      if !live {
        return EINVAL;
      }
      errno := MaybeError(err, nullIfEmpty);
    }

    /** MariaDBArrayStreamGetLastError. */
    method GetLastError() returns (text: nat)
      requires Valid()
      ensures text == if live && adbcErr != null then adbcErr.message else 0
    {
      if !live {
        return 0;
      }
      text := if adbcErr != null then adbcErr.message else 0;
    }

    /** MariaDBArrayStreamRelease: the error, then the struct it was in; a second release does nothing. */
    method Release()
      requires Valid()
      modifies this, memory, if adbcErr == null then {} else {adbcErr}
      ensures Valid() && !live && adbcErr == old(adbcErr) && Mine() == {}
      ensures memory.blocks == old(memory.blocks) - old(Mine())
    {
      if !live {
        return;
      }
      live := false;
      if adbcErr != null {
        adbcErr.ReleaseError();
        memory.Free(address);
      }
    }
  }

  /** A call on a stream. */
  datatype StreamCall = Read(err: Option<Failure>) | End

  /** The status of the latest failed read. */
  function LastStatus(calls: seq<StreamCall>): Status {
    if calls == [] then OK
    else
      var last := calls[|calls| - 1];
      if last.Read? && last.err.Some? then StatusOf(last.err.value) else LastStatus(calls[..|calls| - 1])
  }

  /** Any run of calls on a new stream, finished or not: the stream answers for one error struct at most, everything
      else in memory is as it was, the status is that of the latest failed read, and once the stream has been released
      nothing of it is left. */
  method RunStream(memory: Memory, calls: seq<StreamCall>, nullIfEmpty: bool) returns (stream: ArrayStream)
    requires memory.Valid()
    modifies memory
    ensures fresh(stream) && stream.memory == memory && stream.Valid() && (stream.live <==> End !in calls)
    ensures memory.blocks - stream.Mine() == old(memory.blocks)
    ensures stream.live ==> stream.status == LastStatus(calls)
    ensures End in calls ==> memory.blocks == old(memory.blocks)
  {
    stream := new ArrayStream(memory);
    var i := 0;
    while i < |calls|
      invariant 0 <= i <= |calls| && stream.memory == memory && stream.Valid()
      invariant fresh(stream) && (stream.adbcErr == null || fresh(stream.adbcErr))
      invariant stream.live <==> End !in calls[..i]
      invariant stream.live ==> stream.status == LastStatus(calls[..i])
      invariant memory.blocks - stream.Mine() == old(memory.blocks)
    {
      assert calls[..i + 1] == calls[..i] + [calls[i]];
      match calls[i] {
        case Read(err) =>
          var errno := stream.Next(err, nullIfEmpty);
        case End => stream.Release();
      }
      i := i + 1;
    }
    assert calls[..i] == calls;
    assert memory.blocks - {} == memory.blocks;
  }

  /** The leak happens: an error with details over an error still held, then a release, and memory is not as before. */
  method LeakedError(memory: Memory, text: string, details: seq<Detail>) returns (e: AdbcError)
    requires memory.Valid() && details != []
    modifies memory
    ensures fresh(e) && e.release == NoRelease && memory.blocks != old(memory.blocks)
  {
    e := new AdbcError(memory);
    e.vendorCode := PRIVATE_DATA;
    assert Owned(memory.blocks, e.Value()) == {};
    e.SetErr(text);
    assert e.message in memory.blocks && e.message !in old(memory.blocks);
    e.SetThenRelease(GoError(IO, text, 0, "00000", details), true);
  }
}
