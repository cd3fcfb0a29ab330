/** The key-value store of utils/db.ts: one IndexedDB object store, modelled as a map
    from record id to value, reached through a memoised connection handle. */
module Db {
  import opened Types

  type Store = map<string, Value>

  /** The singular records. */
  const MetadataKey := "metadata"
  const LegacyHeadersKey := "headers"
  const LegacyDataKey := "data"
  const LegacyConfirmedKey := "isConfirmed"

  /** The three records holding one table's content: `table:{id}:headers|data|confirmed`. */
  function HeadersKey(id: string): string { "table:" + id + ":headers" }
  function DataKey(id: string): string { "table:" + id + ":data" }
  function ConfirmedKey(id: string): string { "table:" + id + ":confirmed" }

  function ContentKeys(id: string): set<string>
  {
    {HeadersKey(id), DataKey(id), ConfirmedKey(id)}
  }

  /** The three content keys of a table are pairwise different, and none of them is one of
      the singular keys. */
  lemma ContentKeysDistinct(id: string)
    ensures HeadersKey(id) != DataKey(id) && HeadersKey(id) != ConfirmedKey(id) && DataKey(id) != ConfirmedKey(id)
    ensures MetadataKey !in ContentKeys(id)
    ensures LegacyHeadersKey !in ContentKeys(id) && LegacyDataKey !in ContentKeys(id)
    ensures LegacyConfirmedKey !in ContentKeys(id)
  {
    var h, d, c := HeadersKey(id), DataKey(id), ConfirmedKey(id);
    assert h[|h| - 1] == 's' && d[|d| - 1] == 'a' && c[|c| - 1] == 'd';
    assert h[0] == 't' && d[0] == 't' && c[0] == 't';
  }

  /** Content keys of different tables never coincide. */
  lemma ContentKeysSeparate(a: string, b: string)
    requires a != b
    ensures ContentKeys(a) !! ContentKeys(b)
  {
    KeyMiddle(a, b, ":headers");
    KeyMiddle(a, b, ":data");
    KeyMiddle(a, b, ":confirmed");
    KeyEndings(a);
    KeyEndings(b);
  }

  /** The id is recovered from a content key. */
  lemma KeyMiddle(a: string, b: string, sfx: string)
    ensures "table:" + a + sfx == "table:" + b + sfx ==> a == b
  {
    var x, y := "table:" + a + sfx, "table:" + b + sfx;
    if x == y {
      assert a == x[6..|x| - |sfx|];
      assert b == y[6..|y| - |sfx|];
    }
  }

  /** The last character tells the three kinds of content key apart. */
  lemma KeyEndings(id: string)
    ensures var h := HeadersKey(id); h[|h| - 1] == 's'
    ensures var d := DataKey(id); d[|d| - 1] == 'a'
    ensures var c := ConfirmedKey(id); c[|c| - 1] == 'd'
  {
  }

  function Lookup(s: Store, key: string): (v: Option<Value>)
    ensures v.Some? <==> key in s
  {
    if key in s then Some(s[key]) else None
  }

  /** A write request: `store.put({id: key, value})` or `store.delete(key)`. */
  datatype Write = Put(key: string, value: Value) | Delete(key: string)

  function Apply(s: Store, w: Write): Store
  {
    match w
    case Put(k, v) => s[k := v]
    case Delete(k) => s - {k}
  }

  /** The store after every write of `ws`, in order. */
  function ApplyAll(s: Store, ws: seq<Write>): Store
    decreases |ws|
  {
    if ws == [] then s else ApplyAll(Apply(s, ws[0]), ws[1..])
  }

  /** Which requests the storage engine rejects: all of them when the database cannot be
      opened; otherwise the reads of the records in `readRejected`, the writes (put or
      delete) of the records in `writeRejected`, and, when `storeRejected`, the requests
      on the whole store (`getAll`, `clear`). Reads and writes of one record fail
      independently, so a failed read may be followed by a successful write. */
  datatype Faults = Faults(down: bool, readRejected: set<string>, writeRejected: set<string>, storeRejected: bool)
  {
    predicate RejectsRead(key: string)
    {
      down || key in readRejected
    }

    predicate RejectsWrite(key: string)
    {
      down || key in writeRejected
    }

    /** Both reads and writes of `key` succeed. */
    predicate Serves(key: string)
    {
      !RejectsRead(key) && !RejectsWrite(key)
    }

    function ErrorFor(key: string): Error
    {
      if down then OpenFailed else RequestFailed(key)
    }
  }

  /** The store and the outcome after some requests. */
  datatype Run = Run(store: Store, outcome: Outcome)

  /** One awaited write request. */
  function Step(s: Store, f: Faults, w: Write): Run
  {
    if f.RejectsWrite(w.key) then Run(s, Failed(f.ErrorFor(w.key))) else Run(Apply(s, w), Done)
  }

  /** The records some write of `ws` touches. */
  function KeysOf(ws: seq<Write>): set<string>
  {
    set j | 0 <= j < |ws| :: ws[j].key
  }

  /** Write requests issued one after another, each awaited: the first rejected one
      throws, and the writes after it are never issued. The run succeeds exactly when no
      write is rejected, and then every write has taken effect; a failure is the engine's. */
  function Execute(s: Store, f: Faults, ws: seq<Write>): (r: Run)
    decreases |ws|
    ensures r.outcome == Done <==> forall j :: 0 <= j < |ws| ==> !f.RejectsWrite(ws[j].key)
    ensures r.outcome == Done ==> r.store == ApplyAll(s, ws)
    ensures r.outcome.Failed? ==> r.outcome.error.OpenFailed? || r.outcome.error.RequestFailed?
  {
    if ws == [] then Run(s, Done)
    else
      var first := Step(s, f, ws[0]);
      if first.outcome.Failed? then first else Execute(first.store, f, ws[1..])
  }

  /** Whatever happens, a record no write touches keeps its value. */
  lemma {:induction false} ExecuteFrame(s: Store, f: Faults, ws: seq<Write>)
    decreases |ws|
    ensures forall k :: k !in KeysOf(ws) ==> Lookup(Execute(s, f, ws).store, k) == Lookup(s, k)
  {
    if ws != [] {
      ExecuteFrame(Step(s, f, ws[0]).store, f, ws[1..]);
      assert forall j :: 0 <= j < |ws[1..]| ==> ws[1..][j] == ws[j + 1];
      assert ws[0].key in KeysOf(ws);
    }
  }

  /** Running the writes from index `k` on is one step followed by the writes after it. */
  lemma ExecuteFrom(s: Store, f: Faults, ws: seq<Write>, k: nat)
    requires k < |ws|
    ensures var st := Step(s, f, ws[k]);
      Execute(s, f, ws[k..]) == if st.outcome.Failed? then st else Execute(st.store, f, ws[k + 1..])
  {
    assert ws[k..][0] == ws[k] && ws[k..][1..] == ws[k + 1..];
  }

  /** How many writes of `ws` take effect before the first rejected one. */
  function Issued(f: Faults, ws: seq<Write>): (n: nat)
    ensures n <= |ws|
    ensures forall j :: 0 <= j < n ==> !f.RejectsWrite(ws[j].key)
    ensures n < |ws| ==> f.RejectsWrite(ws[n].key)
  {
    if ws == [] || f.RejectsWrite(ws[0].key) then 0 else 1 + Issued(f, ws[1..])
  }

  /** A sequence of awaited writes leaves the store as some prefix of the writes left it,
      and succeeds exactly when that prefix is all of them. Every intermediate state a
      failure can expose is therefore a prefix state. */
  lemma {:induction false} ExecuteIsPrefix(s: Store, f: Faults, ws: seq<Write>)
    decreases |ws|
    ensures var n := Issued(f, ws);
      Execute(s, f, ws) == Run(ApplyAll(s, ws[..n]), if n == |ws| then Done else Failed(f.ErrorFor(ws[n].key)))
  {
    if ws != [] && !f.RejectsWrite(ws[0].key) {
      ExecuteIsPrefix(Apply(s, ws[0]), f, ws[1..]);
      assert ws[..Issued(f, ws)] == [ws[0]] + ws[1..][..Issued(f, ws[1..])];
    } else if ws != [] {
      assert ws[..0] == [];
    }
  }

  /** When no request is rejected, every write takes effect. */
  lemma ExecuteUnrejected(s: Store, f: Faults, ws: seq<Write>)
    requires forall j :: 0 <= j < |ws| ==> !f.RejectsWrite(ws[j].key)
    ensures Execute(s, f, ws) == Run(ApplyAll(s, ws), Done)
  {
    ExecuteIsPrefix(s, f, ws);
    assert ws[..|ws|] == ws;
  }

  /** The engine that rejects nothing. */
  const NoFaults := Faults(false, {}, {}, false)

  /** What a write leaves in its record. */
  function Effect(w: Write): Option<Value>
  {
    match w
    case Put(_, v) => Some(v)
    case Delete(_) => None
  }

  /** No two writes of `ws` touch the same record. */
  predicate DistinctKeys(ws: seq<Write>)
  {
    forall i, j :: 0 <= i < j < |ws| ==> ws[i].key != ws[j].key
  }

  /** A record no write of `ws` touches keeps its value through every prefix of `ws`. */
  lemma {:induction false} PrefixUntouched(s: Store, ws: seq<Write>, n: nat, k: string)
    requires n <= |ws|
    requires forall j :: 0 <= j < |ws| ==> ws[j].key != k
    ensures Lookup(ApplyAll(s, ws[..n]), k) == Lookup(s, k)
    decreases n
  {
    if n > 0 {
      assert ws[..n] == [ws[0]] + ws[1..][..n - 1];
      PrefixUntouched(Apply(s, ws[0]), ws[1..], n - 1, k);
    }
  }

  /** After the first `n` of a sequence of writes to distinct records, each record holds
      what its write put there if that write was among the first `n`, and its old value
      otherwise. */
  lemma {:induction false} PrefixWritten(s: Store, ws: seq<Write>, n: nat, i: nat)
    requires n <= |ws| && i < |ws|
    requires DistinctKeys(ws)
    ensures Lookup(ApplyAll(s, ws[..n]), ws[i].key) == if i < n then Effect(ws[i]) else Lookup(s, ws[i].key)
    decreases n
  {
    if n > 0 {
      assert ws[..n] == [ws[0]] + ws[1..][..n - 1];
      if i == 0 {
        PrefixUntouched(Apply(s, ws[0]), ws[1..], n - 1, ws[0].key);
      } else {
        PrefixWritten(Apply(s, ws[0]), ws[1..], n - 1, i - 1);
      }
    }
  }

  /** One table's content as it is read back: `{headers, data, isConfirmed}`. */
  datatype TableData = TableData(headers: Value, data: Value, isConfirmed: Value)

  /** What a table with no content reads as. */
  const EmptyContent := TableData(Strings([]), Rows([]), Bool(false))

  /** `getMultiTableData` / `getTableData`: each record `|| default`, and all defaults when
      any of the three reads fails. */
  function ReadContent(s: Store, f: Faults, id: string): (r: TableData)
    ensures f.RejectsRead(HeadersKey(id)) || f.RejectsRead(DataKey(id)) || f.RejectsRead(ConfirmedKey(id)) ==> r == EmptyContent
    ensures HeadersKey(id) !in s ==> r.headers == Strings([])
    ensures DataKey(id) !in s ==> r.data == Rows([])
    ensures ConfirmedKey(id) !in s ==> r.isConfirmed == Bool(false)
  {
    if f.RejectsRead(HeadersKey(id)) || f.RejectsRead(DataKey(id)) || f.RejectsRead(ConfirmedKey(id)) then EmptyContent
    else TableData(
      OrElse(Lookup(s, HeadersKey(id)), Strings([])),
      OrElse(Lookup(s, DataKey(id)), Rows([])),
      OrElse(Lookup(s, ConfirmedKey(id)), Bool(false)))
  }

  /** `saveMultiTableData` / `saveTableData`: headers, then data, then the flag. */
  function ContentWrites(id: string, headers: seq<string>, data: seq<Row>, isConfirmed: bool): seq<Write>
  {
    [Put(HeadersKey(id), Strings(headers)), Put(DataKey(id), Rows(data)), Put(ConfirmedKey(id), Bool(isConfirmed))]
  }

  /** Saving a table's content writes exactly its three records and nothing else, and
      reading it back returns what was saved. */
  lemma SaveThenReadContent(s: Store, f: Faults, id: string, headers: seq<string>, data: seq<Row>, isConfirmed: bool)
    requires forall k :: k in ContentKeys(id) ==> f.Serves(k)
    ensures Execute(s, f, ContentWrites(id, headers, data, isConfirmed)).outcome == Done
    ensures var t := Execute(s, f, ContentWrites(id, headers, data, isConfirmed)).store;
      && ReadContent(t, f, id) == TableData(Strings(headers), Rows(data), Bool(isConfirmed))
      && t.Keys == s.Keys + ContentKeys(id)
      && forall k :: k !in ContentKeys(id) ==> Lookup(t, k) == Lookup(s, k)
  {
    ContentKeysDistinct(id);
    var ws := ContentWrites(id, headers, data, isConfirmed);
    assert !f.RejectsWrite(ws[0].key) && !f.RejectsWrite(ws[1].key) && !f.RejectsWrite(ws[2].key);
    ExecuteUnrejected(s, f, ws);
    var s1 := s[HeadersKey(id) := Strings(headers)];
    var s2 := s1[DataKey(id) := Rows(data)];
    var s3 := s2[ConfirmedKey(id) := Bool(isConfirmed)];
    assert ws[1..][1..][1..] == [];
    assert ApplyAll(s2, ws[1..][1..]) == s3;
    assert ApplyAll(s1, ws[1..]) == s3;
    assert ApplyAll(s, ws) == s3;
  }

  /** The legacy single-table state read by `loadAppState`. */
  datatype LegacyState = LegacyState(headers: Value, data: Value, isConfirmed: Value)

  /** `loadAppState`: headers default to `[]`, data to `null` (not `[]`), the flag to
      `false`; any failed read yields `{}` (here `None`). */
  function ReadLegacy(s: Store, f: Faults): (r: Option<LegacyState>)
    ensures r.None? <==> f.RejectsRead(LegacyHeadersKey) || f.RejectsRead(LegacyDataKey) || f.RejectsRead(LegacyConfirmedKey)
    ensures r.Some? && LegacyHeadersKey !in s ==> r.value.headers == Strings([])
    ensures r.Some? && LegacyDataKey !in s ==> r.value.data == Null
    ensures r.Some? && LegacyConfirmedKey !in s ==> r.value.isConfirmed == Bool(false)
  {
    if f.RejectsRead(LegacyHeadersKey) || f.RejectsRead(LegacyDataKey) || f.RejectsRead(LegacyConfirmedKey) then None
    else Some(LegacyState(
      OrElse(Lookup(s, LegacyHeadersKey), Strings([])),
      OrElse(Lookup(s, LegacyDataKey), Null),
      OrElse(Lookup(s, LegacyConfirmedKey), Bool(false))))
  }

  /** `saveAppState`'s three writes. */
  function LegacyWrites(headers: seq<string>, data: seq<Row>, isConfirmed: bool): seq<Write>
  {
    [Put(LegacyHeadersKey, Strings(headers)), Put(LegacyDataKey, Rows(data)), Put(LegacyConfirmedKey, Bool(isConfirmed))]
  }

  /** Write requests issued together (`Promise.all`): every unrejected write takes effect,
      and the whole fails, with the first rejection in list order, if any is rejected. */
  function ExecuteAll(s: Store, f: Faults, ws: seq<Write>): (r: Run)
    decreases |ws|
    ensures r.outcome == Done <==> forall j :: 0 <= j < |ws| ==> !f.RejectsWrite(ws[j].key)
  {
    if ws == [] then Run(s, Done)
    else
      var first := Step(s, f, ws[0]);
      var rest := ExecuteAll(first.store, f, ws[1..]);
      Run(rest.store, if first.outcome.Failed? then first.outcome else rest.outcome)
  }

  /** Saving and then loading the legacy state returns what was saved. */
  lemma SaveThenLoadAppState(s: Store, f: Faults, headers: seq<string>, data: seq<Row>, isConfirmed: bool)
    requires f.Serves(LegacyHeadersKey) && f.Serves(LegacyDataKey) && f.Serves(LegacyConfirmedKey)
    ensures var r := ExecuteAll(s, f, LegacyWrites(headers, data, isConfirmed));
      && r.outcome == Done
      && ReadLegacy(r.store, f) == Some(LegacyState(Strings(headers), Rows(data), Bool(isConfirmed)))
      && forall k :: k !in {LegacyHeadersKey, LegacyDataKey, LegacyConfirmedKey} ==> Lookup(r.store, k) == Lookup(s, k)
  {
    var ws := LegacyWrites(headers, data, isConfirmed);
    var s1 := s[LegacyHeadersKey := Strings(headers)];
    var s2 := s1[LegacyDataKey := Rows(data)];
    var s3 := s2[LegacyConfirmedKey := Bool(isConfirmed)];
    assert ws[1..][1..][1..] == [];
    assert ExecuteAll(s2, f, ws[1..][1..]) == Run(s3, Done);
    assert ExecuteAll(s1, f, ws[1..]) == Run(s3, Done);
    assert ExecuteAll(s, f, ws) == Run(s3, Done);
  }

  /** One record as `getAllFromDB` returns it. */
  datatype StoreRecord = StoreRecord(id: string, value: Value)

  function RecordIds(records: seq<StoreRecord>): (ids: seq<string>)
    ensures |ids| == |records|
    ensures forall i :: 0 <= i < |records| ==> ids[i] == records[i].id
  {
    if records == [] then [] else [records[0].id] + RecordIds(records[1..])
  }

  /** `records` lists every entry of `s` exactly once. */
  predicate ListsAll(s: Store, records: seq<StoreRecord>)
  {
    && (forall i :: 0 <= i < |records| ==> records[i].id in s && s[records[i].id] == records[i].value)
    && (forall i, j :: 0 <= i < j < |records| ==> records[i].id != records[j].id)
    && (forall k :: k in s ==> k in RecordIds(records))
  }

  /** IndexedDB's order on string keys, taken here character by character, a proper
      prefix first. */
  predicate KeyBelow(a: string, b: string)
    decreases |a|
  {
    b != [] && (a == [] || a[0] < b[0] || (a[0] == b[0] && KeyBelow(a[1..], b[1..])))
  }

  lemma {:induction false} KeyBelowIrreflexive(a: string)
    decreases |a|
    ensures !KeyBelow(a, a)
  {
    if a != [] {
      KeyBelowIrreflexive(a[1..]);
    }
  }

  lemma {:induction false} KeyBelowTransitive(a: string, b: string, c: string)
    requires KeyBelow(a, b) && KeyBelow(b, c)
    decreases |a|
    ensures KeyBelow(a, c)
  {
    if a != [] && a[0] == b[0] && b[0] == c[0] {
      KeyBelowTransitive(a[1..], b[1..], c[1..]);
    }
  }

  lemma {:induction false} KeyBelowTotal(a: string, b: string)
    requires a != b
    decreases |a|
    ensures KeyBelow(a, b) || KeyBelow(b, a)
  {
    if a != [] && b != [] && a[0] == b[0] {
      assert a == [a[0]] + a[1..] && b == [b[0]] + b[1..];
      KeyBelowTotal(a[1..], b[1..]);
    }
  }

  /** A non-empty set of keys has a least key. */
  lemma {:induction false} LeastKey(ks: set<string>)
    requires ks != {}
    decreases |ks|
    ensures exists k :: k in ks && forall j :: j in ks && j != k ==> KeyBelow(k, j)
  {
    var x :| x in ks;
    if ks != {x} {
      var rest := ks - {x};
      LeastKey(rest);
      var m :| m in rest && forall j :: j in rest && j != m ==> KeyBelow(m, j);
      if KeyBelow(x, m) {
        forall j | j in ks && j != x ensures KeyBelow(x, j) {
          if j != m {
            KeyBelowTransitive(x, m, j);
          }
        }
      } else {
        KeyBelowTotal(x, m);
        assert forall j :: j in ks && j != m ==> KeyBelow(m, j);
      }
    } else {
      assert forall j :: j in ks ==> j == x;
    }
  }

  /** The records' ids strictly increase in key order. */
  predicate Ascending(records: seq<StoreRecord>)
  {
    forall i, j :: 0 <= i < j < |records| ==> KeyBelow(records[i].id, records[j].id)
  }

  /** There is only one ascending listing of a store: what `getAll` returns is determined
      by the records. */
  lemma {:induction false} AscendingListingUnique(s: Store, a: seq<StoreRecord>, b: seq<StoreRecord>)
    requires ListsAll(s, a) && Ascending(a) && ListsAll(s, b) && Ascending(b)
    decreases |a|
    ensures a == b
  {
    EmptyListing(s, a);
    EmptyListing(s, b);
    if a != [] {
      SameFirst(s, a, b);
      TailListing(s, a);
      TailListing(s, b);
      AscendingListingUnique(s - {a[0].id}, a[1..], b[1..]);
      assert a == [a[0]] + a[1..] && b == [b[0]] + b[1..];
    }
  }

  /** Two ascending listings of a non-empty store start with the same record. */
  lemma SameFirst(s: Store, a: seq<StoreRecord>, b: seq<StoreRecord>)
    requires ListsAll(s, a) && Ascending(a) && ListsAll(s, b) && Ascending(b)
    requires a != [] && b != []
    ensures a[0] == b[0]
  {
    FirstIsLeast(s, a);
    FirstIsLeast(s, b);
    if a[0].id != b[0].id {
      KeyBelowIrreflexive(a[0].id);
      KeyBelowTransitive(a[0].id, b[0].id, a[0].id);
    }
  }

  /** A listing is empty exactly when the store is. */
  lemma EmptyListing(s: Store, a: seq<StoreRecord>)
    requires ListsAll(s, a)
    ensures a == [] <==> s == map[]
  {
    if a != [] {
      assert a[0].id in s;
    }
  }

  /** The first record of an ascending listing has the least key of the store. */
  lemma FirstIsLeast(s: Store, a: seq<StoreRecord>)
    requires ListsAll(s, a) && Ascending(a) && a != []
    ensures forall k :: k in s && k != a[0].id ==> KeyBelow(a[0].id, k)
  {
    forall k | k in s && k != a[0].id ensures KeyBelow(a[0].id, k) {
      assert k in RecordIds(a);
      var i :| 0 <= i < |a| && RecordIds(a)[i] == k;
    }
  }

  /** The rest of a listing lists the store without its first record. */
  lemma TailListing(s: Store, a: seq<StoreRecord>)
    requires ListsAll(s, a) && Ascending(a) && a != []
    ensures ListsAll(s - {a[0].id}, a[1..]) && Ascending(a[1..])
  {
    var t, tail := s - {a[0].id}, a[1..];
    forall i | 0 <= i < |tail| ensures tail[i].id in t && t[tail[i].id] == tail[i].value {
      assert tail[i] == a[i + 1];
      assert a[0].id != a[i + 1].id;
    }
    forall i, j | 0 <= i < j < |tail| ensures tail[i].id != tail[j].id && KeyBelow(tail[i].id, tail[j].id) {
      assert tail[i] == a[i + 1] && tail[j] == a[j + 1];
    }
    assert RecordIds(a) == [a[0].id] + RecordIds(tail);
    forall k | k in t ensures k in RecordIds(tail) {
      assert k in RecordIds(a) && k != a[0].id;
    }
  }

  /** What `getAll` has produced once the keys in `left` remain: the other records, each
      once, in ascending order, all below the remaining keys. */
  predicate ListedSoFar(s: Store, left: set<string>, records: seq<StoreRecord>)
  {
    && (forall i :: 0 <= i < |records| ==> records[i].id in s && records[i].id !in left && s[records[i].id] == records[i].value)
    && (forall i, j :: 0 <= i < j < |records| ==> records[i].id != records[j].id)
    && (forall k :: k in s && k !in left ==> k in RecordIds(records))
    && Ascending(records)
    && (forall i, k :: 0 <= i < |records| && k in left ==> KeyBelow(records[i].id, k))
  }

  /** Taking the least remaining key keeps the listing ascending. */
  lemma ListedSoFarStep(s: Store, left: set<string>, records: seq<StoreRecord>, k: string)
    requires left <= s.Keys && ListedSoFar(s, left, records)
    requires k in left && forall j :: j in left && j != k ==> KeyBelow(k, j)
    ensures ListedSoFar(s, left - {k}, records + [StoreRecord(k, s[k])])
  {
    var next, rest := records + [StoreRecord(k, s[k])], left - {k};
    assert RecordIds(next) == RecordIds(records) + [k];
    forall i | 0 <= i < |next| ensures next[i].id in s && next[i].id !in rest && s[next[i].id] == next[i].value {
      if i < |records| {
        assert next[i] == records[i];
      }
    }
    forall i, j | 0 <= i < j < |next| ensures KeyBelow(next[i].id, next[j].id) && next[i].id != next[j].id {
      assert next[i] == records[i];
      if j == |records| {
        assert next[j].id == k;
      } else {
        assert next[j] == records[j];
      }
    }
    forall i, j | 0 <= i < |next| && j in rest ensures KeyBelow(next[i].id, j) {
      if i < |records| {
        assert next[i] == records[i];
      }
    }
  }

  /** The database module: the persisted object store, the memoised handle `dbInstance`,
      and what the storage engine will do with requests. */
  class Database {
    /** The records of the object store. */
    var entries: Store
    /** `dbInstance`: the open handle, numbered by the open request that produced it. */
    var instance: Option<nat>
    /** How many times `indexedDB.open` has been called. */
    var opens: nat
    /** Whether `indexedDB.open` succeeds. */
    const openable: bool
    /** The records whose get requests the engine rejects. */
    const readRejected: set<string>
    /** The records whose put and delete requests the engine rejects. */
    const writeRejected: set<string>
    /** Whether the engine rejects `getAll` and `clear`. */
    const storeRejected: bool

    constructor (persisted: Store, openable: bool, readRejected: set<string>, writeRejected: set<string>, storeRejected: bool)
      ensures entries == persisted && instance == None && opens == 0
      ensures this.openable == openable && this.readRejected == readRejected
      ensures this.writeRejected == writeRejected && this.storeRejected == storeRejected
    {
      entries := persisted;
      instance := None;
      opens := 0;
      this.openable := openable;
      this.readRejected := readRejected;
      this.writeRejected := writeRejected;
      this.storeRejected := storeRejected;
    }

    /** The requests that fail from now on. */
    function Failing(): Faults
      reads this
    {
      Faults(instance.None? && !openable, readRejected, writeRejected, storeRejected)
    }

    /** What a call leaves of the connection: an open handle is kept (and nothing is opened
        again), and the same requests keep failing. */
    twostate predicate Connected()
      reads this
    {
      && Failing() == old(Failing())
      && (old(instance).Some? ==> instance == old(instance) && opens == old(opens))
    }

    /** `initDB`: returns the memoised handle when there is one; otherwise opens the
        database, and memoises the handle when the open succeeds. */
    method InitDB() returns (r: Result<nat>)
      modifies this`instance, this`opens
      ensures Connected()
      ensures old(instance).Some? ==> r == Ok(old(instance).value)
      ensures old(instance).None? ==> opens == old(opens) + 1
      ensures old(instance).None? && openable ==> r == Ok(old(opens)) && instance == Some(old(opens))
      ensures old(instance).None? && !openable ==> r == Err(OpenFailed) && instance == None
    {
      if instance.Some? {
        return Ok(instance.value);
      }
      var handle := opens;
      opens := opens + 1;
      if openable {
        instance := Some(handle);
        r := Ok(handle);
      } else {
        r := Err(OpenFailed);
      }
    }

    /** `getFromDB`: the value stored under `key`, `None` (undefined) when there is none. */
    method GetFromDB(key: string) returns (r: Result<Option<Value>>)
      modifies this`instance, this`opens
      ensures Connected()
      ensures old(Failing()).RejectsRead(key) ==> r == Err(old(Failing()).ErrorFor(key))
      ensures !old(Failing()).RejectsRead(key) ==> r == Ok(Lookup(entries, key))
    {
      var handle := InitDB();
      if handle.Err? {
        return Err(OpenFailed);
      }
      if key in readRejected {
        return Err(RequestFailed(key));
      }
      return Ok(Lookup(entries, key));
    }

    /** `saveToDB`: creates or overwrites the record `key`, and no other. */
    method SaveToDB(key: string, value: Value) returns (r: Outcome)
      modifies this
      ensures Connected()
      ensures Run(entries, r) == Step(old(entries), old(Failing()), Put(key, value))
      ensures forall k :: k != key ==> Lookup(entries, k) == Lookup(old(entries), k)
    {
      var handle := InitDB();
      if handle.Err? {
        return Failed(OpenFailed);
      }
      if key in writeRejected {
        return Failed(RequestFailed(key));
      }
      entries := entries[key := value];
      return Done;
    }

    /** `deleteFromDB`: removes the record `key`, and succeeds when there is none. */
    method DeleteFromDB(key: string) returns (r: Outcome)
      modifies this
      ensures Connected()
      ensures Run(entries, r) == Step(old(entries), old(Failing()), Delete(key))
      ensures r == Done ==> key !in entries
      ensures forall k :: k != key ==> Lookup(entries, k) == Lookup(old(entries), k)
    {
      var handle := InitDB();
      if handle.Err? {
        return Failed(OpenFailed);
      }
      if key in writeRejected {
        return Failed(RequestFailed(key));
      }
      entries := entries - {key};
      return Done;
    }

    /** `getAllFromDB`: one `getAll` request, answered with every record, each once, in
        ascending key order. */
    method GetAllFromDB() returns (r: Result<seq<StoreRecord>>)
      modifies this`instance, this`opens
      ensures Connected()
      ensures old(Failing()).down ==> r == Err(OpenFailed)
      ensures !old(Failing()).down && storeRejected ==> r == Err(StoreRequestFailed)
      ensures !old(Failing()).down && !storeRejected ==> r.Ok? && ListsAll(entries, r.value) && Ascending(r.value)
      ensures r.Ok? && entries == map[] ==> r.value == []
    {
      var handle := InitDB();
      if handle.Err? {
        return Err(OpenFailed);
      }
      if storeRejected {
        return Err(StoreRequestFailed);
      }
      // The engine walks its index from the least key up.
      var left := entries.Keys;
      var records: seq<StoreRecord> := [];
      while left != {}
        invariant instance == old(instance) || (old(instance).None? && instance.Some?)
        invariant Connected()
        invariant left <= entries.Keys
        invariant ListedSoFar(entries, left, records)
        decreases left
      {
        LeastKey(left);
        var k :| k in left && forall j :: j in left && j != k ==> KeyBelow(k, j);
        ListedSoFarStep(entries, left, records, k);
        records := records + [StoreRecord(k, entries[k])];
        left := left - {k};
      }
      assert records != [] ==> records[0].id in entries;
      return Ok(records);
    }

    /** `clearDB`: one `clear` request, removing every record. */
    method ClearDB() returns (r: Outcome)
      modifies this
      ensures Connected()
      ensures old(Failing()).down ==> r == Failed(OpenFailed) && entries == old(entries)
      ensures !old(Failing()).down && storeRejected ==> r == Failed(StoreRequestFailed) && entries == old(entries)
      ensures !old(Failing()).down && !storeRejected ==> r == Done && entries == map[]
    {
      var handle := InitDB();
      if handle.Err? {
        return Failed(OpenFailed);
      }
      if storeRejected {
        return Failed(StoreRequestFailed);
      }
      entries := map[];
      return Done;
    }
  }

  /** `loadAppState`. */
  method LoadAppState(db: Database) returns (r: Option<LegacyState>)
    modifies db`instance, db`opens
    ensures db.Connected()
    ensures r == ReadLegacy(db.entries, old(db.Failing()))
  {
    var headers := db.GetFromDB(LegacyHeadersKey);
    if headers.Err? {
      return None;
    }
    var data := db.GetFromDB(LegacyDataKey);
    if data.Err? {
      return None;
    }
    var isConfirmed := db.GetFromDB(LegacyConfirmedKey);
    if isConfirmed.Err? {
      return None;
    }
    return Some(LegacyState(
      OrElse(headers.value, Strings([])), OrElse(data.value, Null), OrElse(isConfirmed.value, Bool(false))));
  }

  /** `saveAppState`: the three writes are all issued (`Promise.all`); the call fails if any
      of them fails. */
  method SaveAppState(db: Database, headers: seq<string>, data: seq<Row>, isConfirmed: bool) returns (r: Outcome)
    modifies db
    ensures db.Connected()
    ensures Run(db.entries, r) == ExecuteAll(old(db.entries), old(db.Failing()), LegacyWrites(headers, data, isConfirmed))
  {
    ghost var s0, f := db.entries, db.Failing();
    ghost var ws := LegacyWrites(headers, data, isConfirmed);
    assert ws[1..][1..][1..] == [];
    var r1 := db.SaveToDB(LegacyHeadersKey, Strings(headers));
    ghost var s1 := db.entries;
    var r2 := db.SaveToDB(LegacyDataKey, Rows(data));
    ghost var s2 := db.entries;
    var r3 := db.SaveToDB(LegacyConfirmedKey, Bool(isConfirmed));
    r := if r1.Failed? then r1 else if r2.Failed? then r2 else r3;
    assert ExecuteAll(s2, f, ws[1..][1..]) == Run(db.entries, r3);
    assert ExecuteAll(s1, f, ws[1..]) == Run(db.entries, if r2.Failed? then r2 else r3);
  }

  /** `getMultiTableData`. */
  method GetMultiTableData(db: Database, id: string) returns (r: TableData)
    modifies db`instance, db`opens
    ensures db.Connected()
    ensures r == ReadContent(db.entries, old(db.Failing()), id)
  {
    var headers := db.GetFromDB(HeadersKey(id));
    if headers.Err? {
      return EmptyContent;
    }
    var data := db.GetFromDB(DataKey(id));
    if data.Err? {
      return EmptyContent;
    }
    var isConfirmed := db.GetFromDB(ConfirmedKey(id));
    if isConfirmed.Err? {
      return EmptyContent;
    }
    return TableData(OrElse(headers.value, Strings([])), OrElse(data.value, Rows([])), OrElse(isConfirmed.value, Bool(false)));
  }

  /** `saveMultiTableData`: headers, then data, then the flag, each awaited. */
  method SaveMultiTableData(db: Database, id: string, headers: seq<string>, data: seq<Row>, isConfirmed: bool)
    returns (r: Outcome)
    modifies db
    ensures db.Connected()
    ensures Run(db.entries, r) == Execute(old(db.entries), old(db.Failing()), ContentWrites(id, headers, data, isConfirmed))
  {
    ghost var s0, f := db.entries, db.Failing();
    ghost var ws := ContentWrites(id, headers, data, isConfirmed);
    assert ws[1..][1..][1..] == [];
    r := db.SaveToDB(HeadersKey(id), Strings(headers));
    if r.Failed? {
      return;
    }
    assert Execute(s0, f, ws) == Execute(db.entries, f, ws[1..]);
    r := db.SaveToDB(DataKey(id), Rows(data));
    if r.Failed? {
      return;
    }
    assert Execute(s0, f, ws) == Execute(db.entries, f, ws[1..][1..]);
    ghost var s2 := db.entries;
    r := db.SaveToDB(ConfirmedKey(id), Bool(isConfirmed));
    assert Execute(s2, f, ws[1..][1..]) == Run(db.entries, r);
  }
}
