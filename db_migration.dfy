/** utils/dbMigration.ts: the one-shot rewrite of the single-table records into the
    multi-table layout, and the table registry kept under `metadata`, whose operations each
    read the registry, change it, and issue a fixed sequence of writes. */
module DbMigration {
  import opened Types
  import opened JsText
  import opened Db

  /** The name given to the table that receives the legacy data. */
  const DefaultTableName := "내 데이터"
  /** The table name `renameExistingTable` looks for, and the name it gives instead. */
  const LegacyLabel := "계약호실관리"
  const CorrectedLabel := "계약호실"
  const MetadataVersion := 2

  /** The registry `getTableMetadata` falls back to. */
  const EmptyList := TableListState([], None, MetadataVersion)

  // ---------------------------------------------------------------------------------
  // Reading the registry and the legacy records
  // ---------------------------------------------------------------------------------

  /** `getTableMetadata`: the stored `metadata` record when it is truthy; the empty
      registry when it is missing or falsy, or when reading it fails. */
  function StoredMetadata(s: Store, f: Faults): (v: Value)
    ensures f.RejectsRead(MetadataKey) || MetadataKey !in s ==> v == Metadata(EmptyList)
    ensures !f.RejectsRead(MetadataKey) && MetadataKey in s && s[MetadataKey].IsTruthy() ==> v == s[MetadataKey]
    ensures v.IsTruthy()
  {
    if f.RejectsRead(MetadataKey) then Metadata(EmptyList) else OrElse(Lookup(s, MetadataKey), Metadata(EmptyList))
  }

  /** The registry the operations work on; a truthy record of another shape makes them
      throw (reading `.tables` of it fails). */
  function Registry(s: Store, f: Faults): Result<TableListState>
  {
    var v := StoredMetadata(s, f);
    if v.Metadata? then Ok(v.metadata) else Err(MalformedMetadata)
  }

  /** `isAlreadyMigrated`: a `metadata` record exists; a failed read counts as no. */
  predicate AlreadyMigrated(s: Store, f: Faults)
  {
    !f.RejectsRead(MetadataKey) && MetadataKey in s
  }

  /** `hasOldFormat`: a legacy `headers` or `data` record exists; a failed read counts as no. */
  predicate OldFormatPresent(s: Store, f: Faults)
  {
    !f.RejectsRead(LegacyHeadersKey) && !f.RejectsRead(LegacyDataKey) && (LegacyHeadersKey in s || LegacyDataKey in s)
  }

  /** `Array.isArray(v) ? v : d`. */
  function ArrayOr(v: Value, d: Value): (r: Value)
    requires d.IsArray()
    ensures r.IsArray()
    ensures v.IsArray() ==> r == v
  {
    if v.IsArray() then v else d
  }

  /** The content the migration gives the new table: the legacy headers and data when they
      are arrays (else `[]`), and `isConfirmed === true`. */
  function MovedContent(s: Store): (c: TableData)
    ensures c.headers.IsArray() && c.data.IsArray() && c.isConfirmed.Bool?
    ensures LegacyHeadersKey in s && s[LegacyHeadersKey].IsArray() ==> c.headers == s[LegacyHeadersKey]
    ensures LegacyDataKey in s && s[LegacyDataKey].IsArray() ==> c.data == s[LegacyDataKey]
    ensures c.isConfirmed == Bool(LegacyConfirmedKey in s && s[LegacyConfirmedKey] == Bool(true))
  {
    var headers := OrElse(Lookup(s, LegacyHeadersKey), Strings([]));
    var data := OrElse(Lookup(s, LegacyDataKey), Rows([]));
    var confirmed := OrElse(Lookup(s, LegacyConfirmedKey), Bool(false));
    TableData(ArrayOr(headers, Strings([])), ArrayOr(data, Rows([])), Bool(confirmed == Bool(true)))
  }

  /** The registry entry of the table that receives the legacy data. */
  function MigratedTable(s: Store, id: string, now: string): (t: TableMetadata)
    ensures t.id == id && t.name == DefaultTableName && t.createdAt == now && t.updatedAt == now
    ensures LegacyDataKey in s && s[LegacyDataKey].IsArray() ==> t.rowCount == s[LegacyDataKey].ArrayLength()
    ensures !(LegacyDataKey in s && s[LegacyDataKey].IsArray()) ==> t.rowCount == 0
  {
    var data := OrElse(Lookup(s, LegacyDataKey), Rows([]));
    TableMetadata(id, DefaultTableName, now, now, if data.IsArray() then data.ArrayLength() else 0)
  }

  /** The registry the migration writes: one table, active, version 2. */
  function MigratedList(s: Store, id: string, now: string): (m: TableListState)
    ensures m.tables == [MigratedTable(s, id, now)] && m.activeTableId == Some(id) && m.version == MetadataVersion
    ensures ActiveIsListed(m) && UniqueIds(m.tables)
  {
    assert [MigratedTable(s, id, now)][0].id == id;
    TableListState([MigratedTable(s, id, now)], Some(id), MetadataVersion)
  }

  /** The writes `migrateToMultiTable` issues, in its order: the registry first, then the
      three content records, then the deletion of the three legacy records. */
  function MigrationPlan(s: Store, id: string, now: string): seq<Write>
  {
    var c := MovedContent(s);
    [ Put(MetadataKey, Metadata(MigratedList(s, id, now))),
      Put(HeadersKey(id), c.headers), Put(DataKey(id), c.data), Put(ConfirmedKey(id), c.isConfirmed),
      Delete(LegacyHeadersKey), Delete(LegacyDataKey), Delete(LegacyConfirmedKey) ]
  }

  /** The same writes with the registry written after the content, so that the record
      marking the migration as done is the last thing created. */
  function CommitLastPlan(s: Store, id: string, now: string): seq<Write>
  {
    var c := MovedContent(s);
    [ Put(HeadersKey(id), c.headers), Put(DataKey(id), c.data), Put(ConfirmedKey(id), c.isConfirmed),
      Put(MetadataKey, Metadata(MigratedList(s, id, now))),
      Delete(LegacyHeadersKey), Delete(LegacyDataKey), Delete(LegacyConfirmedKey) ]
  }

  /** The checks of `migrateToMultiTable` followed by a write plan. The legacy `headers`
      and `data` are read again before writing, which cannot fail once `hasOldFormat` read
      them; the `isConfirmed` read can, and its error propagates. */
  function Migration(s: Store, f: Faults, plan: seq<Write>): Run
  {
    if AlreadyMigrated(s, f) || !OldFormatPresent(s, f) then Run(s, Done)
    else if f.RejectsRead(LegacyConfirmedKey) then Run(s, Failed(f.ErrorFor(LegacyConfirmedKey)))
    else Execute(s, f, plan)
  }

  /** `migrateToMultiTable`, with the new table's id and the timestamp as parameters. It
      writes nothing when a registry is read or no legacy `headers`/`data` is; a run that
      succeeds otherwise has made all seven writes; and no record outside the registry,
      the new table's content and the legacy records ever changes. */
  function Migrate(s: Store, f: Faults, id: string, now: string): (r: Run)
    ensures AlreadyMigrated(s, f) || !OldFormatPresent(s, f) ==> r == Run(s, Done)
    ensures r.outcome == Done && !AlreadyMigrated(s, f) && OldFormatPresent(s, f) ==>
      r.store == ApplyAll(s, MigrationPlan(s, id, now))
    ensures forall k :: k !in MigrationKeys(id) ==> Lookup(r.store, k) == Lookup(s, k)
  {
    var plan := MigrationPlan(s, id, now);
    assert forall j :: 0 <= j < |plan| ==> plan[j].key == MigrationKeys(id)[j];
    ExecuteFrame(s, f, plan);
    Migration(s, f, plan)
  }

  /** The migration with its registry write moved behind the content writes. */
  function MigrateCommitLast(s: Store, f: Faults, id: string, now: string): Run
  {
    Migration(s, f, CommitLastPlan(s, id, now))
  }

  // ---------------------------------------------------------------------------------
  // Properties of the migration
  // ---------------------------------------------------------------------------------

  /** Both plans write seven different records. */
  lemma PlansDistinct(s: Store, id: string, now: string)
    ensures DistinctKeys(MigrationPlan(s, id, now)) && DistinctKeys(CommitLastPlan(s, id, now))
  {
    var keys := MigrationKeys(id);
    MigrationKeysDistinct(id);
    var ws, cs := MigrationPlan(s, id, now), CommitLastPlan(s, id, now);
    assert forall i :: 0 <= i < 7 ==> ws[i].key == keys[i];
    assert forall i :: 0 <= i < 7 ==> cs[i].key == keys[if i < 3 then i + 1 else if i == 3 then 0 else i];
  }

  /** The records the migration touches: the registry, the new content, the legacy records. */
  function MigrationKeys(id: string): (keys: seq<string>)
    ensures |keys| == 7
  {
    [MetadataKey, HeadersKey(id), DataKey(id), ConfirmedKey(id), LegacyHeadersKey, LegacyDataKey, LegacyConfirmedKey]
  }

  lemma MigrationKeysDistinct(id: string)
    ensures forall i, j :: 0 <= i < j < 7 ==> MigrationKeys(id)[i] != MigrationKeys(id)[j]
  {
    ContentKeysDistinct(id);
    assert LegacyHeadersKey[0] == 'h' && LegacyDataKey[0] == 'd' && LegacyConfirmedKey[0] == 'i';
    assert MetadataKey[0] == 'm';
  }

  /** `getMultiTableData` reads back content written as arrays and a boolean unchanged. */
  lemma ReadBack(t: Store, f: Faults, id: string, c: TableData)
    requires c.headers.IsArray() && c.data.IsArray() && c.isConfirmed.Bool?
    requires forall k :: k in ContentKeys(id) ==> !f.RejectsRead(k)
    requires Lookup(t, HeadersKey(id)) == Some(c.headers) && Lookup(t, DataKey(id)) == Some(c.data)
    requires Lookup(t, ConfirmedKey(id)) == Some(c.isConfirmed)
    ensures ReadContent(t, f, id) == c
  {
  }

  /** What a prefix of the migration's writes leaves: the registry is there after the
      first write, the content after the fourth, and the legacy records are untouched
      through the fourth. */
  lemma MigrationPrefix(s: Store, id: string, now: string, n: nat)
    requires n <= 7
    ensures var t := ApplyAll(s, MigrationPlan(s, id, now)[..n]);
      && (n >= 1 ==> Registry(t, NoFaults) == Ok(MigratedList(s, id, now)))
      && (n < 1 ==> Lookup(t, MetadataKey) == Lookup(s, MetadataKey))
      && (n >= 4 ==> ReadContent(t, NoFaults, id) == MovedContent(s))
      && (n <= 4 ==> forall k :: k in {LegacyHeadersKey, LegacyDataKey, LegacyConfirmedKey} ==> Lookup(t, k) == Lookup(s, k))
      && (n == 7 ==> forall k :: k in {LegacyHeadersKey, LegacyDataKey, LegacyConfirmedKey} ==> k !in t)
  {
    var ws := MigrationPlan(s, id, now);
    var t := ApplyAll(s, ws[..n]);
    PlansDistinct(s, id, now);
    PrefixWritten(s, ws, n, 0);
    PrefixWritten(s, ws, n, 1);
    PrefixWritten(s, ws, n, 2);
    PrefixWritten(s, ws, n, 3);
    PrefixWritten(s, ws, n, 4);
    PrefixWritten(s, ws, n, 5);
    PrefixWritten(s, ws, n, 6);
    if n >= 4 {
      ReadBack(t, NoFaults, id, MovedContent(s));
    }
  }

  /** The same for the corrected plan: the content is there after the third write, the
      registry after the fourth, and the legacy records are untouched through the fourth. */
  lemma CommitLastPrefix(s: Store, id: string, now: string, n: nat)
    requires n <= 7
    ensures var t := ApplyAll(s, CommitLastPlan(s, id, now)[..n]);
      && (n >= 3 ==> ReadContent(t, NoFaults, id) == MovedContent(s))
      && (n >= 4 ==> Registry(t, NoFaults) == Ok(MigratedList(s, id, now)))
      && (n < 4 ==> Lookup(t, MetadataKey) == Lookup(s, MetadataKey))
      && (n <= 4 ==> forall k :: k in {LegacyHeadersKey, LegacyDataKey, LegacyConfirmedKey} ==> Lookup(t, k) == Lookup(s, k))
      && (n == 7 ==> forall k :: k in {LegacyHeadersKey, LegacyDataKey, LegacyConfirmedKey} ==> k !in t)
  {
    var ws := CommitLastPlan(s, id, now);
    var t := ApplyAll(s, ws[..n]);
    PlansDistinct(s, id, now);
    PrefixWritten(s, ws, n, 0);
    PrefixWritten(s, ws, n, 1);
    PrefixWritten(s, ws, n, 2);
    PrefixWritten(s, ws, n, 3);
    PrefixWritten(s, ws, n, 4);
    PrefixWritten(s, ws, n, 5);
    PrefixWritten(s, ws, n, 6);
    if n >= 3 {
      ReadBack(t, NoFaults, id, MovedContent(s));
    }
  }

  /** The migration writes nothing when a registry exists, or when there is neither a
      legacy `headers` nor a legacy `data` record. */
  lemma MigrateWritesNothing(s: Store, f: Faults, id: string, now: string)
    requires AlreadyMigrated(s, f) || (LegacyHeadersKey !in s && LegacyDataKey !in s)
    ensures Migrate(s, f, id, now) == Run(s, Done)
  {
  }

  /** On a fresh install nothing is written and the registry reads as the empty one. */
  lemma FreshInstall(s: Store, f: Faults, id: string, now: string)
    requires MetadataKey !in s && LegacyHeadersKey !in s && LegacyDataKey !in s
    ensures Migrate(s, f, id, now) == Run(s, Done)
    ensures Registry(Migrate(s, f, id, now).store, f) == Ok(EmptyList)
  {
  }

  /** A migration that meets no failure leaves one active table named after the default,
      created and updated at `now`, counting the legacy rows; its content is the legacy
      content; the legacy records are gone; and every other record is as it was. */
  lemma MigrationResult(s: Store, f: Faults, id: string, now: string)
    requires !AlreadyMigrated(s, f) && OldFormatPresent(s, f)
    requires forall k :: k in {MetadataKey, LegacyHeadersKey, LegacyDataKey, LegacyConfirmedKey} + ContentKeys(id) ==> f.Serves(k)
    ensures var r := Migrate(s, f, id, now);
      && r.outcome == Done
      && Registry(r.store, f) == Ok(TableListState([MigratedTable(s, id, now)], Some(id), 2))
      && ReadContent(r.store, f, id) == MovedContent(s)
      && LegacyHeadersKey !in r.store && LegacyDataKey !in r.store && LegacyConfirmedKey !in r.store
      && forall k :: k !in {MetadataKey, LegacyHeadersKey, LegacyDataKey, LegacyConfirmedKey} + ContentKeys(id) ==>
           Lookup(r.store, k) == Lookup(s, k)
  {
    var ws := MigrationPlan(s, id, now);
    assert f.Serves(MetadataKey) && f.Serves(HeadersKey(id)) && f.Serves(DataKey(id)) && f.Serves(ConfirmedKey(id));
    assert f.Serves(LegacyHeadersKey) && f.Serves(LegacyDataKey) && f.Serves(LegacyConfirmedKey);
    assert forall j :: 0 <= j < |ws| ==> !f.RejectsWrite(ws[j].key);
    ExecuteUnrejected(s, f, ws);
    assert ws[..7] == ws;
    MigrationPrefix(s, id, now, 7);
    var t := ApplyAll(s, ws);
    assert ReadContent(t, f, id) == ReadContent(t, NoFaults, id);
    assert Registry(t, f) == Registry(t, NoFaults);
    forall k | k !in {MetadataKey, LegacyHeadersKey, LegacyDataKey, LegacyConfirmedKey} + ContentKeys(id)
      ensures Lookup(t, k) == Lookup(s, k)
    {
      PrefixUntouched(s, ws, 7, k);
    }
  }

  /** A second migration after one that returned without error writes nothing. */
  lemma MigrateIdempotent(s: Store, f: Faults, id: string, now: string, id2: string, now2: string)
    requires Migrate(s, f, id, now).outcome == Done
    ensures var t := Migrate(s, f, id, now).store; Migrate(t, f, id2, now2) == Run(t, Done)
  {
    if !AlreadyMigrated(s, f) && OldFormatPresent(s, f) {
      var ws := MigrationPlan(s, id, now);
      PlansDistinct(s, id, now);
      ExecuteIsPrefix(s, f, ws);
      assert Issued(f, ws) == 7;
      assert ws[..7] == ws;
      PrefixWritten(s, ws, 7, 0);
      PrefixWritten(s, ws, 7, 4);
      PrefixWritten(s, ws, 7, 5);
    }
  }

  /** A later startup, with failures of its own, writes nothing after a run that actually
      migrated: the legacy `headers` and `data` records are gone, so `hasOldFormat` is false. */
  lemma MigratedStaysMigrated(s: Store, f: Faults, id: string, now: string, f2: Faults, id2: string, now2: string)
    requires !AlreadyMigrated(s, f) && OldFormatPresent(s, f)
    requires Migrate(s, f, id, now).outcome == Done
    ensures var t := Migrate(s, f, id, now).store;
      !OldFormatPresent(t, f2) && Migrate(t, f2, id2, now2) == Run(t, Done)
  {
    var ws := MigrationPlan(s, id, now);
    PlansDistinct(s, id, now);
    ExecuteIsPrefix(s, f, ws);
    assert Issued(f, ws) == 7;
    assert ws[..7] == ws;
    PrefixWritten(s, ws, 7, 4);
    PrefixWritten(s, ws, 7, 5);
  }

  /** Writes before deletes: whatever failure stops the migration, a legacy record has been
      removed only once the registry and all three content records hold their new values. */
  lemma MigrationDeletesLast(s: Store, f: Faults, id: string, now: string)
    ensures var t := Migrate(s, f, id, now).store;
      (exists k :: k in {LegacyHeadersKey, LegacyDataKey, LegacyConfirmedKey} && Lookup(t, k) != Lookup(s, k)) ==>
        && Registry(t, NoFaults) == Ok(MigratedList(s, id, now))
        && ReadContent(t, NoFaults, id) == MovedContent(s)
  {
    if !AlreadyMigrated(s, f) && OldFormatPresent(s, f) && !f.RejectsRead(LegacyConfirmedKey) {
      var ws := MigrationPlan(s, id, now);
      ExecuteIsPrefix(s, f, ws);
      MigrationPrefix(s, id, now, Issued(f, ws));
    }
  }

  /** The migration as written strands the legacy data when a content write fails: the
      registry, written first, already names the new table, so the next migration returns
      at once, the table's rows read as `[]`, and the legacy rows stay behind unread. */
  lemma MetadataFirstStrandsLegacyData(s: Store, id: string, now: string, id2: string, now2: string, rows: seq<Row>)
    requires MetadataKey !in s && LegacyDataKey in s && s[LegacyDataKey] == Rows(rows) && rows != []
    requires DataKey(id) !in s
    ensures var first := Migrate(s, Faults(false, {}, {DataKey(id)}, false), id, now);
      var second := Migrate(first.store, NoFaults, id2, now2);
      && first.outcome == Failed(RequestFailed(DataKey(id)))
      && second == Run(first.store, Done)
      && Registry(second.store, NoFaults) == Ok(MigratedList(s, id, now))
      && ReadContent(second.store, NoFaults, id).data == Rows([])
      && ReadContent(second.store, NoFaults, id).data != MovedContent(s).data
      && Lookup(second.store, LegacyDataKey) == Some(Rows(rows))
  {
    var f := Faults(false, {}, {DataKey(id)}, false);
    var ws := MigrationPlan(s, id, now);
    ContentKeysDistinct(id);
    assert LegacyConfirmedKey != DataKey(id) by {
      KeyEndings(id);
    }
    assert Issued(f, ws) == 2 by {
      assert !f.RejectsWrite(ws[0].key) && !f.RejectsWrite(ws[1].key) && f.RejectsWrite(ws[2].key);
      assert Issued(f, ws[2..]) == 0;
      assert ws[1..][1..] == ws[2..];
    }
    ExecuteIsPrefix(s, f, ws);
    MigrationPrefix(s, id, now, 2);
    PlansDistinct(s, id, now);
    PrefixWritten(s, ws, 2, 2);
  }

  /** The corrected migration never strands the legacy data: whatever failure stops a
      first run, a second run on a healthy store ends with an active table whose content
      is the legacy content. */
  lemma CommitLastNeverStrands(s: Store, f: Faults, id: string, now: string, id2: string, now2: string)
    requires MetadataKey !in s && (LegacyHeadersKey in s || LegacyDataKey in s)
    ensures var first := MigrateCommitLast(s, f, id, now);
      var second := MigrateCommitLast(first.store, NoFaults, id2, now2);
      var reg := Registry(second.store, NoFaults);
      && second.outcome == Done
      && reg.Ok? && reg.value.activeTableId.Some?
      && ReadContent(second.store, NoFaults, reg.value.activeTableId.value) == MovedContent(s)
  {
    var first := MigrateCommitLast(s, f, id, now);
    var t := first.store;
    if first.store == s {
      CleanRunCompletes(s, id2, now2);
    } else {
      var ws := CommitLastPlan(s, id, now);
      ExecuteIsPrefix(s, f, ws);
      var n := Issued(f, ws);
      CommitLastPrefix(s, id, now, n);
      if n < 4 {
        assert MovedContent(t) == MovedContent(s);
        CleanRunCompletes(t, id2, now2);
      }
    }
  }

  /** On a healthy store without a registry but with legacy records, the corrected
      migration completes and its table holds the legacy content. */
  lemma CleanRunCompletes(s: Store, id: string, now: string)
    requires MetadataKey !in s && (LegacyHeadersKey in s || LegacyDataKey in s)
    ensures var r := MigrateCommitLast(s, NoFaults, id, now);
      && r.outcome == Done
      && Registry(r.store, NoFaults) == Ok(MigratedList(s, id, now))
      && ReadContent(r.store, NoFaults, id) == MovedContent(s)
  {
    var ws := CommitLastPlan(s, id, now);
    ExecuteUnrejected(s, NoFaults, ws);
    assert ws[..7] == ws;
    CommitLastPrefix(s, id, now, 7);
  }

  /** Two stores are equal when every record reads the same. */
  lemma StoreExtensionality(a: Store, b: Store)
    requires forall k :: Lookup(a, k) == Lookup(b, k)
    ensures a == b
  {
    assert a.Keys == b.Keys by {
      forall k ensures k in a <==> k in b {
        assert Lookup(a, k).Some? <==> Lookup(b, k).Some?;
      }
    }
    forall k | k in a ensures a[k] == b[k] {
      assert Lookup(a, k) == Lookup(b, k);
    }
  }

  /** When nothing fails, the corrected migration leaves exactly the store the original
      one leaves. */
  lemma CommitLastAgrees(s: Store, f: Faults, id: string, now: string)
    requires forall k :: k in {MetadataKey, LegacyHeadersKey, LegacyDataKey, LegacyConfirmedKey} + ContentKeys(id) ==> f.Serves(k)
    ensures MigrateCommitLast(s, f, id, now) == Migrate(s, f, id, now)
  {
    var ws, vs := MigrationPlan(s, id, now), CommitLastPlan(s, id, now);
    if !AlreadyMigrated(s, f) && OldFormatPresent(s, f) {
      assert f.Serves(MetadataKey) && f.Serves(HeadersKey(id)) && f.Serves(DataKey(id)) && f.Serves(ConfirmedKey(id));
      assert f.Serves(LegacyHeadersKey) && f.Serves(LegacyDataKey) && f.Serves(LegacyConfirmedKey);
      assert forall j :: 0 <= j < |ws| ==> !f.RejectsWrite(ws[j].key);
      assert forall j :: 0 <= j < |vs| ==> !f.RejectsWrite(vs[j].key);
      ExecuteUnrejected(s, f, ws);
      ExecuteUnrejected(s, f, vs);
      PlansAgree(s, id, now);
    }
  }

  /** Both plans, applied in full, leave the same store. */
  lemma PlansAgree(s: Store, id: string, now: string)
    ensures ApplyAll(s, MigrationPlan(s, id, now)) == ApplyAll(s, CommitLastPlan(s, id, now))
  {
    var ws, vs := MigrationPlan(s, id, now), CommitLastPlan(s, id, now);
    assert ws[..7] == ws && vs[..7] == vs;
    PlansDistinct(s, id, now);
    var a, b := ApplyAll(s, ws), ApplyAll(s, vs);
    forall k ensures Lookup(a, k) == Lookup(b, k) {
      if k == MetadataKey {
        PrefixWritten(s, ws, 7, 0);
        PrefixWritten(s, vs, 7, 3);
      } else if k == HeadersKey(id) {
        PrefixWritten(s, ws, 7, 1);
        PrefixWritten(s, vs, 7, 0);
      } else if k == DataKey(id) {
        PrefixWritten(s, ws, 7, 2);
        PrefixWritten(s, vs, 7, 1);
      } else if k == ConfirmedKey(id) {
        PrefixWritten(s, ws, 7, 3);
        PrefixWritten(s, vs, 7, 2);
      } else if k == LegacyHeadersKey {
        PrefixWritten(s, ws, 7, 4);
        PrefixWritten(s, vs, 7, 4);
      } else if k == LegacyDataKey {
        PrefixWritten(s, ws, 7, 5);
        PrefixWritten(s, vs, 7, 5);
      } else if k == LegacyConfirmedKey {
        PrefixWritten(s, ws, 7, 6);
        PrefixWritten(s, vs, 7, 6);
      } else {
        PrefixUntouched(s, ws, 7, k);
        PrefixUntouched(s, vs, 7, k);
      }
    }
    StoreExtensionality(a, b);
  }

  // ---------------------------------------------------------------------------------
  // The registry operations
  // ---------------------------------------------------------------------------------

  /** The names listed in a table list, in order. */
  function Names(tables: seq<TableMetadata>): (names: seq<string>)
    ensures |names| == |tables|
    ensures forall k :: 0 <= k < |tables| ==> names[k] == tables[k].name
  {
    if tables == [] then [] else [tables[0].name] + Names(tables[1..])
  }

  /** `tables.some(t => t.id === id)` is `Ids(tables).includes(id)`. */
  lemma ListedInIds(tables: seq<TableMetadata>, id: string)
    ensures Listed(tables, id) <==> id in Ids(tables)
  {
    if id in Ids(tables) {
      var k :| 0 <= k < |tables| && Ids(tables)[k] == id;
      assert tables[k].id == id;
    }
  }

  /** Changing an entry but not its id keeps the list of ids. */
  lemma UpdateKeepsIds(tables: seq<TableMetadata>, i: nat, t: TableMetadata)
    requires i < |tables| && t.id == tables[i].id
    ensures Ids(tables[i := t]) == Ids(tables)
  {
  }

  /** `createNewTable`'s change to the registry: one entry appended, made active. */
  function Created(m: TableListState, id: string, name: string, now: string): (r: TableListState)
    ensures |r.tables| == |m.tables| + 1 && r.tables[..|m.tables|] == m.tables
    ensures r.tables[|m.tables|] == TableMetadata(id, name, now, now, 0)
    ensures r.activeTableId == Some(id) && r.version == m.version
  {
    m.(tables := m.tables + [TableMetadata(id, name, now, now, 0)], activeTableId := Some(id))
  }

  /** `t => t.id !== id`. */
  function OtherThan(id: string): TableMetadata -> bool
  {
    (t: TableMetadata) => t.id != id
  }

  /** `deleteTable`'s change to the registry: every entry with the id dropped and, when
      it was the active table, the first remaining one made active. */
  function Deleted(m: TableListState, id: string): (r: TableListState)
    ensures forall t :: t in r.tables <==> t in m.tables && t.id != id
    ensures IsSubsequence(r.tables, m.tables) && r.version == m.version
    ensures m.activeTableId != Some(id) ==> r.activeTableId == m.activeTableId
    ensures m.activeTableId == Some(id) ==> r.activeTableId == if r.tables == [] then None else Some(r.tables[0].id)
  {
    var rest := Filter(m.tables, OtherThan(id));
    var active := if m.activeTableId == Some(id) then (if |rest| > 0 then Some(rest[0].id) else None) else m.activeTableId;
    m.(tables := rest, activeTableId := active)
  }

  /** What deletion keeps: exactly the entries with another id, in their order; the active
      id unless it was the deleted one. An id that is not listed changes no entry. */
  lemma DeletedSpec(m: TableListState, id: string)
    ensures var r := Deleted(m, id);
      && !Listed(r.tables, id)
      && (forall t :: t in r.tables <==> t in m.tables && t.id != id)
      && IsSubsequence(r.tables, m.tables)
      && (!Listed(m.tables, id) ==> r.tables == m.tables)
      && (m.activeTableId != Some(id) ==> r.activeTableId == m.activeTableId)
      && (m.activeTableId == Some(id) ==> r.activeTableId == if r.tables == [] then None else Some(r.tables[0].id))
      && r.version == m.version
  {
    var r := Deleted(m, id);
    forall k | 0 <= k < |r.tables| ensures r.tables[k].id != id {
      assert r.tables[k] in r.tables;
    }
  }

  /** The field an update by id sets: `renameTable`'s name or `updateTableRowCount`'s count. */
  datatype Change = NewName(name: string) | NewRowCount(rowCount: int)

  /** An entry with the change applied and `updatedAt` set to the time. */
  function Changed(t: TableMetadata, c: Change, now: string): TableMetadata
  {
    match c
    case NewName(name) => t.(name := name, updatedAt := now)
    case NewRowCount(rowCount) => t.(rowCount := rowCount, updatedAt := now)
  }

  /** The change `renameTable` and `updateTableRowCount` make to the registry: the first
      entry with the id changed and timestamped; `NotFound` when no entry has it. */
  function Updated(m: TableListState, id: string, c: Change, now: string): (r: Result<TableListState>)
    ensures r.Ok? <==> Listed(m.tables, id)
    ensures r.Err? ==> r.error == NotFound(id)
    ensures r.Ok? ==> var i := IndexOf(Ids(m.tables), id);
      && 0 <= i < |m.tables| && m.tables[i].id == id
      && |r.value.tables| == |m.tables| && Ids(r.value.tables) == Ids(m.tables)
      && r.value.tables[i] == Changed(m.tables[i], c, now)
      && (forall j :: 0 <= j < |m.tables| && j != i ==> r.value.tables[j] == m.tables[j])
      && r.value.activeTableId == m.activeTableId && r.value.version == m.version
  {
    ListedInIds(m.tables, id);
    var i := IndexOf(Ids(m.tables), id);
    if i == -1 then Err(NotFound(id))
    else
      UpdateKeepsIds(m.tables, i, Changed(m.tables[i], c, now));
      Ok(m.(tables := m.tables[i := Changed(m.tables[i], c, now)]))
  }

  /** `setActiveTable`'s change: the id made active; `NotFound` when it is not listed. */
  function Activated(m: TableListState, id: string): (r: Result<TableListState>)
    ensures r.Ok? <==> Listed(m.tables, id)
    ensures r.Err? ==> r.error == NotFound(id)
    ensures r.Ok? ==> r.value.tables == m.tables && r.value.activeTableId == Some(id) && r.value.version == m.version
    ensures r.Ok? ==> ActiveIsListed(r.value)
  {
    if Listed(m.tables, id) then Ok(m.(activeTableId := Some(id))) else Err(NotFound(id))
  }

  /** `renameExistingTable`'s change: the first entry named with the old label gets the
      corrected one and the time; nothing when no entry has the old label. */
  function LabelCorrected(m: TableListState, now: string): (r: Option<TableListState>)
    ensures r.None? <==> LegacyLabel !in Names(m.tables)
    ensures r.Some? ==> var i := IndexOf(Names(m.tables), LegacyLabel);
      && 0 <= i < |m.tables| && m.tables[i].name == LegacyLabel
      && (forall j :: 0 <= j < i ==> m.tables[j].name != LegacyLabel)
      && |r.value.tables| == |m.tables| && Ids(r.value.tables) == Ids(m.tables)
      && r.value.tables[i] == m.tables[i].(name := CorrectedLabel, updatedAt := now)
      && (forall j :: 0 <= j < |m.tables| && j != i ==> r.value.tables[j] == m.tables[j])
      && r.value.activeTableId == m.activeTableId && r.value.version == m.version
  {
    var i := IndexOf(Names(m.tables), LegacyLabel);
    if i == -1 then None
    else
      var tables := m.tables[i := m.tables[i].(name := CorrectedLabel, updatedAt := now)];
      UpdateKeepsIds(m.tables, i, m.tables[i].(name := CorrectedLabel, updatedAt := now));
      FirstWithName(m.tables, i);
      Some(m.(tables := tables))
  }

  /** The correction is done once: when at most one entry carries the old label, a second
      call finds none and writes nothing. */
  lemma LabelCorrectedOnce(m: TableListState, now: string, now2: string)
    requires forall j, k :: 0 <= j < k < |m.tables| && m.tables[j].name == LegacyLabel ==> m.tables[k].name != LegacyLabel
    ensures var r := LabelCorrected(m, now); r.Some? ==> LabelCorrected(r.value, now2) == None
  {
    var r := LabelCorrected(m, now);
    if r.Some? {
      var i := IndexOf(Names(m.tables), LegacyLabel);
      var n := r.value.tables;
      assert CorrectedLabel != LegacyLabel by {
        assert |CorrectedLabel| != |LegacyLabel|;
      }
      forall j | 0 <= j < |n| ensures Names(n)[j] != LegacyLabel {
        if j < i {
        } else if j > i {
          assert m.tables[j].name != LegacyLabel;
        }
      }
    }
  }

  /** No entry before the first index of a name carries it. */
  lemma FirstWithName(tables: seq<TableMetadata>, i: int)
    requires i == IndexOf(Names(tables), LegacyLabel) && i >= 0
    ensures forall j :: 0 <= j < i ==> tables[j].name != LegacyLabel
  {
    var names := Names(tables);
    forall j | 0 <= j < i ensures tables[j].name != LegacyLabel {
      assert names[..i][j] == names[j];
    }
  }

  /** A registry operation, with the fresh id and the timestamps it uses. */
  datatype Op =
    | Create(id: string, name: string, now: string)
    | Remove(id: string)
    | Rename(id: string, name: string, now: string)
    | Activate(id: string)
    | SetRowCount(id: string, rowCount: int, now: string)
    | FixLabel(now: string)

  /** The registry an operation writes (`Ok(None)`: it writes nothing). */
  function Next(m: TableListState, op: Op): (r: Result<Option<TableListState>>)
    ensures r.Err? <==> (op.Rename? || op.Activate? || op.SetRowCount?) && !Listed(m.tables, op.id)
    ensures r.Err? ==> r.error == NotFound(op.id)
    ensures r == Ok(None) <==> op.FixLabel? && LegacyLabel !in Names(m.tables)
  {
    match op
    case Create(id, name, now) => Ok(Some(Created(m, id, name, now)))
    case Remove(id) => Ok(Some(Deleted(m, id)))
    case Rename(id, name, now) => (match Updated(m, id, NewName(name), now) case Ok(n) => Ok(Some(n)) case Err(e) => Err(e))
    case Activate(id) => (match Activated(m, id) case Ok(n) => Ok(Some(n)) case Err(e) => Err(e))
    case SetRowCount(id, rowCount, now) => (match Updated(m, id, NewRowCount(rowCount), now) case Ok(n) => Ok(Some(n)) case Err(e) => Err(e))
    case FixLabel(now) => Ok(LabelCorrected(m, now))
  }

  /** `deleteTable`'s three content deletions. */
  function ContentDeletes(id: string): seq<Write>
  {
    [Delete(HeadersKey(id)), Delete(DataKey(id)), Delete(ConfirmedKey(id))]
  }

  /** The writes an operation issues after the registry write. */
  function After(op: Op): seq<Write>
  {
    match op
    case Create(id, _, _) => ContentWrites(id, [], [], false)
    case Remove(id) => ContentDeletes(id)
    case _ => []
  }

  /** The records those writes touch. */
  function AfterKeys(op: Op): set<string>
  {
    if op.Create? || op.Remove? then ContentKeys(op.id) else {}
  }

  /** An operation on the store: read the registry, compute its change, write it, then the
      operation's other writes, each awaited. */
  function RunOp(s: Store, f: Faults, op: Op): (r: Run)
    ensures Registry(s, f).Err? ==> r == Run(s, Failed(MalformedMetadata))
    ensures r.outcome.Failed? && r.outcome.error.NotFound? ==> r.store == s
    ensures forall k :: k != MetadataKey && k !in AfterKeys(op) ==> Lookup(r.store, k) == Lookup(s, k)
  {
    match Registry(s, f)
    case Err(e) => Run(s, Failed(e))
    case Ok(m) =>
      match Next(m, op)
      case Err(e) => Run(s, Failed(e))
      case Ok(None) => Run(s, Done)
      case Ok(Some(n)) =>
        OpWritesDistinct(n, op);
        ExecuteFrame(s, f, [Put(MetadataKey, Metadata(n))] + After(op));
        Execute(s, f, [Put(MetadataKey, Metadata(n))] + After(op))
  }

  /** Every change keeps the registry invariant: the active id, if any, is listed. */
  lemma NextKeepsActiveListed(m: TableListState, op: Op)
    requires ActiveIsListed(m)
    ensures var r := Next(m, op); r.Ok? && r.value.Some? ==> ActiveIsListed(r.value.value)
  {
    match op
    case Create(id, name, now) =>
      var n := Created(m, id, name, now);
      assert n.tables[|m.tables|].id == id;
    case Remove(id) =>
      DeletedSpec(m, id);
      var n := Deleted(m, id);
      if m.activeTableId.Some? && m.activeTableId != Some(id) {
        var k :| 0 <= k < |m.tables| && m.tables[k].id == m.activeTableId.value;
        assert m.tables[k] in n.tables;
      }
    case Rename(id, name, now) =>
      var r := Updated(m, id, NewName(name), now);
      if r.Ok? && m.activeTableId.Some? {
        ListedInIds(m.tables, m.activeTableId.value);
        ListedInIds(r.value.tables, m.activeTableId.value);
      }
    case Activate(id) =>
    case SetRowCount(id, rowCount, now) =>
      var r := Updated(m, id, NewRowCount(rowCount), now);
      if r.Ok? && m.activeTableId.Some? {
        ListedInIds(m.tables, m.activeTableId.value);
        ListedInIds(r.value.tables, m.activeTableId.value);
      }
    case FixLabel(now) =>
      var r := LabelCorrected(m, now);
      if r.Some? && m.activeTableId.Some? {
        ListedInIds(m.tables, m.activeTableId.value);
        ListedInIds(r.value.tables, m.activeTableId.value);
      }
  }

  /** Dropping entries keeps ids unique. */
  lemma {:induction false} FilterKeepsUniqueIds(tables: seq<TableMetadata>, id: string)
    requires UniqueIds(tables)
    ensures UniqueIds(Filter(tables, OtherThan(id)))
  {
    if tables != [] {
      var rest := tables[1..];
      assert UniqueIds(rest) by {
        forall j, k | 0 <= j < k < |rest| ensures rest[j].id != rest[k].id {
          assert rest[j] == tables[j + 1] && rest[k] == tables[k + 1];
        }
      }
      FilterKeepsUniqueIds(rest, id);
      var tail := Filter(rest, OtherThan(id));
      forall k | 0 <= k < |tail| ensures tail[k].id != tables[0].id {
        assert tail[k] in rest;
      }
    }
  }

  /** Every change keeps ids unique, provided a created table gets an id not yet listed. */
  lemma NextKeepsUniqueIds(m: TableListState, op: Op)
    requires UniqueIds(m.tables)
    requires op.Create? ==> !Listed(m.tables, op.id)
    ensures var r := Next(m, op); r.Ok? && r.value.Some? ==> UniqueIds(r.value.value.tables)
  {
    var r := Next(m, op);
    if r.Ok? && r.value.Some? {
      var n := r.value.value;
      match op
      case Create(id, name, now) =>
        forall j, k | 0 <= j < k < |n.tables| ensures n.tables[j].id != n.tables[k].id {
          if k == |m.tables| {
            assert n.tables[j] == m.tables[j];
          } else {
            assert n.tables[j] == m.tables[j] && n.tables[k] == m.tables[k];
          }
        }
      case Remove(id) =>
        FilterKeepsUniqueIds(m.tables, id);
      case _ =>
        assert Ids(n.tables) == Ids(m.tables);
        forall j, k | 0 <= j < k < |n.tables| ensures n.tables[j].id != n.tables[k].id {
          assert Ids(n.tables)[j] == Ids(m.tables)[j] && Ids(n.tables)[k] == Ids(m.tables)[k];
        }
    }
  }

  /** An operation's writes touch different records, the registry among them. */
  lemma OpWritesDistinct(n: TableListState, op: Op)
    ensures DistinctKeys([Put(MetadataKey, Metadata(n))] + After(op))
    ensures forall j :: 0 <= j < |After(op)| ==> After(op)[j].key in AfterKeys(op) && After(op)[j].key != MetadataKey
  {
    if op.Create? || op.Remove? {
      ContentKeysDistinct(op.id);
    }
  }

  /** What an operation leaves in the store: the registry it computed from the registry it
      read when its write succeeded, the old record otherwise; and no record but the
      registry and the operation's content records changes. */
  lemma RunOpEffect(s: Store, f: Faults, op: Op)
    requires Registry(s, f).Ok?
    ensures var t := RunOp(s, f, op).store;
      var next := Next(Registry(s, f).value, op);
      && Lookup(t, MetadataKey) == (if next.Ok? && next.value.Some? && !f.RejectsWrite(MetadataKey) then Some(Metadata(next.value.value)) else Lookup(s, MetadataKey))
      && forall k :: k != MetadataKey && k !in AfterKeys(op) ==> Lookup(t, k) == Lookup(s, k)
  {
    var next := Next(Registry(s, f).value, op);
    if next.Ok? && next.value.Some? {
      var ws := [Put(MetadataKey, Metadata(next.value.value))] + After(op);
      OpWritesDistinct(next.value.value, op);
      ExecuteIsPrefix(s, f, ws);
      var n := Issued(f, ws);
      PrefixWritten(s, ws, n, 0);
      forall k | k != MetadataKey && k !in AfterKeys(op)
        ensures Lookup(ApplyAll(s, ws[..n]), k) == Lookup(s, k)
      {
        PrefixUntouched(s, ws, n, k);
      }
    }
  }

  /** Registry operations keep the invariants of the stored registry, whatever request
      fails (the registry write comes first, and a registry read that fails yields the
      empty one). */
  lemma RunOpKeepsInvariants(s: Store, f: Faults, op: Op)
    requires Registry(s, NoFaults).Ok?
    requires ActiveIsListed(Registry(s, NoFaults).value) && UniqueIds(Registry(s, NoFaults).value.tables)
    requires op.Create? ==> !Listed(Registry(s, NoFaults).value.tables, op.id)
    ensures var r := Registry(RunOp(s, f, op).store, NoFaults);
      r.Ok? && ActiveIsListed(r.value) && UniqueIds(r.value.tables)
  {
    assert Registry(s, f) == if f.RejectsRead(MetadataKey) then Ok(EmptyList) else Registry(s, NoFaults);
    RunOpEffect(s, f, op);
    NextKeepsActiveListed(Registry(s, f).value, op);
    NextKeepsUniqueIds(Registry(s, f).value, op);
  }

  /** A registry that cannot be read as one, or an id that is not listed, makes the
      operation fail before anything is written. */
  lemma FailuresWriteNothing(s: Store, f: Faults, op: Op)
    requires Registry(s, f).Err? || ((op.Rename? || op.Activate? || op.SetRowCount?) && !Listed(Registry(s, f).value.tables, op.id))
    ensures RunOp(s, f, op) == Run(s, Failed(if Registry(s, f).Err? then MalformedMetadata else NotFound(op.id)))
  {
  }

  /** `renameExistingTable` writes nothing when no entry carries the old label. */
  lemma FixLabelWithoutLabel(s: Store, f: Faults, now: string)
    requires Registry(s, f).Ok? && LegacyLabel !in Names(Registry(s, f).value.tables)
    ensures RunOp(s, f, FixLabel(now)) == Run(s, Done)
  {
  }

  /** A table created without failures is listed last and active, and its content reads
      as empty. */
  lemma CreateEffect(s: Store, f: Faults, id: string, name: string, now: string)
    requires Registry(s, NoFaults).Ok? && !f.RejectsRead(MetadataKey)
    requires forall k :: k in {MetadataKey} + ContentKeys(id) ==> !f.RejectsWrite(k)
    ensures var r := RunOp(s, f, Create(id, name, now));
      && r.outcome == Done
      && Registry(r.store, NoFaults) == Ok(Created(Registry(s, NoFaults).value, id, name, now))
      && ReadContent(r.store, NoFaults, id) == EmptyContent
  {
    assert Registry(s, f) == Registry(s, NoFaults);
    var op := Create(id, name, now);
    var ws := [Put(MetadataKey, Metadata(Created(Registry(s, f).value, id, name, now)))] + After(op);
    RunOpEffect(s, f, op);
    assert forall j :: 0 <= j < |ws| ==> !f.RejectsWrite(ws[j].key);
    ExecuteUnrejected(s, f, ws);
    OpWritesDistinct(Created(Registry(s, f).value, id, name, now), op);
    assert ws[..4] == ws;
    PrefixWritten(s, ws, 4, 1);
    PrefixWritten(s, ws, 4, 2);
    PrefixWritten(s, ws, 4, 3);
  }

  /** A table deleted without failures is unlisted and its three content records are gone. */
  lemma RemoveEffect(s: Store, f: Faults, id: string)
    requires Registry(s, NoFaults).Ok? && !f.RejectsRead(MetadataKey)
    requires forall k :: k in {MetadataKey} + ContentKeys(id) ==> !f.RejectsWrite(k)
    ensures var r := RunOp(s, f, Remove(id));
      && r.outcome == Done
      && Registry(r.store, NoFaults) == Ok(Deleted(Registry(s, NoFaults).value, id))
      && forall k :: k in ContentKeys(id) ==> k !in r.store
  {
    assert Registry(s, f) == Registry(s, NoFaults);
    var op := Remove(id);
    var ws := [Put(MetadataKey, Metadata(Deleted(Registry(s, f).value, id)))] + After(op);
    RunOpEffect(s, f, op);
    assert forall j :: 0 <= j < |ws| ==> !f.RejectsWrite(ws[j].key);
    ExecuteUnrejected(s, f, ws);
    OpWritesDistinct(Deleted(Registry(s, f).value, id), op);
    assert ws[..4] == ws;
    PrefixWritten(s, ws, 4, 1);
    PrefixWritten(s, ws, 4, 2);
    PrefixWritten(s, ws, 4, 3);
  }

  // ---------------------------------------------------------------------------------
  // Swallowed read errors
  // ---------------------------------------------------------------------------------

  /** The engine that rejects only reads of the registry. */
  const RegistryReadFails := Faults(false, {MetadataKey}, {}, false)

  /** As written, `getTableMetadata` answers a failed read of the registry with the empty
      registry, and `createNewTable` and `deleteTable` write their change of it back: after
      a create the registry lists the new table alone, after a delete it lists nothing, and
      every table stored before is unlisted. */
  lemma SwallowedReadErrorUnlistsTables(s: Store, m: TableListState, id: string, name: string, now: string, other: string)
    requires Lookup(s, MetadataKey) == Some(Metadata(m))
    ensures var c := RunOp(s, RegistryReadFails, Create(id, name, now));
      && c.outcome == Done
      && Registry(c.store, NoFaults) == Ok(TableListState([TableMetadata(id, name, now, now, 0)], Some(id), MetadataVersion))
    ensures var d := RunOp(s, RegistryReadFails, Remove(other));
      && d.outcome == Done
      && Registry(d.store, NoFaults) == Ok(EmptyList)
  {
    var f := RegistryReadFails;
    var c := Created(EmptyList, id, name, now);
    var cw := [Put(MetadataKey, Metadata(c))] + After(Create(id, name, now));
    OpWritesDistinct(c, Create(id, name, now));
    ExecuteUnrejected(s, f, cw);
    assert cw[..|cw|] == cw;
    PrefixWritten(s, cw, |cw|, 0);
    var d := Deleted(EmptyList, other);
    var dw := [Put(MetadataKey, Metadata(d))] + After(Remove(other));
    OpWritesDistinct(d, Remove(other));
    ExecuteUnrejected(s, f, dw);
    assert dw[..|dw|] == dw;
    PrefixWritten(s, dw, |dw|, 0);
  }

  /** A registry operation whose failed registry read is reported instead of replaced by
      the empty registry. */
  function RunOpChecked(s: Store, f: Faults, op: Op): Run
  {
    if f.RejectsRead(MetadataKey) then Run(s, Failed(f.ErrorFor(MetadataKey))) else RunOp(s, f, op)
  }

  /** With the read error reported, every registry an operation writes is computed from the
      registry actually stored; whatever fails, the stored registry is either untouched or
      that change of it. */
  lemma CheckedWritesFromStoredRegistry(s: Store, f: Faults, op: Op)
    ensures var t := RunOpChecked(s, f, op).store;
      || Lookup(t, MetadataKey) == Lookup(s, MetadataKey)
      || (&& Registry(s, NoFaults).Ok?
          && Next(Registry(s, NoFaults).value, op).Ok?
          && Next(Registry(s, NoFaults).value, op).value.Some?
          && Lookup(t, MetadataKey) == Some(Metadata(Next(Registry(s, NoFaults).value, op).value.value)))
  {
    if !f.RejectsRead(MetadataKey) {
      assert Registry(s, f) == Registry(s, NoFaults);
      if Registry(s, f).Ok? {
        RunOpEffect(s, f, op);
      }
    }
  }

  /** With the read error reported, creating a table never unlists one: every table
      listed before is listed afterwards. */
  lemma CheckedCreateKeepsTables(s: Store, f: Faults, id: string, name: string, now: string)
    requires Registry(s, NoFaults).Ok?
    ensures var r := Registry(RunOpChecked(s, f, Create(id, name, now)).store, NoFaults);
      r.Ok? && forall t :: t in Registry(s, NoFaults).value.tables ==> t in r.value.tables
  {
    CheckedWritesFromStoredRegistry(s, f, Create(id, name, now));
    var m := Registry(s, NoFaults).value;
    var n := Created(m, id, name, now);
    forall t | t in m.tables ensures t in n.tables {
      var k :| 0 <= k < |m.tables| && m.tables[k] == t;
      assert n.tables[k] == t;
    }
  }

  /** As written, `isAlreadyMigrated` answers a failed read of the registry with "not
      migrated": while legacy records remain, the migration runs again and replaces a
      stored registry, whatever it listed, with the one migrated table. */
  lemma SwallowedReadErrorRemigrates(s: Store, m: TableListState, id: string, now: string)
    requires Lookup(s, MetadataKey) == Some(Metadata(m)) && LegacyHeadersKey in s
    ensures var r := Migrate(s, RegistryReadFails, id, now);
      && r.outcome == Done
      && Registry(r.store, NoFaults) == Ok(MigratedList(s, id, now))
  {
    var ws := MigrationPlan(s, id, now);
    ExecuteUnrejected(s, RegistryReadFails, ws);
    assert ws[..7] == ws;
    MigrationPrefix(s, id, now, 7);
  }

  /** The migration with a failed registry read reported instead of taken as "not
      migrated". */
  function MigrateChecked(s: Store, f: Faults, id: string, now: string): Run
  {
    if f.RejectsRead(MetadataKey) then Run(s, Failed(f.ErrorFor(MetadataKey))) else Migrate(s, f, id, now)
  }

  /** With the read error reported, the migration never touches a store that already has a
      registry, whatever fails. */
  lemma CheckedMigrationKeepsRegistry(s: Store, f: Faults, id: string, now: string)
    requires MetadataKey in s
    ensures MigrateChecked(s, f, id, now).store == s
  {
  }

  // ---------------------------------------------------------------------------------
  // The operations as the module performs them
  // ---------------------------------------------------------------------------------

  /** `isAlreadyMigrated`. */
  method IsAlreadyMigrated(db: Database) returns (b: bool)
    modifies db`instance, db`opens
    ensures db.Connected()
    ensures b == AlreadyMigrated(db.entries, old(db.Failing()))
  {
    var metadata := db.GetFromDB(MetadataKey);
    if metadata.Err? {
      return false;
    }
    return metadata.value.Some?;
  }

  /** `hasOldFormat`. */
  method HasOldFormat(db: Database) returns (b: bool)
    modifies db`instance, db`opens
    ensures db.Connected()
    ensures b == OldFormatPresent(db.entries, old(db.Failing()))
  {
    var headers := db.GetFromDB(LegacyHeadersKey);
    if headers.Err? {
      return false;
    }
    var data := db.GetFromDB(LegacyDataKey);
    if data.Err? {
      return false;
    }
    return headers.value.Some? || data.value.Some?;
  }

  /** `migrateToMultiTable`, with the generated id and the current time as parameters. */
  method MigrateToMultiTable(db: Database, id: string, now: string) returns (r: Outcome)
    modifies db
    ensures db.Connected()
    ensures Run(db.entries, r) == Migrate(old(db.entries), old(db.Failing()), id, now)
  {
    ghost var s0, f := db.entries, db.Failing();
    var alreadyMigrated := IsAlreadyMigrated(db);
    if alreadyMigrated {
      return Done;
    }
    var hasOld := HasOldFormat(db);
    if !hasOld {
      return Done;
    }
    var headers := db.GetFromDB(LegacyHeadersKey);
    if headers.Err? {
      return headers.ToOutcome();
    }
    var data := db.GetFromDB(LegacyDataKey);
    if data.Err? {
      return data.ToOutcome();
    }
    var confirmed := db.GetFromDB(LegacyConfirmedKey);
    if confirmed.Err? {
      return confirmed.ToOutcome();
    }
    var oldHeaders := OrElse(headers.value, Strings([]));
    var oldData := OrElse(data.value, Rows([]));
    var oldConfirmed := OrElse(confirmed.value, Bool(false));
    var defaultTable := TableMetadata(id, DefaultTableName, now, now, if oldData.IsArray() then oldData.ArrayLength() else 0);
    var metadata := TableListState([defaultTable], Some(id), MetadataVersion);
    var tableData := TableData(ArrayOr(oldHeaders, Strings([])), ArrayOr(oldData, Rows([])), Bool(oldConfirmed == Bool(true)));
    assert MovedContent(s0) == tableData;
    r := WriteMigration(db, metadata, tableData, id);
  }

  /** The writes of `migrateToMultiTable` (utils/dbMigration.ts:81-97), each awaited in
      turn, returning at the first rejection. */
  method WriteMigration(db: Database, metadata: TableListState, c: TableData, id: string) returns (r: Outcome)
    modifies db
    ensures db.Connected()
    ensures Run(db.entries, r) == Execute(old(db.entries), old(db.Failing()),
      [ Put(MetadataKey, Metadata(metadata)),
        Put(HeadersKey(id), c.headers), Put(DataKey(id), c.data), Put(ConfirmedKey(id), c.isConfirmed),
        Delete(LegacyHeadersKey), Delete(LegacyDataKey), Delete(LegacyConfirmedKey) ])
  {
    ghost var f := db.Failing();
    ghost var ws := [ Put(MetadataKey, Metadata(metadata)),
      Put(HeadersKey(id), c.headers), Put(DataKey(id), c.data), Put(ConfirmedKey(id), c.isConfirmed),
      Delete(LegacyHeadersKey), Delete(LegacyDataKey), Delete(LegacyConfirmedKey) ];
    assert ws[0..] == ws;
    ExecuteFrom(db.entries, f, ws, 0);
    r := db.SaveToDB(MetadataKey, Metadata(metadata));
    if r.Failed? {
      return;
    }
    ExecuteFrom(db.entries, f, ws, 1);
    r := db.SaveToDB(HeadersKey(id), c.headers);
    if r.Failed? {
      return;
    }
    ExecuteFrom(db.entries, f, ws, 2);
    r := db.SaveToDB(DataKey(id), c.data);
    if r.Failed? {
      return;
    }
    ExecuteFrom(db.entries, f, ws, 3);
    r := db.SaveToDB(ConfirmedKey(id), c.isConfirmed);
    if r.Failed? {
      return;
    }
    ExecuteFrom(db.entries, f, ws, 4);
    assert ws[4..] == LegacyDeletes;
    r := DeleteLegacy(db);
  }

  /** The legacy records' deletion. */
  const LegacyDeletes := [Delete(LegacyHeadersKey), Delete(LegacyDataKey), Delete(LegacyConfirmedKey)]

  /** The clean-up of `migrateToMultiTable` (utils/dbMigration.ts:95-97): the three legacy
      records deleted in turn, returning at the first rejection. */
  method DeleteLegacy(db: Database) returns (r: Outcome)
    modifies db
    ensures db.Connected()
    ensures Run(db.entries, r) == Execute(old(db.entries), old(db.Failing()), LegacyDeletes)
  {
    ghost var f := db.Failing();
    ghost var ws := LegacyDeletes;
    assert ws[0..] == ws;
    ExecuteFrom(db.entries, f, ws, 0);
    r := db.DeleteFromDB(LegacyHeadersKey);
    if r.Failed? {
      return;
    }
    ExecuteFrom(db.entries, f, ws, 1);
    r := db.DeleteFromDB(LegacyDataKey);
    if r.Failed? {
      return;
    }
    ExecuteFrom(db.entries, f, ws, 2);
    r := db.DeleteFromDB(LegacyConfirmedKey);
    assert ws[3..] == [];
  }

  /** `getTableMetadata`. */
  method GetTableMetadata(db: Database) returns (v: Value)
    modifies db`instance, db`opens
    ensures db.Connected()
    ensures v == StoredMetadata(db.entries, old(db.Failing()))
  {
    var metadata := db.GetFromDB(MetadataKey);
    if metadata.Err? || metadata.value.None? || !metadata.value.value.IsTruthy() {
      return Metadata(EmptyList);
    }
    return metadata.value.value;
  }

  /** `saveTableMetadata`. */
  method SaveTableMetadata(db: Database, metadata: Value) returns (r: Outcome)
    modifies db
    ensures db.Connected()
    ensures Run(db.entries, r) == Step(old(db.entries), old(db.Failing()), Put(MetadataKey, metadata))
  {
    r := db.SaveToDB(MetadataKey, metadata);
  }

  /** `getTableData`: the same three reads and defaults as `getMultiTableData`. */
  method GetTableData(db: Database, id: string) returns (r: TableData)
    modifies db`instance, db`opens
    ensures db.Connected()
    ensures r == ReadContent(db.entries, old(db.Failing()), id)
  {
    r := GetMultiTableData(db, id);
  }

  /** `saveTableData`: the same three writes as `saveMultiTableData`. */
  method SaveTableData(db: Database, id: string, headers: seq<string>, data: seq<Row>, isConfirmed: bool)
    returns (r: Outcome)
    modifies db
    ensures db.Connected()
    ensures Run(db.entries, r) == Execute(old(db.entries), old(db.Failing()), ContentWrites(id, headers, data, isConfirmed))
  {
    r := SaveMultiTableData(db, id, headers, data, isConfirmed);
  }

  /** `createNewTable`, with the generated id and the current time as parameters. */
  method CreateNewTable(db: Database, id: string, name: string, now: string) returns (r: Result<TableMetadata>)
    modifies db
    ensures db.Connected()
    ensures Run(db.entries, r.ToOutcome()) == RunOp(old(db.entries), old(db.Failing()), Create(id, name, now))
    ensures r.Ok? ==> r.value == TableMetadata(id, name, now, now, 0)
  {
    ghost var s0, f := db.entries, db.Failing();
    var stored := GetTableMetadata(db);
    if !stored.Metadata? {
      return Err(MalformedMetadata);
    }
    var metadata := stored.metadata;
    var newTable := TableMetadata(id, name, now, now, 0);
    metadata := metadata.(tables := metadata.tables + [newTable], activeTableId := Some(id));
    ghost var ws := [Put(MetadataKey, Metadata(metadata))] + After(Create(id, name, now));
    assert ws[0..] == ws && ws[1..] == ContentWrites(id, [], [], false);
    ExecuteFrom(s0, f, ws, 0);
    var o := SaveTableMetadata(db, Metadata(metadata));
    if o.Failed? {
      return Err(o.error);
    }
    o := SaveTableData(db, id, [], [], false);
    if o.Failed? {
      return Err(o.error);
    }
    return Ok(newTable);
  }

  /** `deleteTable`. */
  method DeleteTable(db: Database, id: string) returns (r: Outcome)
    modifies db
    ensures db.Connected()
    ensures Run(db.entries, r) == RunOp(old(db.entries), old(db.Failing()), Remove(id))
  {
    ghost var s0, f := db.entries, db.Failing();
    var stored := GetTableMetadata(db);
    if !stored.Metadata? {
      return Failed(MalformedMetadata);
    }
    var metadata := stored.metadata;
    var updatedTables := Filter(metadata.tables, OtherThan(id));
    var newActiveId := metadata.activeTableId;
    if metadata.activeTableId == Some(id) {
      newActiveId := if |updatedTables| > 0 then Some(updatedTables[0].id) else None;
    }
    metadata := metadata.(tables := updatedTables, activeTableId := newActiveId);
    ghost var ws := [Put(MetadataKey, Metadata(metadata))] + After(Remove(id));
    assert ws[0..] == ws;
    ExecuteFrom(s0, f, ws, 0);
    r := SaveTableMetadata(db, Metadata(metadata));
    if r.Failed? {
      return;
    }
    ExecuteFrom(db.entries, f, ws, 1);
    r := db.DeleteFromDB(HeadersKey(id));
    if r.Failed? {
      return;
    }
    ExecuteFrom(db.entries, f, ws, 2);
    r := db.DeleteFromDB(DataKey(id));
    if r.Failed? {
      return;
    }
    ExecuteFrom(db.entries, f, ws, 3);
    r := db.DeleteFromDB(ConfirmedKey(id));
    assert ws[4..] == [];
  }

  /** `renameTable`, with the current time as a parameter. */
  method RenameTable(db: Database, id: string, newName: string, now: string) returns (r: Outcome)
    modifies db
    ensures db.Connected()
    ensures Run(db.entries, r) == RunOp(old(db.entries), old(db.Failing()), Rename(id, newName, now))
  {
    ghost var s0, f := db.entries, db.Failing();
    var stored := GetTableMetadata(db);
    if !stored.Metadata? {
      return Failed(MalformedMetadata);
    }
    var metadata := stored.metadata;
    ListedInIds(metadata.tables, id);
    var tableIndex := IndexOf(Ids(metadata.tables), id);
    if tableIndex == -1 {
      return Failed(NotFound(id));
    }
    metadata := metadata.(tables := metadata.tables[tableIndex := metadata.tables[tableIndex].(name := newName, updatedAt := now)]);
    ghost var ws := [Put(MetadataKey, Metadata(metadata))];
    assert ws[0..] == ws && ws[1..] == [];
    ExecuteFrom(s0, f, ws, 0);
    r := SaveTableMetadata(db, Metadata(metadata));
  }

  /** `setActiveTable`. */
  method SetActiveTable(db: Database, id: string) returns (r: Outcome)
    modifies db
    ensures db.Connected()
    ensures Run(db.entries, r) == RunOp(old(db.entries), old(db.Failing()), Activate(id))
  {
    ghost var s0, f := db.entries, db.Failing();
    var stored := GetTableMetadata(db);
    if !stored.Metadata? {
      return Failed(MalformedMetadata);
    }
    var metadata := stored.metadata;
    var tableExists := Listed(metadata.tables, id);
    if !tableExists {
      return Failed(NotFound(id));
    }
    metadata := metadata.(activeTableId := Some(id));
    ghost var ws := [Put(MetadataKey, Metadata(metadata))];
    assert ws[0..] == ws && ws[1..] == [];
    ExecuteFrom(s0, f, ws, 0);
    r := SaveTableMetadata(db, Metadata(metadata));
  }

  /** `updateTableRowCount`, with the current time as a parameter. */
  method UpdateTableRowCount(db: Database, id: string, rowCount: int, now: string) returns (r: Outcome)
    modifies db
    ensures db.Connected()
    ensures Run(db.entries, r) == RunOp(old(db.entries), old(db.Failing()), SetRowCount(id, rowCount, now))
  {
    ghost var s0, f := db.entries, db.Failing();
    var stored := GetTableMetadata(db);
    if !stored.Metadata? {
      return Failed(MalformedMetadata);
    }
    var metadata := stored.metadata;
    ListedInIds(metadata.tables, id);
    var tableIndex := IndexOf(Ids(metadata.tables), id);
    if tableIndex == -1 {
      return Failed(NotFound(id));
    }
    metadata := metadata.(tables := metadata.tables[tableIndex := metadata.tables[tableIndex].(rowCount := rowCount, updatedAt := now)]);
    ghost var ws := [Put(MetadataKey, Metadata(metadata))];
    assert ws[0..] == ws && ws[1..] == [];
    ExecuteFrom(s0, f, ws, 0);
    r := SaveTableMetadata(db, Metadata(metadata));
  }

  /** `renameExistingTable`, with the current time as a parameter. */
  method RenameExistingTable(db: Database, now: string) returns (r: Outcome)
    modifies db
    ensures db.Connected()
    ensures Run(db.entries, r) == RunOp(old(db.entries), old(db.Failing()), FixLabel(now))
  {
    ghost var s0, f := db.entries, db.Failing();
    var stored := GetTableMetadata(db);
    if !stored.Metadata? {
      return Failed(MalformedMetadata);
    }
    var metadata := stored.metadata;
    var tableIndex := IndexOf(Names(metadata.tables), LegacyLabel);
    if tableIndex == -1 {
      return Done;
    }
    metadata := metadata.(tables := metadata.tables[tableIndex := metadata.tables[tableIndex].(name := CorrectedLabel, updatedAt := now)]);
    ghost var ws := [Put(MetadataKey, Metadata(metadata))];
    assert ws[0..] == ws && ws[1..] == [];
    ExecuteFrom(s0, f, ws, 0);
    r := SaveTableMetadata(db, Metadata(metadata));
  }
}
