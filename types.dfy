/** Shapes of the records the application keeps (types/common.ts, types/table.ts),
    and the values the key-value store can hold. */
module Types {

  datatype Option<+T> = None | Some(value: T)

  /** Why an operation was rejected. */
  datatype Error =
    | OpenFailed                 // indexedDB.open reported an error
    | RequestFailed(key: string) // a get/put/delete request on one record failed
    | StoreRequestFailed         // a getAll/clear request on the whole store failed
    | NotFound(tableId: string)  // a registry operation named an id that is not listed
    | MalformedMetadata          // the stored `metadata` is not a table list (a TypeError in the source)

  datatype Result<+T> = Ok(value: T) | Err(error: Error)
  {
    /** What an awaited call of this result leaves to a caller that discards the value. */
    function ToOutcome(): Outcome
    {
      if Ok? then Done else Failed(error)
    }
  }

  /** Outcome of an operation that returns nothing (`Promise<void>`). */
  datatype Outcome = Done | Failed(error: Error)

  /** One cell of a `DataRow`: `string | number`. */
  datatype Cell = Text(text: string) | Number(number: real)

  /** `DataRow = Record<string, string | number>`. */
  type Row = map<string, Cell>

  /** One registry entry (`TableMetadata`). */
  datatype TableMetadata = TableMetadata(
    id: string,
    name: string,
    createdAt: string,
    updatedAt: string,
    rowCount: int)

  /** The registry root stored under `metadata` (`TableListState`). */
  datatype TableListState = TableListState(
    tables: seq<TableMetadata>,
    activeTableId: Option<string>,
    version: int)

  /** A value held by the store. The source reads values back with `|| default` and
      `Array.isArray`, so a record may hold anything; `Other` stands for every value
      that is none of the shapes the application writes (a number, a string, an
      object of another shape), and carries its JavaScript truthiness. */
  datatype Value =
    | Strings(strings: seq<string>)     // string[]  (header lists)
    | Rows(rows: seq<Row>)              // DataRow[] (row lists)
    | Bool(flag: bool)
    | Metadata(metadata: TableListState)
    | Null
    | Other(truthy: bool)
  {
    /** JavaScript truthiness: arrays and objects are truthy even when empty. */
    predicate IsTruthy()
    {
      match this
      case Bool(b) => b
      case Null => false
      case Other(t) => t
      case _ => true
    }

    /** `Array.isArray`. */
    predicate IsArray()
    {
      Strings? || Rows?
    }

    /** `.length` of an array value. */
    function ArrayLength(): nat
      requires IsArray()
    {
      if Strings? then |strings| else |rows|
    }
  }

  /** `v || fallback` for a value read from the store, where `None` is `undefined`. */
  function OrElse(v: Option<Value>, fallback: Value): Value
  {
    if v.Some? && v.value.IsTruthy() then v.value else fallback
  }

  /** The ids listed in a table list, in order. */
  function Ids(tables: seq<TableMetadata>): (ids: seq<string>)
    ensures |ids| == |tables|
    ensures forall k :: 0 <= k < |tables| ==> ids[k] == tables[k].id
  {
    if tables == [] then [] else [tables[0].id] + Ids(tables[1..])
  }

  /** True iff some entry of `tables` has id `id` (`tables.some(t => t.id === id)`). */
  predicate Listed(tables: seq<TableMetadata>, id: string)
  {
    exists k :: 0 <= k < |tables| && tables[k].id == id
  }

  /** The invariant of the registry: `activeTableId` is null or names a listed table. */
  predicate ActiveIsListed(m: TableListState)
  {
    m.activeTableId.Some? ==> Listed(m.tables, m.activeTableId.value)
  }

  /** No two entries share an id. */
  predicate UniqueIds(tables: seq<TableMetadata>)
  {
    forall j, k :: 0 <= j < k < |tables| ==> tables[j].id != tables[k].id
  }
}
