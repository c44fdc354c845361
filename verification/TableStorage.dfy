/** The table storage service (shared/storage.py, shared/async_storage.py):
    partition keys, ETag-guarded updates, and the per-organisation query.

    An entity is a dictionary; PartitionKey, RowKey and, after get_entity,
    etag are entries of it like any other. The table answers a conditional
    update as section 13.1.1 of RFC 9110 asks of If-Match: it applies it
    only if the row still carries that tag, and then gives the row a tag the
    row has not had before. */
module TableStorage {
  import opened Wrappers
  import opened KeyOrder

  datatype Error = ValueError | NotFound | Modified | OtherError

  datatype Value = Text(s: string) | Stamp(t: int) | Number(n: int)
  type Dict = map<string, Value>
  datatype Mode = Merge | Replace

  type Address = (string, string)

  /** `used` is bookkeeping: every tag the row has had. */
  datatype Row = Row(props: Dict, etag: string, used: set<string>)
  type Table = map<Address, Row>

  /** datetime.isoformat and datetime.fromisoformat (None: not a datetime). */
  datatype Codec = Codec(iso: int -> string, parse: string -> Option<int>)

  const DATE_FIELDS: set<string> :=
    {"CreatedAt", "UpdatedAt", "GrantedAt", "LastLogin", "StartedAt", "CompletedAt", "Timestamp"}

  function Serialize(d: Dict, codec: Codec): Dict {
    map k | k in d :: if d[k].Stamp? then Text(codec.iso(d[k].t)) else d[k]
  }

  function Deserialize(d: Dict, codec: Codec): Dict {
    map k | k in d ::
      if k in DATE_FIELDS && d[k].Text? && codec.parse(d[k].s).Some? then Stamp(codec.parse(d[k].s).value) else d[k]
  }

  // ------------------------------------------------------ partition keys

  const SCOPED_TABLES: seq<string> := ["Config", "Entities"]
  const GLOBAL_TABLES: seq<string> := ["Relationships"]

  /** `scope` is the context's scope, when there is a context. */
  function WithPartitionKey(table: string, scope: Option<string>, d: Dict): (r: Result<Dict, Error>)
    ensures r.Ok? ==> "PartitionKey" in r.value && r.value - {"PartitionKey"} == d - {"PartitionKey"}
    ensures "PartitionKey" in d ==> r == Ok(d)
    ensures r.Ok? && "PartitionKey" !in d && table in SCOPED_TABLES ==>
      scope.Some? && r.value["PartitionKey"] == Text(scope.value)
    ensures r.Ok? && "PartitionKey" !in d && table !in SCOPED_TABLES ==> r.value["PartitionKey"] == Text("GLOBAL")
    ensures r == Err(ValueError) <==>
      "PartitionKey" !in d && !(table in SCOPED_TABLES && scope.Some?) && table !in GLOBAL_TABLES
  {
    if "PartitionKey" in d then Ok(d)
    else if table in SCOPED_TABLES then
      if scope.Some? then Ok(d["PartitionKey" := Text(scope.value)]) else Err(ValueError)
    else if table in GLOBAL_TABLES then Ok(d["PartitionKey" := Text("GLOBAL")])
    else Err(ValueError)
  }

  // ------------------------------------------------- conditional updates

  predicate HasAddress(d: Dict) {
    "PartitionKey" in d && "RowKey" in d && d["PartitionKey"].Text? && d["RowKey"].Text?
  }

  function AddressOf(d: Dict): Address
    requires HasAddress(d)
  {
    (d["PartitionKey"].s, d["RowKey"].s)
  }

  /** What a row holds after an update: all of the new entity, or the new
      entity's entries laid over the old ones. */
  function Written(mode: Mode, before: Dict, after: Dict): Dict {
    match mode
    case Replace => after
    case Merge => before + after
  }

  function Put(rows: Table, a: Address, props: Dict, tag: string): Table
    requires a in rows
  {
    rows[a := Row(props, tag, rows[a].used + {tag})]
  }

  /** The table's side of update_entity with If-Match. */
  function TableUpdateIfMatch(rows: Table, d: Dict, mode: Mode, etag: Value, newTag: string): Result<Table, Error> {
    if !HasAddress(d) || !etag.Text? then Err(OtherError)
    else if AddressOf(d) !in rows then Err(NotFound)
    else if rows[AddressOf(d)].etag != etag.s then Err(Modified)
    else Ok(Put(rows, AddressOf(d), Written(mode, rows[AddressOf(d)].props, d), newTag))
  }

  /** The table's side of update_entity without a condition. */
  function TableUpdate(rows: Table, d: Dict, mode: Mode, newTag: string): Result<Table, Error> {
    if !HasAddress(d) then Err(OtherError)
    else if AddressOf(d) !in rows then Err(NotFound)
    else Ok(Put(rows, AddressOf(d), Written(mode, rows[AddressOf(d)].props, d), newTag))
  }

  function WithoutEtag(d: Dict): Dict {
    d - {"etag"}
  }

  /** What get_entity hands out for a row. */
  function Fetched(row: Row, codec: Codec): Dict {
    Deserialize(row.props, codec)["etag" := Text(row.etag)]
  }

  /** update_entity_with_etag: the table, the caller's dictionary, and the
      answer afterwards. */
  datatype Outcome = Outcome(rows: Table, dict: Dict, answer: Result<Dict, Error>)

  function GuardedUpdate(rows: Table, table: string, scope: Option<string>, codec: Codec,
                         d: Dict, mode: Mode, newTag: string): Outcome {
    var keyed := WithPartitionKey(table, scope, d);
    if keyed.Err? then Outcome(rows, d, keyed)
    else
      var e := keyed.value;
      if "RowKey" !in e || "etag" !in e then Outcome(rows, e, Err(ValueError))
      else
        var bare := WithoutEtag(e);
        var sent := Serialize(bare, codec);
        match TableUpdateIfMatch(rows, sent, mode, e["etag"], newTag)
        case Ok(rows') => Outcome(rows', bare, Ok(sent))
        case Err(error) => Outcome(rows, bare, Err(error))
  }

  /** The caller's own dictionary: Python mutates it in place. */
  class Entity {
    var items: Dict
    constructor (d: Dict)
      ensures items == d
    {
      items := d;
    }
  }

  class TableClient {
    var rows: Table
    constructor ()
      ensures rows == map[]
    {
      rows := map[];
    }
  }

  class TableStorageService {
    const tableName: string
    const scope: Option<string>
    const codec: Codec
    const client: TableClient

    constructor (tableName: string, scope: Option<string>, codec: Codec, client: TableClient)
      ensures this.tableName == tableName && this.scope == scope && this.codec == codec && this.client == client
    {
      this.tableName, this.scope, this.codec, this.client := tableName, scope, codec, client;
    }

    method ApplyPartitionKey(entity: Entity) returns (r: Result<(), Error>)
      modifies entity
      ensures r.Ok? ==> WithPartitionKey(tableName, scope, old(entity.items)) == Ok(entity.items)
      ensures r.Err? ==> WithPartitionKey(tableName, scope, old(entity.items)) == Err(r.error) && unchanged(entity)
    {
      if "PartitionKey" in entity.items {
        return Ok(());
      }
      if tableName in SCOPED_TABLES {
        if scope.Some? {
          entity.items := entity.items["PartitionKey" := Text(scope.value)];
          return Ok(());
        }
        return Err(ValueError);
      }
      if tableName in GLOBAL_TABLES {
        entity.items := entity.items["PartitionKey" := Text("GLOBAL")];
        return Ok(());
      }
      return Err(ValueError);
    }

    method GetEntity(partitionKey: string, rowKey: string) returns (r: Option<Dict>)
      ensures (partitionKey, rowKey) !in client.rows ==> r == None
      ensures (partitionKey, rowKey) in client.rows ==>
        r == Some(Fetched(client.rows[(partitionKey, rowKey)], codec))
    {
      if (partitionKey, rowKey) !in client.rows {
        return None;
      }
      var row := client.rows[(partitionKey, rowKey)];
      var entityDict := Deserialize(row.props, codec);
      entityDict := entityDict["etag" := Text(row.etag)];
      r := Some(entityDict);
    }

    /** `newTag` is the tag the table will give the row if it accepts. */
    method UpdateEntityWithEtag(entity: Entity, mode: Mode, newTag: string) returns (r: Result<Dict, Error>)
      modifies entity, client
      ensures Outcome(client.rows, entity.items, r) ==
        GuardedUpdate(old(client.rows), tableName, scope, codec, old(entity.items), mode, newTag)
    {
      var keyed := ApplyPartitionKey(entity);
      if keyed.Err? {
        return Err(keyed.error);
      }
      if "RowKey" !in entity.items || "etag" !in entity.items {
        return Err(ValueError);
      }
      var etag := entity.items["etag"];
      entity.items := entity.items - {"etag"};
      var sent := Serialize(entity.items, codec);
      var answer := TableUpdateIfMatch(client.rows, sent, mode, etag, newTag);
      if answer.Err? {
        return Err(answer.error);
      }
      client.rows := answer.value;
      r := Ok(sent);
    }

    /** Rows of one partition, cut down to a row-key prefix if one is given.
        The range needs a successor of the prefix's last code point. */
    method QueryByOrg(orgId: string, rowKeyPrefix: Option<string>) returns (r: Result<set<Address>, Error>)
      ensures r.Err? <==>
        (rowKeyPrefix.Some? && rowKeyPrefix.value != ""
         && rowKeyPrefix.value[|rowKeyPrefix.value| - 1] as int == MAX_CODE_POINT)
      ensures r.Ok? ==> forall a :: a in r.value <==>
        a in client.rows && a.0 == orgId && (rowKeyPrefix.Some? ==> rowKeyPrefix.value <= a.1)
    {
      if rowKeyPrefix.None? || rowKeyPrefix.value == "" {
        return Ok(set a | a in client.rows && a.0 == orgId);
      }
      var prefix := Codes(rowKeyPrefix.value);
      var last := prefix[|prefix| - 1];
      if last + 1 > MAX_CODE_POINT {
        return Err(ValueError);
      }
      var prefixEnd := prefix[..|prefix| - 1] + [last + 1];
      forall a | a in client.rows
        ensures InRange(Codes(a.1), prefix, prefixEnd) <==> rowKeyPrefix.value <= a.1
      {
        PrefixRangeIff(prefix, Codes(a.1));
        CodesPrefix(rowKeyPrefix.value, a.1);
      }
      r := Ok(set a | a in client.rows && a.0 == orgId && InRange(Codes(a.1), prefix, prefixEnd));
    }
  }

  lemma CodesPrefix(p: string, k: string)
    ensures Codes(p) <= Codes(k) <==> p <= k
  {
    if Codes(p) <= Codes(k) {
      forall i | 0 <= i < |p| ensures p[i] == k[i] {
        assert Codes(p)[i] == Codes(k)[i];
      }
    }
  }

  /** The attempt takes the tag out of the caller's dictionary, whether or
      not the table accepts; so trying again with the same dictionary is
      refused before the table is asked. */
  lemma SecondAttemptIsRefused(rows: Table, table: string, scope: Option<string>, codec: Codec,
                               d: Dict, mode: Mode, tag: string, rows': Table, mode': Mode, tag': string)
    requires "PartitionKey" in d && "RowKey" in d && "etag" in d
    ensures var first := GuardedUpdate(rows, table, scope, codec, d, mode, tag);
      var second := GuardedUpdate(rows', table, scope, codec, first.dict, mode', tag');
      second.answer == Err(ValueError) && second.rows == rows' && second.dict == first.dict == WithoutEtag(d)
  {
  }

  /** A caller that leaves the partition to the service reaches its own: in a
      scoped table the partition of its scope, in a global one "GLOBAL". Every
      row of any other partition stays as it was, and the caller's dictionary
      says which partition it was. */
  lemma OtherPartitionsStay(rows: Table, table: string, scope: Option<string>, codec: Codec,
                            d: Dict, mode: Mode, tag: string, own: string)
    requires "PartitionKey" !in d
    requires if table == "Config" || table == "Entities" then scope == Some(own)
             else table == "Relationships" && own == "GLOBAL"
    ensures var out := GuardedUpdate(rows, table, scope, codec, d, mode, tag);
      && out.rows.Keys == rows.Keys
      && (forall a :: a in rows && a.0 != own ==> out.rows[a] == rows[a])
      && "PartitionKey" in out.dict && out.dict["PartitionKey"] == Text(own)
  {
  }

  /** An entity's entry as the table keeps it. */
  function Stored(v: Value, codec: Codec): Value {
    match v
    case Stamp(t) => Text(codec.iso(t))
    case Text(_) => v
    case Number(_) => v
  }

  /** What a guarded update with a complete dictionary does, entry by entry: it
      goes through exactly when the row exists and has the tag; the row then holds
      what was sent, and in merge mode what it held besides; no other row
      changes; and the reason of a refusal tells a missing row from a changed
      one. */
  lemma GuardedUpdateIsExact(rows: Table, table: string, scope: Option<string>, codec: Codec,
                             d: Dict, mode: Mode, newTag: string)
    requires HasAddress(d) && "etag" in d && d["etag"].Text?
    ensures var out := GuardedUpdate(rows, table, scope, codec, d, mode, newTag);
      var a := (d["PartitionKey"].s, d["RowKey"].s);
      && (out.answer.Ok? <==> a in rows && rows[a].etag == d["etag"].s)
      && (out.answer == Err(NotFound) <==> a !in rows)
      && (out.answer == Err(Modified) <==> a in rows && rows[a].etag != d["etag"].s)
      && out.rows.Keys == rows.Keys
      && (forall b :: b in rows && (b != a || out.answer.Err?) ==> out.rows[b] == rows[b])
      && (out.answer.Ok? ==>
           && out.rows[a].etag == newTag
           && (forall k :: k in d && k != "etag" ==>
                k in out.rows[a].props && out.rows[a].props[k] == Stored(d[k], codec))
           && (forall k :: k !in d || k == "etag" ==>
                (k in out.rows[a].props <==> mode == Merge && k in rows[a].props)
                && (k in out.rows[a].props ==> out.rows[a].props[k] == rows[a].props[k])))
  {
  }

  /** Datetimes survive a trip through the table exactly in the fields that are
      read back as datetimes; a text in such a field survives unless it reads as
      one. */
  lemma DatetimesRoundTripIff(d: Dict, codec: Codec)
    requires forall t :: codec.parse(codec.iso(t)) == Some(t)
    ensures Deserialize(Serialize(d, codec), codec) == d <==>
      forall k :: k in d ==>
        var isDate :=
          k in ["CreatedAt", "UpdatedAt", "GrantedAt", "LastLogin", "StartedAt", "CompletedAt", "Timestamp"];
        match d[k]
        case Stamp(_) => isDate
        case Text(text) => isDate ==> codec.parse(text).None?
        case Number(_) => true
  {
    var back := Deserialize(Serialize(d, codec), codec);
    assert back.Keys == d.Keys;
    assert back == d <==> forall k :: k in d ==> back[k] == d[k];
  }
}
