/** Row keys and the conversion between models and table entities
    (shared/models.py). */
module EntityModels {
  import opened Wrappers
  import opened Strings

  datatype Error = ValueError | KeyError | ValidationError

  /** A field value; only texts are looked into. */
  datatype Value = Text(s: string) | Other(code: int)
  type Dict = map<string, Value>

  // -------------------------------------------------------------- row keys

  /** row_key.split(':', 1) */
  function ParseRowKey(rowKey: string): (string, string) {
    if rowKey == "" then ("", "")
    else if rowKey[0] == ':' then ("", rowKey[1..])
    else
      var (t, id) := ParseRowKey(rowKey[1..]);
      ([rowKey[0]] + t, id)
  }

  lemma {:induction false} ParsedTypeHasNoColon(rowKey: string)
    ensures ':' !in ParseRowKey(rowKey).0
  {
    if rowKey != "" {
      ParsedTypeHasNoColon(rowKey[1..]);
    }
  }

  lemma {:induction false} ParseAfterType(entityType: string, rest: string)
    requires ':' !in entityType
    ensures ParseRowKey(entityType + rest) == (entityType + ParseRowKey(rest).0, ParseRowKey(rest).1)
  {
    if entityType == "" {
      assert entityType + rest == rest && entityType + ParseRowKey(rest).0 == ParseRowKey(rest).0;
    } else {
      ParseAfterType(entityType[1..], rest);
      assert (entityType + rest)[1..] == entityType[1..] + rest;
      assert entityType + ParseRowKey(rest).0 == [entityType[0]] + (entityType[1..] + ParseRowKey(rest).0);
    }
  }

  /** A row key gives back its type and id exactly when the type has no
      colon; the id may have any. */
  lemma RowKeyRoundTripIff(entityType: string, id: string)
    ensures ParseRowKey(entityType + ":" + id) == (entityType, id) <==> ':' !in entityType
  {
    if ':' !in entityType {
      assert entityType + ":" + id == entityType + (":" + id);
      ParseAfterType(entityType, ":" + id);
      assert entityType + "" == entityType;
    } else {
      ParsedTypeHasNoColon(entityType + ":" + id);
    }
  }

  /** A key without a colon is all type. */
  lemma {:induction false} KeyWithoutColon(rowKey: string)
    requires ':' !in rowKey
    ensures ParseRowKey(rowKey) == (rowKey, "")
  {
    if rowKey != "" {
      KeyWithoutColon(rowKey[1..]);
      assert rowKey == [rowKey[0]] + rowKey[1..];
    }
  }

  function ParseCompositeRowKey(rowKey: string, expectedParts: int): Result<seq<string>, Error> {
    var parts := Split(rowKey, ':');
    if |parts| != expectedParts then Err(ValueError) else Ok(parts)
  }

  lemma {:induction false} PartsAreColonsPlusOne(s: string, sep: char)
    ensures |Split(s, sep)| == multiset(s)[sep] + 1
  {
    if s != "" {
      PartsAreColonsPlusOne(s[1..], sep);
      assert s == [s[0]] + s[1..];
    }
  }

  /** Parsing undoes joining exactly for colon-free parts of the right number;
      and it is the number of colons alone that decides on rejection. */
  lemma CompositeRoundTripIff(parts: seq<string>, expectedParts: int, rowKey: string)
    requires parts != []
    ensures ParseCompositeRowKey(Join(parts, ':'), expectedParts) == Ok(parts) <==>
      AllWithout(parts, ':') && |parts| == expectedParts
    ensures ParseCompositeRowKey(rowKey, expectedParts).Ok? <==> multiset(rowKey)[':'] + 1 == expectedParts
    ensures ParseCompositeRowKey(rowKey, expectedParts).Ok? ==>
      Join(ParseCompositeRowKey(rowKey, expectedParts).value, ':') == rowKey
  {
    SplitInvertsJoinIff(parts, ':');
    PartsAreColonsPlusOne(rowKey, ':');
    JoinOfSplit(rowKey, ':');
  }

  // --------------------------------------------------- models and entities

  /** A model class: its fields, and the defaults some of them have. */
  datatype ModelClass = ModelClass(fields: set<string>, defaults: Dict)

  const METADATA: set<string> := {"PartitionKey", "RowKey", "Timestamp", "etag"}

  predicate IsMetadata(k: string) {
    "odata" <= k || k in METADATA
  }

  predicate IsJunction(cls: ModelClass) {
    "roleId" in cls.fields && ("userId" in cls.fields || "formId" in cls.fields)
  }

  /** model_class(**values): unknown entries are ignored, missing ones get
      their default. */
  function Construct(cls: ModelClass, values: Dict): Result<Dict, Error> {
    if forall f | f in cls.fields :: f in values || f in cls.defaults
    then Ok(map f | f in cls.fields :: if f in values then values[f] else cls.defaults[f])
    else Err(ValidationError)
  }

  /** `freshId` is the UUID generate_entity_id would give; "" for entityType
      is None. The model's own id, if it has one, is a text. */
  function ModelToEntity(model: Dict, partitionKey: string, rowKey: string,
                         entityType: string, generateId: bool, freshId: string): Dict
    requires "id" in model ==> model["id"].Text?
  {
    var entity := model["PartitionKey" := Text(partitionKey)];
    var entity := if generateId && "id" !in entity then entity["id" := Text(freshId)] else entity;
    if entityType != "" && "id" in entity then
      entity["RowKey" := Text(entityType + ":" + entity["id"].s)] - {"id"}
    else entity["RowKey" := Text(rowKey)]
  }

  /** What is stored, column by column: the given partition; the row key of type
      and id, the model's own or the fresh one, if there is a type and an id, else
      the given one; the id only where it is not in the key; every other field. */
  lemma StoredColumns(model: Dict, partitionKey: string, rowKey: string,
                      entityType: string, generateId: bool, freshId: string)
    requires "id" in model ==> model["id"].Text?
    ensures var entity := ModelToEntity(model, partitionKey, rowKey, entityType, generateId, freshId);
      var hasId := "id" in model || generateId;
      var id := if "id" in model then model["id"].s else freshId;
      && entity.Keys == model.Keys + {"PartitionKey", "RowKey"} - {"id"}
           + (if hasId && entityType == "" then {"id"} else {})
      && entity["PartitionKey"] == Text(partitionKey)
      && entity["RowKey"] == Text(if hasId && entityType != "" then entityType + ":" + id else rowKey)
      && ("id" in entity ==> entity["id"] == Text(id))
      && forall k :: k in model && k != "id" && k != "PartitionKey" && k != "RowKey" ==> entity[k] == model[k]
  {
  }

  /** The two ids a junction row's key holds after its type. */
  function JunctionIds(clean: Dict, cls: ModelClass, parts: seq<string>): Dict
    requires |parts| == 3
  {
    var clean :=
      if "userId" in cls.fields then clean["userId" := Text(parts[1])]["roleId" := Text(parts[2])] else clean;
    if "formId" in cls.fields then clean["formId" := Text(parts[1])]["roleId" := Text(parts[2])] else clean
  }

  function EntityToModel(entity: Dict, cls: ModelClass): Result<Dict, Error>
    requires "RowKey" in entity ==> entity["RowKey"].Text?
  {
    var clean := map k | k in entity && !IsMetadata(k) :: entity[k];
    var clean :=
      if "id" in cls.fields && "RowKey" in entity then clean["id" := Text(ParseRowKey(entity["RowKey"].s).1)]
      else clean;
    if IsJunction(cls) then
      if "RowKey" !in entity then Err(KeyError)
      else
        match ParseCompositeRowKey(entity["RowKey"].s, 3)
        case Err(error) => Err(error)
        case Ok(parts) => Construct(cls, JunctionIds(clean, cls, parts))
    else Construct(cls, clean)
  }

  /** When an entity cannot be read, and why, exactly: a junction's without a row
      key; a junction's whose key has not two colons; and one that lacks a field
      without default, which the key's parts do not supply. */
  lemma UnreadableIff(entity: Dict, cls: ModelClass)
    requires "RowKey" in entity ==> entity["RowKey"].Text?
    ensures var r := EntityToModel(entity, cls);
      var fromKey :=
        (if "RowKey" in entity then {"id"} else {})
        + (if IsJunction(cls) then {"userId", "formId", "roleId"} else {});
      && (r == Err(KeyError) <==> IsJunction(cls) && "RowKey" !in entity)
      && (r == Err(ValueError) <==> IsJunction(cls) && "RowKey" in entity && multiset(entity["RowKey"].s)[':'] != 2)
      && (r == Err(ValidationError) <==>
           && r != Err(KeyError) && r != Err(ValueError)
           && exists f :: f in cls.fields && f !in cls.defaults && f !in fromKey && (f !in entity || IsMetadata(f)))
      && (r.Ok? ==> r.value.Keys == cls.fields)
  {
    if "RowKey" in entity {
      PartsAreColonsPlusOne(entity["RowKey"].s, ':');
    }
  }

  /** A field that shares its name with storage metadata is lost on the way,
      so it comes back only if its default happens to be its value. */
  predicate Survives(cls: ModelClass, model: Dict, f: string)
    requires f in model
  {
    "odata" <= f || f == "PartitionKey" || f == "RowKey" || f == "Timestamp" || f == "etag" ==>
      f in cls.defaults && cls.defaults[f] == model[f]
  }

  lemma SurvivesIff(cls: ModelClass, model: Dict, f: string)
    requires f in model
    ensures Survives(cls, model, f) <==> (IsMetadata(f) ==> f in cls.defaults && cls.defaults[f] == model[f])
  {
  }

  /** Storing a model under its type and id and reading it back restores it
      exactly when every metadata-like field survives, whatever the id. */
  lemma ModelRoundTripIff(cls: ModelClass, model: Dict, partitionKey: string, rowKey: string,
                          entityType: string, generateId: bool, freshId: string)
    requires model.Keys == cls.fields && "id" in model && model["id"].Text?
    requires !IsJunction(cls) && entityType != "" && ':' !in entityType
    ensures var entity := ModelToEntity(model, partitionKey, rowKey, entityType, generateId, freshId);
      EntityToModel(entity, cls) == Ok(model) <==> forall f :: f in model ==> Survives(cls, model, f)
  {
    RowKeyRoundTripIff(entityType, model["id"].s);
    var entity := ModelToEntity(model, partitionKey, rowKey, entityType, generateId, freshId);
    var back := EntityToModel(entity, cls);
    assert entity["RowKey"] == Text(entityType + ":" + model["id"].s);
    assert forall f :: f in model && f != "id" && !IsMetadata(f) ==> f in entity && entity[f] == model[f];
    if back == Ok(model) {
      forall f | f in model ensures Survives(cls, model, f) {
        assert back.value[f] == model[f];
        SurvivesIff(cls, model, f);
      }
    }
    if forall f :: f in model ==> Survives(cls, model, f) {
      forall f | f in model ensures IsMetadata(f) ==> f in cls.defaults && cls.defaults[f] == model[f] {
        SurvivesIff(cls, model, f);
      }
      assert back.Ok?;
      assert back.value.Keys == model.Keys;
      assert back.value == model;
    }
  }

  /** A model without metadata-like fields always comes back. */
  lemma PlainModelRoundTrip(cls: ModelClass, model: Dict, partitionKey: string, rowKey: string,
                            entityType: string, generateId: bool, freshId: string)
    requires model.Keys == cls.fields && "id" in model && model["id"].Text?
    requires !IsJunction(cls) && entityType != "" && ':' !in entityType
    requires forall f :: f in cls.fields ==> !IsMetadata(f)
    ensures EntityToModel(ModelToEntity(model, partitionKey, rowKey, entityType, generateId, freshId), cls) == Ok(model)
  {
    ModelRoundTripIff(cls, model, partitionKey, rowKey, entityType, generateId, freshId);
  }

  /** A junction model is restored exactly when its row key is three parts of
      which the last two are its ids: they are read from the key, not from the
      columns. */
  lemma JunctionRoundTripIff(cls: ModelClass, model: Dict, partitionKey: string, rowKey: string, first: string)
    requires first == "userId" || first == "formId"
    requires cls.fields * {"userId", "formId"} == {first} && "roleId" in cls.fields && "id" !in cls.fields
    requires model.Keys == cls.fields && model[first].Text? && model["roleId"].Text?
    requires forall f :: f in cls.fields ==> !IsMetadata(f)
    ensures EntityToModel(ModelToEntity(model, partitionKey, rowKey, "", false, ""), cls) == Ok(model) <==>
      var parts := Split(rowKey, ':');
      |parts| == 3 && parts[1] == model[first].s && parts[2] == model["roleId"].s
  {
    var entity := ModelToEntity(model, partitionKey, rowKey, "", false, "");
    var parts := Split(rowKey, ':');
    assert entity["RowKey"] == Text(rowKey);
    assert first in cls.fields * {"userId", "formId"};
    var other := if first == "userId" then "formId" else "userId";
    assert other !in cls.fields by {
      assert other !in cls.fields * {"userId", "formId"};
    }
    var clean := map k | k in entity && !IsMetadata(k) :: entity[k];
    assert clean == model;
    if |parts| == 3 {
      var filled := clean[first := Text(parts[1])]["roleId" := Text(parts[2])];
      assert JunctionIds(clean, cls, parts) == filled;
      assert Construct(cls, filled) == Ok(filled) by {
        assert filled.Keys == cls.fields;
        assert Construct(cls, filled).value == filled;
      }
      assert filled[first] == Text(parts[1]) && filled["roleId"] == Text(parts[2]);
      if parts[1] == model[first].s && parts[2] == model["roleId"].s {
        assert filled == model;
      }
    }
  }
}
