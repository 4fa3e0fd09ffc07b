/** The provider store of part-1/main.py and part-3/main.py as values: its four dicts, the
    invariant that ties the three unique-field indexes to the records, the uniqueness check,
    the state each handler leaves behind, and the page listing of `get_providers`. */
module ProviderDb {
  import opened Wrappers
  import opened Schema
  import OrderedDict
  import Pagination

  /** Why a request failed. */
  datatype Reason =
    | InvalidBody(fields: seq<string>)              // 422: the body breaks a field constraint
    | DuplicateName                                 // 400
    | DuplicateOrganization                         // 400
    | DuplicateAddress                              // 400
    | ProviderNotFound                              // 404
    | PageOutOfRange(page: int, totalPages: int)    // 400
    | SliceIndexError                               // 500: `islice` refused a negative index

  /** An `HTTPException` (or the framework's answer to an uncaught error). */
  datatype HttpError = HttpError(status: nat, reason: Reason)

  /** The four module-level dicts: the records by id, in insertion order, and one index per
      unique field from the field's value to the id of the record that holds it. */
  datatype Db = Db(
    inMemoryDb: OrderedDict.Dict<Uuid, Provider>,
    nameTable: map<string, Uuid>,
    organizationTable: map<string, Uuid>,
    addressTable: map<string, Uuid>)

  /** The fields whose values no two providers may share. */
  datatype UniqueField = Name | Organization | Address

  function FieldOf(p: Provider, f: UniqueField): string {
    match f
    case Name => p.name
    case Organization => p.organization
    case Address => p.address
  }

  function BodyFieldOf(body: ProviderInput, f: UniqueField): string {
    match f
    case Name => body.name
    case Organization => body.organization
    case Address => body.address
  }

  function Table(s: Db, f: UniqueField): map<string, Uuid> {
    match f
    case Name => s.nameTable
    case Organization => s.organizationTable
    case Address => s.addressTable
  }

  /** The value of `f` of every stored record, by id. */
  function Projection(recs: map<Uuid, Provider>, f: UniqueField): (proj: map<Uuid, string>)
    ensures proj.Keys == recs.Keys
  {
    map id | id in recs :: FieldOf(recs[id], f)
  }

  /** `t` maps each value of `proj` back to its id, and holds nothing else: the two maps are
      inverse bijections. */
  ghost predicate Inverse(t: map<string, Uuid>, proj: map<Uuid, string>) {
    && (forall id :: id in proj ==> proj[id] in t && t[proj[id]] == id)
    && (forall key :: key in t ==> t[key] in proj && proj[t[key]] == key)
  }

  /** The index of `f` is exactly the image of `f` over the stored records, each value keyed
      back to the id of the record holding it. */
  ghost predicate Indexes(s: Db, f: UniqueField) {
    Inverse(Table(s, f), Projection(s.inMemoryDb.values, f))
  }

  lemma InverseAdd(t: map<string, Uuid>, proj: map<Uuid, string>, id: Uuid, key: string)
    requires Inverse(t, proj) && id !in proj && key !in t
    ensures Inverse(t[key := id], proj[id := key])
  {
    var t', proj' := t[key := id], proj[id := key];
    forall i | i in proj' ensures proj'[i] in t' && t'[proj'[i]] == i {
      if i != id {
        assert proj[i] in t;
      }
    }
    forall k | k in t' ensures t'[k] in proj' && proj'[t'[k]] == k {
      if k != key {
        assert t[k] in proj;
      }
    }
  }

  lemma InverseDrop(t: map<string, Uuid>, proj: map<Uuid, string>, id: Uuid)
    requires Inverse(t, proj) && id in proj
    ensures Inverse(t - {proj[id]}, proj - {id})
  {
    var t', proj' := t - {proj[id]}, proj - {id};
    forall i | i in proj' ensures proj'[i] in t' && t'[proj'[i]] == i {
      assert t[proj[i]] == i;
    }
    forall k | k in t' ensures t'[k] in proj' && proj'[t'[k]] == k {
      assert proj[t[k]] == k;
    }
  }

  /** Every stored record meets the field constraints. */
  ghost predicate AllValid(recs: map<Uuid, Provider>) {
    forall id {:trigger ValidProvider(recs[id])} :: id in recs ==> ValidProvider(recs[id])
  }

  /** The store invariant every handler keeps. */
  ghost predicate Consistent(s: Db) {
    && OrderedDict.Valid(s.inMemoryDb)
    && AllValid(s.inMemoryDb.values)
    && Indexes(s, Name) && Indexes(s, Organization) && Indexes(s, Address)
  }

  /** The state with all four dicts empty. */
  function Cleared(): (s: Db)
    ensures Consistent(s) && |s.inMemoryDb.keys| == 0
  {
    Db(OrderedDict.Empty(), map[], map[], map[])
  }

  // ---------------------------------------------------------------------------------------------
  // check_validity_unique_fields

  /** `key in table and table[key] != uuid`, where `uuid` is `None` when creating. */
  predicate Conflicts(t: map<string, Uuid>, key: string, owner: Option<Uuid>) {
    key in t && Some(t[key]) != owner
  }

  /** Raises 400 when the body's name, organization or address is already indexed under an
      id other than `owner`; the name is checked first, then the organization, then the address. */
  function CheckValidityUniqueFields(s: Db, body: ProviderInput, owner: Option<Uuid>): (r: Outcome<HttpError>)
    ensures r.Fail? <==>
      Conflicts(s.nameTable, body.name, owner)
      || Conflicts(s.organizationTable, body.organization, owner)
      || Conflicts(s.addressTable, body.address, owner)
    ensures r.Fail? ==> r.error.status == 400
    ensures r == Fail(HttpError(400, DuplicateName)) <==> Conflicts(s.nameTable, body.name, owner)
    ensures r == Fail(HttpError(400, DuplicateOrganization)) <==>
      !Conflicts(s.nameTable, body.name, owner) && Conflicts(s.organizationTable, body.organization, owner)
    ensures r == Fail(HttpError(400, DuplicateAddress)) <==>
      && !Conflicts(s.nameTable, body.name, owner)
      && !Conflicts(s.organizationTable, body.organization, owner)
      && Conflicts(s.addressTable, body.address, owner)
  {
    if Conflicts(s.nameTable, body.name, owner) then
      Fail(HttpError(400, DuplicateName))
    else if Conflicts(s.organizationTable, body.organization, owner) then
      Fail(HttpError(400, DuplicateOrganization))
    else if Conflicts(s.addressTable, body.address, owner) then
      Fail(HttpError(400, DuplicateAddress))
    else
      Pass
  }

  /** On a consistent store the check passes exactly when no stored record other than `owner`
      shares its name, organization or address with the body. */
  lemma CheckMeansNoSharedField(s: Db, body: ProviderInput, owner: Option<Uuid>)
    requires Consistent(s)
    ensures CheckValidityUniqueFields(s, body, owner).Pass? <==>
      forall id :: id in s.inMemoryDb.values && Some(id) != owner ==>
        && s.inMemoryDb.values[id].name != body.name
        && s.inMemoryDb.values[id].organization != body.organization
        && s.inMemoryDb.values[id].address != body.address
  {
    var recs := s.inMemoryDb.values;
    if CheckValidityUniqueFields(s, body, owner).Fail? {
      if Conflicts(s.nameTable, body.name, owner) {
        assert Indexes(s, Name);
        assert Projection(recs, Name)[s.nameTable[body.name]] == body.name;
      } else if Conflicts(s.organizationTable, body.organization, owner) {
        assert Indexes(s, Organization);
        assert Projection(recs, Organization)[s.organizationTable[body.organization]] == body.organization;
      } else {
        assert Indexes(s, Address);
        assert Projection(recs, Address)[s.addressTable[body.address]] == body.address;
      }
    } else {
      forall id | id in recs && Some(id) != owner
        ensures recs[id].name != body.name && recs[id].organization != body.organization
          && recs[id].address != body.address
      {
        assert Indexes(s, Name) && Indexes(s, Organization) && Indexes(s, Address);
        assert Projection(recs, Name)[id] == recs[id].name;
        assert Projection(recs, Organization)[id] == recs[id].organization;
        assert Projection(recs, Address)[id] == recs[id].address;
      }
    }
  }


  /** Resubmitting a record's own name, organization and address under its own id is not a conflict. */
  lemma OwnFieldsDoNotConflict(s: Db, id: Uuid, body: ProviderInput)
    requires Consistent(s) && id in s.inMemoryDb.values
    requires var p := s.inMemoryDb.values[id];
      body.name == p.name && body.organization == p.organization && body.address == p.address
    ensures CheckValidityUniqueFields(s, body, Some(id)).Pass?
  {
    var recs := s.inMemoryDb.values;
    assert Indexes(s, Name) && Indexes(s, Organization) && Indexes(s, Address);
    assert Projection(recs, Name)[id] == recs[id].name;
    assert Projection(recs, Organization)[id] == recs[id].organization;
    assert Projection(recs, Address)[id] == recs[id].address;
  }


  /** On a consistent store each record's name, organization and address are indexed under its
      own id, so `del_from_unique_tables` finds all three keys. */
  lemma StoredFieldsIndexed(s: Db, id: Uuid, f: UniqueField)
    requires Consistent(s) && id in s.inMemoryDb.values
    ensures FieldOf(s.inMemoryDb.values[id], f) in Table(s, f)
    ensures Table(s, f)[FieldOf(s.inMemoryDb.values[id], f)] == id
  {
    assert Indexes(s, f);
    assert Projection(s.inMemoryDb.values, f)[id] == FieldOf(s.inMemoryDb.values[id], f);
  }

  /** On a consistent store no two records share a name, an organization or an address. */
  lemma UniqueFieldsAreUnique(s: Db, a: Uuid, b: Uuid, f: UniqueField)
    requires Consistent(s)
    requires a in s.inMemoryDb.values && b in s.inMemoryDb.values && a != b
    ensures FieldOf(s.inMemoryDb.values[a], f) != FieldOf(s.inMemoryDb.values[b], f)
  {
    var proj := Projection(s.inMemoryDb.values, f);
    assert Indexes(s, f);
    assert proj[a] == FieldOf(s.inMemoryDb.values[a], f);
    assert proj[b] == FieldOf(s.inMemoryDb.values[b], f);
  }


  // ---------------------------------------------------------------------------------------------
  // The states the handlers leave behind

  /** `create_provider`: the record is stored under the new id, last in order, and indexed. */
  function Inserted(s: Db, id: Uuid, p: Provider): (r: Db)
    requires OrderedDict.Valid(s.inMemoryDb)
    ensures OrderedDict.Valid(r.inMemoryDb) && r.inMemoryDb.values == s.inMemoryDb.values[id := p]
    ensures id !in s.inMemoryDb.values ==> r.inMemoryDb.keys == s.inMemoryDb.keys + [id]
    ensures p.name in r.nameTable && r.nameTable[p.name] == id
    ensures p.organization in r.organizationTable && r.organizationTable[p.organization] == id
    ensures p.address in r.addressTable && r.addressTable[p.address] == id
  {
    Db(OrderedDict.Put(s.inMemoryDb, id, p),
       s.nameTable[p.name := id],
       s.organizationTable[p.organization := id],
       s.addressTable[p.address := id])
  }

  /** `update_provider`: the old record's index entries go, the new record takes its place
      (and its position) and is indexed under the same id. */
  function Replaced(s: Db, id: Uuid, p: Provider): (r: Db)
    requires OrderedDict.Valid(s.inMemoryDb) && id in s.inMemoryDb.values
    ensures OrderedDict.Valid(r.inMemoryDb) && r.inMemoryDb.values == s.inMemoryDb.values[id := p]
    ensures r.inMemoryDb.keys == s.inMemoryDb.keys
    ensures p.name in r.nameTable && r.nameTable[p.name] == id
    ensures p.organization in r.organizationTable && r.organizationTable[p.organization] == id
    ensures p.address in r.addressTable && r.addressTable[p.address] == id
  {
    var prev := s.inMemoryDb.values[id];
    Db(OrderedDict.Put(s.inMemoryDb, id, p),
       (s.nameTable - {prev.name})[p.name := id],
       (s.organizationTable - {prev.organization})[p.organization := id],
       (s.addressTable - {prev.address})[p.address := id])
  }

  /** `delete_provider`: the record and its three index entries go. */
  function Removed(s: Db, id: Uuid): (r: Db)
    requires OrderedDict.Valid(s.inMemoryDb) && id in s.inMemoryDb.values
    ensures OrderedDict.Valid(r.inMemoryDb) && r.inMemoryDb.values == s.inMemoryDb.values - {id}
    ensures |r.inMemoryDb.keys| == |s.inMemoryDb.keys| - 1
    ensures var prev := s.inMemoryDb.values[id];
      prev.name !in r.nameTable && prev.organization !in r.organizationTable
      && prev.address !in r.addressTable
  {
    var prev := s.inMemoryDb.values[id];
    Db(OrderedDict.Remove(s.inMemoryDb, id),
       s.nameTable - {prev.name},
       s.organizationTable - {prev.organization},
       s.addressTable - {prev.address})
  }

  lemma ProjectionPut(recs: map<Uuid, Provider>, id: Uuid, p: Provider, f: UniqueField)
    ensures Projection(recs[id := p], f) == Projection(recs, f)[id := FieldOf(p, f)]
  {
  }

  lemma ProjectionRemove(recs: map<Uuid, Provider>, id: Uuid, f: UniqueField)
    ensures Projection(recs - {id}, f) == Projection(recs, f) - {id}
  {
  }

  /** What `create_provider` leaves in the records and in the table of `f`. */
  lemma InsertedParts(s: Db, id: Uuid, p: Provider, f: UniqueField)
    requires OrderedDict.Valid(s.inMemoryDb)
    ensures Inserted(s, id, p).inMemoryDb.values == s.inMemoryDb.values[id := p]
    ensures Table(Inserted(s, id, p), f) == Table(s, f)[FieldOf(p, f) := id]
  {
  }

  /** What `update_provider` leaves in the records and in the table of `f`. */
  lemma ReplacedParts(s: Db, id: Uuid, p: Provider, f: UniqueField)
    requires OrderedDict.Valid(s.inMemoryDb) && id in s.inMemoryDb.values
    ensures Replaced(s, id, p).inMemoryDb.values == s.inMemoryDb.values[id := p]
    ensures Replaced(s, id, p).inMemoryDb.keys == s.inMemoryDb.keys
    ensures Table(Replaced(s, id, p), f) ==
      (Table(s, f) - {FieldOf(s.inMemoryDb.values[id], f)})[FieldOf(p, f) := id]
  {
  }

  /** What `delete_provider` leaves in the records and in the table of `f`. */
  lemma RemovedParts(s: Db, id: Uuid, f: UniqueField)
    requires OrderedDict.Valid(s.inMemoryDb) && id in s.inMemoryDb.values
    ensures Removed(s, id).inMemoryDb.values == s.inMemoryDb.values - {id}
    ensures Table(Removed(s, id), f) == Table(s, f) - {FieldOf(s.inMemoryDb.values[id], f)}
  {
  }

  /** Indexing a new record whose value of `f` is free keeps a table the inverse of the field. */
  lemma InverseAfterInsert(t: map<string, Uuid>, recs: map<Uuid, Provider>, id: Uuid, p: Provider, f: UniqueField)
    requires Inverse(t, Projection(recs, f)) && id !in recs && FieldOf(p, f) !in t
    ensures Inverse(t[FieldOf(p, f) := id], Projection(recs[id := p], f))
  {
    ProjectionPut(recs, id, p, f);
    InverseAdd(t, Projection(recs, f), id, FieldOf(p, f));
  }

  /** Unindexing a record's old value of `f` and indexing its new one, free or its own, keeps a
      table the inverse of the field. */
  lemma InverseAfterReplace(t: map<string, Uuid>, recs: map<Uuid, Provider>, id: Uuid, p: Provider, f: UniqueField)
    requires Inverse(t, Projection(recs, f)) && id in recs
    requires FieldOf(p, f) !in t - {FieldOf(recs[id], f)}
    ensures Inverse((t - {FieldOf(recs[id], f)})[FieldOf(p, f) := id], Projection(recs[id := p], f))
  {
    var proj := Projection(recs, f);
    assert proj[id] == FieldOf(recs[id], f);
    InverseDrop(t, proj, id);
    InverseAdd(t - {FieldOf(recs[id], f)}, proj - {id}, id, FieldOf(p, f));
    ProjectionPut(recs, id, p, f);
    assert proj[id := FieldOf(p, f)] == (proj - {id})[id := FieldOf(p, f)];
  }

  /** Dropping a record and its value of `f` keeps a table the inverse of the field. */
  lemma InverseAfterRemove(t: map<string, Uuid>, recs: map<Uuid, Provider>, id: Uuid, f: UniqueField)
    requires Inverse(t, Projection(recs, f)) && id in recs
    ensures Inverse(t - {FieldOf(recs[id], f)}, Projection(recs - {id}, f))
  {
    var proj := Projection(recs, f);
    assert proj[id] == FieldOf(recs[id], f);
    InverseDrop(t, proj, id);
    ProjectionRemove(recs, id, f);
  }

  /** One index after an insert of a record whose value of `f` is not yet indexed. */
  lemma IndexAfterInsert(s: Db, id: Uuid, p: Provider, f: UniqueField)
    requires OrderedDict.Valid(s.inMemoryDb) && Indexes(s, f)
    requires id !in s.inMemoryDb.values && FieldOf(p, f) !in Table(s, f)
    ensures Indexes(Inserted(s, id, p), f)
  {
    InverseAfterInsert(Table(s, f), s.inMemoryDb.values, id, p, f);
    InsertedParts(s, id, p, f);
  }

  /** One index after a record is replaced by one whose value of `f` is free or its own. */
  lemma IndexAfterReplace(s: Db, id: Uuid, p: Provider, f: UniqueField)
    requires OrderedDict.Valid(s.inMemoryDb) && Indexes(s, f) && id in s.inMemoryDb.values
    requires FieldOf(p, f) !in Table(s, f) - {FieldOf(s.inMemoryDb.values[id], f)}
    ensures Indexes(Replaced(s, id, p), f)
  {
    InverseAfterReplace(Table(s, f), s.inMemoryDb.values, id, p, f);
    ReplacedParts(s, id, p, f);
  }

  /** One index after a record is removed. */
  lemma IndexAfterRemove(s: Db, id: Uuid, f: UniqueField)
    requires OrderedDict.Valid(s.inMemoryDb) && Indexes(s, f) && id in s.inMemoryDb.values
    ensures Indexes(Removed(s, id), f)
  {
    InverseAfterRemove(Table(s, f), s.inMemoryDb.values, id, f);
    RemovedParts(s, id, f);
  }

  lemma AllValidPut(recs: map<Uuid, Provider>, id: Uuid, p: Provider)
    requires AllValid(recs) && ValidProvider(p)
    ensures AllValid(recs[id := p])
  {
  }

  lemma AllValidRemove(recs: map<Uuid, Provider>, id: Uuid)
    requires AllValid(recs)
    ensures AllValid(recs - {id})
  {
  }

  /** Creating a valid provider whose unique fields pass the check keeps the store consistent. */
  lemma CreateKeepsConsistent(s: Db, id: Uuid, body: ProviderInput)
    requires Consistent(s) && id !in s.inMemoryDb.values
    requires ValidInput(body) && CheckValidityUniqueFields(s, body, None).Pass?
    ensures Consistent(Inserted(s, id, WithDefaults(body)))
  {
    var p := WithDefaults(body);
    OverrideValid(Defaults, body);
    AllValidPut(s.inMemoryDb.values, id, p);
    InsertedParts(s, id, p, Name);
    IndexAfterInsert(s, id, p, Name);
    IndexAfterInsert(s, id, p, Organization);
    IndexAfterInsert(s, id, p, Address);
  }

  /** Updating an existing provider with a valid body that passes the check (with the record's
      own id as owner) keeps the store consistent. */
  lemma UpdateKeepsConsistent(s: Db, id: Uuid, body: ProviderInput)
    requires Consistent(s) && id in s.inMemoryDb.values
    requires ValidInput(body) && CheckValidityUniqueFields(s, body, Some(id)).Pass?
    ensures Consistent(Replaced(s, id, Override(s.inMemoryDb.values[id], body)))
  {
    var p := Override(s.inMemoryDb.values[id], body);
    OverrideValid(s.inMemoryDb.values[id], body);
    AllValidPut(s.inMemoryDb.values, id, p);
    ReplacedParts(s, id, p, Name);
    IndexAfterReplace(s, id, p, Name);
    IndexAfterReplace(s, id, p, Organization);
    IndexAfterReplace(s, id, p, Address);
  }

  /** Deleting an existing provider keeps the store consistent. */
  lemma DeleteKeepsConsistent(s: Db, id: Uuid)
    requires Consistent(s) && id in s.inMemoryDb.values
    ensures Consistent(Removed(s, id))
  {
    AllValidRemove(s.inMemoryDb.values, id);
    RemovedParts(s, id, Name);
    IndexAfterRemove(s, id, Name);
    IndexAfterRemove(s, id, Organization);
    IndexAfterRemove(s, id, Address);
  }

  /** A passing check means that no field of the body conflicts, one field at a time. */
  lemma CheckPassField(s: Db, body: ProviderInput, owner: Option<Uuid>, f: UniqueField)
    requires CheckValidityUniqueFields(s, body, owner).Pass?
    ensures !Conflicts(Table(s, f), BodyFieldOf(body, f), owner)
  {
  }

  /** Dropping record `id`'s value of `f` leaves every other record's entry in a table that is
      the inverse of the field. */
  lemma OtherStaysIndexed(t: map<string, Uuid>, recs: map<Uuid, Provider>, id: Uuid, other: Uuid, f: UniqueField)
    requires Inverse(t, Projection(recs, f)) && id in recs && other in recs && other != id
    ensures var key := FieldOf(recs[other], f);
      var t' := t - {FieldOf(recs[id], f)};
      key in t' && t'[key] == other
  {
    var proj := Projection(recs, f);
    assert proj[other] == FieldOf(recs[other], f);
    assert proj[id] == FieldOf(recs[id], f);
  }

  /** Re-indexing record `id` under a value that does not conflict leaves every other record's
      entry in place. */
  lemma OtherStaysIndexedAfterReplace(t: map<string, Uuid>, recs: map<Uuid, Provider>, id: Uuid, other: Uuid, newKey: string, f: UniqueField)
    requires Inverse(t, Projection(recs, f)) && id in recs && other in recs && other != id
    requires !Conflicts(t, newKey, Some(id))
    ensures var key := FieldOf(recs[other], f);
      var t' := (t - {FieldOf(recs[id], f)})[newKey := id];
      key in t' && t'[key] == other
  {
    var proj := Projection(recs, f);
    assert proj[other] == FieldOf(recs[other], f);
    assert proj[id] == FieldOf(recs[id], f);
  }

  /** An update touches only its own record: every other record keeps its value, its place in
      the order and its three index entries. */
  lemma UpdateTouchesOnlyTarget(s: Db, id: Uuid, body: ProviderInput, other: Uuid, f: UniqueField)
    requires Consistent(s) && id in s.inMemoryDb.values
    requires CheckValidityUniqueFields(s, body, Some(id)).Pass?
    requires other in s.inMemoryDb.values && other != id
    ensures var s' := Replaced(s, id, Override(s.inMemoryDb.values[id], body));
      && s'.inMemoryDb.keys == s.inMemoryDb.keys
      && other in s'.inMemoryDb.values && s'.inMemoryDb.values[other] == s.inMemoryDb.values[other]
      && var key := FieldOf(s.inMemoryDb.values[other], f);
         key in Table(s', f) && Table(s', f)[key] == other
  {
    var p := Override(s.inMemoryDb.values[id], body);
    assert Indexes(s, f);
    CheckPassField(s, body, Some(id), f);
    assert FieldOf(p, f) == BodyFieldOf(body, f);
    OtherStaysIndexedAfterReplace(Table(s, f), s.inMemoryDb.values, id, other, FieldOf(p, f), f);
    ReplacedParts(s, id, p, f);
  }

  /** A delete removes only its target: the id and its field values leave the store, every
      other record keeps its value and its three index entries. */
  lemma DeleteTouchesOnlyTarget(s: Db, id: Uuid, other: Uuid, f: UniqueField)
    requires Consistent(s) && id in s.inMemoryDb.values
    requires other in s.inMemoryDb.values && other != id
    ensures var s' := Removed(s, id);
      && id !in s'.inMemoryDb.values
      && FieldOf(s.inMemoryDb.values[id], f) !in Table(s', f)
      && other in s'.inMemoryDb.values && s'.inMemoryDb.values[other] == s.inMemoryDb.values[other]
      && var key := FieldOf(s.inMemoryDb.values[other], f);
         key in Table(s', f) && Table(s', f)[key] == other
  {
    assert Indexes(s, f);
    OtherStaysIndexed(Table(s, f), s.inMemoryDb.values, id, other, f);
    RemovedParts(s, id, f);
  }

  // ---------------------------------------------------------------------------------------------
  // get_providers

  /** The reply of `get_providers`: `[]`, or a page of records padded with `None`. */
  datatype ProviderList =
    | NoProviders
    | Listing(providers: seq<Option<ProviderDB>>, page: int, totalPages: int)

  /** The stored records, tagged with their ids, in insertion order. */
  function Records(s: Db): (r: seq<ProviderDB>)
    requires OrderedDict.Valid(s.inMemoryDb)
    ensures |r| == |s.inMemoryDb.keys|
  {
    var items := OrderedDict.Items(s.inMemoryDb);
    seq(|items|, i requires 0 <= i < |items| => ProviderDB(items[i].1, items[i].0))
  }

  /** `[None] * limit`, filled from `islice(items, start, start + limit)`. */
  function Window(items: seq<ProviderDB>, start: int, limit: int): seq<Option<ProviderDB>>
    requires 0 <= start
  {
    seq(if limit < 0 then 0 else limit,
        i requires 0 <= i => if start + i < |items| then Some(items[start + i]) else None)
  }

  /** The page size after clamping: `limit`, lowered to the number of records. */
  function Clamp(n: int, limit: int): int {
    if n < limit then n else limit
  }

  /** The query defaults of `get_providers`: `limit=100`, `page=1`. */
  const DefaultLimit: int := 100
  const DefaultPage: int := 1

  /** What `get_providers(limit, page)` returns on state `s`, branch by branch. Only 400 and
      500 are possible errors, and a listing never has more slots than there are records. */
  function ListProviders(s: Db, limit: int, page: int): (r: Result<ProviderList, HttpError>)
    requires OrderedDict.Valid(s.inMemoryDb)
    ensures r.Err? ==> r.error.status == 400 || r.error.status == 500
    ensures r.Ok? && r.value.Listing? ==> |r.value.providers| <= |s.inMemoryDb.keys|
  {
    var n := |s.inMemoryDb.keys|;
    var lim := Clamp(n, limit);
    var total := Pagination.TotalPages(n, lim);
    if total == 0 then
      Ok(NoProviders)
    else if page - 1 > total - 1 then
      Err(HttpError(400, PageOutOfRange(page, total)))
    else
      var start := (page - 1) * lim;
      if start < 0 || start + lim < 0 then
        Err(HttpError(500, SliceIndexError))
      else
        Ok(Listing(Window(Records(s), start, lim), page, total))
  }

  /** An empty store lists as `[]`, whatever the limit and page. */
  lemma ListEmptyStore(s: Db, limit: int, page: int)
    requires OrderedDict.Valid(s.inMemoryDb) && |s.inMemoryDb.keys| == 0
    ensures ListProviders(s, limit, page) == Ok(NoProviders)
  {
    Pagination.TotalPagesOfNothing(Clamp(0, limit));
  }

  /** With records and a positive limit, the request fails with 400 exactly when the page is
      beyond the last one. */
  lemma ListPageOutOfRange(s: Db, limit: int, page: int)
    requires OrderedDict.Valid(s.inMemoryDb) && |s.inMemoryDb.keys| > 0 && limit > 0
    ensures var total := Pagination.TotalPages(|s.inMemoryDb.keys|, Clamp(|s.inMemoryDb.keys|, limit));
      && total >= 1
      && (ListProviders(s, limit, page) == Err(HttpError(400, PageOutOfRange(page, total))) <==> page > total)
  {
    Pagination.TotalPagesBounds(|s.inMemoryDb.keys|, Clamp(|s.inMemoryDb.keys|, limit));
  }

  /** With records and a positive limit, a page number below 1 makes `islice` raise. */
  lemma ListPageBelowOne(s: Db, limit: int, page: int)
    requires OrderedDict.Valid(s.inMemoryDb) && |s.inMemoryDb.keys| > 0 && limit > 0 && page < 1
    ensures ListProviders(s, limit, page) == Err(HttpError(500, SliceIndexError))
  {
    var n := |s.inMemoryDb.keys|;
    var lim := Clamp(n, limit);
    Pagination.TotalPagesBounds(n, lim);
    assert (page - 1) * lim < 0 by { Pagination.MulMonotone(page - 1, -1, lim); }
  }

  /** A page in range holds exactly `limit` slots (clamped to the number of records): slot `i`
      holds the record at insertion position `(page - 1) * limit + i`, or `None` past the end.
      The reply echoes the page and the page count. */
  lemma ListPageContents(s: Db, limit: int, page: int)
    requires OrderedDict.Valid(s.inMemoryDb) && |s.inMemoryDb.keys| > 0 && limit > 0
    requires 1 <= page <= Pagination.TotalPages(|s.inMemoryDb.keys|, Clamp(|s.inMemoryDb.keys|, limit))
    ensures var n, lim := |s.inMemoryDb.keys|, Clamp(|s.inMemoryDb.keys|, limit);
      var r := ListProviders(s, limit, page);
      && r.Ok? && r.value.Listing?
      && r.value.page == page && r.value.totalPages == Pagination.TotalPages(n, lim)
      && |r.value.providers| == lim
      && forall i :: 0 <= i < lim ==>
           var pos := (page - 1) * lim + i;
           r.value.providers[i] ==
             if pos < n then Some(ProviderDB(s.inMemoryDb.values[s.inMemoryDb.keys[pos]], s.inMemoryDb.keys[pos]))
             else None
  {
    var n, lim := |s.inMemoryDb.keys|, Clamp(|s.inMemoryDb.keys|, limit);
    assert 0 <= (page - 1) * lim by { Pagination.MulMonotone(0, page - 1, lim); }
    assert (page - 1) * lim + lim == page * lim;
  }

  /** Paging covers the store: the record at insertion position `j` appears on page
      `j / limit + 1`, in slot `j % limit`. */
  lemma ListFindsEveryRecord(s: Db, limit: int, j: nat)
    requires OrderedDict.Valid(s.inMemoryDb) && limit > 0 && j < |s.inMemoryDb.keys|
    ensures var lim := Clamp(|s.inMemoryDb.keys|, limit);
      var r := ListProviders(s, limit, j / lim + 1);
      r.Ok? && r.value.Listing? && r.value.providers[j % lim] == Some(Records(s)[j])
  {
    var n := |s.inMemoryDb.keys|;
    var lim := Clamp(n, limit);
    var page := j / lim + 1;
    var total := Pagination.TotalPages(n, lim);
    assert (page - 1) * lim + j % lim == j;
    assert (page - 1) * lim < n;
    assert page <= total by {
      if page > total {
        Pagination.MulMonotone(total, page - 1, lim);
      }
    }
    ListPageContents(s, limit, page);
  }

  /** The default query lists the first page: the first 100 records in insertion order, or all
      of them when there are fewer. */
  lemma ListDefaultQuery(s: Db)
    requires OrderedDict.Valid(s.inMemoryDb) && |s.inMemoryDb.keys| > 0
    ensures var n := |s.inMemoryDb.keys|;
      var r := ListProviders(s, DefaultLimit, DefaultPage);
      && r.Ok? && r.value.Listing? && r.value.page == 1
      && |r.value.providers| == (if n < 100 then n else 100)
      && forall i :: 0 <= i < |r.value.providers| ==> r.value.providers[i] == Some(Records(s)[i])
  {
    var n := |s.inMemoryDb.keys|;
    Pagination.TotalPagesBounds(n, Clamp(n, DefaultLimit));
    ListPageContents(s, DefaultLimit, DefaultPage);
  }

  /** A slice start beyond `sys.maxsize` is clipped by `islice`, not refused: with one record,
      a limit of -1 and page -2^63 the start is 2^63 + 1, and the reply is an empty page. */
  lemma ListStartBeyondMaxSize(s: Db)
    requires OrderedDict.Valid(s.inMemoryDb) && |s.inMemoryDb.keys| == 1
    ensures ListProviders(s, -1, -0x8000_0000_0000_0000) == Ok(Listing([], -0x8000_0000_0000_0000, -1))
  {
  }

  /** A negative limit never lists a record: the reply is `[]`, an error, or an empty page. */
  lemma ListNegativeLimit(s: Db, limit: int, page: int)
    requires OrderedDict.Valid(s.inMemoryDb) && limit < 0
    ensures var r := ListProviders(s, limit, page);
      r.Ok? && r.value.Listing? ==> r.value.providers == []
  {
  }

  /** A zero limit always lists as `[]`. */
  lemma ListZeroLimit(s: Db, page: int)
    requires OrderedDict.Valid(s.inMemoryDb)
    ensures ListProviders(s, 0, page) == Ok(NoProviders)
  {
  }
}
