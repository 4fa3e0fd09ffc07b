/** The request handlers of part-1/main.py (and, with file persistence left out, part-3/main.py)
    over the four module-level dicts, which they update in place. */
module ProviderApi {
  import opened Wrappers
  import opened Schema
  import OrderedDict
  import opened ProviderDb
  import Pagination

  /** The loop of `get_providers`: the list `[None] * limit`, with slot `idx` overwritten by the
      `idx`-th item of `islice(items, start, start + limit)`. */
  method FillPage(items: seq<ProviderDB>, start: int, limit: int) returns (providers: seq<Option<ProviderDB>>)
    requires 0 <= start && 0 <= start + limit  // `islice` raises `ValueError` on a negative index
    ensures |providers| == if limit < 0 then 0 else limit
    ensures forall i :: 0 <= i < |providers| ==>
      providers[i] == if start + i < |items| then Some(items[start + i]) else None
  {
    var slots := new Option<ProviderDB>[if limit < 0 then 0 else limit](_ => None);
    var stop := if start + limit < |items| then start + limit else |items|;
    var count := if stop < start then 0 else stop - start;
    var idx := 0;
    while idx < count
      invariant 0 <= idx <= count
      invariant forall i :: 0 <= i < idx ==> slots[i] == Some(items[start + i])
      invariant forall i :: idx <= i < slots.Length ==> slots[i] == None
    {
      slots[idx] := Some(items[start + idx]);
      idx := idx + 1;
    }
    providers := slots[..];
  }

  /** The store: `in_memory_db` and the three unique-field tables. */
  class Store {
    var inMemoryDb: OrderedDict.Dict<Uuid, Provider>
    var nameTable: map<string, Uuid>
    var organizationTable: map<string, Uuid>
    var addressTable: map<string, Uuid>

    function State(): Db
      reads this
    {
      Db(inMemoryDb, nameTable, organizationTable, addressTable)
    }

    ghost predicate Valid()
      reads this
    {
      Consistent(State())
    }

    /** At module load all four dicts are empty. */
    constructor ()
      ensures Valid() && State() == Cleared()
    {
      inMemoryDb := OrderedDict.Empty();
      nameTable, organizationTable, addressTable := map[], map[], map[];
    }

    /** `add_to_unique_tables`: index the record's three unique fields under `id`. */
    method AddToUniqueTables(p: Provider, id: Uuid)
      modifies this
      ensures inMemoryDb == old(inMemoryDb)
      ensures nameTable == old(nameTable)[p.name := id]
      ensures organizationTable == old(organizationTable)[p.organization := id]
      ensures addressTable == old(addressTable)[p.address := id]
    {
      nameTable := nameTable[p.name := id];
      organizationTable := organizationTable[p.organization := id];
      addressTable := addressTable[p.address := id];
    }

    /** `del_from_unique_tables`: `del` raises `KeyError` on a missing key, so all three
        values must be indexed. */
    method DelFromUniqueTables(p: Provider)
      requires p.name in nameTable && p.organization in organizationTable && p.address in addressTable
      modifies this
      ensures inMemoryDb == old(inMemoryDb)
      ensures nameTable == old(nameTable) - {p.name}
      ensures organizationTable == old(organizationTable) - {p.organization}
      ensures addressTable == old(addressTable) - {p.address}
    {
      nameTable := nameTable - {p.name};
      organizationTable := organizationTable - {p.organization};
      addressTable := addressTable - {p.address};
    }

    /** `create_provider` (POST /provider), with `id` the fresh `uuid4()`. */
    method CreateProvider(id: Uuid, body: ProviderInput) returns (r: Result<ProviderDB, HttpError>)
      requires Valid()
      requires id !in inMemoryDb.values
      modifies this
      ensures Valid()
      ensures FieldErrors(body) != [] ==> r == Err(HttpError(422, InvalidBody(FieldErrors(body))))
      ensures var check := CheckValidityUniqueFields(old(State()), body, None);
        FieldErrors(body) == [] && check.Fail? ==> r == Err(check.error)
      ensures r.Ok? <==> FieldErrors(body) == [] && CheckValidityUniqueFields(old(State()), body, None).Pass?
      ensures r.Err? ==> State() == old(State())
      ensures r.Ok? ==>
        && r.value == ProviderDB(WithDefaults(body), id)
        && State() == Inserted(old(State()), id, WithDefaults(body))
        && inMemoryDb.keys == old(inMemoryDb.keys) + [id]
        && inMemoryDb.values[id] == WithDefaults(body)
        && nameTable[body.name] == id && organizationTable[body.organization] == id
        && addressTable[body.address] == id
    {
      var errs := FieldErrors(body);
      if errs != [] {
        return Err(HttpError(422, InvalidBody(errs)));
      }
      var check := CheckValidityUniqueFields(State(), body, None);
      if check.Fail? {
        return Err(check.error);
      }
      ghost var before := State();
      var provider := WithDefaults(body);
      inMemoryDb := OrderedDict.Put(inMemoryDb, id, provider);
      AddToUniqueTables(provider, id);
      CreateKeepsConsistent(before, id, body);
      r := Ok(ProviderDB(provider, id));
    }

    /** `get_provider` (GET /provider): the stored record tagged with its id, or 404. */
    method GetProvider(id: Uuid) returns (r: Result<ProviderDB, HttpError>)
      ensures id !in inMemoryDb.values ==> r == Err(HttpError(404, ProviderNotFound))
      ensures id in inMemoryDb.values ==> r == Ok(ProviderDB(inMemoryDb.values[id], id))
    {
      if id !in inMemoryDb.values {
        return Err(HttpError(404, ProviderNotFound));
      }
      var provider := inMemoryDb.values[id];
      r := Ok(ProviderDB(provider, id));
    }

    /** `get_providers` (GET /providers). */
    method GetProviders(limit: int, page: int) returns (r: Result<ProviderList, HttpError>)
      requires Valid()
      ensures r == ListProviders(State(), limit, page)
    {
      var current := page - 1;
      var n := |inMemoryDb.keys|;
      var lim := limit;
      if n < lim {
        lim := n;
      }
      var total := Pagination.TotalPages(n, lim);
      if total == 0 {
        return Ok(NoProviders);
      }
      if current > total - 1 {
        return Err(HttpError(400, PageOutOfRange(current + 1, total)));
      }
      var start := current * lim;
      if start < 0 || start + lim < 0 {
        return Err(HttpError(500, SliceIndexError));
      }
      var providers := FillPage(Records(State()), start, lim);
      assert providers == Window(Records(State()), start, lim);
      r := Ok(Listing(providers, current + 1, total));
    }

    /** `update_provider` (PUT /provider): fields the client set replace the stored ones. */
    method UpdateProvider(id: Uuid, body: ProviderInput) returns (r: Result<ProviderDB, HttpError>)
      requires Valid()
      modifies this
      ensures Valid()
      ensures FieldErrors(body) != [] ==> r == Err(HttpError(422, InvalidBody(FieldErrors(body))))
      ensures FieldErrors(body) == [] && id !in old(inMemoryDb.values) ==>
        r == Err(HttpError(404, ProviderNotFound))
      ensures var check := CheckValidityUniqueFields(old(State()), body, Some(id));
        FieldErrors(body) == [] && id in old(inMemoryDb.values) && check.Fail? ==> r == Err(check.error)
      ensures r.Ok? <==>
        FieldErrors(body) == [] && id in old(inMemoryDb.values)
        && CheckValidityUniqueFields(old(State()), body, Some(id)).Pass?
      ensures r.Err? ==> State() == old(State())
      ensures r.Ok? ==>
        var updated := Override(old(inMemoryDb.values[id]), body);
        && r.value == ProviderDB(updated, id)
        && State() == Replaced(old(State()), id, updated)
        && inMemoryDb.keys == old(inMemoryDb.keys)
        && nameTable[body.name] == id && organizationTable[body.organization] == id
        && addressTable[body.address] == id
    {
      var errs := FieldErrors(body);
      if errs != [] {
        return Err(HttpError(422, InvalidBody(errs)));
      }
      if id !in inMemoryDb.values {
        return Err(HttpError(404, ProviderNotFound));
      }
      var check := CheckValidityUniqueFields(State(), body, Some(id));
      if check.Fail? {
        return Err(check.error);
      }
      ghost var before := State();
      var stored := inMemoryDb.values[id];
      StoredFieldsIndexed(before, id, Name);
      StoredFieldsIndexed(before, id, Organization);
      StoredFieldsIndexed(before, id, Address);
      DelFromUniqueTables(stored);
      var updated := Override(stored, body);
      inMemoryDb := OrderedDict.Put(inMemoryDb, id, updated);
      AddToUniqueTables(updated, id);
      UpdateKeepsConsistent(before, id, body);
      r := Ok(ProviderDB(updated, id));
    }

    /** `delete_provider` (DELETE /provider): the removed record tagged with its id, or 404. */
    method DeleteProvider(id: Uuid) returns (r: Result<ProviderDB, HttpError>)
      requires Valid()
      modifies this
      ensures Valid()
      ensures id !in old(inMemoryDb.values) ==>
        r == Err(HttpError(404, ProviderNotFound)) && State() == old(State())
      ensures id in old(inMemoryDb.values) ==>
        && r == Ok(ProviderDB(old(inMemoryDb.values[id]), id))
        && State() == Removed(old(State()), id)
    {
      if id !in inMemoryDb.values {
        return Err(HttpError(404, ProviderNotFound));
      }
      ghost var before := State();
      var provider := inMemoryDb.values[id];
      StoredFieldsIndexed(before, id, Name);
      StoredFieldsIndexed(before, id, Organization);
      StoredFieldsIndexed(before, id, Address);
      inMemoryDb := OrderedDict.Remove(inMemoryDb, id);
      DelFromUniqueTables(provider);
      DeleteKeepsConsistent(before, id);
      r := Ok(ProviderDB(provider, id));
    }

    /** `delete_providers` (DELETE /providers): all four dicts are cleared. */
    method DeleteProviders()
      modifies this
      ensures Valid() && State() == Cleared()
    {
      nameTable := map[];
      addressTable := map[];
      organizationTable := map[];
      inMemoryDb := OrderedDict.Clear(inMemoryDb);
    }
  }
}
