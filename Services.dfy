/** The in-memory CRUD services of Core.Library/Services (ClienteService.cs,
    TarjetaService.cs, TransaccionService.cs). The three are the same code over
    different entities, so they are one generic service over a `HashTable`
    keyed by the entity's `Id`, with `idOf` choosing that `Id`. `null` for a
    missing entity is `None`, and the `ArgumentException` of a duplicate `Id`
    is `Failure(DuplicateKey)` or `Fail(DuplicateKey)`. */
module Services {
  import opened Wrappers
  import opened HashTables
  import opened Models

  /** No two elements of `s` have the same key. */
  ghost predicate DistinctIds<V>(s: seq<V>, idOf: V -> string)
  {
    forall i, j :: 0 <= i < j < |s| ==> idOf(s[i]) != idOf(s[j])
  }

  /** `contents` maps the key of every element of `s` to that element and
      nothing else, and `count`, the number of entries, is the length of
      `s`. */
  ghost predicate Loaded<V>(contents: map<string, V>, count: int, s: seq<V>, idOf: V -> string)
  {
    && count == |s|
    && (forall i :: 0 <= i < |s| ==> idOf(s[i]) in contents && contents[idOf(s[i])] == s[i])
    && (forall k :: k in contents ==> exists i :: 0 <= i < |s| && idOf(s[i]) == k)
  }

  /** Adding the next element under a fresh key extends what is loaded, and
      the elements still have distinct keys. */
  lemma LoadStep<V>(contents: map<string, V>, count: int, s: seq<V>, idOf: V -> string, v: V)
    requires Loaded(contents, count, s, idOf) && DistinctIds(s, idOf)
    requires idOf(v) !in contents
    ensures Loaded(contents[idOf(v) := v], count + 1, s + [v], idOf)
    ensures DistinctIds(s + [v], idOf)
  {
    var s' := s + [v];
    forall k | k in contents || k == idOf(v)
      ensures exists i :: 0 <= i < |s'| && idOf(s'[i]) == k
    {
      if k == idOf(v) {
        assert idOf(s'[|s|]) == k;
      } else {
        var i :| 0 <= i < |s| && idOf(s[i]) == k;
        assert idOf(s'[i]) == k;
      }
    }
  }

  /** The next element's key is already loaded only when an earlier element
      has it. */
  lemma LoadDuplicate<V>(contents: map<string, V>, count: int, s: seq<V>, idOf: V -> string, v: V)
    requires Loaded(contents, count, s, idOf)
    requires idOf(v) in contents
    ensures !DistinctIds(s + [v], idOf)
  {
    var i :| 0 <= i < |s| && idOf(s[i]) == idOf(v);
    assert (s + [v])[i] == s[i] && (s + [v])[|s|] == v;
  }

  /** A prefix of `s` extended by the next element of `s` is a prefix. */
  lemma PrefixStep<V>(s: seq<V>, prefix: seq<V>)
    requires |prefix| < |s| && forall i :: 0 <= i < |prefix| ==> prefix[i] == s[i]
    ensures forall i :: 0 <= i < |prefix| + 1 ==> (prefix + [s[|prefix|]])[i] == s[i]
  {
  }

  /** Splitting the entries of a map, each present once, into their keys
      and their values gives every key of the map once, with its value. */
  lemma Unzipped<V>(entries: seq<(string, V)>, contents: map<string, V>, keys: seq<string>, values: seq<V>)
    requires DistinctKeys(entries)
    requires forall e :: e in entries <==> e.0 in contents && contents[e.0] == e.1
    requires |keys| == |values| == |entries|
    requires forall i :: 0 <= i < |entries| ==> keys[i] == entries[i].0 && values[i] == entries[i].1
    ensures forall i, j :: 0 <= i < j < |keys| ==> keys[i] != keys[j]
    ensures forall k :: k in contents <==> k in keys
    ensures forall i :: 0 <= i < |values| ==> keys[i] in contents && values[i] == contents[keys[i]]
  {
    forall k | k in contents
      ensures k in keys
    {
      var i :| 0 <= i < |entries| && entries[i] == (k, contents[k]);
      assert keys[i] == k;
    }
    forall i | 0 <= i < |values|
      ensures keys[i] in contents && values[i] == contents[keys[i]]
    {
      assert entries[i] in entries;
    }
  }

  /** Keys that clash in a prefix clash in the whole sequence. */
  lemma PrefixNotDistinct<V>(s: seq<V>, prefix: seq<V>, idOf: V -> string)
    requires |prefix| <= |s| && forall i :: 0 <= i < |prefix| ==> prefix[i] == s[i]
    requires !DistinctIds(prefix, idOf)
    ensures !DistinctIds(s, idOf)
  {
    var i, j :| 0 <= i < j < |prefix| && idOf(prefix[i]) == idOf(prefix[j]);
    assert prefix[i] == s[i] && prefix[j] == s[j];
  }

  class CrudService<V> {
    /** `_tablaClientes` / `_tabla`. */
    const table: HashTable<string, V>
    /** `c.Id`, `t.Id`, `tx.Id`. */
    const idOf: V -> string

    ghost predicate Valid()
      reads this, table, table.buckets
    {
      table.Valid()
    }

    /** `table` holds exactly the elements of `initial`, each under its key. */
    ghost predicate LoadedFrom(initial: seq<V>)
      reads this, table, table.buckets
    {
      Valid() && Loaded(table.Contents, table.Count, initial, idOf)
    }

    /** `new HashTable<string, V>()`: an empty table of the default capacity. */
    constructor (idOf: V -> string, hash: string -> bv32)
      ensures Valid() && fresh(table) && fresh(table.buckets)
      ensures this.idOf == idOf
      ensures table.Contents == map[] && table.Count == 0
      ensures table.buckets.Length == DefaultCapacity
    {
      this.idOf := idOf;
      table := new HashTable<string, V>(DefaultCapacity, hash);
    }

    /** One turn of the constructor's loop: `Add` the next initial entity
        `v` after the entities `loaded` so far. It fails exactly when `v`'s
        key repeats one of theirs. */
    method AddInitial(v: V, ghost loaded: seq<V>) returns (ok: bool)
      requires Valid() && DistinctIds(loaded, idOf)
      requires Loaded(table.Contents, table.Count, loaded, idOf)
      modifies table, table.buckets
      ensures Valid()
      ensures ok <==> DistinctIds(loaded + [v], idOf)
      ensures ok ==> Loaded(table.Contents, table.Count, loaded + [v], idOf)
    {
      ghost var before, count := table.Contents, table.Count;
      var added := table.Add(idOf(v), v);
      if added.Fail? {
        LoadDuplicate(before, count, loaded, idOf, v);
        return false;
      }
      LoadStep(before, count, loaded, idOf, v);
      return true;
    }

    /** `ObtenerTodos` / `ObtenerTodas`: the value of every entry, in the
        table's enumeration order. `keys` names the entry each value comes
        from: every stored key exactly once. */
    method ObtenerTodos() returns (s: seq<V>, ghost keys: seq<string>)
      requires Valid()
      ensures |s| == |keys| == table.Count == |table.Contents|
      ensures forall i, j :: 0 <= i < j < |keys| ==> keys[i] != keys[j]
      ensures forall k :: k in table.Contents <==> k in keys
      ensures forall i :: 0 <= i < |s| ==> keys[i] in table.Contents && s[i] == table.Contents[keys[i]]
      ensures forall i :: 0 <= i < |s| ==> (keys[i], s[i]) == Flatten(table.buckets[..])[i]
    {
      var entries := table.GetEnumerator();
      s, keys := [], [];
      for n := 0 to |entries|
        invariant |s| == |keys| == n
        invariant forall i :: 0 <= i < n ==> keys[i] == entries[i].0 && s[i] == entries[i].1
      {
        s, keys := s + [entries[n].1], keys + [entries[n].0];
      }
      Unzipped(entries, table.Contents, keys, s);
    }

    /** `ObtenerPorId`: the entity stored under `id`, or `None`; never
        fails. */
    method ObtenerPorId(id: string) returns (r: Option<V>)
      requires Valid()
      ensures r.Some? <==> id in table.Contents
      ensures r.Some? ==> r.value == table.Contents[id]
    {
      r := table.TryGetValue(id);
    }

    /** `Crear`: stores `v` under its key unless that key is taken, in which
        case nothing changes. */
    method Crear(v: V) returns (r: Outcome<Error>)
      requires Valid()
      modifies table, table.buckets
      ensures Valid()
      ensures r == if idOf(v) in old(table.Contents) then Fail(DuplicateKey) else Pass
      ensures r.Fail? ==> table.Contents == old(table.Contents) && table.Count == old(table.Count)
      ensures r.Fail? ==> table.buckets[..] == old(table.buckets[..])
      ensures r.Pass? ==> table.Contents == old(table.Contents)[idOf(v) := v]
      ensures r.Pass? ==> table.Count == old(table.Count) + 1
    {
      var existing := table.TryGetValue(idOf(v));
      if existing.Some? {
        return Fail(DuplicateKey);
      }
      r := table.Add(idOf(v), v);
    }

    /** `Actualizar`: replaces what is stored under `id` by `v` when `id` is
        present (`v`'s own key is not consulted); otherwise nothing changes.
        The number of entries never changes. */
    method Actualizar(id: string, v: V) returns (updated: bool)
      requires Valid()
      modifies table, table.buckets
      ensures Valid()
      ensures updated == (id in old(table.Contents))
      ensures updated ==> table.Contents == old(table.Contents)[id := v]
      ensures updated ==> table.buckets[..] == old(table.buckets[..])[table.BucketIndex(id) :=
                RemoveEntry(old(table.buckets[table.BucketIndex(id)]), id) + [(id, v)]]
      ensures !updated ==> table.Contents == old(table.Contents) && table.buckets[..] == old(table.buckets[..])
      ensures table.Count == old(table.Count)
    {
      var existing := table.TryGetValue(id);
      if existing.None? {
        return false;
      }
      table.Set(id, v);
      return true;
    }

    /** `Eliminar`: removes `id`, reporting whether it was present. */
    method Eliminar(id: string) returns (removed: bool)
      requires Valid()
      modifies table, table.buckets
      ensures Valid()
      ensures removed == (id in old(table.Contents))
      ensures table.Contents == old(table.Contents) - {id}
      ensures id !in table.Contents
      ensures table.Count == if removed then old(table.Count) - 1 else old(table.Count)
      ensures !removed ==> table.buckets[..] == old(table.buckets[..])
    {
      removed := table.Remove(id);
    }
  }

  /** The services' constructor: `Add`s every initial entity under its key,
      in order. A repeated key makes `Add` throw, so construction fails exactly
      when two initial entities share a key. */
  method NewService<V>(initial: seq<V>, idOf: V -> string, hash: string -> bv32)
    returns (r: Result<CrudService<V>, Error>)
    ensures r.Success? <==> DistinctIds(initial, idOf)
    ensures r.Failure? ==> r.error == DuplicateKey
    ensures r.Success? ==> fresh(r.value.table) && fresh(r.value.table.buckets)
    ensures r.Success? ==> r.value.idOf == idOf && r.value.LoadedFrom(initial)
  {
    var svc := new CrudService(idOf, hash);
    ghost var loaded: seq<V> := [];
    for n := 0 to |initial|
      invariant svc.Valid() && fresh(svc.table) && fresh(svc.table.buckets) && svc.idOf == idOf
      invariant |loaded| == n && forall i :: 0 <= i < n ==> loaded[i] == initial[i]
      invariant DistinctIds(loaded, idOf)
      invariant Loaded(svc.table.Contents, svc.table.Count, loaded, idOf)
    {
      PrefixStep(initial, loaded);
      var ok := svc.AddInitial(initial[n], loaded);
      loaded := loaded + [initial[n]];
      if !ok {
        PrefixNotDistinct(initial, loaded, idOf);
        return Failure(DuplicateKey);
      }
    }
    assert loaded == initial;
    return Success(svc);
  }

  /** `new ClienteService(clientesIniciales)`. */
  method NewClienteService(initial: seq<Cliente>, hash: string -> bv32)
    returns (r: Result<CrudService<Cliente>, Error>)
    ensures r.Success? <==> DistinctIds(initial, ClienteKey)
    ensures r.Failure? ==> r.error == DuplicateKey
    ensures r.Success? ==> fresh(r.value.table) && fresh(r.value.table.buckets)
    ensures r.Success? ==> r.value.idOf == ClienteKey && r.value.LoadedFrom(initial)
  {
    r := NewService(initial, ClienteKey, hash);
  }

  /** `new TarjetaService(tarjetasIniciales)`. */
  method NewTarjetaService(initial: seq<Tarjeta>, hash: string -> bv32)
    returns (r: Result<CrudService<Tarjeta>, Error>)
    ensures r.Success? <==> DistinctIds(initial, TarjetaKey)
    ensures r.Failure? ==> r.error == DuplicateKey
    ensures r.Success? ==> fresh(r.value.table) && fresh(r.value.table.buckets)
    ensures r.Success? ==> r.value.idOf == TarjetaKey && r.value.LoadedFrom(initial)
  {
    r := NewService(initial, TarjetaKey, hash);
  }

  /** `new TransaccionService(iniciales)`. */
  method NewTransaccionService(initial: seq<Transaccion>, hash: string -> bv32)
    returns (r: Result<CrudService<Transaccion>, Error>)
    ensures r.Success? <==> DistinctIds(initial, TransaccionKey)
    ensures r.Failure? ==> r.error == DuplicateKey
    ensures r.Success? ==> fresh(r.value.table) && fresh(r.value.table.buckets)
    ensures r.Success? ==> r.value.idOf == TransaccionKey && r.value.LoadedFrom(initial)
  {
    r := NewService(initial, TransaccionKey, hash);
  }

  /** Mapping a fresh key and then removing it gives the original map. */
  lemma AddThenRemove<V>(m: map<string, V>, k: string, v: V)
    requires k !in m
    ensures m[k := v] - {k} == m
  {
  }

  /** A created entity is then found under its key. */
  method CrearThenObtener<V>(svc: CrudService<V>, v: V) returns (r: Option<V>)
    requires svc.Valid()
    requires svc.idOf(v) !in svc.table.Contents
    modifies svc.table, svc.table.buckets
    ensures r == Some(v)
  {
    var created := svc.Crear(v);
    r := svc.ObtenerPorId(svc.idOf(v));
  }

  /** Creating an entity and deleting its key restores the stored entities. */
  method CrearThenEliminar<V>(svc: CrudService<V>, v: V) returns (removed: bool)
    requires svc.Valid()
    requires svc.idOf(v) !in svc.table.Contents
    modifies svc.table, svc.table.buckets
    ensures removed
    ensures svc.table.Contents == old(svc.table.Contents)
  {
    ghost var before := svc.table.Contents;
    var created := svc.Crear(v);
    removed := svc.Eliminar(svc.idOf(v));
    AddThenRemove(before, svc.idOf(v), v);
  }
}
