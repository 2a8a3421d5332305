/**
  The collection: a store of records indexed by primary key, a registry of
  named scopes, and the persistence strategy the collection delegates its
  remote operations to.
*/
module Collections {
  import opened Wrappers
  import opened Seqs
  import opened OrderedMaps
  import opened Records

  /** The last record of `rs` whose primary key is `k`, if any. */
  function LastWithKey(rs: seq<Record>, k: PrimaryKey): (r: Option<Record>)
    ensures r.None? <==> forall i :: 0 <= i < |rs| ==> rs[i].pk != k
    ensures r.Some? ==> r.value.pk == k
    ensures r.Some? ==> exists i :: (0 <= i < |rs| && rs[i] == r.value && forall j :: i < j < |rs| ==> rs[j].pk != k)
    decreases |rs|
  {
    if rs == [] then None
    else if rs[|rs| - 1].pk == k then Some(rs[|rs| - 1])
    else
      var init := rs[..|rs| - 1];
      var r := LastWithKey(init, k);
      assert forall i :: 0 <= i < |init| ==> init[i] == rs[i];
      r
  }

  /** Stores each record of `rs` under its own primary key, in turn. */
  function StoreAll(m: OrderedMap<PrimaryKey, Record>, rs: seq<Record>): (r: OrderedMap<PrimaryKey, Record>)
    requires m.Valid()
    ensures r.Valid()
    decreases |rs|
  {
    if rs == [] then m
    else StoreAll(m, rs[..|rs| - 1]).Put(rs[|rs| - 1].pk, rs[|rs| - 1])
  }

  /** Every record is indexed under its own primary key. */
  ghost predicate IndexedByOwnKey(m: OrderedMap<PrimaryKey, Record>) {
    forall k :: k in m.entries ==> m.entries[k].pk == k
  }

  /** Storing records under their own keys keeps every record indexed under its own key. */
  lemma {:induction false} StoreAllIndexed(m: OrderedMap<PrimaryKey, Record>, rs: seq<Record>)
    requires m.Valid() && IndexedByOwnKey(m)
    ensures IndexedByOwnKey(StoreAll(m, rs))
    decreases |rs|
  {
    if rs != [] {
      StoreAllIndexed(m, rs[..|rs| - 1]);
    }
  }

  /** Deleting keys keeps every remaining record indexed under its own key. */
  lemma {:induction false} DeleteAllIndexed(m: OrderedMap<PrimaryKey, Record>, ks: seq<PrimaryKey>)
    requires m.Valid() && IndexedByOwnKey(m)
    ensures IndexedByOwnKey(DeleteAll(m, ks))
  {
    forall k | k in DeleteAll(m, ks).entries ensures DeleteAll(m, ks).entries[k].pk == k {
      DeleteAllGet(m, ks, k);
    }
  }

  /** After storing a list of records, each key holds the last record given for it; other keys are untouched. */
  lemma {:induction false} StoreAllGet(m: OrderedMap<PrimaryKey, Record>, rs: seq<Record>, k: PrimaryKey)
    requires m.Valid()
    ensures StoreAll(m, rs).Get(k) == if LastWithKey(rs, k).Some? then LastWithKey(rs, k) else m.Get(k)
    decreases |rs|
  {
    if rs != [] {
      StoreAllGet(m, rs[..|rs| - 1], k);
    }
  }

  /** StoreAllGet, for every key at once. */
  lemma {:induction false} StoreAllGets(m: OrderedMap<PrimaryKey, Record>, rs: seq<Record>)
    requires m.Valid()
    ensures forall k :: StoreAll(m, rs).Get(k) == if LastWithKey(rs, k).Some? then LastWithKey(rs, k) else m.Get(k)
  {
    forall k {
      StoreAllGet(m, rs, k);
    }
  }

  class Collection {
    /** The records, indexed by their primary key values. */
    var records: OrderedMap<PrimaryKey, Record>
    /** The scopes, indexed by their names. */
    var scopes: OrderedMap<string, Scope>
    var persistenceStrategy: Option<PersistenceStrategy>
    /** Builds a record from a property bag. */
    const recordClass: Props -> Record

    /** Both indexes are well formed and every scope is registered under its own name. */
    ghost predicate Valid()
      reads this
    {
      && records.Valid()
      && scopes.Valid()
      && (forall n :: n in scopes.entries ==> scopes.entries[n].name == n)
    }

    /** The source's one stated invariant of the store: records are indexed by their primary key. */
    ghost predicate IndexedByPk()
      reads this
    {
      IndexedByOwnKey(records)
    }

    constructor (recordClass: Props -> Record)
      ensures Valid() && IndexedByPk() && this.recordClass == recordClass
      ensures records == Empty() && scopes == Empty() && persistenceStrategy == None
    {
      this.recordClass := recordClass;
      records := Empty();
      scopes := Empty();
      persistenceStrategy := None;
    }

    // ----- persistence strategy -----

    /** The persistence strategy, or a configuration error when none is set. */
    function GetPersistenceStrategy(): (r: Result<PersistenceStrategy, ConfigurationError>)
      reads this
      ensures r.Failure? <==> persistenceStrategy.None?
      ensures r.Success? ==> persistenceStrategy == Some(r.value)
    {
      match persistenceStrategy
      case Some(ps) => Success(ps)
      case None => Failure(MissingPersistenceStrategy)
    }

    method SetPersistenceStrategy(ps: PersistenceStrategy) returns (self: Collection)
      requires Valid()
      modifies this
      ensures Valid() && self == this
      ensures persistenceStrategy == Some(ps) && GetPersistenceStrategy() == Success(ps)
      ensures records == old(records) && scopes == old(scopes)
    {
      persistenceStrategy := Some(ps);
      self := this;
    }

    // ----- scope registry -----

    /** The names of the registered scopes, each once. */
    function ScopesNames(): (ns: seq<string>)
      reads this
      requires Valid()
      ensures Distinct(ns)
      ensures forall n :: n in ns <==> scopes.Has(n)
    {
      scopes.keys
    }

    /** The scope registered under `name`, if any. */
    function GetScope(name: string): (r: Option<Scope>)
      reads this
      requires Valid()
      ensures r.Some? <==> name in ScopesNames()
      ensures r.Some? ==> r.value == scopes.entries[name] && r.value.name == name
    {
      scopes.Get(name)
    }

    /** The registered scopes whose name `matches` accepts, in registry order. */
    function GetScopesMatching(matches: string -> bool): (ss: seq<Scope>)
      reads this
      requires Valid()
      ensures forall s :: s in ss <==> GetScope(s.name) == Some(s) && matches(s.name)
      ensures Distinct(ss)
      ensures ss == Filter(scopes.Values(), NameTest(matches))
    {
      ValuesHold(scopes);
      var vs := scopes.Values();
      assert Distinct(vs) by {
        forall i, j | 0 <= i < j < |vs| ensures vs[i] != vs[j] {
          assert vs[i].name == scopes.keys[i] && vs[j].name == scopes.keys[j];
        }
      }
      Filter(vs, NameTest(matches))
    }

    /** The items of the scopes matched by `matches`, scope after scope, duplicates kept. */
    function CombineScopeItems(matches: string -> bool): (rs: seq<Record>)
      reads this
      requires Valid()
      ensures rs == ConcatItems(GetScopesMatching(matches))
      ensures forall r :: r in rs <==> exists s :: s in GetScopesMatching(matches) && r in s.items
      ensures |rs| == ItemCount(GetScopesMatching(matches))
    {
      var ss := GetScopesMatching(matches);
      ConcatItemsLength(ss);
      ConcatItemsMembers(ss);
      ConcatItems(ss)
    }

    /** A name that no registered scope has: longer than all of them. */
    method FreshScopeName() returns (name: string)
      requires Valid()
      ensures name !in ScopesNames()
    {
      var longest: nat := 0;
      var i := 0;
      while i < |scopes.keys|
        invariant 0 <= i <= |scopes.keys|
        invariant forall j :: 0 <= j < i ==> |scopes.keys[j]| <= longest
      {
        if |scopes.keys[i]| > longest {
          longest := |scopes.keys[i]|;
        }
        i := i + 1;
      }
      name := "scope" + seq(longest, _ => '_');
    }

    /**
      The scope registered under `name`, its params replaced by `params` when
      given; when there is none (or no name), a new scope is registered.
    */
    method ProvideScope(name: Option<string>, params: Option<Props>) returns (s: Scope)
      requires Valid()
      modifies this
      ensures Valid()
      ensures name.Some? && old(GetScope(name.value)).Some? ==>
        s == (var found := old(scopes.entries[name.value]);
              if params.Some? then found.(params := params.value) else found)
      ensures name.Some? && params.None? && old(GetScope(name.value)).Some? ==> scopes == old(scopes)
      ensures !(name.Some? && old(GetScope(name.value)).Some?) ==>
        && s.name !in old(ScopesNames())
        && (name.Some? ==> s.name == name.value)
        && s.params == (if params.Some? then params.value else map[])
        && s.items == []
      ensures scopes == old(scopes).Put(s.name, s)
      ensures GetScope(s.name) == Some(s)
      ensures records == old(records) && persistenceStrategy == old(persistenceStrategy)
    {
      if name.Some? && scopes.Has(name.value) {
        s := scopes.entries[name.value];
        if params.Some? {
          s := s.(params := params.value);
        }
      } else {
        var n: string;
        if name.Some? {
          n := name.value;
        } else {
          n := FreshScopeName();
        }
        s := Scope(n, if params.Some? then params.value else map[], []);
      }
      scopes := scopes.Put(s.name, s);
    }

    /** Registers `scope` under its name, replacing any scope of that name. */
    method SetScope(scope: Scope)
      requires Valid()
      modifies this
      ensures Valid()
      ensures scopes == old(scopes).Put(scope.name, scope)
      ensures GetScope(scope.name) == Some(scope)
      ensures forall n :: n != scope.name ==> GetScope(n) == old(GetScope(n))
      ensures records == old(records) && persistenceStrategy == old(persistenceStrategy)
    {
      scopes := scopes.Put(scope.name, scope);
    }

    /** Removes the scope registered under `scope`'s name; nothing changes when there is none. */
    method UnsetScope(scope: Scope)
      requires Valid()
      modifies this
      ensures Valid()
      ensures scopes == old(scopes).Delete(scope.name)
      ensures GetScope(scope.name) == None
      ensures forall n :: n != scope.name ==> GetScope(n) == old(GetScope(n))
      ensures old(GetScope(scope.name)) == None ==> scopes == old(scopes)
      ensures records == old(records) && persistenceStrategy == old(persistenceStrategy)
    {
      scopes := scopes.Delete(scope.name);
    }

    // ----- record store: views and lookups -----

    /** The primary keys of the stored records, each once. */
    function ItemsPrimaryKeys(): (ks: seq<PrimaryKey>)
      reads this
      requires Valid()
      ensures Distinct(ks)
      ensures forall k :: k in ks <==> records.Has(k)
    {
      records.keys
    }

    /** Whether a record is stored under `pk`. */
    predicate Has(pk: PrimaryKey)
      reads this
      requires Valid()
      ensures Has(pk) <==> pk in ItemsPrimaryKeys()
    {
      records.Has(pk)
    }

    /** The record stored under `pk`, or nothing. */
    function Get(pk: PrimaryKey): (r: Option<Record>)
      reads this
      requires Valid()
      ensures r.Some? <==> Has(pk)
      ensures r.Some? ==> records.entries[pk] == r.value
    {
      records.Get(pk)
    }

    /** The stored records, in the order of their primary keys. */
    function Items(): (rs: seq<Record>)
      reads this
      requires Valid()
      ensures |rs| == |ItemsPrimaryKeys()|
      ensures forall i :: 0 <= i < |rs| ==> Get(ItemsPrimaryKeys()[i]) == Some(rs[i])
      ensures forall r :: r in rs <==> exists k :: Get(k) == Some(r)
    {
      ValuesHold(records);
      records.Values()
    }

    /** The number of stored records. */
    function Size(): (n: nat)
      reads this
      requires Valid()
      ensures n == |Items()| && n == |ItemsPrimaryKeys()| && n == |records.entries|
    {
      records.Size()
    }

    /** The stored records whose property `name` equals `v`, in item order. */
    function WherePropEq(name: string, v: Value): (rs: seq<Record>)
      reads this
      requires Valid()
      ensures forall r :: r in rs <==> r in Items() && r.PropEq(name, v)
      ensures forall r :: r in Items() ==> multiset(rs)[r] == if r.PropEq(name, v) then multiset(Items())[r] else 0
      ensures rs == Filter(Items(), PropTest(name, v))
      ensures |rs| <= Size()
    {
      Filter(Items(), PropTest(name, v))
    }

    /** The stored records whose key is listed in `pks`. */
    function GetMany(pks: seq<PrimaryKey>): (rs: seq<Record>)
      reads this
      requires Valid()
      ensures forall r :: r in rs ==> exists k :: k in pks && Get(k) == Some(r)
      ensures forall k :: k in pks && Has(k) ==> Get(k).value in rs
    {
      GetAll(records, pks)
    }

    // ----- record store: mutations -----

    /** Builds a record from `props` and adds it, or replaces the record of the same key. */
    method Set(props: Props) returns (r: Record)
      requires Valid()
      modifies this
      ensures Valid()
      ensures r == recordClass(props)
      ensures records == old(records).Put(r.pk, r)
      ensures Get(r.pk) == Some(r)
      ensures forall k :: k != r.pk ==> Get(k) == old(Get(k))
      ensures scopes == old(scopes) && persistenceStrategy == old(persistenceStrategy)
      ensures old(IndexedByPk()) ==> IndexedByPk()
    {
      r := recordClass(props);
      records := records.Put(r.pk, r);
    }

    /** Adds `record`, or replaces the record of the same key. */
    method SetRecord(record: Record) returns (r: Record)
      requires Valid()
      modifies this
      ensures Valid()
      ensures r == record
      ensures records == old(records).Put(r.pk, r)
      ensures Get(r.pk) == Some(r)
      ensures forall k :: k != r.pk ==> Get(k) == old(Get(k))
      ensures scopes == old(scopes) && persistenceStrategy == old(persistenceStrategy)
      ensures old(IndexedByPk()) ==> IndexedByPk()
    {
      records := records.Put(record.pk, record);
      r := record;
    }

    /** Sets every property bag of `list` in turn; the records come back in list order. */
    method SetMany(list: seq<Props>) returns (rs: seq<Record>)
      requires Valid()
      modifies this
      ensures Valid()
      ensures |rs| == |list| && forall i :: 0 <= i < |list| ==> rs[i] == recordClass(list[i])
      ensures records == StoreAll(old(records), rs)
      ensures forall k :: records.Get(k) == if LastWithKey(rs, k).Some? then LastWithKey(rs, k) else old(records).Get(k)
      ensures scopes == old(scopes) && persistenceStrategy == old(persistenceStrategy)
      ensures old(IndexedByPk()) ==> IndexedByPk()
    {
      rs := [];
      var i := 0;
      while i < |list|
        invariant 0 <= i <= |list| && Valid()
        invariant |rs| == i && forall j :: 0 <= j < i ==> rs[j] == recordClass(list[j])
        invariant records == StoreAll(old(records), rs)
        invariant scopes == old(scopes) && persistenceStrategy == old(persistenceStrategy)
      {
        var r := Set(list[i]);
        assert (rs + [r])[..|rs|] == rs;
        rs := rs + [r];
        i := i + 1;
      }
      StoreAllGets(old(records), rs);
      ghost var before := old(records);
      if IndexedByOwnKey(before) {
        StoreAllIndexed(before, rs);
      }
    }

    /** Moves the record indexed under `oldPk`, if any, to `newPk`. */
    method UpdateRecordPrimaryKey(oldPk: PrimaryKey, newPk: PrimaryKey)
      requires Valid()
      modifies this
      ensures Valid()
      ensures old(Has(oldPk)) ==> Get(newPk) == old(Get(oldPk))
      ensures old(Has(oldPk)) && oldPk != newPk ==> !Has(oldPk)
      ensures old(Has(oldPk)) ==> forall k :: k != oldPk && k != newPk ==> Get(k) == old(Get(k))
      ensures !old(Has(oldPk)) ==> records == old(records)
      ensures scopes == old(scopes) && persistenceStrategy == old(persistenceStrategy)
    {
      if records.Has(oldPk) {
        var r := records.entries[oldPk];
        records := records.Delete(oldPk);
        records := records.Put(newPk, r);
      }
    }

    /** Removes the record under `pk`; nothing changes when there is none. */
    method Unset(pk: PrimaryKey) returns (self: Collection)
      requires Valid()
      modifies this
      ensures Valid() && self == this
      ensures records == old(records).Delete(pk)
      ensures !Has(pk)
      ensures forall k :: k != pk ==> Get(k) == old(Get(k))
      ensures !old(Has(pk)) ==> records == old(records)
      ensures scopes == old(scopes) && persistenceStrategy == old(persistenceStrategy)
      ensures old(IndexedByPk()) ==> IndexedByPk()
    {
      records := records.Delete(pk);
      self := this;
    }

    /** Removes the records under every key of `pks`. */
    method UnsetMany(pks: seq<PrimaryKey>) returns (self: Collection)
      requires Valid()
      modifies this
      ensures Valid() && self == this
      ensures records == DeleteAll(old(records), pks)
      ensures forall k :: Get(k) == if k in pks then None else old(Get(k))
      ensures scopes == old(scopes) && persistenceStrategy == old(persistenceStrategy)
      ensures old(IndexedByPk()) ==> IndexedByPk()
    {
      var i := 0;
      while i < |pks|
        invariant 0 <= i <= |pks| && Valid()
        invariant records == DeleteAll(old(records), pks[..i])
        invariant scopes == old(scopes) && persistenceStrategy == old(persistenceStrategy)
      {
        self := Unset(pks[i]);
        assert pks[..i + 1][..i] == pks[..i];
        i := i + 1;
      }
      assert pks[..i] == pks;
      forall k {
        DeleteAllGet(old(records), pks, k);
      }
      if old(IndexedByPk()) {
        DeleteAllIndexed(old(records), pks);
      }
      self := this;
    }

    /** Removes every record. */
    method Clear() returns (self: Collection)
      requires Valid()
      modifies this
      ensures Valid() && self == this
      ensures records == Empty()
      ensures Size() == 0 && Items() == [] && ItemsPrimaryKeys() == []
      ensures scopes == old(scopes) && persistenceStrategy == old(persistenceStrategy)
      ensures IndexedByPk()
    {
      records := Empty();
      self := this;
    }

    /** Removes every record and every scope; the persistence strategy stays. */
    method Reset()
      requires Valid()
      modifies this
      ensures Valid()
      ensures records == Empty() && scopes == Empty()
      ensures Size() == 0 && ScopesNames() == []
      ensures persistenceStrategy == old(persistenceStrategy)
      ensures IndexedByPk()
    {
      records := Empty();
      scopes := Empty();
    }
  }

  /** What a caller can conclude from the contracts alone. */
  method ClientScenario(recordClass: Props -> Record, a: Record)
    requires a.pk == NumberKey(1)
  {
    var c := new Collection(recordClass);
    var same := c.SetRecord(a);
    assert c.Get(NumberKey(1)) == Some(a);

    c.UpdateRecordPrimaryKey(NumberKey(1), NumberKey(2));
    assert !c.Has(NumberKey(1)) && c.Get(NumberKey(2)) == Some(a);

    var self := c.Unset(NumberKey(2));
    self := c.Unset(NumberKey(2));
    assert !c.Has(NumberKey(2));

    var first := c.ProvideScope(Some("x"), None);
    var second := c.ProvideScope(Some("x"), None);
    assert first == second && c.ScopesNames() == ["x"];

    var unnamed := c.ProvideScope(None, None);
    assert unnamed.name != "x";
    c.UnsetScope(first);
    assert c.GetScope("x") == None && c.GetScope(unnamed.name) == Some(unnamed);

    var strategy := c.GetPersistenceStrategy();
    assert strategy.Failure?;
    self := c.SetPersistenceStrategy(PersistenceStrategy(7));
    c.Reset();
    assert c.Size() == 0 && c.GetPersistenceStrategy() == Success(PersistenceStrategy(7));
  }
}
