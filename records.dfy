/**
  The values the collection stores: records indexed by primary key, named
  scopes over them, and the persistence strategy handle. The record and
  scope types are external to the store; only what the store uses of them
  is modelled.
*/
module Records {

  /** A primary key: a string or a number. */
  datatype PrimaryKey = StringKey(s: string) | NumberKey(n: int)

  /** A property value in a record's or a scope's property bag. */
  datatype Value = Null | Bool(b: bool) | Number(n: int) | Text(s: string)

  /** A plain-object property bag. */
  type Props = map<string, Value>

  /** A record: its primary key and its properties. */
  datatype Record = Record(pk: PrimaryKey, props: Props) {

    /** The record's property `name` is present and equal to `v`. */
    predicate PropEq(name: string, v: Value) {
      name in props && props[name] == v
    }
  }

  /** The test `WherePropEq` applies to each record. */
  function PropTest(name: string, v: Value): Record -> bool {
    (r: Record) => r.PropEq(name, v)
  }

  /** A named view over the collection, with its parameters and its current items. */
  datatype Scope = Scope(name: string, params: Props, items: seq<Record>)

  /** The test `getScopesMatching` applies to each scope: its name matches. */
  function NameTest(matches: string -> bool): Scope -> bool {
    (s: Scope) => matches(s.name)
  }

  /** An opaque handle on the external persistence strategy. */
  datatype PersistenceStrategy = PersistenceStrategy(id: nat)

  /** Raised when a persistence strategy is needed and none is set. */
  datatype ConfigurationError = MissingPersistenceStrategy

  /** The items of every scope of `ss`, scope after scope, duplicates kept. */
  function ConcatItems(ss: seq<Scope>): seq<Record> {
    if ss == [] then [] else ss[0].items + ConcatItems(ss[1..])
  }

  /** The total number of items of the scopes of `ss`. */
  function ItemCount(ss: seq<Scope>): nat {
    if ss == [] then 0 else |ss[0].items| + ItemCount(ss[1..])
  }

  /** Concatenating the items of two lists of scopes is concatenating the two results. */
  lemma {:induction false} ConcatItemsAppend(a: seq<Scope>, b: seq<Scope>)
    ensures ConcatItems(a + b) == ConcatItems(a) + ConcatItems(b)
  {
    if a != [] {
      assert (a + b)[1..] == a[1..] + b;
      ConcatItemsAppend(a[1..], b);
    } else {
      assert a + b == b;
    }
  }

  /** Nothing is deduplicated: every item of every scope is counted. */
  lemma {:induction false} ConcatItemsLength(ss: seq<Scope>)
    ensures |ConcatItems(ss)| == ItemCount(ss)
  {
    if ss != [] {
      ConcatItemsLength(ss[1..]);
    }
  }

  /** A record is in the concatenation exactly when it is an item of one of the scopes. */
  lemma {:induction false} ConcatItemsMembership(ss: seq<Scope>, r: Record)
    ensures r in ConcatItems(ss) <==> exists i :: 0 <= i < |ss| && r in ss[i].items
  {
    if ss != [] {
      ConcatItemsMembership(ss[1..], r);
      if r in ConcatItems(ss[1..]) {
        var i :| 0 <= i < |ss[1..]| && r in ss[1..][i].items;
        assert r in ss[i + 1].items;
      }
      if i :| 0 <= i < |ss| && r in ss[i].items {
        if i > 0 {
          assert r in ss[1..][i - 1].items;
        }
      }
    }
  }

  /** ConcatItemsMembership, for every record at once, with the scope named instead of its index. */
  lemma {:induction false} ConcatItemsMembers(ss: seq<Scope>)
    ensures forall r :: r in ConcatItems(ss) <==> exists s :: s in ss && r in s.items
  {
    forall r ensures r in ConcatItems(ss) <==> exists s :: s in ss && r in s.items {
      ConcatItemsMembership(ss, r);
      if r in ConcatItems(ss) {
        var i :| 0 <= i < |ss| && r in ss[i].items;
        assert ss[i] in ss;
      }
    }
  }
}
