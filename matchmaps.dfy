/**
 * The nested match dictionary shared by compare_all, the matchms converters and
 * filter_pairs: matches[a][b] = {'cosine': score, 'peaks': count}, written in both
 * directions.
 */
module MatchMaps {
  import opened Wrappers

  /** The record {'cosine': ..., 'peaks': ...}. */
  datatype Match = Match(cosine: real, peaks: int)

  type MatchMap<K> = map<K, map<K, Match>>

  /** The inner dictionary of a, or {} when a has none yet. */
  function Inner<K(==)>(m: MatchMap<K>, a: K): map<K, Match>
  {
    if a in m then m[a] else map[]
  }

  /**
   * The two-statement store of the source: create matches[a] if missing and set
   * matches[a][b], then the same for matches[b][a].
   */
  function Store<K(==)>(m: MatchMap<K>, a: K, b: K, r: Match): MatchMap<K>
  {
    var m1 := m[a := Inner(m, a)[b := r]];
    m1[b := Inner(m1, b)[a := r]]
  }

  /**
   * After a store, a and b are keys, the record sits under [a][b] and [b][a], and
   * every other stored pair is as it was; nothing else is added.
   */
  lemma StoreFacts<K>(m: MatchMap<K>, a: K, b: K, r: Match)
    ensures Store(m, a, b, r).Keys == m.Keys + {a, b}
    ensures var m' := Store(m, a, b, r);
      b in m'[a] && m'[a][b] == r && a in m'[b] && m'[b][a] == r
    ensures var m' := Store(m, a, b, r);
      forall x, y :: x in m && y in m[x] && !(x == a && y == b) && !(x == b && y == a)
        ==> y in m'[x] && m'[x][y] == m[x][y]
    ensures var m' := Store(m, a, b, r);
      forall x, y :: x in m' && y in m'[x] && !(x == a && y == b) && !(x == b && y == a)
        ==> x in m && y in m[x] && m'[x][y] == m[x][y]
  {
  }

  /** Every stored pair is stored in the other direction with the identical record. */
  ghost predicate Symmetric<K>(m: MatchMap<K>)
  {
    forall a, b :: a in m && b in m[a] ==> b in m && a in m[b] && m[b][a] == m[a][b]
  }

  lemma StoreKeepsSymmetry<K>(m: MatchMap<K>, a: K, b: K, r: Match)
    requires Symmetric(m)
    ensures Symmetric(Store(m, a, b, r))
  {
    var m' := Store(m, a, b, r);
    StoreFacts(m, a, b, r);
    forall x, y | x in m' && y in m'[x] ensures y in m' && x in m'[y] && m'[y][x] == m'[x][y] {
      if (x == a && y == b) || (x == b && y == a) {
      } else {
        assert x in m && y in m[x];
        assert y in m && x in m[y];
      }
    }
  }

  /** The four statements of the source that store one record in both directions. */
  method Put<K(==)>(m: MatchMap<K>, a: K, b: K, r: Match) returns (m': MatchMap<K>)
    ensures m' == Store(m, a, b, r)
  {
    m' := m;
    if a !in m' {
      m' := m'[a := map[]];
    }
    m' := m'[a := m'[a][b := r]];
    if b !in m' {
      m' := m'[b := map[]];
    }
    m' := m'[b := m'[b][a := r]];
  }

  /** matches[a][b] when both keys are present. */
  function Lookup<K(==)>(m: MatchMap<K>, a: K, b: K): Option<Match>
  {
    if a in m && b in m[a] then Some(m[a][b]) else None
  }

  lemma StoreLookup<K>(m: MatchMap<K>, a: K, b: K, r: Match, x: K, y: K)
    ensures Lookup(Store(m, a, b, r), x, y)
         == if (x == a && y == b) || (x == b && y == a) then Some(r) else Lookup(m, x, y)
  {
    StoreFacts(m, a, b, r);
  }

  /** One record to store under [a][b] and [b][a]. */
  datatype Entry<K> = Entry(a: K, b: K, r: Match)

  /** The map after storing the entries one after the other. */
  function StoreAll<K(==)>(m: MatchMap<K>, es: seq<Entry<K>>): MatchMap<K>
  {
    if es == [] then m
    else
      var e := es[|es| - 1];
      Store(StoreAll(m, es[..|es| - 1]), e.a, e.b, e.r)
  }

  lemma StoreAllStep<K>(m: MatchMap<K>, es: seq<Entry<K>>, e: Entry<K>)
    ensures StoreAll(m, es + [e]) == Store(StoreAll(m, es), e.a, e.b, e.r)
  {
    assert (es + [e])[..|es|] == es;
  }

  predicate Joins<K(==)>(e: Entry<K>, a: K, b: K)
  {
    (e.a == a && e.b == b) || (e.a == b && e.b == a)
  }

  /** The record of the last entry joining a and b: later records overwrite earlier ones. */
  function LastFor<K(==)>(es: seq<Entry<K>>, a: K, b: K): Option<Match>
  {
    if es == [] then None
    else if Joins(es[|es| - 1], a, b) then Some(es[|es| - 1].r)
    else LastFor(es[..|es| - 1], a, b)
  }

  /** a is an endpoint of one of the entries. */
  ghost predicate Mentions<K>(es: seq<Entry<K>>, a: K)
  {
    exists k :: 0 <= k < |es| && (es[k].a == a || es[k].b == a)
  }

  /** Starting from {}, matches[a][b] is the record of the last entry joining a and b. */
  lemma {:induction false} StoreAllLookup<K>(es: seq<Entry<K>>, a: K, b: K)
    ensures Lookup(StoreAll(map[], es), a, b) == LastFor(es, a, b)
  {
    if es != [] {
      var e := es[|es| - 1];
      StoreAllLookup(es[..|es| - 1], a, b);
      StoreLookup(StoreAll(map[], es[..|es| - 1]), e.a, e.b, e.r, a, b);
    }
  }

  lemma {:induction false} StoreAllSymmetric<K>(es: seq<Entry<K>>)
    ensures Symmetric(StoreAll(map[], es))
  {
    if es != [] {
      var e := es[|es| - 1];
      StoreAllSymmetric(es[..|es| - 1]);
      StoreKeepsSymmetry(StoreAll(map[], es[..|es| - 1]), e.a, e.b, e.r);
    }
  }

  /** The outer keys are exactly the endpoints of the entries. */
  lemma {:induction false} StoreAllKeys<K>(es: seq<Entry<K>>, a: K)
    ensures a in StoreAll(map[], es) <==> Mentions(es, a)
  {
    if es != [] {
      var n := |es| - 1;
      StoreAllKeys(es[..n], a);
      StoreFacts(StoreAll(map[], es[..n]), es[n].a, es[n].b, es[n].r);
      if Mentions(es[..n], a) {
        var k :| 0 <= k < n && (es[..n][k].a == a || es[..n][k].b == a);
        assert es[k] == es[..n][k];
      }
    }
  }

  /** No outer key is left with an empty inner dictionary. */
  lemma {:induction false} StoreAllNoEmpty<K>(es: seq<Entry<K>>, a: K)
    requires a in StoreAll(map[], es)
    ensures StoreAll(map[], es)[a] != map[]
  {
    var n := |es| - 1;
    var m := StoreAll(map[], es[..n]);
    var e := es[n];
    StoreFacts(m, e.a, e.b, e.r);
    if a != e.a && a != e.b {
      StoreAllNoEmpty(es[..n], a);
      var b :| b in m[a];
      assert b in StoreAll(map[], es)[a];
    }
  }
}
