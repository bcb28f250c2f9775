/**
 * Promotion of prefix-only placeholder contacts into a resolved full key: child rows and timestamps are merged into
 * the full contact, then the placeholder is deleted.
 */
module Promotion {
  import opened Common

  // ------------------------------------------------------------ merging

  /** The four nullable times of a contact row. */
  datatype Times = Times(lastSeen: Option<int>, lastContacted: Option<int>, firstSeen: Option<int>,
                         lastReadAt: Option<int>)

  /** A contact_name_history row. */
  datatype Span = Span(firstSeen: int, lastSeen: int)

  /** A contact_advert_paths row. */
  datatype Stats = Stats(firstSeen: int, lastSeen: int, heard: nat)

  /** A contact with its child rows, by name and by (path, hop count). */
  datatype Contact<N, P> = Contact(times: Times, names: map<N, Span>, paths: map<P, Stats>)

  /** CASE WHEN ... : the later of two times, null counting as absent. */
  function Latest(a: Option<int>, b: Option<int>): Option<int> {
    if a.None? then b else if b.None? then a else if b.value > a.value then b else a
  }

  function Earliest(a: Option<int>, b: Option<int>): Option<int> {
    if a.None? then b else if b.None? then a else if b.value < a.value then b else a
  }

  function MergeTimes(a: Times, b: Times): Times {
    Times(Latest(a.lastSeen, b.lastSeen), Latest(a.lastContacted, b.lastContacted),
          Earliest(a.firstSeen, b.firstSeen), Latest(a.lastReadAt, b.lastReadAt))
  }

  function MergeSpan(a: Span, b: Span): Span {
    Span(Min(a.firstSeen, b.firstSeen), Max(a.lastSeen, b.lastSeen))
  }

  function MergeStats(a: Stats, b: Stats): Stats {
    Stats(Min(a.firstSeen, b.firstSeen), Max(a.lastSeen, b.lastSeen), a.heard + b.heard)
  }

  /** INSERT ... SELECT ... ON CONFLICT DO UPDATE. */
  function MergeNames<N>(a: map<N, Span>, b: map<N, Span>): map<N, Span> {
    map n | n in a.Keys + b.Keys :: if n in a && n in b then MergeSpan(a[n], b[n]) else if n in a then a[n] else b[n]
  }

  function MergePaths<P>(a: map<P, Stats>, b: map<P, Stats>): map<P, Stats> {
    map p | p in a.Keys + b.Keys :: if p in a && p in b then MergeStats(a[p], b[p]) else if p in a then a[p] else b[p]
  }

  function Merge<N, P>(a: Contact<N, P>, b: Contact<N, P>): Contact<N, P> {
    Contact(MergeTimes(a.times, b.times), MergeNames(a.names, b.names), MergePaths(a.paths, b.paths))
  }

  function Nothing<N, P>(): Contact<N, P> {
    Contact(Times(None, None, None, None), map[], map[])
  }

  lemma MergeUnit<N, P>(a: Contact<N, P>)
    ensures Merge(a, Nothing()) == a
  {
    assert MergeNames(a.names, map[]) == a.names;
    assert MergePaths(a.paths, map[]) == a.paths;
  }

  lemma MergeCommutes<N, P>(a: Contact<N, P>, b: Contact<N, P>)
    ensures Merge(a, b) == Merge(b, a)
  {
    assert MergeNames(a.names, b.names) == MergeNames(b.names, a.names);
    assert MergePaths(a.paths, b.paths) == MergePaths(b.paths, a.paths);
  }

  lemma MergeNamesAssociates<N>(a: map<N, Span>, b: map<N, Span>, c: map<N, Span>)
    ensures MergeNames(MergeNames(a, b), c) == MergeNames(a, MergeNames(b, c))
  {
  }

  lemma MergePathsAssociates<P>(a: map<P, Stats>, b: map<P, Stats>, c: map<P, Stats>)
    ensures MergePaths(MergePaths(a, b), c) == MergePaths(a, MergePaths(b, c))
  {
  }

  lemma MergeAssociates<N, P>(a: Contact<N, P>, b: Contact<N, P>, c: Contact<N, P>)
    ensures Merge(Merge(a, b), c) == Merge(a, Merge(b, c))
  {
    MergeNamesAssociates(a.names, b.names, c.names);
    MergePathsAssociates(a.paths, b.paths, c.paths);
  }

  // ------------------------------------------------------------ reference: merging a set of contacts, in no order

  ghost function MergeAll<K, N, P>(ks: set<K>, contacts: map<K, Contact<N, P>>): Contact<N, P>
    requires ks <= contacts.Keys
  {
    if ks == {} then Nothing() else var k :| k in ks; Merge(contacts[k], MergeAll(ks - {k}, contacts))
  }

  /** Any contact may be merged first: the result does not depend on the order. */
  lemma {:induction false} MergeAnyFirst<K, N, P>(ks: set<K>, contacts: map<K, Contact<N, P>>, k: K)
    requires ks <= contacts.Keys && k in ks
    ensures MergeAll(ks, contacts) == Merge(contacts[k], MergeAll(ks - {k}, contacts))
    decreases |ks|
  {
    var c :| c in ks && MergeAll(ks, contacts) == Merge(contacts[c], MergeAll(ks - {c}, contacts));
    if c != k {
      var rest := ks - {c} - {k};
      assert ks - {k} - {c} == rest;
      MergeAnyFirst(ks - {c}, contacts, k);
      MergeAnyFirst(ks - {k}, contacts, c);
      MergeAssociates(contacts[c], contacts[k], MergeAll(rest, contacts));
      MergeAssociates(contacts[k], contacts[c], MergeAll(rest, contacts));
      MergeCommutes(contacts[c], contacts[k]);
    }
  }

  /** Merging one more contact into those merged so far. */
  lemma MergeOneMore<K, N, P>(ks: set<K>, contacts: map<K, Contact<N, P>>, k: K)
    requires ks <= contacts.Keys && k in contacts && k !in ks
    ensures MergeAll(ks + {k}, contacts) == Merge(MergeAll(ks, contacts), contacts[k])
  {
    assert ks + {k} - {k} == ks;
    MergeAnyFirst(ks + {k}, contacts, k);
    MergeCommutes(contacts[k], MergeAll(ks, contacts));
  }

  // ------------------------------------------------------------ what merging a set gives

  function HeardOf<N, P>(c: Contact<N, P>, p: P): nat {
    if p in c.paths then c.paths[p].heard else 0
  }

  /** Total heard count of one path over a set of contacts. */
  ghost function TotalHeard<K, N, P>(ks: set<K>, contacts: map<K, Contact<N, P>>, p: P): nat
    requires ks <= contacts.Keys
  {
    if ks == {} then 0 else var k :| k in ks; HeardOf(contacts[k], p) + TotalHeard(ks - {k}, contacts, p)
  }

  lemma {:induction false} CountAnyFirst<K, N, P>(ks: set<K>, contacts: map<K, Contact<N, P>>, p: P, k: K)
    requires ks <= contacts.Keys && k in ks
    ensures TotalHeard(ks, contacts, p) == HeardOf(contacts[k], p) + TotalHeard(ks - {k}, contacts, p)
    decreases |ks|
  {
    var c :| c in ks && TotalHeard(ks, contacts, p) == HeardOf(contacts[c], p) + TotalHeard(ks - {c}, contacts, p);
    if c != k {
      assert ks - {k} - {c} == ks - {c} - {k};
      CountAnyFirst(ks - {c}, contacts, p, k);
      CountAnyFirst(ks - {k}, contacts, p, c);
    }
  }

  lemma {:induction false} MergedHeard<K, N, P>(ks: set<K>, contacts: map<K, Contact<N, P>>, p: P)
    requires ks <= contacts.Keys
    ensures HeardOf(MergeAll(ks, contacts), p) == TotalHeard(ks, contacts, p)
    decreases |ks|
  {
    if ks != {} {
      var k :| k in ks;
      MergeAnyFirst(ks, contacts, k);
      CountAnyFirst(ks, contacts, p, k);
      MergedHeard(ks - {k}, contacts, p);
    }
  }

  /** t is the latest value of a measure over a set of contacts; none when the measure is absent throughout. */
  ghost predicate IsLatest<K, N, P>(ks: set<K>, contacts: map<K, Contact<N, P>>, measure: Contact<N, P> -> Option<int>,
                                    t: Option<int>)
    requires ks <= contacts.Keys
  {
    && (forall k :: k in ks && measure(contacts[k]).Some? ==> t.Some? && measure(contacts[k]).value <= t.value)
    && (t.Some? ==> exists k :: k in ks && measure(contacts[k]) == t)
  }

  ghost predicate IsEarliest<K, N, P>(ks: set<K>, contacts: map<K, Contact<N, P>>,
                                      measure: Contact<N, P> -> Option<int>, t: Option<int>)
    requires ks <= contacts.Keys
  {
    && (forall k :: k in ks && measure(contacts[k]).Some? ==> t.Some? && measure(contacts[k]).value >= t.value)
    && (t.Some? ==> exists k :: k in ks && measure(contacts[k]) == t)
  }

  lemma LatestStep<K, N, P>(ks: set<K>, contacts: map<K, Contact<N, P>>, measure: Contact<N, P> -> Option<int>, k: K,
                            rest: Option<int>)
    requires ks <= contacts.Keys && k in ks && IsLatest(ks - {k}, contacts, measure, rest)
    ensures IsLatest(ks, contacts, measure, Latest(measure(contacts[k]), rest))
  {
  }

  lemma EarliestStep<K, N, P>(ks: set<K>, contacts: map<K, Contact<N, P>>, measure: Contact<N, P> -> Option<int>, k: K,
                              rest: Option<int>)
    requires ks <= contacts.Keys && k in ks && IsEarliest(ks - {k}, contacts, measure, rest)
    ensures IsEarliest(ks, contacts, measure, Earliest(measure(contacts[k]), rest))
  {
  }

  /** A measure that merging two contacts takes to the later value is, over a set, taken to the latest. */
  lemma {:induction false} MergedLatest<K, N(!new), P(!new)>(ks: set<K>, contacts: map<K, Contact<N, P>>,
                                             measure: Contact<N, P> -> Option<int>)
    requires ks <= contacts.Keys && measure(Nothing()) == None
    requires forall a, b :: measure(Merge(a, b)) == Latest(measure(a), measure(b))
    ensures IsLatest(ks, contacts, measure, measure(MergeAll(ks, contacts)))
    decreases |ks|
  {
    if ks != {} {
      var k :| k in ks;
      var rest := MergeAll(ks - {k}, contacts);
      MergedLatest(ks - {k}, contacts, measure);
      LatestStep(ks, contacts, measure, k, measure(rest));
      assert measure(Merge(contacts[k], rest)) == Latest(measure(contacts[k]), measure(rest));
      MergeAnyFirst(ks, contacts, k);
    }
  }

  lemma {:induction false} MergedEarliest<K, N(!new), P(!new)>(ks: set<K>, contacts: map<K, Contact<N, P>>,
                                               measure: Contact<N, P> -> Option<int>)
    requires ks <= contacts.Keys && measure(Nothing()) == None
    requires forall a, b :: measure(Merge(a, b)) == Earliest(measure(a), measure(b))
    ensures IsEarliest(ks, contacts, measure, measure(MergeAll(ks, contacts)))
    decreases |ks|
  {
    if ks != {} {
      var k :| k in ks;
      var rest := MergeAll(ks - {k}, contacts);
      MergedEarliest(ks - {k}, contacts, measure);
      EarliestStep(ks, contacts, measure, k, measure(rest));
      assert measure(Merge(contacts[k], rest)) == Earliest(measure(contacts[k]), measure(rest));
      MergeAnyFirst(ks, contacts, k);
    }
  }

  function PathLast<N, P>(p: P): Contact<N, P> -> Option<int> {
    (c: Contact<N, P>) => if p in c.paths then Some(c.paths[p].lastSeen) else None
  }

  function PathFirst<N, P>(p: P): Contact<N, P> -> Option<int> {
    (c: Contact<N, P>) => if p in c.paths then Some(c.paths[p].firstSeen) else None
  }

  function NameLast<N, P>(n: N): Contact<N, P> -> Option<int> {
    (c: Contact<N, P>) => if n in c.names then Some(c.names[n].lastSeen) else None
  }

  function NameFirst<N, P>(n: N): Contact<N, P> -> Option<int> {
    (c: Contact<N, P>) => if n in c.names then Some(c.names[n].firstSeen) else None
  }

  function LastSeen<N, P>(): Contact<N, P> -> Option<int> { (c: Contact<N, P>) => c.times.lastSeen }

  function LastContacted<N, P>(): Contact<N, P> -> Option<int> { (c: Contact<N, P>) => c.times.lastContacted }

  function LastReadAt<N, P>(): Contact<N, P> -> Option<int> { (c: Contact<N, P>) => c.times.lastReadAt }

  function FirstSeen<N, P>(): Contact<N, P> -> Option<int> { (c: Contact<N, P>) => c.times.firstSeen }

  /** The contact's times are the extremes over the set, nulls being absent. */
  lemma {:induction false} MergedTimes<K, N(!new), P(!new)>(ks: set<K>, contacts: map<K, Contact<N, P>>)
    requires ks <= contacts.Keys
    ensures var m := MergeAll(ks, contacts);
            && IsLatest(ks, contacts, LastSeen(), m.times.lastSeen)
            && IsLatest(ks, contacts, LastContacted(), m.times.lastContacted)
            && IsLatest(ks, contacts, LastReadAt(), m.times.lastReadAt)
            && IsEarliest(ks, contacts, FirstSeen(), m.times.firstSeen)
  {
    MergedLatest(ks, contacts, LastSeen());
    MergedLatest(ks, contacts, LastContacted());
    MergedLatest(ks, contacts, LastReadAt());
    MergedEarliest(ks, contacts, FirstSeen());
  }

  /** So are the spans of each path row, missing rows being absent. */
  lemma MergedPathLast<K, N(!new), P(!new)>(ks: set<K>, contacts: map<K, Contact<N, P>>, p: P)
    requires ks <= contacts.Keys
    ensures IsLatest(ks, contacts, PathLast(p), PathLast(p)(MergeAll(ks, contacts)))
  {
    forall a: Contact<N, P>, b: Contact<N, P>
      ensures PathLast(p)(Merge(a, b)) == Latest(PathLast(p)(a), PathLast(p)(b))
    {
    }
    MergedLatest(ks, contacts, PathLast(p));
  }

  lemma MergedPathFirst<K, N(!new), P(!new)>(ks: set<K>, contacts: map<K, Contact<N, P>>, p: P)
    requires ks <= contacts.Keys
    ensures IsEarliest(ks, contacts, PathFirst(p), PathFirst(p)(MergeAll(ks, contacts)))
  {
    forall a: Contact<N, P>, b: Contact<N, P>
      ensures PathFirst(p)(Merge(a, b)) == Earliest(PathFirst(p)(a), PathFirst(p)(b))
    {
    }
    MergedEarliest(ks, contacts, PathFirst(p));
  }

  /** And of each name row. */
  lemma MergedNameLast<K, N(!new), P(!new)>(ks: set<K>, contacts: map<K, Contact<N, P>>, n: N)
    requires ks <= contacts.Keys
    ensures IsLatest(ks, contacts, NameLast(n), NameLast(n)(MergeAll(ks, contacts)))
  {
    forall a: Contact<N, P>, b: Contact<N, P>
      ensures NameLast(n)(Merge(a, b)) == Latest(NameLast(n)(a), NameLast(n)(b))
    {
    }
    MergedLatest(ks, contacts, NameLast(n));
  }

  lemma MergedNameFirst<K, N(!new), P(!new)>(ks: set<K>, contacts: map<K, Contact<N, P>>, n: N)
    requires ks <= contacts.Keys
    ensures IsEarliest(ks, contacts, NameFirst(n), NameFirst(n)(MergeAll(ks, contacts)))
  {
    forall a: Contact<N, P>, b: Contact<N, P>
      ensures NameFirst(n)(Merge(a, b)) == Earliest(NameFirst(n)(a), NameFirst(n)(b))
    {
    }
    MergedEarliest(ks, contacts, NameFirst(n));
  }

  // ------------------------------------------------------------ which placeholders are promoted

  const FULL := 64

  type Key = string

  function FullMatches<C>(contacts: map<Key, C>, prefix: Key): set<Key> {
    set k | k in contacts && |k| == FULL && prefix <= k
  }

  /** Placeholders that are a proper prefix of the full key and of exactly one full contact. */
  ghost function Promotable<C>(contacts: map<Key, C>, full: Key): set<Key> {
    set k | k in contacts && |k| < FULL && k <= full && k != full && |FullMatches(contacts, k)| == 1
  }

  /** In plain words: a key shorter than 64 digits that the full key begins with, and that exactly one contact with a
      key of 64 digits begins with. */
  lemma PromotableExactly<C>(contacts: map<Key, C>, full: Key, k: Key)
    ensures k in Promotable(contacts, full) <==>
            && k in contacts && |k| < 64 && k <= full && k != full
            && exists f :: f in contacts && |f| == 64 && k <= f &&
                           forall g :: g in contacts && |g| == 64 && k <= g ==> g == f
  {
    var m := FullMatches(contacts, k);
    if |m| == 1 {
      var f :| f in m;
      assert |m - {f}| == 0;
      forall g | g in contacts && |g| == 64 && k <= g ensures g == f {
        assert g in m;
        assert g != f ==> g in m - {f};
      }
    }
    if f :| f in contacts && |f| == 64 && k <= f && forall g :: g in contacts && |g| == 64 && k <= g ==> g == f {
      assert m == {f};
    }
  }

  /** Reference: the promotable placeholders disappear into the full contact; everything else stays. */
  ghost function Promoted<N, P>(contacts: map<Key, Contact<N, P>>, full: Key): map<Key, Contact<N, P>>
    requires full in contacts
  {
    After(contacts, full, Promotable(contacts, full))
  }

  ghost function After<N, P>(contacts: map<Key, Contact<N, P>>, full: Key, done: set<Key>): map<Key, Contact<N, P>>
    requires full in contacts && done <= contacts.Keys && full !in done
  {
    (contacts - done)[full := MergeAll(done + {full}, contacts)]
  }

  /** One promotion step. */
  lemma PromoteOne<N, P>(before: map<Key, Contact<N, P>>, full: Key, done: set<Key>, k: Key)
    requires full in before && done <= before.Keys && full !in done
    requires k in before && k !in done && k != full
    ensures var now := After(before, full, done);
            && k in now && now[k] == before[k]
            && now[full := Merge(now[full], now[k])] - {k} == After(before, full, done + {k})
  {
    var now := After(before, full, done);
    MergeOneMore(done + {full}, before, k);
    assert done + {full} + {k} == done + {k} + {full};
    assert now[full := Merge(now[full], now[k])] - {k} == (before - (done + {k}))[full := Merge(now[full], now[k])];
  }

  /** Promotions never change which full contacts a placeholder matches. */
  lemma MatchesUnchanged<N, P>(before: map<Key, Contact<N, P>>, full: Key, done: set<Key>, k: Key)
    requires full in before && done <= before.Keys && full !in done && forall d :: d in done ==> |d| < FULL
    ensures FullMatches(After(before, full, done), k) == FullMatches(before, k)
  {
  }

  /** The contacts that are prefixes of a key, short enough for a placeholder, of length at least n. */
  ghost function PrefixesFrom<C>(contacts: map<Key, C>, full: Key, n: nat): set<Key> {
    set k | k in contacts && n <= |k| < FULL && k <= full
  }

  lemma NextPrefix<C>(contacts: map<Key, C>, full: Key, n: nat)
    requires n <= |full| && n < FULL
    ensures PrefixesFrom(contacts, full, n) ==
            PrefixesFrom(contacts, full, n + 1) + if full[..n] in contacts then {full[..n]} else {}
  {
    assert forall k :: k in contacts && |k| == n && k <= full ==> k == full[..n];
  }

  /** Main result: nothing heard is lost.  Over all contacts the count of each path is what it was. */
  lemma HeardIsConserved<N, P>(contacts: map<Key, Contact<N, P>>, full: Key, p: P)
    requires full in contacts
    ensures var after := Promoted(contacts, full);
            TotalHeard(after.Keys, after, p) == TotalHeard(contacts.Keys, contacts, p)
  {
    var done := Promotable(contacts, full);
    var after := Promoted(contacts, full);
    var others := contacts.Keys - done - {full};
    assert after.Keys == others + {full};
    assert contacts.Keys == others + (done + {full});
    TotalSplit(others, done + {full}, contacts, p);
    CountAnyFirst(after.Keys, after, p, full);
    assert after.Keys - {full} == others;
    SameTotals(others, contacts, after, p);
    MergedHeard(done + {full}, contacts, p);
  }

  lemma {:induction false} TotalSplit<K, N, P>(a: set<K>, b: set<K>, contacts: map<K, Contact<N, P>>, p: P)
    requires a !! b && a + b <= contacts.Keys
    ensures TotalHeard(a + b, contacts, p) == TotalHeard(a, contacts, p) + TotalHeard(b, contacts, p)
    decreases |a|
  {
    if a == {} {
      assert a + b == b;
    } else {
      var k :| k in a;
      assert a + b - {k} == (a - {k}) + b;
      CountAnyFirst(a + b, contacts, p, k);
      CountAnyFirst(a, contacts, p, k);
      TotalSplit(a - {k}, b, contacts, p);
    }
  }

  lemma {:induction false} SameTotals<K, N, P>(ks: set<K>, a: map<K, Contact<N, P>>, b: map<K, Contact<N, P>>, p: P)
    requires ks <= a.Keys && ks <= b.Keys && forall k :: k in ks ==> a[k] == b[k]
    ensures TotalHeard(ks, a, p) == TotalHeard(ks, b, p)
    decreases |ks|
  {
    if ks != {} {
      var k :| k in ks;
      CountAnyFirst(ks, a, p, k);
      CountAnyFirst(ks, b, p, k);
      SameTotals(ks - {k}, a, b, p);
    }
  }

  // ------------------------------------------------------------ the repository

  class ContactRepository<N(==), P(==)> {
    var contacts: map<Key, Contact<N, P>>

    constructor (contacts: map<Key, Contact<N, P>>)
      ensures this.contacts == contacts
    {
      this.contacts := contacts;
    }

    /** One placeholder: merged and deleted exactly when it is promotable, else left with its child rows. */
    method PromoteCandidate(full: Key, oldKey: Key, ghost before: map<Key, Contact<N, P>>, ghost done: set<Key>)
      returns (did: bool)
      requires full in before && done <= Promotable(before, full) && oldKey !in done
      requires contacts == After(before, full, done)
      requires oldKey <= full && |oldKey| < FULL
      modifies this
      ensures did <==> oldKey in Promotable(before, full)
      ensures contacts == After(before, full, if did then done + {oldKey} else done)
    {
      if oldKey !in contacts || oldKey == full {
        return false;
      }
      MatchesUnchanged(before, full, done, oldKey);
      if |FullMatches(contacts, oldKey)| != 1 {
        return false;
      }
      PromoteOne(before, full, done, oldKey);
      contacts := contacts[full := Merge(contacts[full], contacts[oldKey])] - {oldKey};
      return true;
    }

    /** The placeholder query: every shorter contact key that is a prefix of the full key, longest first. */
    method SelectPlaceholders(full: Key) returns (rows: seq<Key>)
      ensures Elements(rows) == PrefixesFrom(contacts, full, 0) && LongestFirst(rows, 0)
    {
      rows := [];
      var length := Min(|full|, FULL - 1) + 1;
      assert PrefixesFrom(contacts, full, length) == {};
      while length > 0
        invariant 0 <= length <= Min(|full|, FULL - 1) + 1
        invariant Elements(rows) == PrefixesFrom(contacts, full, length) && LongestFirst(rows, length)
      {
        length := length - 1;
        NextPrefix(contacts, full, length);
        var k := full[..length];
        if k in contacts {
          ElementsSnoc(rows, k);
          rows := rows + [k];
        }
      }
    }

    /** One row of the query. */
    method PromoteNext(full: Key, rows: seq<Key>, i: nat, promoted: seq<Key>, ghost before: map<Key, Contact<N, P>>)
      returns (promoted': seq<Key>)
      requires full in before && LongestFirst(rows, 0) && i < |rows| && rows[i] <= full && |rows[i]| < FULL
      requires promoted == Chosen(rows[..i], Promotable(before, full))
      requires contacts == After(before, full, Elements(rows[..i]) * Promotable(before, full))
      modifies this
      ensures promoted' == Chosen(rows[..i + 1], Promotable(before, full))
      ensures contacts == After(before, full, Elements(rows[..i + 1]) * Promotable(before, full))
    {
      ghost var chosen := Promotable(before, full);
      NextRow(rows, i, chosen);
      ghost var done := Elements(rows[..i]) * chosen;
      var did := PromoteCandidate(full, rows[i], before, done);
      assert Elements(rows[..i + 1]) * chosen == if did then done + {rows[i]} else done;
      promoted' := if did then promoted + [rows[i]] else promoted;
    }

    /** The loop over the query's rows. */
    method PromoteRows(full: Key, rows: seq<Key>) returns (promoted: seq<Key>)
      requires full in contacts && LongestFirst(rows, 0)
      requires forall i :: 0 <= i < |rows| ==> rows[i] <= full && |rows[i]| < FULL
      modifies this
      ensures promoted == Chosen(rows, Promotable(old(contacts), full))
      ensures contacts == After(old(contacts), full, Elements(rows) * Promotable(old(contacts), full))
    {
      ghost var before := contacts;
      promoted := [];
      NothingDoneYet(before, full);
      assert Elements(rows[..0]) * Promotable(before, full) == {};
      for i := 0 to |rows|
        invariant promoted == Chosen(rows[..i], Promotable(before, full))
        invariant contacts == After(before, full, Elements(rows[..i]) * Promotable(before, full))
      {
        promoted := PromoteNext(full, rows, i, promoted, before);
      }
      assert rows[..|rows|] == rows;
    }

    /** Promotes the placeholders of a full key; the table becomes the reference one, and the keys returned are exactly
        the promoted placeholders, each once, longest first. */
    method PromotePrefixPlaceholders(fullKey: Key) returns (promoted: seq<Key>)
      requires Lower(fullKey) in contacts
      modifies this
      ensures contacts == Promoted(old(contacts), Lower(fullKey))
      ensures Elements(promoted) == Promotable(old(contacts), Lower(fullKey))
      ensures LongestFirst(promoted, 0)
    {
      var full := Lower(fullKey);
      ghost var chosen := Promotable(contacts, full);
      var rows := SelectPlaceholders(full);
      forall i | 0 <= i < |rows| ensures rows[i] <= full && |rows[i]| < FULL {
        assert rows[i] in Elements(rows);
      }
      assert Elements(rows) * chosen == chosen;
      ChosenElements(rows, chosen);
      ChosenLongestFirst(rows, chosen);
      promoted := PromoteRows(full, rows);
    }
  }

  /** Keys of strictly falling length, none shorter than n. */
  ghost predicate LongestFirst(keys: seq<Key>, n: nat) {
    && (forall i :: 0 <= i < |keys| ==> |keys[i]| >= n)
    && (forall i, j :: 0 <= i < j < |keys| ==> |keys[i]| > |keys[j]|)
  }

  /** The elements of a sequence that belong to a set, in order. */
  ghost function Chosen<T>(s: seq<T>, from: set<T>): seq<T> {
    if s == [] then []
    else
      var before := Chosen(s[..|s| - 1], from);
      if s[|s| - 1] in from then before + [s[|s| - 1]] else before
  }

  lemma NextRow(rows: seq<Key>, i: nat, chosen: set<Key>)
    requires i < |rows| && LongestFirst(rows, 0)
    ensures rows[i] !in Elements(rows[..i]) * chosen
    ensures var done := Elements(rows[..i]) * chosen;
            Elements(rows[..i + 1]) * chosen == if rows[i] in chosen then done + {rows[i]} else done
    ensures var before := Chosen(rows[..i], chosen);
            Chosen(rows[..i + 1], chosen) == if rows[i] in chosen then before + [rows[i]] else before
  {
    assert rows[..i + 1][..i] == rows[..i];
    assert rows[..i + 1] == rows[..i] + [rows[i]];
    ElementsSnoc(rows[..i], rows[i]);
  }

  lemma {:induction false} ChosenElements<T>(s: seq<T>, from: set<T>)
    ensures Elements(Chosen(s, from)) == Elements(s) * from
  {
    if s != [] {
      ChosenElements(s[..|s| - 1], from);
      ElementsSnoc(s[..|s| - 1], s[|s| - 1]);
      ElementsSnoc(Chosen(s[..|s| - 1], from), s[|s| - 1]);
      assert s == s[..|s| - 1] + [s[|s| - 1]];
    }
  }

  lemma {:induction false} ChosenLongestFirst(s: seq<Key>, from: set<Key>)
    requires LongestFirst(s, 0)
    ensures LongestFirst(Chosen(s, from), 0)
    ensures forall i :: 0 <= i < |Chosen(s, from)| ==> |Chosen(s, from)[i]| >= |s[|s| - 1]|
  {
    if s != [] {
      var init := s[..|s| - 1];
      ChosenLongestFirst(init, from);
      if init != [] { assert init[|init| - 1] == s[|s| - 2]; }
    }
  }

  lemma ElementsSnoc<T>(s: seq<T>, x: T)
    ensures Elements(s + [x]) == Elements(s) + {x}
  {
  }

  lemma NothingDoneYet<N, P>(before: map<Key, Contact<N, P>>, full: Key)
    requires full in before
    ensures After(before, full, {}) == before
  {
    MergeAnyFirst({full}, before, full);
    MergeUnit(before[full]);
    assert {} + {full} == {full} && {full} - {full} == {};
    assert (before - {})[full := before[full]] == before;
  }
}
