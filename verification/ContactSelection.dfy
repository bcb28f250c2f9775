/**
 * Which contacts the radio should carry: favourites up to the capacity, then a fill from recent conversations and
 * recent adverts up to the refill target.
 */
module ContactSelection {
  import opened Common

  // ------------------------------------------------------------ limits

  /** The configured capacity, capped by the hardware and never below one. */
  function EffectiveCapacity(configured: int, hardware: Option<int>): (c: int)
    ensures c >= 1
    ensures hardware.Some? && hardware.value >= 1 ==> c <= hardware.value
    ensures configured >= 1 ==> c <= configured
    ensures configured >= 1 && (hardware.None? || configured <= hardware.value) ==> c == configured
    ensures hardware.Some? && 1 <= hardware.value <= configured ==> c == hardware.value
    ensures configured < 1 || (hardware.Some? && hardware.value < 1) ==> c == 1
  {
    var wanted := Max(1, configured);
    Max(1, if hardware.Some? then Min(wanted, hardware.value) else wanted)
  }

  /** Refill to 80% rounded half up, full sync at 95% rounded up; exact rationals for the two ratios. */
  function Limits(maxContacts: int): (int, int) {
    var capacity := Max(1, maxContacts);
    var refill := Max(1, Min(capacity, (8 * capacity + 5) / 10));
    (refill, Max(refill, Min(capacity, (95 * capacity + 99) / 100)))
  }

  /** The limits are ordered inside the capacity, leave headroom exactly from capacity 3 on, and are the nearest
      whole numbers to their ratios. */
  lemma LimitsOrdered(capacity: int)
    requires capacity >= 1
    ensures var (refill, trigger) := Limits(capacity);
            && 1 <= refill <= trigger <= capacity
            && (refill < trigger <==> capacity >= 3)
            && (capacity >= 2 ==> 8 * capacity - 5 <= 10 * refill - 1 && 10 * refill <= 8 * capacity + 5)
            && 95 * capacity <= 100 * trigger < 95 * capacity + 100
  {
  }

  // ------------------------------------------------------------ reference

  /** Keep the first occurrence of each key. */
  function Dedup<K(==,!new)>(s: seq<K>): (r: seq<K>)
    ensures forall k :: k in r <==> k in s
    ensures Distinct(r)
  {
    if s == [] then []
    else
      var last := s[|s| - 1];
      var before := Dedup(s[..|s| - 1]);
      assert s == s[..|s| - 1] + [last];
      if last in before then before else before + [last]
  }

  function Take<K>(s: seq<K>, n: nat): seq<K> {
    if |s| <= n then s else s[..n]
  }

  /** What is selected, said without loops or query limits: the distinct favourites up to the capacity; if those do
      not reach the refill target, the distinct keys of favourites, conversations and adverts up to the target. */
  function Selection<K(==,!new)>(favorites: seq<K>, dmActive: seq<K>, advertised: seq<K>, capacity: nat,
                       refill: nat): seq<K> {
    var kept := Take(Dedup(favorites), capacity);
    if |kept| >= refill then kept else Take(Dedup(favorites + dmActive + advertised), refill)
  }

  // ------------------------------------------------------------ the fill

  lemma {:induction false} DedupPrefix<K(!new)>(s: seq<K>, t: seq<K>)
    ensures |Dedup(s)| <= |Dedup(s + t)| && Dedup(s + t)[..|Dedup(s)|] == Dedup(s)
  {
    if t == [] {
      assert s + t == s;
    } else {
      var t' := t[..|t| - 1];
      assert (s + t)[..|s + t| - 1] == s + t';
      DedupPrefix(s, t');
    }
  }

  lemma DedupSnoc<K(!new)>(s: seq<K>, k: K)
    ensures Dedup(s + [k]) == if k in s then Dedup(s) else Dedup(s) + [k]
  {
    assert (s + [k])[..|s|] == s;
  }

  /** Offering one more candidate of a source. */
  lemma OfferNext<K(!new)>(base: seq<K>, source: seq<K>, i: nat)
    requires i < |source|
    ensures var before := Dedup(base + source[..i]);
            Dedup(base + source[..i + 1]) == if source[i] in before then before else before + [source[i]]
  {
    assert base + source[..i + 1] == base + source[..i] + [source[i]];
    DedupSnoc(base + source[..i], source[i]);
  }

  /** Once enough are selected the rest of a source cannot change the outcome. */
  lemma RestIsIrrelevant<K(!new)>(s: seq<K>, t: seq<K>, stop: nat)
    requires |Dedup(s)| >= stop
    ensures Take(Dedup(s + t), stop) == Take(Dedup(s), stop)
  {
    DedupPrefix(s, t);
  }

  lemma CutAt<K>(base: seq<K>, rows: seq<K>, n: nat)
    requires n <= |rows|
    ensures base + rows == base + rows[..n] + rows[n..]
  {
  }

  lemma EarlierThere<K>(s: seq<K>, i: nat, j: nat)
    requires i < j <= |s|
    ensures s[i] in s[..j] && s == s[..j] + s[j..]
  {
    assert s[..j][i] == s[i];
  }

  lemma RestOfSource<K(!new)>(base: seq<K>, source: seq<K>, i: nat, stop: nat)
    requires i <= |source| && |Dedup(base + source[..i])| >= stop
    ensures Take(Dedup(base + source), stop) == Take(Dedup(base + source[..i]), stop)
  {
    RestIsIrrelevant(base + source[..i], source[i..], stop);
    CutAt(base, source, i);
  }

  /** One source of candidates: new keys are appended until `stop` are selected.  `base` is what was offered before. */
  method Fill<K(==,!new)>(selected: seq<K>, source: seq<K>, stop: nat, ghost base: seq<K>) returns (r: seq<K>)
    requires selected == Dedup(base) && |selected| < stop
    ensures r == Take(Dedup(base + source), stop)
  {
    r := selected;
    assert base + source[..0] == base;
    for i := 0 to |source|
      invariant r == Dedup(base + source[..i]) && |r| < stop
    {
      OfferNext(base, source, i);
      if source[i] !in r {
        r := r + [source[i]];
        if |r| >= stop {
          RestOfSource(base, source, i + 1, stop);
          return;
        }
      }
    }
    assert source[..|source|] == source;
  }

  /** Offering distinct rows selects at least as many keys as there are rows. */
  lemma DistinctOffered<K(!new)>(base: seq<K>, rows: seq<K>)
    requires Distinct(rows)
    ensures |Dedup(base + rows)| >= |rows|
  {
    var offered := Dedup(base + rows);
    ElementsCount(rows);
    ElementsCount(offered);
    assert Elements(rows) <= Elements(offered);
    SubsetCount(Elements(rows), Elements(offered));
  }

  lemma CutRows<K(!new)>(base: seq<K>, rows: seq<K>, limit: nat, stop: nat)
    requires Distinct(rows) && stop <= limit < |rows|
    ensures |Dedup(base + rows[..limit])| >= stop
    ensures Take(Dedup(base + rows[..limit]), stop) == Take(Dedup(base + rows), stop)
  {
    var some := rows[..limit];
    DistinctOffered(base, some);
    RestIsIrrelevant(base + some, rows[limit..], stop);
    CutAt(base, rows, limit);
  }

  /** A query limit of at least `stop` never starves the fill: distinct rows outnumber the keys already selected. */
  lemma LimitNeverStarves<K(!new)>(base: seq<K>, rows: seq<K>, limit: nat, stop: nat)
    requires Distinct(rows) && stop <= limit
    ensures Take(Dedup(base + Take(rows, limit)), stop) == Take(Dedup(base + rows), stop)
    ensures |Take(rows, limit)| < |rows| ==> |Dedup(base + Take(rows, limit))| >= stop
  {
    if |rows| > limit {
      CutRows(base, rows, limit, stop);
    }
  }

  /** The two fills beyond the favourites. */
  method FillBeyond<K(==,!new)>(selected: seq<K>, favorites: seq<K>, dmActive: seq<K>, advertised: seq<K>,
                                maxContacts: nat, refill: nat)
    returns (r: seq<K>)
    requires Distinct(dmActive) && Distinct(advertised)
    requires selected == Dedup(favorites) && |selected| < refill <= maxContacts
    ensures r == Take(Dedup(favorites + dmActive + advertised), refill)
  {
    var cut := Take(dmActive, maxContacts);
    LimitNeverStarves(favorites, dmActive, maxContacts, refill);
    r := Fill(selected, cut, refill, favorites);
    if |r| < refill {
      LimitNeverStarves(favorites + dmActive, advertised, maxContacts, refill);
      r := Fill(r, Take(advertised, maxContacts), refill, favorites + dmActive);
    } else {
      RestIsIrrelevant(favorites + dmActive, advertised, refill);
    }
  }

  lemma SelectionFits<K(!new)>(favorites: seq<K>, dmActive: seq<K>, advertised: seq<K>,
                               configured: int, hardware: Option<int>)
    ensures var capacity := EffectiveCapacity(configured, hardware);
            var selected := Selection(favorites, dmActive, advertised, capacity, Limits(capacity).0);
            && Distinct(selected)
            && |selected| <= Max(1, configured)
            && (hardware.Some? ==> |selected| <= Max(1, hardware.value))
  {
    var capacity := EffectiveCapacity(configured, hardware);
    LimitsOrdered(capacity);
    SelectionIsBoundedAndMaximal(favorites, dmActive, advertised, capacity, Limits(capacity).0);
  }

  /** The selection made by the program.  Each query returns distinct rows (its rows have distinct primary keys), cut
      at `LIMIT max_contacts`; the result is nevertheless the reference selection over the uncut queries. */
  method SelectForRadioSync<K(==,!new)>(favorites: seq<K>, dmActive: seq<K>, advertised: seq<K>,
                            configured: int, hardware: Option<int>)
    returns (selected: seq<K>)
    requires Distinct(dmActive) && Distinct(advertised)
    ensures var capacity := EffectiveCapacity(configured, hardware);
            selected == Selection(favorites, dmActive, advertised, capacity, Limits(capacity).0)
    ensures Distinct(selected) && |selected| <= Max(1, configured)
    ensures hardware.Some? ==> |selected| <= Max(1, hardware.value)
  {
    var maxContacts := EffectiveCapacity(configured, hardware);
    var (refill, _) := Limits(maxContacts);
    LimitsOrdered(maxContacts);
    SelectionFits(favorites, dmActive, advertised, configured, hardware);
    assert [] + favorites == favorites;
    selected := Fill([], favorites, maxContacts, []);
    if |selected| < refill {
      selected := FillBeyond(selected, favorites, dmActive, advertised, maxContacts, refill);
    }
  }

  // ------------------------------------------------------------ what the selection promises

  /** A prefix of a deduplicated sequence: nothing twice, nothing new. */
  lemma TakeFacts<K(!new)>(s: seq<K>, n: nat)
    ensures Distinct(Take(Dedup(s), n)) && |Take(Dedup(s), n)| <= n
    ensures forall k :: k in Take(Dedup(s), n) ==> k in s
    ensures |Dedup(s)| <= n ==> forall k :: k in s ==> k in Take(Dedup(s), n)
  {
    assert forall i :: 0 <= i < |Take(Dedup(s), n)| ==> Dedup(s)[i] in s;
  }

  /** Distinct keys within the capacity, and maximal: the refill target is reached unless every candidate of the
      uncut queries is already in. */
  lemma SelectionIsBoundedAndMaximal<K(!new)>(favorites: seq<K>, dmActive: seq<K>, advertised: seq<K>, capacity: nat,
                                       refill: nat)
    requires 1 <= refill <= capacity
    ensures var r := Selection(favorites, dmActive, advertised, capacity, refill);
            && Distinct(r)
            && |r| <= capacity
            && (forall k :: k in r ==> k in favorites || k in dmActive || k in advertised)
            && (|r| > refill ==> forall k :: k in r ==> k in favorites)
            && (|r| >= refill || forall k :: k in favorites || k in dmActive || k in advertised ==> k in r)
  {
    TakeFacts(favorites, capacity);
    TakeFacts(favorites + dmActive + advertised, refill);
  }

  /** Favourites come first, in their order, and all of them are in when they fit the capacity. */
  lemma FavouritesFirst<K(!new)>(favorites: seq<K>, dmActive: seq<K>, advertised: seq<K>, capacity: nat, refill: nat)
    requires 1 <= refill <= capacity
    ensures var r := Selection(favorites, dmActive, advertised, capacity, refill);
            var firsts := Take(Dedup(favorites), capacity);
            && |firsts| <= |r| && r[..|firsts|] == firsts
            && (|Dedup(favorites)| <= capacity ==> forall k :: k in favorites ==> k in r)
  {
    var firsts := Take(Dedup(favorites), capacity);
    TakeFacts(favorites, capacity);
    if |firsts| < refill {
      assert favorites + dmActive + advertised == favorites + (dmActive + advertised);
      DedupPrefix(favorites, dmActive + advertised);
      var r := Take(Dedup(favorites + (dmActive + advertised)), refill);
      assert r[..|firsts|] == firsts;
      assert forall k :: k in firsts ==> k in r[..|firsts|];
    }
  }

  /** A later source only fills what earlier ones leave: a key from beyond the favourites means that all favourites
      are in, a key from adverts alone that all conversations are in too. */
  lemma SourcesInOrder<K(!new)>(favorites: seq<K>, dmActive: seq<K>, advertised: seq<K>, capacity: nat, refill: nat,
                         k: K)
    requires 1 <= refill <= capacity && k in Selection(favorites, dmActive, advertised, capacity, refill)
             && k !in favorites
    ensures forall f :: f in favorites ==> f in Selection(favorites, dmActive, advertised, capacity, refill)
    ensures k !in dmActive ==>
              forall d :: d in dmActive ==> d in Selection(favorites, dmActive, advertised, capacity, refill)
  {
    FavouritesFirst(favorites, dmActive, advertised, capacity, refill);
    TakeFacts(favorites, capacity);
    var offered := favorites + dmActive;
    TakeFacts(offered, refill);
    if |Dedup(offered)| >= refill {
      RestIsIrrelevant(offered, advertised, refill);
    } else {
      DedupPrefix(offered, advertised);
      var r := Take(Dedup(offered + advertised), refill);
      assert r[..|Dedup(offered)|] == Dedup(offered);
      assert forall d :: d in dmActive ==> d in r[..|Dedup(offered)|];
    }
  }

  lemma TakenBefore<K>(d: seq<K>, before: seq<K>, n: nat, x: K, y: K)
    requires |before| <= |d| && d[..|before|] == before && x !in before && y in before && x in Take(d, n)
    ensures y in Take(d, n)
  {
    var taken := Take(d, n);
    var p :| 0 <= p < |taken| && taken[p] == x;
    var q :| 0 <= q < |before| && before[q] == y;
    assert forall r :: 0 <= r < |before| ==> d[r] == before[r];
    assert taken[q] == y;
  }

  /** Taking the first n distinct values takes an earlier value before a later one. */
  lemma EarlierTaken<K(!new)>(s: seq<K>, n: nat, i: nat, j: nat)
    requires i < j < |s| && s[j] in Take(Dedup(s), n) && s[j] !in s[..j]
    ensures s[i] in Take(Dedup(s), n)
  {
    EarlierThere(s, i, j);
    DedupPrefix(s[..j], s[j..]);
    TakenBefore(Dedup(s), Dedup(s[..j]), n, s[j], s[i]);
  }

  /** The same in the middle of what is offered, for a source of distinct keys. */
  lemma EarlierOfSourceTaken<K(!new)>(base: seq<K>, source: seq<K>, rest: seq<K>, n: nat, i: nat, j: nat)
    requires Distinct(source) && i < j < |source| && source[j] !in base
    requires source[j] in Take(Dedup(base + source + rest), n)
    ensures source[i] in Take(Dedup(base + source + rest), n)
  {
    var all, k := base + source + rest, |base|;
    assert all[..k + j] == base + source[..j];
    assert all[k + i] == source[i] && all[k + j] == source[j];
    assert source[j] !in source[..j];
    EarlierTaken(all, n, k + i, k + j);
  }

  /** A key from beyond the favourites is there because the favourites did not reach the target. */
  lemma BeyondFavourites<K(!new)>(favorites: seq<K>, dmActive: seq<K>, advertised: seq<K>, capacity: nat, refill: nat,
                                  k: K)
    requires k in Selection(favorites, dmActive, advertised, capacity, refill) && k !in favorites
    ensures Selection(favorites, dmActive, advertised, capacity, refill) ==
            Take(Dedup(favorites + dmActive + advertised), refill)
  {
    TakeFacts(favorites, capacity);
  }

  /** Within a source the order of the query decides: when a conversation is selected for its own sake, so are all
      earlier ones; likewise for adverts and favourites. */
  lemma ConversationsInOrder<K(!new)>(favorites: seq<K>, dmActive: seq<K>, advertised: seq<K>,
                                      capacity: nat, refill: nat, i: nat, j: nat)
    requires Distinct(dmActive) && i < j < |dmActive| && dmActive[j] !in favorites
    requires dmActive[j] in Selection(favorites, dmActive, advertised, capacity, refill)
    ensures dmActive[i] in Selection(favorites, dmActive, advertised, capacity, refill)
  {
    BeyondFavourites(favorites, dmActive, advertised, capacity, refill, dmActive[j]);
    EarlierOfSourceTaken(favorites, dmActive, advertised, refill, i, j);
  }

  lemma AdvertsInOrder<K(!new)>(favorites: seq<K>, dmActive: seq<K>, advertised: seq<K>,
                                capacity: nat, refill: nat, i: nat, j: nat)
    requires Distinct(advertised) && i < j < |advertised|
    requires advertised[j] !in favorites && advertised[j] !in dmActive
    requires advertised[j] in Selection(favorites, dmActive, advertised, capacity, refill)
    ensures advertised[i] in Selection(favorites, dmActive, advertised, capacity, refill)
  {
    BeyondFavourites(favorites, dmActive, advertised, capacity, refill, advertised[j]);
    assert favorites + dmActive + advertised + [] == favorites + dmActive + advertised;
    EarlierOfSourceTaken(favorites + dmActive, advertised, [], refill, i, j);
  }

  lemma FavouritesInOrder<K(!new)>(favorites: seq<K>, dmActive: seq<K>, advertised: seq<K>, capacity: nat, refill: nat,
                                   i: nat, j: nat)
    requires 1 <= refill <= capacity && i < j < |favorites| && favorites[j] !in favorites[..j]
    requires favorites[j] in Selection(favorites, dmActive, advertised, capacity, refill)
    ensures favorites[i] in Selection(favorites, dmActive, advertised, capacity, refill)
  {
    if |Take(Dedup(favorites), capacity)| >= refill {
      EarlierTaken(favorites, capacity, i, j);
    } else {
      var all := favorites + dmActive + advertised;
      assert all[..j] == favorites[..j] && all[i] == favorites[i] && all[j] == favorites[j];
      EarlierTaken(all, refill, i, j);
    }
  }

  /** The occupancy check of the periodic sync. */
  function ShouldRunFullSync(onRadio: nat, capacity: int): bool {
    onRadio >= Limits(capacity).1
  }

  /** Loading exactly the selection triggers another full sync only when the favourites alone already do, from
      capacity 3 on; a fill that stops at the refill target never does. */
  lemma FillDoesNotRetrigger<K(!new)>(favorites: seq<K>, dmActive: seq<K>, advertised: seq<K>, capacity: nat)
    requires capacity >= 3
    ensures var r := Selection(favorites, dmActive, advertised, capacity, Limits(capacity).0);
            ShouldRunFullSync(|r|, capacity) <==> |Dedup(favorites)| >= Limits(capacity).1
  {
    LimitsOrdered(capacity);
    TakeFacts(favorites + dmActive + advertised, Limits(capacity).0);
  }
}
