/**
 * Background reconciliation of the radio's contact table with the desired set: unwanted contacts are removed in
 * batches, then missing ones are added in batches.
 *
 * The desired set is read again and again while the background job runs; `desired(c)` is what the c-th read returns.
 * The radio accepts its n-th command or refuses it, as `accepts(n)` says.
 */
module ContactReconcile {
  import opened Common

  /** A public key, lower-case hex. */
  type Key = string

  const BATCH_SIZE := 2

  predicate IsFull(k: Key) {
    |k| >= 64
  }

  function Prefix(k: Key): string {
    if |k| <= 12 then k else k[..12]
  }

  // ------------------------------------------------------------ the two backends

  /** Client is a companion radio behind the MeshCore library, Spi the radio driven by the server itself. */
  datatype Backend = Client | Spi

  /** The contacts the radio holds, those the backend finds by prefix, and how many commands have been sent.  The
      library fills its cache from a full read of the radio; commands that add or remove contacts leave it alone. */
  datatype Table = Table(contacts: set<Key>, cache: set<Key>, commands: nat)

  /** The SPI backend answers every command with OK. */
  predicate Accepted(be: Backend, accepts: nat -> bool, n: nat) {
    be.Spi? || accepts(n)
  }

  // ------------------------------------------------------------ reference: no batches

  /** A removal is asked for with the snapshot's dictionary.  The SPI backend looks for a `public_key` attribute there,
      finds none, and so removes nothing. */
  function RemoveOne(be: Backend, t: Table, k: Key, accepts: nat -> bool): Table {
    Table(if be.Client? && Accepted(be, accepts, t.commands) then t.contacts - {k} else t.contacts,
          t.cache, t.commands + 1)
  }

  predicate PrefixKnown(contacts: set<Key>, k: Key) {
    exists c :: c in contacts && Prefix(c) == Prefix(k)
  }

  function AddTo(be: Backend, t: Table, k: Key, accepts: nat -> bool): Table {
    if Accepted(be, accepts, t.commands)
    then Table(t.contacts + {k}, if be.Spi? then t.cache + {k} else t.cache, t.commands + 1)
    else Table(t.contacts, t.cache, t.commands + 1)
  }

  /** A contact whose 12-digit prefix the backend finds in its cache is not added. */
  function AddOne(be: Backend, t: Table, k: Key, accepts: nat -> bool): Table {
    if PrefixKnown(t.cache, k) then t else AddTo(be, t, k, accepts)
  }

  function RemoveAll(be: Backend, t: Table, ks: seq<Key>, accepts: nat -> bool): Table {
    if ks == [] then t else RemoveOne(be, RemoveAll(be, t, ks[..|ks| - 1], accepts), ks[|ks| - 1], accepts)
  }

  function AddAll(be: Backend, t: Table, ks: seq<Key>, accepts: nat -> bool): Table {
    if ks == [] then t else AddOne(be, AddAll(be, t, ks[..|ks| - 1], accepts), ks[|ks| - 1], accepts)
  }

  /** The job's own list of what is on the radio: a refused removal stays listed. */
  function Listed(be: Backend, current: set<Key>, commands: nat, ks: seq<Key>, accepts: nat -> bool): set<Key> {
    if ks == [] then current
    else
      var before := Listed(be, current, commands, ks[..|ks| - 1], accepts);
      if Accepted(be, accepts, commands + |ks| - 1) then before - {ks[|ks| - 1]} else before
  }

  /** The keys found unwanted by two reads in a row, and the number of reads made, after the first n entries. */
  function Unwanted(initial: seq<Key>, desired: nat -> seq<Key>, n: nat): (seq<Key>, nat)
    requires n <= |initial|
  {
    if n == 0 then ([], 0)
    else
      var (found, clock) := Unwanted(initial, desired, n - 1);
      var k := initial[n - 1];
      if k in desired(clock) then (found, clock + 1)
      else if k in desired(clock + 1) then (found, clock + 2)
      else (found + [k], clock + 2)
  }

  /** The desired full keys not listed as being on the radio, in order. */
  function Missing(wanted: seq<Key>, current: set<Key>): seq<Key> {
    if wanted == [] then []
    else
      var before := Missing(wanted[..|wanted| - 1], current);
      var k := wanted[|wanted| - 1];
      if IsFull(k) && k !in current then before + [k] else before
  }

  lemma {:induction false} RemoveAllSplit(be: Backend, t: Table, a: seq<Key>, b: seq<Key>, accepts: nat -> bool)
    ensures RemoveAll(be, t, a + b, accepts) == RemoveAll(be, RemoveAll(be, t, a, accepts), b, accepts)
    ensures RemoveAll(be, t, a, accepts).commands == t.commands + |a|
  {
    if b != [] {
      var b' := b[..|b| - 1];
      assert (a + b)[..|a + b| - 1] == a + b';
      RemoveAllSplit(be, t, a, b', accepts);
    } else {
      assert a + b == a;
      if a != [] { RemoveAllSplit(be, t, a[..|a| - 1], [], accepts); }
    }
  }

  lemma {:induction false} ListedSplit(be: Backend, current: set<Key>, n: nat, a: seq<Key>, b: seq<Key>,
                                       accepts: nat -> bool)
    ensures Listed(be, current, n, a + b, accepts) ==
            Listed(be, Listed(be, current, n, a, accepts), n + |a|, b, accepts)
  {
    if b != [] {
      var b' := b[..|b| - 1];
      assert (a + b)[..|a + b| - 1] == a + b';
      ListedSplit(be, current, n, a, b', accepts);
    } else {
      assert a + b == a;
    }
  }

  lemma {:induction false} AddAllSplit(be: Backend, t: Table, a: seq<Key>, b: seq<Key>, accepts: nat -> bool)
    ensures AddAll(be, t, a + b, accepts) == AddAll(be, AddAll(be, t, a, accepts), b, accepts)
  {
    if b != [] {
      var b' := b[..|b| - 1];
      assert (a + b)[..|a + b| - 1] == a + b';
      AddAllSplit(be, t, a, b', accepts);
    } else {
      assert a + b == a;
    }
  }

  lemma Reassociate<T>(a: seq<T>, b: seq<T>, x: T)
    ensures a + b + [x] == a + (b + [x])
  {
  }

  // ------------------------------------------------------------ the background job

  class Radio {
    const backend: Backend
    const accepts: nat -> bool
    var contacts: set<Key>
    var cache: set<Key>
    var commands: nat

    function View(): Table
      reads this
    {
      Table(contacts, cache, commands)
    }

    constructor (backend: Backend, contacts: set<Key>, cache: set<Key>, accepts: nat -> bool)
      ensures View() == Table(contacts, cache, 0) && this.backend == backend && this.accepts == accepts
    {
      this.backend, this.accepts := backend, accepts;
      this.contacts, this.cache, this.commands := contacts, cache, 0;
    }

    method RemoveContact(k: Key) returns (ok: bool)
      modifies this
      ensures View() == RemoveOne(backend, old(View()), k, accepts)
      ensures ok == Accepted(backend, accepts, old(commands))
    {
      match backend {
        case Client =>
          ok := accepts(commands);
          if ok { contacts := contacts - {k}; }
        case Spi =>
          ok := true;
      }
      commands := commands + 1;
    }

    method AddContact(k: Key)
      modifies this
      ensures View() == AddTo(backend, old(View()), k, accepts)
    {
      match backend {
        case Client =>
          if accepts(commands) { contacts := contacts + {k}; }
        case Spi =>
          contacts, cache := contacts + {k}, cache + {k};
      }
      commands := commands + 1;
    }
  }

  method RemoveBatch(radio: Radio, batch: seq<Key>, current: set<Key>) returns (left: set<Key>)
    modifies radio
    ensures radio.View() == RemoveAll(radio.backend, old(radio.View()), batch, radio.accepts)
    ensures left == Listed(radio.backend, current, old(radio.commands), batch, radio.accepts)
  {
    left := current;
    for i := 0 to |batch|
      invariant radio.View() == RemoveAll(radio.backend, old(radio.View()), batch[..i], radio.accepts)
      invariant radio.commands == old(radio.commands) + i
      invariant left == Listed(radio.backend, current, old(radio.commands), batch[..i], radio.accepts)
    {
      assert batch[..i + 1][..i] == batch[..i];
      var ok := radio.RemoveContact(batch[i]);
      if ok { left := left - {batch[i]}; }
    }
    assert batch[..|batch|] == batch;
  }

  method AddBatch(radio: Radio, batch: seq<Key>)
    modifies radio
    ensures radio.View() == AddAll(radio.backend, old(radio.View()), batch, radio.accepts)
  {
    for i := 0 to |batch|
      invariant radio.View() == AddAll(radio.backend, old(radio.View()), batch[..i], radio.accepts)
    {
      assert batch[..i + 1][..i] == batch[..i];
      if !PrefixKnown(radio.cache, batch[i]) {
        radio.AddContact(batch[i]);
      }
    }
    assert batch[..|batch|] == batch;
  }

  /** Phase 1.  Batching changes nothing: the commands sent are one removal per unwanted key, in snapshot order. */
  method RemoveUnwanted(radio: Radio, initial: seq<Key>, desired: nat -> seq<Key>)
    returns (current: set<Key>, clock: nat)
    modifies radio
    ensures clock == Unwanted(initial, desired, |initial|).1
    ensures radio.View() ==
            RemoveAll(radio.backend, old(radio.View()), Unwanted(initial, desired, |initial|).0, radio.accepts)
    ensures current == Listed(radio.backend, Elements(initial), old(radio.commands),
                              Unwanted(initial, desired, |initial|).0, radio.accepts)
  {
    current, clock := Elements(initial), 0;
    var toRemove: seq<Key> := [];
    ghost var sent: seq<Key> := [];
    ghost var be, t, n := radio.backend, radio.View(), radio.commands;
    assert sent + toRemove == [];
    for i := 0 to |initial|
      invariant (sent + toRemove, clock) == Unwanted(initial, desired, i)
      invariant radio.View() == RemoveAll(be, t, sent, radio.accepts)
      invariant radio.commands == n + |sent|
      invariant current == Listed(be, Elements(initial), n, sent, radio.accepts)
    {
      var first := desired(clock);
      clock := clock + 1;
      if initial[i] in first {
        continue;
      }
      var recheck := desired(clock);
      clock := clock + 1;
      if initial[i] in recheck {
        continue;
      }
      Reassociate(sent, toRemove, initial[i]);
      toRemove := toRemove + [initial[i]];
      if |toRemove| >= BATCH_SIZE {
        RemoveAllSplit(be, t, sent, toRemove, radio.accepts);
        RemoveAllSplit(be, radio.View(), toRemove, [], radio.accepts);
        ListedSplit(be, Elements(initial), n, sent, toRemove, radio.accepts);
        current := RemoveBatch(radio, toRemove, current);
        sent, toRemove := sent + toRemove, [];
        assert sent + toRemove == sent;
      }
    }
    if toRemove != [] {
      RemoveAllSplit(be, t, sent, toRemove, radio.accepts);
      ListedSplit(be, Elements(initial), n, sent, toRemove, radio.accepts);
      current := RemoveBatch(radio, toRemove, current);
    } else {
      assert sent + toRemove == sent;
    }
  }

  lemma MissingSnoc(wanted: seq<Key>, i: nat, current: set<Key>)
    requires i < |wanted|
    ensures Missing(wanted[..i + 1], current) ==
            Missing(wanted[..i], current) + (if IsFull(wanted[i]) && wanted[i] !in current then [wanted[i]] else [])
  {
    assert wanted[..i + 1][..i] == wanted[..i];
  }

  /** Phase 2.  One addition attempt per missing key, in the desired order. */
  method AddMissing(radio: Radio, wanted: seq<Key>, current: set<Key>)
    modifies radio
    ensures radio.View() == AddAll(radio.backend, old(radio.View()), Missing(wanted, current), radio.accepts)
  {
    var toAdd: seq<Key> := [];
    ghost var sent: seq<Key> := [];
    ghost var be, t := radio.backend, radio.View();
    for i := 0 to |wanted|
      invariant sent + toAdd == Missing(wanted[..i], current)
      invariant radio.View() == AddAll(be, t, sent, radio.accepts)
    {
      MissingSnoc(wanted, i, current);
      if !IsFull(wanted[i]) || wanted[i] in current {
        continue;
      }
      Reassociate(sent, toAdd, wanted[i]);
      toAdd := toAdd + [wanted[i]];
      if |toAdd| >= BATCH_SIZE {
        AddAllSplit(be, t, sent, toAdd, radio.accepts);
        AddBatch(radio, toAdd);
        sent, toAdd := sent + toAdd, [];
        assert sent + toAdd == sent;
      }
    }
    assert wanted[..|wanted|] == wanted;
    if toAdd != [] {
      AddAllSplit(be, t, sent, toAdd, radio.accepts);
      AddBatch(radio, toAdd);
    } else {
      assert sent + toAdd == sent;
    }
  }

  /** The whole job, for any sequence of desired sets and any replies: it sends exactly the commands of the unbatched
      reference, so each queued key is handled once, in order. */
  method Reconcile(radio: Radio, initial: seq<Key>, desired: nat -> seq<Key>)
    modifies radio
    ensures radio.View() == Reconciled(radio.backend, old(radio.View()), initial, desired, radio.accepts)
  {
    var current, clock := RemoveUnwanted(radio, initial, desired);
    AddMissing(radio, desired(clock), current);
  }

  function Reconciled(be: Backend, t: Table, initial: seq<Key>, desired: nat -> seq<Key>, accepts: nat -> bool): Table {
    var (gone, clock) := Unwanted(initial, desired, |initial|);
    var current := Listed(be, Elements(initial), t.commands, gone, accepts);
    AddAll(be, RemoveAll(be, t, gone, accepts), Missing(desired(clock), current), accepts)
  }

  // ------------------------------------------------------------ which keys are removed

  lemma {:induction false} UnwantedAreListed(initial: seq<Key>, desired: nat -> seq<Key>, n: nat, k: Key)
    requires n <= |initial| && k in Unwanted(initial, desired, n).0
    ensures exists i :: 0 <= i < n && initial[i] == k
  {
    if k in Unwanted(initial, desired, n - 1).0 {
      UnwantedAreListed(initial, desired, n - 1, k);
      var i :| 0 <= i < n - 1 && initial[i] == k;
    } else {
      assert initial[n - 1] == k;
    }
  }

  /** With a changing desired set: a key of the snapshot is removed exactly when the two reads made at its turn both
      lack it. */
  lemma {:induction false} RemovedExactlyWhenTwiceUnwanted(initial: seq<Key>, desired: nat -> seq<Key>, n: nat, i: nat)
    requires Distinct(initial) && i < n <= |initial|
    ensures var clock := Unwanted(initial, desired, i).1;
            initial[i] in Unwanted(initial, desired, n).0 <==>
                initial[i] !in desired(clock) && initial[i] !in desired(clock + 1)
  {
    if i < n - 1 {
      RemovedExactlyWhenTwiceUnwanted(initial, desired, n - 1, i);
      assert initial[i] != initial[n - 1];
    } else if initial[i] in Unwanted(initial, desired, i).0 {
      UnwantedAreListed(initial, desired, i, initial[i]);
    }
  }

  /** Later reads do not count: a key that is desired again before its batch is full is removed all the same. */
  lemma DesiredAgainIsStillRemoved(a: Key, b: Key, desired: nat -> seq<Key>)
    requires a != b && a !in desired(0) && a !in desired(1)
    requires a in desired(2) && a in desired(3) && b !in desired(2) && b !in desired(3)
    ensures Unwanted([a, b], desired, 2) == ([a, b], 4)
  {
    assert Unwanted([a, b], desired, 0) == ([], 0);
    assert [] + [a] == [a] && [a] + [b] == [a, b];
    assert [a, b][0] == a && [a, b][1] == b;
    assert Unwanted([a, b], desired, 1) == ([a], 2);
  }

  // ------------------------------------------------------------ what the radio holds afterwards

  ghost predicate AllAccepted(be: Backend, accepts: nat -> bool) {
    forall n: nat :: Accepted(be, accepts, n)
  }

  lemma {:induction false} Removals(be: Backend, t: Table, current: set<Key>, ks: seq<Key>, accepts: nat -> bool)
    requires AllAccepted(be, accepts)
    ensures var after := RemoveAll(be, t, ks, accepts);
            after.contacts == (if be.Client? then t.contacts - Elements(ks) else t.contacts) && after.cache == t.cache
    ensures Listed(be, current, t.commands, ks, accepts) == current - Elements(ks)
  {
    if ks != [] {
      Removals(be, t, current, ks[..|ks| - 1], accepts);
      assert ks == ks[..|ks| - 1] + [ks[|ks| - 1]];
      assert Accepted(be, accepts, t.commands + |ks| - 1);
      assert Accepted(be, accepts, RemoveAll(be, t, ks[..|ks| - 1], accepts).commands);
    }
  }

  /** Whatever the radio refuses: behind the library, a list that is exact stays exact through the removals, because a
      refused removal stays listed. */
  lemma {:induction false} ListStaysExact(t: Table, ks: seq<Key>, accepts: nat -> bool)
    ensures Listed(Client, t.contacts, t.commands, ks, accepts) == RemoveAll(Client, t, ks, accepts).contacts
  {
    if ks != [] {
      var init := ks[..|ks| - 1];
      ListStaysExact(t, init, accepts);
      RemoveAllSplit(Client, t, init, [], accepts);
    }
  }

  lemma {:induction false} MissingKeys(wanted: seq<Key>, current: set<Key>)
    ensures Elements(Missing(wanted, current)) == set k | k in wanted && IsFull(k) && k !in current
  {
    if wanted != [] {
      var init, k := wanted[..|wanted| - 1], wanted[|wanted| - 1];
      MissingKeys(init, current);
      assert wanted == init + [k];
      assert Elements(Missing(init, current) + [k]) == Elements(Missing(init, current)) + {k};
    }
  }

  /** Whether the i-th key offered gets through: the cache knows no contact of its prefix, and on SPI, where an added
      contact is cached, no key offered before has it either. */
  ghost predicate GetsThrough(be: Backend, cache: set<Key>, ks: seq<Key>, i: nat)
    requires i < |ks|
  {
    !PrefixKnown(cache, ks[i]) && (be.Spi? ==> forall j :: 0 <= j < i ==> Prefix(ks[j]) != Prefix(ks[i]))
  }

  ghost function Through(be: Backend, cache: set<Key>, ks: seq<Key>): set<Key> {
    set i | 0 <= i < |ks| && GetsThrough(be, cache, ks, i) :: ks[i]
  }

  lemma ThroughSnoc(be: Backend, cache: set<Key>, ks: seq<Key>, k: Key)
    ensures Through(be, cache, ks + [k]) ==
            Through(be, cache, ks) + (if GetsThrough(be, cache, ks + [k], |ks|) then {k} else {})
  {
    var all := ks + [k];
    assert forall i :: 0 <= i < |ks| ==> all[i] == ks[i];
    forall i | 0 <= i < |ks| ensures GetsThrough(be, cache, all, i) <==> GetsThrough(be, cache, ks, i) {
      assert forall j :: 0 <= j < i ==> all[j] == ks[j];
    }
    forall x | x in Through(be, cache, ks) ensures x in Through(be, cache, all) {
      var i :| 0 <= i < |ks| && GetsThrough(be, cache, ks, i) && ks[i] == x;
      assert GetsThrough(be, cache, all, i) && all[i] == x;
    }
    if GetsThrough(be, cache, all, |ks|) {
      assert all[|ks|] == k;
    }
  }

  /** After some additions the cache knows a prefix iff it did before or, on SPI, a key with it was offered. */
  ghost predicate Learned(be: Backend, cache: set<Key>, ks: seq<Key>, after: set<Key>) {
    forall x {:trigger PrefixKnown(after, x)} ::
      PrefixKnown(after, x) <==> PrefixKnown(cache, x) || (be.Spi? && PrefixOffered(ks, x))
  }

  ghost predicate PrefixOffered(ks: seq<Key>, x: Key) {
    exists j :: 0 <= j < |ks| && Prefix(ks[j]) == Prefix(x)
  }

  lemma PrefixOfferedSnoc(ks: seq<Key>, k: Key, x: Key)
    ensures PrefixOffered(ks + [k], x) <==> PrefixOffered(ks, x) || Prefix(k) == Prefix(x)
  {
    var all := ks + [k];
    assert all[|ks|] == k;
    if PrefixOffered(ks, x) {
      var j :| 0 <= j < |ks| && Prefix(ks[j]) == Prefix(x);
      assert all[j] == ks[j];
    }
  }

  lemma LearnedSnoc(be: Backend, cache: set<Key>, ks: seq<Key>, k: Key, before: set<Key>, after: set<Key>)
    requires Learned(be, cache, ks, before)
    requires after == if be.Spi? && !PrefixKnown(before, k) then before + {k} else before
    ensures Learned(be, cache, ks + [k], after)
  {
    forall x
      ensures PrefixKnown(after, x) <==> PrefixKnown(cache, x) || (be.Spi? && PrefixOffered(ks + [k], x))
    {
      assert PrefixKnown(before, x) <==> PrefixKnown(cache, x) || (be.Spi? && PrefixOffered(ks, x));
      SamePrefix(before, after, k, x);
      PrefixOfferedSnoc(ks, k, x);
    }
  }

  lemma SamePrefix(before: set<Key>, after: set<Key>, k: Key, x: Key)
    requires after == before + {k} || (after == before)
    ensures after == before + {k} ==> (PrefixKnown(after, x) <==> PrefixKnown(before, x) || Prefix(k) == Prefix(x))
    ensures Prefix(k) == Prefix(x) ==> (PrefixKnown(before, x) <==> PrefixKnown(before, k))
  {
    if after == before + {k} {
      if PrefixKnown(before, x) {
        var c :| c in before && Prefix(c) == Prefix(x);
        assert c in after;
      }
      if Prefix(k) == Prefix(x) { assert k in after; }
    }
  }

  /** One accepted addition attempt. */
  lemma AdditionStep(be: Backend, t: Table, k: Key, accepts: nat -> bool)
    requires AllAccepted(be, accepts)
    ensures var after := AddOne(be, t, k, accepts);
            && after.contacts == t.contacts + (if PrefixKnown(t.cache, k) then {} else {k})
            && after.cache == if be.Spi? && !PrefixKnown(t.cache, k) then t.cache + {k} else t.cache
  {
    assert Accepted(be, accepts, t.commands);
  }

  lemma NextGetsThrough(be: Backend, cache: set<Key>, ks: seq<Key>, k: Key, before: set<Key>)
    requires Learned(be, cache, ks, before)
    ensures GetsThrough(be, cache, ks + [k], |ks|) <==> !PrefixKnown(before, k)
  {
    var all := ks + [k];
    assert all[|ks|] == k && forall j :: 0 <= j < |ks| ==> all[j] == ks[j];
    assert PrefixKnown(before, k) <==> PrefixKnown(cache, k) || (be.Spi? && PrefixOffered(ks, k));
  }

  /** What offering some keys makes of a table. */
  ghost predicate Offered(be: Backend, t: Table, ks: seq<Key>, after: Table) {
    after.contacts == t.contacts + Through(be, t.cache, ks) && Learned(be, t.cache, ks, after.cache)
  }

  lemma OfferedSnoc(be: Backend, t: Table, ks: seq<Key>, k: Key, before: Table, accepts: nat -> bool)
    requires AllAccepted(be, accepts) && Offered(be, t, ks, before)
    ensures Offered(be, t, ks + [k], AddOne(be, before, k, accepts))
  {
    AdditionStep(be, before, k, accepts);
    ThroughSnoc(be, t.cache, ks, k);
    NextGetsThrough(be, t.cache, ks, k, before.cache);
    LearnedSnoc(be, t.cache, ks, k, before.cache, AddOne(be, before, k, accepts).cache);
  }

  lemma NothingOffered(be: Backend, t: Table)
    ensures Offered(be, t, [], t)
  {
    assert Through(be, t.cache, []) == {};
  }

  /** The additions let through exactly the keys just described. */
  lemma {:induction false} Additions(be: Backend, t: Table, ks: seq<Key>, accepts: nat -> bool)
    requires AllAccepted(be, accepts)
    ensures Offered(be, t, ks, AddAll(be, t, ks, accepts))
  {
    if ks == [] {
      NothingOffered(be, t);
    } else {
      var init, k := ks[..|ks| - 1], ks[|ks| - 1];
      Additions(be, t, init, accepts);
      OfferedSnoc(be, t, init, k, AddAll(be, t, init, accepts), accepts);
      assert ks == init + [k];
    }
  }

  /** Main result 1: what the radio holds after the job, for any desired sets that change while it runs, any cache and
      an exact snapshot, when every command is accepted.  Behind the library the removed keys are gone; on SPI nothing
      is.  A missing key comes onto the radio exactly when its prefix gets through the cache. */
  lemma FinalContacts(be: Backend, t: Table, initial: seq<Key>, desired: nat -> seq<Key>, accepts: nat -> bool)
    requires Elements(initial) == t.contacts && AllAccepted(be, accepts)
    ensures var (gone, clock) := Unwanted(initial, desired, |initial|);
            var missing := Missing(desired(clock), t.contacts - Elements(gone));
            Reconciled(be, t, initial, desired, accepts).contacts ==
            (if be.Client? then t.contacts - Elements(gone) else t.contacts) + Through(be, t.cache, missing)
  {
    var (gone, clock) := Unwanted(initial, desired, |initial|);
    Removals(be, t, Elements(initial), gone, accepts);
    Additions(be, RemoveAll(be, t, gone, accepts), Missing(desired(clock), t.contacts - Elements(gone)), accepts);
  }

  /** Main result 2: behind the library, a key of the last read ends off the radio exactly when it was not kept (not
      there, or removed) and is no full key or one whose prefix the cache knows. */
  lemma DesiredButAbsent(t: Table, initial: seq<Key>, desired: nat -> seq<Key>, accepts: nat -> bool, k: Key)
    requires Elements(initial) == t.contacts && AllAccepted(Client, accepts)
    requires k in desired(Unwanted(initial, desired, |initial|).1)
    ensures k !in Reconciled(Client, t, initial, desired, accepts).contacts <==>
            && (k !in initial || k in Unwanted(initial, desired, |initial|).0)
            && (IsFull(k) ==> PrefixKnown(t.cache, k))
  {
    var (gone, clock) := Unwanted(initial, desired, |initial|);
    var kept := t.contacts - Elements(gone);
    FinalContacts(Client, t, initial, desired, accepts);
    MissingKeys(desired(clock), kept);
    ThroughClient(t.cache, Missing(desired(clock), kept), k);
    assert k in initial <==> k in Elements(initial);
    assert k in Missing(desired(clock), kept) <==> k in Elements(Missing(desired(clock), kept));
  }

  lemma ThroughClient(cache: set<Key>, ks: seq<Key>, k: Key)
    ensures k in Through(Client, cache, ks) <==> k in ks && !PrefixKnown(cache, k)
  {
    if k in ks && !PrefixKnown(cache, k) {
      var i :| 0 <= i < |ks| && ks[i] == k;
      assert GetsThrough(Client, cache, ks, i);
    }
  }

  /** So a key that is removed, and desired again by the last read, is not restored: it is still in the library's
      cache, which was filled by the snapshot. */
  lemma RemovedIsNotRestored(t: Table, initial: seq<Key>, desired: nat -> seq<Key>, accepts: nat -> bool, k: Key)
    requires Elements(initial) == t.contacts == t.cache && AllAccepted(Client, accepts)
    requires k in Unwanted(initial, desired, |initial|).0 && k in desired(Unwanted(initial, desired, |initial|).1)
    ensures k !in Reconciled(Client, t, initial, desired, accepts).contacts
  {
    UnwantedAreListed(initial, desired, |initial|, k);
    assert k in Elements(initial);
    assert PrefixKnown(t.cache, k);
    DesiredButAbsent(t, initial, desired, accepts, k);
  }

  /** Two contacts on the radio, the first unwanted for a moment only: it ends off the radio. */
  lemma DesiredAgainIsLost(a: Key, b: Key, desired: nat -> seq<Key>, accepts: nat -> bool)
    requires a != b && a !in desired(0) && a !in desired(1) && AllAccepted(Client, accepts)
    requires forall c: nat :: 2 <= c <= 4 ==> a in desired(c) && b !in desired(c)
    ensures a !in Reconciled(Client, Table({a, b}, {a, b}, 0), [a, b], desired, accepts).contacts
  {
    DesiredAgainIsStillRemoved(a, b, desired);
    assert Elements([a, b]) == {a, b};
    assert a in [a, b];
    RemovedIsNotRestored(Table({a, b}, {a, b}, 0), [a, b], desired, accepts, a);
  }

  /** In plain numbers: a wanted contact that is not on the radio is added exactly when its key has 64 digits or more
      and no cached contact's key begins with its first 12. */
  lemma AddedExactly(t: Table, initial: seq<Key>, desired: nat -> seq<Key>, accepts: nat -> bool, k: Key)
    requires Elements(initial) == t.contacts && AllAccepted(Client, accepts) && |k| >= 12
    requires k in desired(Unwanted(initial, desired, |initial|).1) && k !in initial
    ensures k in Reconciled(Client, t, initial, desired, accepts).contacts <==>
            |k| >= 64 && forall c :: c in t.cache ==> !(k[..12] <= c)
  {
    DesiredButAbsent(t, initial, desired, accepts, k);
    assert k[..12] == Prefix(k);
    forall c ensures k[..12] <= c <==> Prefix(c) == Prefix(k) {
      TwelveDigits(k, c);
    }
  }

  lemma TwelveDigits(k: Key, c: Key)
    requires |k| >= 12
    ensures k[..12] <= c <==> Prefix(c) == Prefix(k)
  {
    if |c| >= 12 {
      assert k[..12] <= c <==> k[..12] == c[..12];
    }
  }

  // ------------------------------------------------------------ a stable desired set

  ghost predicate Stable(desired: nat -> seq<Key>, wanted: seq<Key>) {
    forall c: nat :: desired(c) == wanted
  }

  lemma {:induction false} StableUnwanted(initial: seq<Key>, desired: nat -> seq<Key>, wanted: seq<Key>, n: nat)
    requires n <= |initial| && Stable(desired, wanted)
    ensures Elements(Unwanted(initial, desired, n).0) == Elements(initial[..n]) - Elements(wanted)
  {
    if n > 0 {
      StableUnwanted(initial, desired, wanted, n - 1);
      var (found, clock) := Unwanted(initial, desired, n - 1);
      var k := initial[n - 1];
      assert initial[..n] == initial[..n - 1] + [k];
      assert Elements(initial[..n]) == Elements(initial[..n - 1]) + {k};
      assert Elements(found + [k]) == Elements(found) + {k};
    }
  }

  /** The contacts a stable desired set should lead to: those there and wanted, and every wanted full key. */
  ghost function Target(initial: seq<Key>, wanted: seq<Key>): set<Key> {
    (Elements(initial) * Elements(wanted)) + (set k | k in wanted && IsFull(k))
  }

  /** The wanted full keys that are not on the radio, as the job queues them. */
  ghost function ToAdd(initial: seq<Key>, wanted: seq<Key>): seq<Key> {
    Missing(wanted, Elements(initial) * Elements(wanted))
  }

  /** No key to be added has a prefix that the cache knows. */
  ghost predicate Unblocked(cache: set<Key>, initial: seq<Key>, wanted: seq<Key>) {
    forall k :: k in wanted && IsFull(k) && k !in initial ==> !PrefixKnown(cache, k)
  }

  /** Every key offered gets through. */
  ghost predicate AllThrough(be: Backend, cache: set<Key>, ks: seq<Key>) {
    forall i :: 0 <= i < |ks| ==> GetsThrough(be, cache, ks, i)
  }

  lemma ToAddKeys(initial: seq<Key>, wanted: seq<Key>)
    ensures Elements(ToAdd(initial, wanted)) == set k | k in wanted && IsFull(k) && k !in initial
    ensures (Elements(initial) * Elements(wanted)) + Elements(ToAdd(initial, wanted)) == Target(initial, wanted)
  {
    MissingKeys(wanted, Elements(initial) * Elements(wanted));
  }

  lemma {:induction false} MissingDistinct(wanted: seq<Key>, current: set<Key>)
    requires Distinct(wanted)
    ensures Distinct(Missing(wanted, current))
  {
    if wanted != [] {
      var init := wanted[..|wanted| - 1];
      MissingDistinct(init, current);
      MissingKeys(init, current);
      forall i | 0 <= i < |Missing(init, current)| ensures Missing(init, current)[i] != wanted[|wanted| - 1] {
        assert Missing(init, current)[i] in Elements(Missing(init, current));
      }
    }
  }

  /** Of distinct keys, all come through as a set exactly when each gets through. */
  lemma EveryOneThrough(be: Backend, cache: set<Key>, ks: seq<Key>)
    requires Distinct(ks)
    ensures Through(be, cache, ks) <= Elements(ks)
    ensures Through(be, cache, ks) == Elements(ks) <==> AllThrough(be, cache, ks)
  {
    if Through(be, cache, ks) == Elements(ks) {
      forall i | 0 <= i < |ks| ensures GetsThrough(be, cache, ks, i) {
        assert ks[i] in Elements(ks);
        var j :| 0 <= j < |ks| && GetsThrough(be, cache, ks, j) && ks[j] == ks[i];
        assert i == j;
      }
    }
    if AllThrough(be, cache, ks) {
      forall k | k in ks ensures k in Through(be, cache, ks) {
        var i :| 0 <= i < |ks| && ks[i] == k;
        assert GetsThrough(be, cache, ks, i);
      }
    }
  }

  /** What the radio holds after a job with a stable desired set. */
  lemma StableContacts(be: Backend, t: Table, initial: seq<Key>, desired: nat -> seq<Key>, wanted: seq<Key>,
                       accepts: nat -> bool)
    requires Elements(initial) == t.contacts && Stable(desired, wanted) && AllAccepted(be, accepts)
    ensures Reconciled(be, t, initial, desired, accepts).contacts ==
            (if be.Client? then Elements(initial) * Elements(wanted) else Elements(initial)) +
            Through(be, t.cache, ToAdd(initial, wanted))
  {
    var (gone, clock) := Unwanted(initial, desired, |initial|);
    FinalContacts(be, t, initial, desired, accepts);
    StableUnwanted(initial, desired, wanted, |initial|);
    assert initial[..|initial|] == initial;
    assert t.contacts - Elements(gone) == Elements(initial) * Elements(wanted);
  }

  /** Main result 3: with an exact snapshot, a stable desired set and a radio that accepts every command, the radio
      behind the library ends inside the target, and equal to it exactly when the cache knows no prefix of a key to be
      added. */
  lemma StableReconciliation(t: Table, initial: seq<Key>, desired: nat -> seq<Key>, wanted: seq<Key>,
                             accepts: nat -> bool)
    requires Elements(initial) == t.contacts && Stable(desired, wanted) && Distinct(wanted)
             && AllAccepted(Client, accepts)
    ensures var after := Reconciled(Client, t, initial, desired, accepts).contacts;
            && after <= Target(initial, wanted)
            && (after == Target(initial, wanted) <==> Unblocked(t.cache, initial, wanted))
  {
    var ks := ToAdd(initial, wanted);
    StableContacts(Client, t, initial, desired, wanted, accepts);
    ToAddKeys(initial, wanted);
    MissingDistinct(wanted, Elements(initial) * Elements(wanted));
    EveryOneThrough(Client, t.cache, ks);
    UnblockedIsAllThrough(t.cache, initial, wanted);
    assert (Elements(initial) * Elements(wanted)) !! Elements(ks);
  }

  lemma UnblockedIsAllThrough(cache: set<Key>, initial: seq<Key>, wanted: seq<Key>)
    ensures Unblocked(cache, initial, wanted) <==> AllThrough(Client, cache, ToAdd(initial, wanted))
  {
    var ks := ToAdd(initial, wanted);
    ToAddKeys(initial, wanted);
    if Unblocked(cache, initial, wanted) {
      forall i | 0 <= i < |ks| ensures GetsThrough(Client, cache, ks, i) {
        assert ks[i] in Elements(ks);
      }
    }
    if AllThrough(Client, cache, ks) {
      forall k | k in wanted && IsFull(k) && k !in initial ensures !PrefixKnown(cache, k) {
        assert k in Elements(ks);
        var i :| 0 <= i < |ks| && ks[i] == k;
        assert GetsThrough(Client, cache, ks, i);
      }
    }
  }

  /** On SPI nothing leaves: the target is reached exactly when nothing had to leave and, besides the cache, no two
      keys to be added share a prefix. */
  lemma StableOnSpi(t: Table, initial: seq<Key>, desired: nat -> seq<Key>, wanted: seq<Key>, accepts: nat -> bool)
    requires Elements(initial) == t.contacts && Stable(desired, wanted) && Distinct(wanted)
    ensures var after := Reconciled(Spi, t, initial, desired, accepts).contacts;
            && t.contacts <= after
            && (after == Target(initial, wanted) <==>
                  Elements(initial) <= Elements(wanted) && AllThrough(Spi, t.cache, ToAdd(initial, wanted)))
  {
    var ks := ToAdd(initial, wanted);
    StableContacts(Spi, t, initial, desired, wanted, accepts);
    ToAddKeys(initial, wanted);
    MissingDistinct(wanted, Elements(initial) * Elements(wanted));
    EveryOneThrough(Spi, t.cache, ks);
    assert Target(initial, wanted) <= Elements(wanted);
    assert Elements(initial) !! Elements(ks);
  }

  /** One unwanted contact, on SPI: it stays. */
  lemma SpiRemovesNothing(x: Key, desired: nat -> seq<Key>, accepts: nat -> bool)
    requires Stable(desired, [])
    ensures Reconciled(Spi, Table({x}, {x}, 0), [x], desired, accepts).contacts == {x}
    ensures Target([x], []) == {}
  {
    var t := Table({x}, {x}, 0);
    assert Elements([x]) == {x};
    StableContacts(Spi, t, [x], desired, [], accepts);
    ToAddKeys([x], []);
    EveryOneThrough(Spi, t.cache, ToAdd([x], []));
  }

  /** The condition can fail although the prefixes of all wanted keys differ: a removed contact still blocks the key
      that replaces it. */
  lemma StaleCacheBlocks(old': Key, new': Key, desired: nat -> seq<Key>, accepts: nat -> bool)
    requires old' != new' && Prefix(old') == Prefix(new') && IsFull(new')
    requires Stable(desired, [new']) && AllAccepted(Client, accepts)
    ensures Reconciled(Client, Table({old'}, {old'}, 0), [old'], desired, accepts).contacts == {}
    ensures Target([old'], [new']) == {new'}
  {
    var t := Table({old'}, {old'}, 0);
    var wanted := [new'];
    assert Elements([old']) == {old'} && Elements(wanted) == {new'};
    StableContacts(Client, t, [old'], desired, wanted, accepts);
    ToAddKeys([old'], wanted);
    var ks := ToAdd([old'], wanted);
    forall i | 0 <= i < |ks| ensures !GetsThrough(Client, t.cache, ks, i) {
      assert ks[i] in Elements(ks);
      assert old' in t.cache;
    }
    assert {old'} * {new'} == {};
  }

  /** At no step does a radio behind the library hold more contacts than it started with or than are wanted: the tables
      it passes through are those after each prefix of the removals, then after each prefix of the additions. */
  lemma NeverOverfull(t: Table, initial: seq<Key>, desired: nat -> seq<Key>, wanted: seq<Key>, accepts: nat -> bool,
                      i: nat)
    requires Elements(initial) == t.contacts && Stable(desired, wanted) && AllAccepted(Client, accepts)
    ensures var (gone, clock) := Unwanted(initial, desired, |initial|);
            i <= |gone| ==> |RemoveAll(Client, t, gone[..i], accepts).contacts| <= |initial|
    ensures var (gone, clock) := Unwanted(initial, desired, |initial|);
            var missing := Missing(wanted, Listed(Client, Elements(initial), t.commands, gone, accepts));
            i <= |missing| ==>
              |AddAll(Client, RemoveAll(Client, t, gone, accepts), missing[..i], accepts).contacts| <= |wanted|
  {
    var (gone, clock) := Unwanted(initial, desired, |initial|);
    ElementsCount(initial);
    ElementsCount(wanted);
    StableUnwanted(initial, desired, wanted, |initial|);
    assert initial[..|initial|] == initial;
    Removals(Client, t, Elements(initial), gone, accepts);
    if i <= |gone| {
      Removals(Client, t, Elements(initial), gone[..i], accepts);
      SubsetCount(t.contacts - Elements(gone[..i]), t.contacts);
    }
    var current := Listed(Client, Elements(initial), t.commands, gone, accepts);
    var missing := Missing(wanted, current);
    MissingKeys(wanted, current);
    if i <= |missing| {
      var t1 := RemoveAll(Client, t, gone, accepts);
      Additions(Client, t1, missing[..i], accepts);
      assert Through(Client, t1.cache, missing[..i]) <= Elements(missing);
      SubsetCount(AddAll(Client, t1, missing[..i], accepts).contacts, Elements(wanted));
    }
  }
}
