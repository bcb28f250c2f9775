/**
 * The channel-slot cache of the radio manager: an ordered dictionary from channel key to radio slot and its
 * inverse, used to skip re-writing a channel before every send.
 *
 * The cache is specified by the history of what happened to it.  Where and Stamp read a history without knowing
 * how the cache is stored; Refines says that the stored maps are exactly what the history prescribes.
 */
module ChannelSlots {
  import opened Common

  datatype Entry<K> = Entry(key: K, slot: nat)

  datatype Event<K> =
    | Load(key: K, slot: nat)
    | Use(key: K)
    | Drop(key: K)
    | Forget

  /** What has happened to the cache, oldest event innermost. */
  datatype History<K> = Start | Then(before: History<K>, event: Event<K>)

  // ------------------------------------------------------------ reference: a history-based LRU

  /** The slot a key lives in after a history: its last load, unless dropped, forgotten or overwritten since. */
  ghost function Where<K>(h: History<K>, k: K): Option<nat> {
    match h
    case Start => None
    case Then(before, Load(key, slot)) =>
      if key == k then Some(slot) else if Where(before, k) == Some(slot) then None else Where(before, k)
    case Then(before, Use(_)) => Where(before, k)
    case Then(before, Drop(key)) => if key == k then None else Where(before, k)
    case Then(_, Forget) => None
  }

  ghost function Age<K>(h: History<K>): nat {
    if h.Start? then 0 else Age(h.before) + 1
  }

  /** The time (1-based position in the history) of a key's last load or use; 0 when there is none. */
  ghost function Stamp<K>(h: History<K>, k: K): (t: nat)
    ensures t <= Age(h)
  {
    match h
    case Start => 0
    case Then(before, e) => if (e.Load? || e.Use?) && e.key == k then Age(h) else Stamp(before, k)
  }

  // ------------------------------------------------------------ the ordered dictionary

  /** `OrderedDict.get`. */
  function Lookup<K(==)>(order: seq<Entry<K>>, k: K): Option<nat> {
    if order == [] then None
    else if order[0].key == k then Some(order[0].slot)
    else Lookup(order[1..], k)
  }

  /** `OrderedDict.pop(k, None)`: the entries without those of key k, order kept. */
  function Without<K(==)>(order: seq<Entry<K>>, k: K): seq<Entry<K>> {
    if order == [] then []
    else if order[0].key == k then Without(order[1..], k)
    else [order[0]] + Without(order[1..], k)
  }

  /** `d[k] = slot`: a known key keeps its place, a new one goes to the end. */
  function Put<K(==)>(order: seq<Entry<K>>, k: K, slot: nat): seq<Entry<K>> {
    if order == [] then [Entry(k, slot)]
    else if order[0].key == k then [Entry(k, slot)] + order[1..]
    else [order[0]] + Put(order[1..], k, slot)
  }

  lemma {:induction false} LookupWithout<K>(order: seq<Entry<K>>, k: K, j: K)
    ensures Lookup(Without(order, k), j) == if j == k then None else Lookup(order, j)
  {
    if order != [] {
      LookupWithout(order[1..], k, j);
      if order[0].key != k {
        assert Without(order, k)[1..] == Without(order[1..], k);
      }
    }
  }

  lemma {:induction false} PutNew<K>(order: seq<Entry<K>>, k: K, slot: nat)
    requires Lookup(order, k) == None
    ensures Put(order, k, slot) == order + [Entry(k, slot)]
  {
    if order != [] {
      PutNew(order[1..], k, slot);
    }
  }

  lemma {:induction false} LookupAppend<K>(order: seq<Entry<K>>, k: K, slot: nat, j: K)
    requires Lookup(order, k) == None
    ensures Lookup(order + [Entry(k, slot)], j) == if j == k then Some(slot) else Lookup(order, j)
  {
    if order != [] {
      LookupAppend(order[1..], k, slot, j);
      assert (order + [Entry(k, slot)])[1..] == order[1..] + [Entry(k, slot)];
    }
  }

  lemma {:induction false} LookupAt<K>(order: seq<Entry<K>>, k: K)
    ensures Lookup(order, k).Some? <==> exists i :: 0 <= i < |order| && order[i].key == k
    ensures Lookup(order, k).Some? ==> Entry(k, Lookup(order, k).value) in order
  {
    if order != [] {
      LookupAt(order[1..], k);
      if i :| 0 <= i < |order| && order[i].key == k {
        assert i == 0 || order[1..][i - 1].key == k;
      }
    }
  }

  /** Every entry's key was last touched strictly later than the keys before it. */
  ghost predicate ByRecency<K>(stamp: K -> nat, order: seq<Entry<K>>) {
    forall i, j :: 0 <= i < j < |order| ==> stamp(order[i].key) < stamp(order[j].key)
  }

  ghost function Recency<K>(h: History<K>): K -> nat {
    k => Stamp(h, k)
  }

  lemma {:induction false} WithoutMembers<K>(order: seq<Entry<K>>, k: K)
    ensures forall i :: 0 <= i < |Without(order, k)| ==> Without(order, k)[i] in order && Without(order, k)[i].key != k
  {
    if order != [] {
      WithoutMembers(order[1..], k);
      assert order == [order[0]] + order[1..];
    }
  }

  /** Popping keeps the recency order of what remains. */
  lemma {:induction false} WithoutKeepsOrder<K>(stamp: K -> nat, order: seq<Entry<K>>, k: K)
    requires ByRecency(stamp, order)
    ensures ByRecency(stamp, Without(order, k))
  {
    if order != [] {
      var rest := order[1..];
      WithoutKeepsOrder(stamp, rest, k);
      WithoutMembers(rest, k);
      var kept := Without(rest, k);
      forall j | 0 <= j < |kept| ensures stamp(order[0].key) < stamp(kept[j].key) {
        assert kept[j] in rest;
        var i :| 0 <= i < |rest| && rest[i] == kept[j];
        assert order[i + 1] == kept[j];
      }
    }
  }

  /** In recency order no key occurs twice, so each entry is what Lookup finds. */
  lemma {:induction false} EntryFound<K>(stamp: K -> nat, order: seq<Entry<K>>, i: nat)
    requires ByRecency(stamp, order) && i < |order|
    ensures Lookup(order, order[i].key) == Some(order[i].slot)
  {
    if i > 0 {
      assert stamp(order[0].key) < stamp(order[i].key);
      EntryFound(stamp, order[1..], i - 1);
    }
  }

  /** The oldest key occurs once. */
  lemma HeadOnce<K>(stamp: K -> nat, order: seq<Entry<K>>)
    requires ByRecency(stamp, order) && order != []
    ensures Lookup(order[1..], order[0].key).None?
  {
    LookupAt(order[1..], order[0].key);
    assert forall i :: 0 <= i < |order[1..]| ==> order[1..][i] == order[i + 1];
  }

  // ------------------------------------------------------------ recency

  ghost predicate Oldest<K(!new)>(h: History<K>, k: K) {
    Where(h, k).Some? && forall j :: Where(h, j).Some? && j != k ==> Stamp(h, k) < Stamp(h, j)
  }

  ghost predicate Freshest<K(!new)>(h: History<K>, k: K) {
    Where(h, k).Some? && forall j :: Where(h, j).Some? && j != k ==> Stamp(h, j) < Stamp(h, k)
  }

  /** What may happen to the other keys: no time of use changes, and at most the given one loses its place. */
  ghost predicate OthersKept<K(!new)>(h: History<K>, h': History<K>, k: K, loses: Option<K>) {
    forall j :: j != k ==> OtherKept(h, h', j, loses)
  }

  ghost predicate OtherKept<K(!new)>(h: History<K>, h': History<K>, j: K, loses: Option<K>) {
    Stamp(h', j) == Stamp(h, j) && Where(h', j) == if loses == Some(j) then None else Where(h, j)
  }

  lemma KeptThenKept<K(!new)>(h: History<K>, between: History<K>, h': History<K>, k: K, loses: Option<K>)
    requires OthersKept(h, between, k, loses) && OthersKept(between, h', k, None)
    ensures OthersKept(h, h', k, loses)
  {
    forall j | j != k ensures OtherKept(h, h', j, loses) {
      assert OtherKept(h, between, j, loses) && OtherKept(between, h', j, None);
    }
  }

  /** A load or use makes its key the freshest. */
  lemma TouchedIsFreshest<K(!new)>(h: History<K>, e: Event<K>)
    requires e.Load? || (e.Use? && Where(h, e.key).Some?)
    ensures Freshest(Then(h, e), e.key)
  {
  }

  /** The key sent last is not the next to go while another key is cached. */
  lemma FreshestIsNotOldest<K(!new)>(h: History<K>, k: K, other: K)
    requires Freshest(h, k) && Where(h, other).Some? && other != k
    ensures !Oldest(h, k)
  {
  }

  // ------------------------------------------------------------ refinement

  /** Residents and slots as the history says. */
  ghost predicate Resident<K(!new)>(h: History<K>, order: seq<Entry<K>>) {
    forall k :: Lookup(order, k) == Where(h, k)
  }

  /** The slot map is the inverse of residence. */
  ghost predicate Inverse<K(!new)>(h: History<K>, keyBySlot: map<nat, K>) {
    && (forall s :: s in keyBySlot ==> Where(h, keyBySlot[s]) == Some(s))
    && (forall k :: Where(h, k).Some? ==>
                      Where(h, k).value in keyBySlot && keyBySlot[Where(h, k).value] == k)
  }

  /** The stored maps are what the history prescribes: same residents, same slots, inverse map, recency order. */
  ghost predicate Refines<K(!new)>(h: History<K>, order: seq<Entry<K>>, keyBySlot: map<nat, K>) {
    Resident(h, order) && ByRecency(Recency(h), order) && Inverse(h, keyBySlot)
  }

  /** Recency leaves one possible order for given residents and slots. */
  lemma {:induction false} OrderIsUnique<K(!new)>(stamp: K -> nat, a: seq<Entry<K>>, b: seq<Entry<K>>)
    requires ByRecency(stamp, a) && ByRecency(stamp, b)
    requires forall k :: Lookup(a, k) == Lookup(b, k)
    ensures a == b
  {
    if a == [] {
      assert b != [] ==> Lookup(a, b[0].key) == Lookup(b, b[0].key);
    } else {
      assert Lookup(a, a[0].key).Some?;
      LookupAt(b, a[0].key);
      assert Lookup(b, b[0].key).Some?;
      LookupAt(a, b[0].key);
      var i :| 0 <= i < |b| && b[i].key == a[0].key;
      var j :| 0 <= j < |a| && a[j].key == b[0].key;
      assert a[0].key == b[0].key;
      forall k ensures Lookup(a[1..], k) == Lookup(b[1..], k) {
        assert Lookup(a, k) == Lookup(b, k);
        if k == a[0].key {
          HeadOnce(stamp, a);
          HeadOnce(stamp, b);
        }
      }
      OrderIsUnique(stamp, a[1..], b[1..]);
    }
  }

  /** Appending the key touched last keeps the recency order. */
  lemma AppendRecent<K>(stamp: K -> nat, stamp': K -> nat, rest: seq<Entry<K>>, e: Entry<K>)
    requires ByRecency(stamp, rest)
    requires forall i :: 0 <= i < |rest| ==> rest[i].key != e.key
    requires forall k :: k != e.key ==> stamp'(k) == stamp(k) < stamp'(e.key)
    ensures ByRecency(stamp', rest + [e])
  {
  }

  /** A history determines everything that is stored. */
  lemma RefinementIsUnique<K(!new)>(h: History<K>, a: seq<Entry<K>>, m: map<nat, K>, b: seq<Entry<K>>, n: map<nat, K>)
    requires Refines(h, a, m) && Refines(h, b, n)
    ensures a == b && m == n
  {
    OrderIsUnique(Recency(h), a, b);
  }

  lemma InverseAfterLoad<K(!new)>(h: History<K>, keyBySlot: map<nat, K>, k: K, slot: nat)
    requires Inverse(h, keyBySlot)
    ensures var freed := if Where(h, k).Some? && Where(h, k).value != slot then keyBySlot - {Where(h, k).value}
                         else keyBySlot;
            Inverse(Then(h, Load(k, slot)), freed[slot := k])
  {
    var h' := Then(h, Load(k, slot));
    var freed := if Where(h, k).Some? && Where(h, k).value != slot then keyBySlot - {Where(h, k).value} else keyBySlot;
    forall s | s in freed[slot := k] ensures Where(h', freed[slot := k][s]) == Some(s) {
      if s != slot { assert s in keyBySlot && Where(h, keyBySlot[s]) == Some(s); }
    }
    forall j | Where(h', j).Some?
      ensures Where(h', j).value in freed[slot := k] && freed[slot := k][Where(h', j).value] == j {
      if j != k { assert Where(h, j) == Where(h', j) && Where(h, j) != Some(slot); }
    }
  }

  lemma InverseAfterUse<K(!new)>(h: History<K>, keyBySlot: map<nat, K>, k: K)
    requires Inverse(h, keyBySlot)
    ensures Inverse(Then(h, Use(k)), keyBySlot)
    ensures Where(h, k).Some? ==> keyBySlot[Where(h, k).value := k] == keyBySlot
  {
    var h' := Then(h, Use(k));
    forall s | s in keyBySlot ensures Where(h', keyBySlot[s]) == Some(s) {
      assert Where(h, keyBySlot[s]) == Some(s);
    }
    forall j | Where(h', j).Some? ensures Where(h', j).value in keyBySlot && keyBySlot[Where(h', j).value] == j {
      assert Where(h, j) == Where(h', j);
    }
  }

  /** A load claims its slot for its key and touches no other claim that stays. */
  lemma LoadClaims<K(!new)>(h: History<K>, before: map<nat, K>, after: map<nat, K>, k: K, slot: nat)
    requires Inverse(h, before) && Inverse(Then(h, Load(k, slot)), after)
    ensures forall s :: s in after ==> if s == slot then after[s] == k else s in before && before[s] == after[s]
  {
    var h' := Then(h, Load(k, slot));
    forall s | s in after ensures if s == slot then after[s] == k else s in before && before[s] == after[s] {
      assert Where(h', after[s]) == Some(s);
      if s != slot {
        assert Where(h', k) == Some(slot) && after[s] != k;
        assert Where(h, after[s]) == Some(s);
      }
    }
  }

  lemma InverseAfterDrop<K(!new)>(h: History<K>, keyBySlot: map<nat, K>, k: K)
    requires Inverse(h, keyBySlot)
    ensures Inverse(Then(h, Drop(k)), if Where(h, k).Some? then keyBySlot - {Where(h, k).value} else keyBySlot)
  {
    var h' := Then(h, Drop(k));
    var freed := if Where(h, k).Some? then keyBySlot - {Where(h, k).value} else keyBySlot;
    forall s | s in freed ensures Where(h', freed[s]) == Some(s) {
      assert s in keyBySlot && Where(h, keyBySlot[s]) == Some(s);
    }
    forall j | Where(h', j).Some? ensures Where(h', j).value in freed && freed[Where(h', j).value] == j {
      assert j != k && Where(h, j) == Where(h', j);
    }
  }

  /** `note_channel_slot_loaded`: pop the key and whatever the slot held, then append. */
  lemma LoadRefines<K(!new)>(h: History<K>, order: seq<Entry<K>>, keyBySlot: map<nat, K>, k: K, slot: nat)
    requires Refines(h, order, keyBySlot)
    ensures var popped := Without(order, k);
            var rest := if slot in keyBySlot && keyBySlot[slot] != k then Without(popped, keyBySlot[slot]) else popped;
            var freed := if Where(h, k).Some? && Where(h, k).value != slot then keyBySlot - {Where(h, k).value}
                         else keyBySlot;
            && Lookup(rest, k) == None
            && Refines(Then(h, Load(k, slot)), rest + [Entry(k, slot)], freed[slot := k])
  {
    var h' := Then(h, Load(k, slot));
    var popped := Without(order, k);
    WithoutKeepsOrder(Recency(h), order, k);
    WithoutMembers(order, k);
    LookupWithout(order, k, k);
    var rest := popped;
    if slot in keyBySlot && keyBySlot[slot] != k {
      rest := Without(popped, keyBySlot[slot]);
      WithoutKeepsOrder(Recency(h), popped, keyBySlot[slot]);
      WithoutMembers(popped, keyBySlot[slot]);
      LookupWithout(popped, keyBySlot[slot], k);
    }
    AppendRecent(Recency(h), Recency(h'), rest, Entry(k, slot));
    InverseAfterLoad(h, keyBySlot, k, slot);
    forall j ensures Lookup(rest + [Entry(k, slot)], j) == Where(h', j) {
      LookupWithout(order, k, j);
      if slot in keyBySlot && keyBySlot[slot] != k { LookupWithout(popped, keyBySlot[slot], j); }
      LookupAppend(rest, k, slot, j);
      assert Lookup(order, j) == Where(h, j);
    }
  }

  /** `note_channel_slot_used`: a resident key moves to the end, others leave the cache alone. */
  lemma UseRefines<K(!new)>(h: History<K>, order: seq<Entry<K>>, keyBySlot: map<nat, K>, k: K)
    requires Refines(h, order, keyBySlot)
    ensures Where(h, k).None? ==> Refines(Then(h, Use(k)), order, keyBySlot)
    ensures Where(h, k).Some? ==>
              var slot := Where(h, k).value;
              Refines(Then(h, Use(k)), Without(order, k) + [Entry(k, slot)], keyBySlot[slot := k])
  {
    var h' := Then(h, Use(k));
    InverseAfterUse(h, keyBySlot, k);
    if Where(h, k).None? {
      assert forall j :: Lookup(order, j) == Where(h, j) == Where(h', j);
      forall i | 0 <= i < |order| ensures order[i].key != k {
        EntryFound(Recency(h), order, i);
      }
      assert forall i :: 0 <= i < |order| ==> Recency(h')(order[i].key) == Recency(h)(order[i].key);
    } else {
      var slot := Where(h, k).value;
      var rest := Without(order, k);
      WithoutKeepsOrder(Recency(h), order, k);
      WithoutMembers(order, k);
      LookupWithout(order, k, k);
      AppendRecent(Recency(h), Recency(h'), rest, Entry(k, slot));
      forall j ensures Lookup(rest + [Entry(k, slot)], j) == Where(h', j) {
        LookupWithout(order, k, j);
        LookupAppend(rest, k, slot, j);
        assert Lookup(order, j) == Where(h, j);
      }
    }
  }

  /** `invalidate_cached_channel_slot`. */
  lemma DropRefines<K(!new)>(h: History<K>, order: seq<Entry<K>>, keyBySlot: map<nat, K>, k: K)
    requires Refines(h, order, keyBySlot)
    ensures Refines(Then(h, Drop(k)), Without(order, k),
                    if Where(h, k).Some? then keyBySlot - {Where(h, k).value} else keyBySlot)
  {
    var h' := Then(h, Drop(k));
    WithoutKeepsOrder(Recency(h), order, k);
    assert forall j :: Recency(h')(j) == Recency(h)(j);
    InverseAfterDrop(h, keyBySlot, k);
    forall j ensures Lookup(Without(order, k), j) == Where(h', j) {
      LookupWithout(order, k, j);
      assert Lookup(order, j) == Where(h, j);
    }
  }

  // ------------------------------------------------------------ counting slots

  /** The cache holds as many keys as claimed slots. */
  lemma ResidentsCount<K(!new)>(h: History<K>, order: seq<Entry<K>>, keyBySlot: map<nat, K>)
    requires Refines(h, order, keyBySlot)
    ensures |order| == |keyBySlot.Keys|
  {
    var slots := seq(|order|, i requires 0 <= i < |order| => order[i].slot);
    forall i | 0 <= i < |order| ensures Where(h, order[i].key) == Some(slots[i]) {
      EntryFound(Recency(h), order, i);
    }
    assert Distinct(slots) by {
      forall i, j | 0 <= i < j < |slots| ensures slots[i] != slots[j] {
        assert Stamp(h, order[i].key) < Stamp(h, order[j].key);
      }
    }
    ElementsCount(slots);
    assert Elements(slots) == keyBySlot.Keys by {
      forall s | s in keyBySlot ensures s in slots {
        LookupAt(order, keyBySlot[s]);
        var i :| 0 <= i < |order| && order[i] == Entry(keyBySlot[s], s);
        assert slots[i] == s;
      }
    }
  }

  /** By pigeonhole: a cache that is not full leaves a slot free, a full one claims every slot. */
  lemma FreeOrFull<K(!new)>(h: History<K>, order: seq<Entry<K>>, keyBySlot: map<nat, K>, capacity: nat)
    requires Refines(h, order, keyBySlot)
    requires forall s :: s in keyBySlot ==> s < capacity
    ensures |order| < capacity ==> exists s :: 0 <= s < capacity && s !in keyBySlot
    ensures |order| >= capacity ==> |order| == capacity && forall s :: 0 <= s < capacity ==> s in keyBySlot
  {
    ResidentsCount(h, order, keyBySlot);
    Pigeonhole(keyBySlot.Keys, capacity);
    if |order| < capacity {
      var s: nat :| s < capacity && s !in keyBySlot.Keys;
      assert 0 <= s < capacity && s !in keyBySlot;
    }
  }

  // ------------------------------------------------------------ the radio

  /** Channel keys: upper-case hex. */
  type Key = string

  /** What a radio slot holds: the channel secret as upper-case hex, and the channel name. */
  datatype Channel = Channel(secretHex: Key, name: string)

  datatype WriteOutcome =
    | Written
    | WriteFailed(left: Option<Channel>)  // an error reply or an exception: the slot may hold anything afterwards
    | WriteCancelled(left: Option<Channel>)  // cancelled while the write was under way: likewise

  /** NoResponse stands for every end of a send but a reply: none, an exception, a cancellation. */
  datatype SendOutcome = SendOk | SendError | NoResponse

  datatype SendResult =
    | NotConfigured
    | Cancelled(evicted: Option<Key>)
    | Sent(slot: nat, held: Option<Channel>, outcome: SendOutcome)

  class Radio {
    var slots: map<nat, Channel>

    method SetChannel(slot: nat, channel: Channel, outcome: WriteOutcome)
      modifies this
      ensures outcome.Written? ==> slots == old(slots)[slot := channel]
      ensures !outcome.Written? ==>
                slots == if outcome.left.Some? then old(slots)[slot := outcome.left.value] else old(slots) - {slot}
    {
      if outcome.Written? {
        slots := slots[slot := channel];
      } else {
        slots := if outcome.left.Some? then slots[slot := outcome.left.value] else slots - {slot};
      }
    }
  }

  predicate Holds(slots: map<nat, Channel>, slot: nat, k: Key) {
    slot in slots && slots[slot].secretHex == k
  }

  /** A cached pair the radio does not bear out. */
  ghost predicate Stale(h: History<Key>, slots: map<nat, Channel>, k: Key) {
    Where(h, k).Some? && !Holds(slots, Where(h, k).value, k)
  }

  ghost predicate Truthful(h: History<Key>, slots: map<nat, Channel>) {
    forall k :: !Stale(h, slots, k)
  }

  /** Writing a slot and recording the load: stale pairs go with their claims, none is made. */
  lemma StaleAfterLoad(h: History<Key>, slots: map<nat, Channel>, slot: nat, channel: Channel, k: Key)
    requires Where(h, channel.secretHex).None?
    ensures var h' := Then(h, Load(channel.secretHex, slot));
            Stale(h', slots[slot := channel], k) <==> Stale(h, slots, k) && Where(h', k).Some?
  {
  }

  /** A change of one slot is a change for the key that claims it alone. */
  lemma StaleElsewhere(h: History<Key>, slots: map<nat, Channel>, slots': map<nat, Channel>, slot: nat, k: Key)
    requires slots' - {slot} == slots - {slot} && Where(h, k) != Some(slot)
    ensures Stale(h, slots', k) <==> Stale(h, slots, k)
  {
    if Where(h, k).Some? {
      var s := Where(h, k).value;
      assert s in slots <==> s in slots - {slot};
      assert s in slots' <==> s in slots' - {slot};
      assert s in slots ==> (slots - {slot})[s] == slots[s];
      assert s in slots' ==> (slots' - {slot})[s] == slots'[s];
    }
  }

  // ------------------------------------------------------------ what a call does

  datatype Moment = Moment(history: History<Key>, slots: map<nat, Channel>)

  /** The calls that change the cache or the radio's slots, with what came of them. */
  datatype Call =
    | Send(key: Key, write: WriteOutcome, result: SendResult)
    | Audit(ok: bool)
    | Reset
    | NewSession

  /** The slot of an evicted key no longer holds that key. */
  predicate Overwritten(evicted: Option<Key>, left: Option<Channel>) {
    evicted.Some? && !(left.Some? && left.value.secretHex == evicted.value)
  }

  /** A message that went out on a slot without its key. */
  predicate Misdirected(c: Call) {
    c.Send? && c.result.Sent? && !(c.result.held.Some? && c.result.held.value.secretHex == c.key)
  }

  /** A send cancelled while writing the slot of key k, and one that left the slot without k. */
  predicate Evicts(c: Call, k: Key) {
    c.Send? && c.result == Cancelled(Some(k)) && c.write.WriteCancelled?
  }

  predicate Spoils(c: Call, k: Key) {
    Evicts(c, k) && Overwritten(Some(k), c.write.left)
  }

  /** A message is misdirected exactly when its key's pair was stale; a send makes stale at most the pair of the key
      whose slot it was cancelled over, and keeps the other stale pairs whose keys stay cached. */
  ghost predicate SendLeads(s: Moment, c: Call, s': Moment)
    requires c.Send?
  {
    && (c.result.Sent? ==> (Misdirected(c) <==> Stale(s.history, s.slots, c.key)))
    && (c.result.Cancelled? ==> c.write.WriteCancelled? && s'.history == s.history)
    && (c.result.Cancelled? && c.result.evicted.Some? ==> Where(s.history, c.result.evicted.value).Some?)
    && forall k :: Stale(s'.history, s'.slots, k) <==>
                   if Evicts(c, k) then Spoils(c, k) else Stale(s.history, s.slots, k) && Where(s'.history, k).Some?
  }

  /** A send that did not get as far as sending. */
  function Failure(key: Key, write: WriteOutcome, evicted: Option<Key>): (c: Call)
    ensures c.Send? && !c.result.Sent?
  {
    Send(key, write, if write.WriteCancelled? then Cancelled(evicted) else NotConfigured)
  }

  /** No pair becomes stale, and a stale one is kept as long as its key stays cached. */
  ghost predicate PairsKept(s: Moment, s': Moment) {
    forall k :: Stale(s'.history, s'.slots, k) <==> Stale(s.history, s.slots, k) && Where(s'.history, k).Some?
  }

  /** Recording an outcome moves no key to another slot. */
  ghost predicate Shrinks(h: History<Key>, h': History<Key>) {
    forall k :: Where(h', k) == Where(h, k) || Where(h', k).None?
  }

  lemma OutcomeLeads(s: Moment, between: Moment, s': Moment, key: Key, write: WriteOutcome, result: SendResult)
    requires PairsKept(s, between) && Shrinks(between.history, s'.history) && s'.slots == between.slots && result.Sent?
    requires Misdirected(Send(key, write, result)) <==> Stale(s.history, s.slots, key)
    ensures SendLeads(s, Send(key, write, result), s')
  {
    forall k ensures Stale(s'.history, s'.slots, k) <==> Stale(s.history, s.slots, k) && Where(s'.history, k).Some? {
      assert Stale(between.history, between.slots, k) <==>
             Stale(s.history, s.slots, k) && Where(between.history, k).Some?;
      assert Where(s'.history, k) == Where(between.history, k) || Where(s'.history, k).None?;
    }
  }

  /** An audit forgets everything unless it succeeds, and always ends with every pair true. */
  ghost predicate Leads(s: Moment, c: Call, s': Moment) {
    match c
    case Send(_, _, _) => SendLeads(s, c, s')
    case Audit(ok) =>
      && s' == Moment(if ok then s.history else Then(s.history, Forget), s.slots)
      && Truthful(s'.history, s'.slots)
    case Reset => s' == Moment(Then(s.history, Forget), s.slots)
    case NewSession => s'.history == Start
  }

  // ------------------------------------------------------------ runs of calls

  ghost predicate IsRun(moments: seq<Moment>, calls: seq<Call>) {
    && |moments| == |calls| + 1
    && moments[0].history == Start
    && forall i {:trigger calls[i]} :: 0 <= i < |calls| ==> Leads(moments[i], calls[i], moments[i + 1])
  }

  ghost predicate StaleAt(moments: seq<Moment>, i: nat, k: Key)
    requires i < |moments|
  {
    Stale(moments[i].history, moments[i].slots, k)
  }

  lemma StaleStep(s: Moment, c: Call, s': Moment, k: Key)
    requires Leads(s, c, s')
    ensures Stale(s'.history, s'.slots, k) <==>
            if Evicts(c, k) then Spoils(c, k) else Stale(s.history, s.slots, k) && Where(s'.history, k).Some?
  {
    if c.Audit? {
      assert !Stale(s'.history, s'.slots, k);
    }
  }

  /** From call `first` on, key k stays cached and no later cancelled write restores its slot. */
  ghost predicate StaysSpoilt(moments: seq<Moment>, calls: seq<Call>, first: nat, last: nat, k: Key)
    requires |moments| == |calls| + 1 && last <= |calls|
  {
    forall m {:trigger calls[m]} :: first <= m < last ==>
      (Evicts(calls[m], k) ==> Spoils(calls[m], k)) && Where(moments[m + 1].history, k).Some?
  }

  ghost predicate SpoiltBy(moments: seq<Moment>, calls: seq<Call>, j: nat, last: nat, k: Key)
    requires |moments| == |calls| + 1 && last <= |calls|
  {
    j < last && Spoils(calls[j], k) && StaysSpoilt(moments, calls, j + 1, last, k)
  }

  lemma {:induction false} SpoiltIsStale(moments: seq<Moment>, calls: seq<Call>, j: nat, last: nat, k: Key)
    requires IsRun(moments, calls) && last <= |calls| && SpoiltBy(moments, calls, j, last, k)
    ensures StaleAt(moments, last, k)
    decreases last
  {
    StaleStep(moments[last - 1], calls[last - 1], moments[last], k);
    if j < last - 1 {
      SpoiltIsStale(moments, calls, j, last - 1, k);
    }
  }

  lemma {:induction false} StaleIsSpoilt(moments: seq<Moment>, calls: seq<Call>, last: nat, k: Key) returns (j: nat)
    requires IsRun(moments, calls) && last <= |calls| && StaleAt(moments, last, k)
    ensures SpoiltBy(moments, calls, j, last, k)
    decreases last
  {
    StaleStep(moments[last - 1], calls[last - 1], moments[last], k);
    if Evicts(calls[last - 1], k) {
      j := last - 1;
    } else {
      j := StaleIsSpoilt(moments, calls, last - 1, k);
    }
  }

  /** Main result: over any run of sends, audits, resets and new sessions, a message is misdirected exactly when an
      earlier send was cancelled over its key's slot, left the slot without it, and the key has stayed cached since,
      without a later cancelled write putting it back. */
  lemma MisdirectedExactlyWhen(moments: seq<Moment>, calls: seq<Call>, n: nat)
    requires IsRun(moments, calls) && n < |calls| && calls[n].Send? && calls[n].result.Sent?
    ensures Misdirected(calls[n]) <==> exists j: nat :: SpoiltBy(moments, calls, j, n, calls[n].key)
  {
    var k := calls[n].key;
    assert Leads(moments[n], calls[n], moments[n + 1]);
    if StaleAt(moments, n, k) {
      var j := StaleIsSpoilt(moments, calls, n, k);
    }
    if j: nat :| SpoiltBy(moments, calls, j, n, k) {
      SpoiltIsStale(moments, calls, j, n, k);
    }
  }

  /** So none is misdirected while no send has been cancelled over its key's slot since the last audit, reset or new
      session, whatever happened before. */
  lemma SafeSinceAudit(moments: seq<Moment>, calls: seq<Call>, first: nat, n: nat)
    requires IsRun(moments, calls) && first <= n < |calls| && calls[n].Send?
    requires first == 0 || !calls[first - 1].Send?
    requires forall j :: first <= j < n ==> !Spoils(calls[j], calls[n].key)
    ensures !Misdirected(calls[n])
  {
    var k := calls[n].key;
    assert Leads(moments[n], calls[n], moments[n + 1]);
    if Misdirected(calls[n]) {
      var j := StaleIsSpoilt(moments, calls, n, k);
      if j < first {
        StaleStep(moments[first - 1], calls[first - 1], moments[first], k);
        if j < first - 1 { assert StaysSpoilt(moments, calls, j + 1, first, k); }
        SpoiltIsStale(moments, calls, j, first, k);
      }
    }
  }

  // ------------------------------------------------------------ the manager

  class RadioManager {
    const forceChannelSlotReconfigure: bool
    const connectionType: string
    var connectionInfo: Option<string>
    var maxChannels: int
    var slotByKey: seq<Entry<Key>>
    var keyBySlot: map<nat, Key>
    ghost var history: History<Key>

    predicate ReuseEnabled()
      reads this
    {
      if forceChannelSlotReconfigure then false
      else if connectionInfo.Some? && connectionInfo.value != "" then !("TCP:" <= connectionInfo.value)
      else connectionType != "tcp"
    }

    function Capacity(): (c: nat)
      reads this
      ensures c >= 1 && (maxChannels >= 1 ==> c == maxChannels)
    {
      Max(1, maxChannels)
    }

    /** Reuse by the name of the transport: never over TCP and never when switched off, else always; before any
        transport is up the configured kind decides. */
    lemma ReuseExactlyWhen(name: string)
      ensures connectionInfo == Some("TCP:" + name) ==> !ReuseEnabled()
      ensures connectionInfo == Some("Serial: " + name) || connectionInfo == Some("BLE: " + name) ==>
                (ReuseEnabled() <==> !forceChannelSlotReconfigure)
      ensures connectionInfo == None || connectionInfo == Some("") ==>
                (ReuseEnabled() <==> !forceChannelSlotReconfigure && connectionType != "tcp")
      ensures Valid() && !ReuseEnabled() ==> forall k :: Where(history, k).None?
    {
      assert ("TCP:" + name)[..4] == "TCP:";
      assert ("Serial: " + name)[0] == 'S' && ("BLE: " + name)[0] == 'B';
    }

    ghost predicate Valid()
      reads this
    {
      && Refines(history, slotByKey, keyBySlot)
      && (forall s :: s in keyBySlot ==> s < Capacity())
      && (forall s :: s in keyBySlot ==> Upper(keyBySlot[s]) == keyBySlot[s])
      && (!ReuseEnabled() ==> keyBySlot == map[])
    }

    /** Every slot is taken. */
    ghost predicate Full()
      reads this
    {
      ReuseEnabled() && forall s :: 0 <= s < Capacity() ==> s in keyBySlot
    }

    /** Every cached pair is what the radio really holds. */
    ghost predicate Agrees(radio: Radio)
      reads this, radio
    {
      Truthful(history, radio.slots)
    }

    ghost predicate StaleHere(radio: Radio, k: Key)
      reads this, radio
    {
      Stale(history, radio.slots, k)
    }

    ghost function Now(radio: Radio): Moment
      reads this, radio
    {
      Moment(history, radio.slots)
    }

    constructor (force: bool, connectionType: string)
      ensures Valid() && history == Start && connectionInfo == None && maxChannels == 40
      ensures forceChannelSlotReconfigure == force && this.connectionType == connectionType
    {
      forceChannelSlotReconfigure := force;
      this.connectionType := connectionType;
      connectionInfo, maxChannels := None, 40;
      slotByKey, keyBySlot, history := [], map[], Start;
    }

    /** A new transport: teardown has cleared the cache; only then do capacity and reuse change. */
    method StartSession(info: string, channels: int)
      modifies this
      ensures Valid() && history == Start && connectionInfo == Some(info) && maxChannels == channels
    {
      slotByKey, keyBySlot, history := [], map[], Start;
      connectionInfo, maxChannels := Some(info), channels;
    }

    method ResetChannelSendCache()
      requires Valid()
      modifies this`slotByKey, this`keyBySlot, this`history
      ensures Valid() && history == Then(old(history), Forget)
      ensures slotByKey == []
    {
      slotByKey, keyBySlot := [], map[];
      history := Then(history, Forget);
    }

    /** The free-slot search never falls through: it returns the preferred slot if free, else the lowest free one. */
    method FindFirstFreeChannelSlot(capacity: nat, preferred: nat) returns (slot: nat)
      requires Refines(history, slotByKey, keyBySlot)
      requires forall s :: s in keyBySlot ==> s < capacity
      ensures |slotByKey| < capacity ==> slot < capacity && slot !in keyBySlot
      ensures |slotByKey| < capacity ==>
                || slot == preferred
                || ((preferred >= capacity || preferred in keyBySlot) && forall s :: 0 <= s < slot ==> s in keyBySlot)
      ensures |slotByKey| >= capacity ==> slot == preferred
    {
      FreeOrFull(history, slotByKey, keyBySlot, capacity);
      if preferred < capacity && preferred !in keyBySlot {
        return preferred;
      }
      for candidate := 0 to capacity
        invariant forall s :: 0 <= s < candidate ==> s in keyBySlot
      {
        if candidate !in keyBySlot {
          return candidate;
        }
      }
      return preferred;
    }

    /** Chooses the slot for a send, in terms of the history: a resident key is reused, a new key takes a free slot
        while there is one, and only a full cache evicts, always the key whose last load or use is oldest. */
    method PlanChannelSendSlot(channelKey: string, preferred: nat)
      returns (slot: nat, needsConfigure: bool, evicted: Option<Key>)
      requires Valid()
      ensures !ReuseEnabled() ==> slot == preferred && needsConfigure && evicted == None
      ensures ReuseEnabled() && Where(history, Upper(channelKey)).Some? ==>
                Some(slot) == Where(history, Upper(channelKey)) && !needsConfigure && evicted == None
      ensures ReuseEnabled() && Where(history, Upper(channelKey)).None? ==>
                && needsConfigure
                && slot < Capacity()
                && (evicted.None? <==> exists s :: 0 <= s < Capacity() && s !in keyBySlot)
                && (evicted.None? ==> slot !in keyBySlot)
                && (evicted.None? && preferred < Capacity() && preferred !in keyBySlot ==> slot == preferred)
                && (evicted.None? && (preferred >= Capacity() || preferred in keyBySlot) ==>
                      forall s :: 0 <= s < slot ==> s in keyBySlot)
                && (evicted.Some? ==>
                      && Where(history, evicted.value) == Some(slot)
                      && forall k :: Where(history, k).Some? && k != evicted.value ==>
                                       Stamp(history, evicted.value) < Stamp(history, k))
    {
      if !ReuseEnabled() {
        return preferred, true, None;
      }
      var key := Upper(channelKey);
      var cached := Lookup(slotByKey, key);
      if cached.Some? {
        return cached.value, false, None;
      }
      var capacity := Capacity();
      FreeOrFull(history, slotByKey, keyBySlot, capacity);
      if |slotByKey| < capacity {
        slot := FindFirstFreeChannelSlot(capacity, preferred);
        return slot, true, None;
      }
      var oldest := slotByKey[0];
      EntryFound(Recency(history), slotByKey, 0);
      forall k | Where(history, k).Some? && k != oldest.key
        ensures Stamp(history, oldest.key) < Stamp(history, k)
      {
        LookupAt(slotByKey, k);
        var i :| 0 <= i < |slotByKey| && slotByKey[i].key == k;
      }
      return oldest.slot, true, Some(oldest.key);
    }

    method NoteChannelSlotLoaded(channelKey: string, slot: nat)
      requires Valid()
      requires ReuseEnabled() ==> slot < Capacity()
      modifies this`slotByKey, this`keyBySlot, this`history
      ensures Valid()
      ensures history == if ReuseEnabled() then Then(old(history), Load(Upper(channelKey), slot)) else old(history)
    {
      if !ReuseEnabled() {
        return;
      }
      var key := Upper(channelKey);
      UpperTwice(channelKey);
      ghost var h, claimed := history, keyBySlot;
      LoadKey(key, slot);
      LoadClaims(h, claimed, keyBySlot, key, slot);
    }

    method LoadKey(key: Key, slot: nat)
      requires Refines(history, slotByKey, keyBySlot)
      modifies this`slotByKey, this`keyBySlot, this`history
      ensures history == Then(old(history), Load(key, slot)) && Refines(history, slotByKey, keyBySlot)
    {
      LoadRefines(history, slotByKey, keyBySlot, key, slot);
      var previous := Lookup(slotByKey, key);
      slotByKey := Without(slotByKey, key);
      if previous.Some? && previous.value != slot {
        keyBySlot := keyBySlot - {previous.value};
      }
      if slot in keyBySlot && keyBySlot[slot] != key {
        slotByKey := Without(slotByKey, keyBySlot[slot]);
      }
      keyBySlot := keyBySlot[slot := key];
      PutNew(slotByKey, key, slot);
      slotByKey := Put(slotByKey, key, slot);
      history := Then(history, Load(key, slot));
    }

    method NoteChannelSlotUsed(channelKey: string)
      requires Valid()
      modifies this`slotByKey, this`keyBySlot, this`history
      ensures Valid()
      ensures history == if ReuseEnabled() then Then(old(history), Use(Upper(channelKey))) else old(history)
    {
      if !ReuseEnabled() {
        return;
      }
      var key := Upper(channelKey);
      UpperTwice(channelKey);
      UseRefines(history, slotByKey, keyBySlot, key);
      history := Then(history, Use(key));
      var slot := Lookup(slotByKey, key);
      if slot.None? {
        return;
      }
      slotByKey := Without(slotByKey, key) + [Entry(key, slot.value)];
      keyBySlot := keyBySlot[slot.value := key];
    }

    method InvalidateCachedChannelSlot(channelKey: string)
      requires Valid()
      modifies this`slotByKey, this`keyBySlot, this`history
      ensures Valid() && history == Then(old(history), Drop(Upper(channelKey)))
    {
      var key := Upper(channelKey);
      DropRefines(history, slotByKey, keyBySlot, key);
      LookupAt(slotByKey, key);
      history := Then(history, Drop(key));
      var slot := Lookup(slotByKey, key);
      slotByKey := Without(slotByKey, key);
      if slot.None? {
        return;
      }
      if slot.value in keyBySlot && keyBySlot[slot.value] == key {
        keyBySlot := keyBySlot - {slot.value};
      }
    }

    /** Writes the planned slot and records the load.  A failed write leaves the slot unknown, so an evicted key is
        forgotten.  A cancelled write forgets nothing: the evicted key's pair is then true exactly if its slot still
        holds it. */
    method ConfigureSlot(radio: Radio, channelKey: string, name: string, slot: nat, evicted: Option<Key>,
                         write: WriteOutcome)
      returns (ok: bool)
      requires Valid() && Where(history, Upper(channelKey)).None?
      requires ReuseEnabled() ==> slot < Capacity()
      requires forall k :: Where(history, k) == Some(slot) ==> evicted == Some(k)
      requires evicted.Some? ==> Where(history, evicted.value) == Some(slot)
      modifies this`slotByKey, this`keyBySlot, this`history, radio
      ensures Valid() && ok == write.Written?
      ensures ok ==> radio.slots == old(radio.slots)[slot := Channel(Upper(channelKey), name)]
      ensures !ok ==> Where(history, Upper(channelKey)).None?
      ensures ok && ReuseEnabled() ==> Where(history, Upper(channelKey)) == Some(slot)
      ensures write.WriteCancelled? ==> history == old(history) && keyBySlot == old(keyBySlot)
      ensures ok && ReuseEnabled() ==> Freshest(history, Upper(channelKey))
      ensures OthersKept(old(history), history, Upper(channelKey), if write.WriteCancelled? then None else evicted)
      ensures write.WriteCancelled? ==>
                forall k :: StaleHere(radio, k) <==>
                            if evicted == Some(k) then Overwritten(evicted, write.left) else old(StaleHere(radio, k))
      ensures !write.WriteCancelled? ==>
                forall k :: StaleHere(radio, k) <==> old(StaleHere(radio, k)) && Where(history, k).Some?
    {
      ghost var h, before := history, radio.slots;
      radio.SetChannel(slot, Channel(Upper(channelKey), name), write);
      match write {
        case Written =>
          NoteChannelSlotLoaded(channelKey, slot);
          if ReuseEnabled() { TouchedIsFreshest(h, Load(Upper(channelKey), slot)); }
          forall k ensures StaleHere(radio, k) <==> Stale(h, before, k) && Where(history, k).Some? {
            StaleAfterLoad(h, before, slot, Channel(Upper(channelKey), name), k);
            assert !ReuseEnabled() ==> Where(h, k).None?;
          }
          return true;
        case WriteFailed(left) =>
          if evicted.Some? {
            assert Upper(evicted.value) == evicted.value;
            InvalidateCachedChannelSlot(evicted.value);
          }
          forall k ensures StaleHere(radio, k) <==> Stale(h, before, k) && Where(history, k).Some? {
            if Where(h, k) != Some(slot) { StaleElsewhere(h, before, radio.slots, slot, k); }
          }
          return false;
        case WriteCancelled(left) =>
          forall k | evicted != Some(k) ensures StaleHere(radio, k) <==> Stale(h, before, k) {
            StaleElsewhere(h, before, radio.slots, slot, k);
          }
          return false;
      }
    }

    /** The first half of a send: plan, and write the slot when needed. */
    method PrepareSlot(radio: Radio, channelKey: string, name: string, preferred: nat, write: WriteOutcome)
      returns (slot: nat, ready: bool, evicted: Option<Key>)
      requires Valid()
      modifies this`slotByKey, this`keyBySlot, this`history, radio
      ensures Valid()
      ensures old(Where(history, Upper(channelKey))).Some? ==>
                ready && old(Where(history, Upper(channelKey))) == Some(slot) && Now(radio) == old(Now(radio))
      ensures old(Where(history, Upper(channelKey))).None? ==>
                ready == write.Written? && (ready ==> Holds(radio.slots, slot, Upper(channelKey)))
      ensures if ready then ReuseEnabled() ==> Where(history, Upper(channelKey)) == Some(slot)
              else Where(history, Upper(channelKey)).None?
      ensures !ready && write.WriteCancelled? ==>
                && history == old(history)
                && (evicted.Some? ==> Where(history, evicted.value).Some?)
                && (evicted.Some? <==> ReuseEnabled() && forall s :: 0 <= s < Capacity() ==> s in keyBySlot)
      ensures evicted.Some? ==> old(Oldest(history, evicted.value)) && old(Where(history, Upper(channelKey))).None?
      ensures evicted.Some? <==> old(Where(history, Upper(channelKey))).None? && old(Full())
      ensures evicted.Some? ==> old(Where(history, evicted.value)) == Some(slot)
      ensures ready && ReuseEnabled() && old(Where(history, Upper(channelKey))).None? ==>
                Freshest(history, Upper(channelKey))
      ensures OthersKept(old(history), history, Upper(channelKey), if write.WriteCancelled? then None else evicted)
      ensures if ready then PairsKept(old(Now(radio)), Now(radio))
              else SendLeads(old(Now(radio)), Failure(Upper(channelKey), write, evicted), Now(radio))
    {
      var needsConfigure;
      slot, needsConfigure, evicted := PlanChannelSendSlot(channelKey, preferred);
      ready := true;
      if needsConfigure {
        ready := ConfigureSlot(radio, channelKey, name, slot, evicted, write);
      }
    }

    /** One channel send: plan, write the slot when needed, record the load, send, record the outcome.  What it does
        to the cache and the radio, and when the message goes out on a slot of another key, is said by Leads. */
    method SendChannelMessage(radio: Radio, channelKey: string, name: string, preferred: nat,
                              write: WriteOutcome, send: SendOutcome)
      returns (result: SendResult)
      requires Valid()
      modifies this`slotByKey, this`keyBySlot, this`history, radio
      ensures Valid()
      ensures Leads(old(Now(radio)), Send(Upper(channelKey), write, result), Now(radio))
      ensures result.Cancelled? ==>
                (result.evicted.Some? <==> ReuseEnabled() && forall s :: 0 <= s < Capacity() ==> s in keyBySlot)
      ensures result.NotConfigured? ==> write.WriteFailed? && Where(history, Upper(channelKey)).None?
      ensures result.Sent? ==> result.outcome == send
      ensures result.Sent? && ReuseEnabled() ==>
                Where(history, Upper(channelKey)) == if send.SendError? then None else Some(result.slot)
      ensures old(Where(history, Upper(channelKey))).None? ==>
                result.Sent? == write.Written? && result.Cancelled? == write.WriteCancelled?
      // a new key takes the place of the oldest one exactly when all slots are taken; nothing else is touched
      ensures old(Where(history, Upper(channelKey))).Some? || !old(Full()) || result.Cancelled? ==>
                OthersKept(old(history), history, Upper(channelKey), None)
      ensures old(Where(history, Upper(channelKey))).None? && old(Full()) && !result.Cancelled? ==>
                exists k :: old(Oldest(history, k)) && OthersKept(old(history), history, Upper(channelKey), Some(k))
                            && (result.Sent? ==> old(Where(history, k)) == Some(result.slot))
      // a send that went well makes its key the freshest, others leave its time of use at its load
      ensures result.Sent? && send.SendOk? && ReuseEnabled() ==> Freshest(history, Upper(channelKey))
      ensures result.Sent? && send.NoResponse? && ReuseEnabled() && old(Where(history, Upper(channelKey))).None? ==>
                Freshest(history, Upper(channelKey))
      ensures result.Sent? && !send.SendOk? && old(Where(history, Upper(channelKey))).Some? ==>
                Stamp(history, Upper(channelKey)) == old(Stamp(history, Upper(channelKey)))
      // a reused slot costs no radio write
      ensures old(Where(history, Upper(channelKey))).Some? ==> result.Sent? && radio.slots == old(radio.slots)
    {
      var slot, ready, evicted := PrepareSlot(radio, channelKey, name, preferred, write);
      if !ready {
        return Failure(Upper(channelKey), write, evicted).result;
      }
      var held := if slot in radio.slots then Some(radio.slots[slot]) else None;
      ghost var between, key := Now(radio), Upper(channelKey);
      RecordOutcome(channelKey, send);
      KeptThenKept(old(history), between.history, history, key, evicted);
      OutcomeLeads(old(Now(radio)), between, Now(radio), key, write, Sent(slot, held, send));
      return Sent(slot, held, send);
    }

    /** A send that went well refreshes the key, a refused one forgets it, silence changes nothing. */
    method RecordOutcome(channelKey: string, send: SendOutcome)
      requires Valid()
      modifies this`slotByKey, this`keyBySlot, this`history
      ensures Valid()
      ensures forall k :: Where(history, k) ==
                          if send.SendError? && k == Upper(channelKey) then None else old(Where(history, k))
      ensures Shrinks(old(history), history) && OthersKept(old(history), history, Upper(channelKey), None)
      ensures send.SendOk? && ReuseEnabled() && Where(history, Upper(channelKey)).Some? ==>
                Freshest(history, Upper(channelKey))
      ensures !send.SendOk? ==> Stamp(history, Upper(channelKey)) == old(Stamp(history, Upper(channelKey)))
      ensures send.NoResponse? ==> history == old(history)
    {
      match send {
        case SendOk =>
          ghost var h := history;
          NoteChannelSlotUsed(channelKey);
          if ReuseEnabled() && Where(h, Upper(channelKey)).Some? { TouchedIsFreshest(h, Use(Upper(channelKey))); }
        case SendError => InvalidateCachedChannelSlot(channelKey);
        case NoResponse =>
      }
    }

    /** The periodic audit compares every cached pair with the radio's answer and the channel table; any difference
        resets the cache, so every audit ends with the cache agreeing with the radio.  `answering` are the slots the
        radio answers for, `names` the channel table. */
    method AuditChannelSendCache(radio: Radio, answering: set<nat>, names: map<Key, string>) returns (ok: bool)
      requires Valid()
      modifies this`slotByKey, this`keyBySlot, this`history
      ensures Valid()
      ensures ok <==> !ReuseEnabled() || old(AllConfirmed(radio, answering, names))
      ensures Leads(old(Now(radio)), Audit(ok), Now(radio))
      // under exclusive access only silence or a changed channel table can fail the audit
      ensures old(Agrees(radio)) && ReuseEnabled() ==> (ok <==> old(Answered(radio, answering, names)))
    {
      if !ReuseEnabled() {
        assert forall k :: Where(history, k).None?;
        return true;
      }
      AnsweredWhenTrue(radio, answering, names);
      var snapshot := slotByKey;
      var mismatches := [];
      for i := 0 to |snapshot|
        invariant mismatches == [] <==> forall j :: 0 <= j < i ==> Confirmed(radio, answering, names, snapshot[j])
      {
        if !Confirmed(radio, answering, names, snapshot[i]) {
          mismatches := mismatches + [snapshot[i]];
        }
      }
      SnapshotConfirmed(radio, answering, names);
      if mismatches == [] {
        ConfirmedIsTrue(radio, answering, names);
        return true;
      }
      ResetChannelSendCache();
      return false;
    }

    ghost predicate ResidentConfirmed(radio: Radio, answering: set<nat>, names: map<Key, string>, k: Key)
      reads this, radio
    {
      Where(history, k).Some? ==> Confirmed(radio, answering, names, Entry(k, Where(history, k).value))
    }

    /** The radio and the channel table confirm every cached pair. */
    ghost predicate AllConfirmed(radio: Radio, answering: set<nat>, names: map<Key, string>)
      reads this, radio
    {
      forall k :: ResidentConfirmed(radio, answering, names, k)
    }

    /** For every cached key the radio answers and the channel table has the name found there. */
    ghost predicate Answered(radio: Radio, answering: set<nat>, names: map<Key, string>)
      reads this, radio
    {
      forall k :: Where(history, k).Some? ==>
                    && Where(history, k).value in answering && Where(history, k).value in radio.slots
                    && k in names && names[k] == radio.slots[Where(history, k).value].name
    }

    lemma AnsweredWhenTrue(radio: Radio, answering: set<nat>, names: map<Key, string>)
      ensures Agrees(radio) ==> (AllConfirmed(radio, answering, names) <==> Answered(radio, answering, names))
    {
      if Agrees(radio) {
        forall k
          ensures ResidentConfirmed(radio, answering, names, k) <==>
                  (Where(history, k).Some? ==>
                     && Where(history, k).value in answering && Where(history, k).value in radio.slots
                     && k in names && names[k] == radio.slots[Where(history, k).value].name)
        {
          assert !Stale(history, radio.slots, k);
        }
      }
    }

    lemma ConfirmedIsTrue(radio: Radio, answering: set<nat>, names: map<Key, string>)
      requires AllConfirmed(radio, answering, names)
      ensures Agrees(radio)
    {
      forall k ensures !Stale(history, radio.slots, k) {
        assert ResidentConfirmed(radio, answering, names, k);
      }
    }

    /** Checking the snapshot entry by entry checks every resident key. */
    lemma SnapshotConfirmed(radio: Radio, answering: set<nat>, names: map<Key, string>)
      requires Refines(history, slotByKey, keyBySlot)
      ensures AllConfirmed(radio, answering, names) <==>
              forall j :: 0 <= j < |slotByKey| ==> Confirmed(radio, answering, names, slotByKey[j])
    {
      if AllConfirmed(radio, answering, names) {
        forall j | 0 <= j < |slotByKey| ensures Confirmed(radio, answering, names, slotByKey[j]) {
          EntryFound(Recency(history), slotByKey, j);
          assert ResidentConfirmed(radio, answering, names, slotByKey[j].key);
        }
      }
      if forall j :: 0 <= j < |slotByKey| ==> Confirmed(radio, answering, names, slotByKey[j]) {
        forall k ensures ResidentConfirmed(radio, answering, names, k) {
          LookupAt(slotByKey, k);
        }
      }
    }

    static predicate Confirmed(radio: Radio, answering: set<nat>, names: map<Key, string>, e: Entry<Key>)
      reads radio
    {
      && e.slot in answering
      && e.slot in radio.slots
      && radio.slots[e.slot].secretHex == e.key
      && e.key in names
      && names[e.key] == radio.slots[e.slot].name
    }
  }

  /** The exception is real: with one slot, cancelling the write that evicts a key leaves the cache claiming it, and
      the next message for that key goes out on the other key's slot. */
  method CancelledEvictionExample(manager: RadioManager, radio: Radio, key: string, other: string)
    returns (third: SendResult)
    requires manager.ReuseEnabled() && manager.Capacity() == 1
    requires manager.Valid() && manager.history == Start && Upper(key) != Upper(other)
    modifies manager, radio
    ensures manager.Valid() && !manager.Agrees(radio)
    ensures Misdirected(Send(Upper(key), Written, third))
  {
    var k, o := Upper(key), Upper(other);
    var first := manager.SendChannelMessage(radio, key, "", 0, Written, SendOk);
    OnlySlot(manager.history, manager.keyBySlot, k);
    var cancelled := WriteCancelled(Some(Channel(o, "")));
    ghost var before := manager.Now(radio);
    var second := manager.SendChannelMessage(radio, other, "", 0, cancelled, SendOk);
    assert second == Cancelled(Some(k));
    StaleStep(before, Send(o, cancelled, second), manager.Now(radio), k);
    before := manager.Now(radio);
    third := manager.SendChannelMessage(radio, key, "", 0, Written, SendOk);
    StaleStep(before, Send(k, Written, third), manager.Now(radio), k);
  }

  /** A law over two sends and a plan: while another key is cached, the key just sent is never the one evicted next. */
  method LastSentIsNotEvictedNext(manager: RadioManager, radio: Radio, first: string, second: string, next: string,
                                  preferred: nat, write: WriteOutcome)
    returns (evicted: Option<Key>)
    requires manager.ReuseEnabled() && manager.Valid() && Upper(first) != Upper(second)
    modifies manager, radio
    ensures manager.Valid()
    ensures Where(manager.history, Upper(first)).Some? && Where(manager.history, Upper(second)).Some? ==>
              evicted != Some(Upper(second))
  {
    var one := manager.SendChannelMessage(radio, first, "", preferred, write, SendOk);
    var two := manager.SendChannelMessage(radio, second, "", preferred, write, SendOk);
    var slot, needsConfigure;
    slot, needsConfigure, evicted := manager.PlanChannelSendSlot(next, preferred);
    if two.Sent? && Where(manager.history, Upper(first)).Some? {
      FreshestIsNotOldest(manager.history, Upper(second), Upper(first));
    }
  }

  /** A resident key fills a cache of one slot and keeps others out. */
  lemma OnlySlot<K(!new)>(h: History<K>, keyBySlot: map<nat, K>, key: K)
    requires Inverse(h, keyBySlot) && (forall s :: s in keyBySlot ==> s < 1) && Where(h, key).Some?
    ensures forall s :: 0 <= s < 1 ==> s in keyBySlot
    ensures forall k :: Where(h, k).Some? ==> k == key
  {
    assert Where(h, key).value == 0;
  }
}
