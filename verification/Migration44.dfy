/**
 * Migration 44: duplicate incoming direct messages are collapsed into one row per (conversation, text, timestamp).
 *
 * S is the type of conversation keys and texts, J that of JSON values.
 */
module Migration44 {
  import opened Common
  import opened FirstOfKey

  // ------------------------------------------------------------ path observations

  /** A path object as `get` reads it: J is the type of values other than null, and a missing key and a null are both
      None.  `rest` is everything else the object carries, which of the two it was included. */
  datatype Entry<J> = Entry(path: Option<J>, receivedAt: Option<J>, pathLen: Option<J>, rest: J)

  /** The paths column: null, text that is not a JSON list, or a list whose non-objects are None. */
  datatype Paths<J> = Null | NotAList | Listed(items: seq<Option<Entry<J>>>)

  datatype Identity<J> = Identity(path: Option<J>, receivedAt: Option<J>, pathLen: Option<J>)

  function IdentityOf<J>(e: Entry<J>): Identity<J> {
    Identity(e.path, e.receivedAt, e.pathLen)
  }

  function Objects<J>(items: seq<Option<Entry<J>>>): seq<Entry<J>> {
    if items == [] then []
    else
      var before := Objects(items[..|items| - 1]);
      var last := items[|items| - 1];
      if last.Some? then before + [last.value] else before
  }

  /** Every path object of every column, in order. */
  function Observations<J>(columns: seq<Paths<J>>): seq<Entry<J>> {
    if columns == [] then []
    else
      var last := columns[|columns| - 1];
      Observations(columns[..|columns| - 1]) + if last.Listed? then Objects(last.items) else []
  }

  /** Reference: each distinct observation once, in order; null when there is none. */
  ghost function MergedPaths<J>(columns: seq<Paths<J>>): Paths<J> {
    var kept := KeepFirst(IdentityOf, Observations(columns));
    if kept == [] then Null else Listed(seq(|kept|, i requires 0 <= i < |kept| => Some(kept[i])))
  }

  lemma ObjectsSnoc<J>(done: seq<Entry<J>>, items: seq<Option<Entry<J>>>, i: nat)
    requires i < |items|
    ensures done + Objects(items[..i + 1]) ==
            if items[i].Some? then done + Objects(items[..i]) + [items[i].value] else done + Objects(items[..i])
  {
    assert items[..i + 1][..i] == items[..i];
  }

  predicate SameObservation<J(==)>(a: Entry<J>, b: Entry<J>) {
    a.path == b.path && a.receivedAt == b.receivedAt && a.pathLen == b.pathLen
  }

  /** Of all path objects of a group, each has a kept one with the same path, time and length, the kept ones are among
      them, and no two kept ones agree in all three. */
  lemma EveryObservationOnce<J>(all: seq<Entry<J>>)
    ensures var kept := KeepFirst(IdentityOf, all);
            && (forall i :: 0 <= i < |all| ==> exists j :: 0 <= j < |kept| && SameObservation(kept[j], all[i]))
            && (forall j :: 0 <= j < |kept| ==> kept[j] in all)
            && (forall i, j :: 0 <= i < j < |kept| ==> !SameObservation(kept[i], kept[j]))
  {
    var kept := KeepFirst(IdentityOf, all);
    KeptFromAll(IdentityOf, all);
    KeptDistinct(IdentityOf, all);
    forall i | 0 <= i < |all| ensures exists j :: 0 <= j < |kept| && SameObservation(kept[j], all[i]) {
      var j := KeptFor(IdentityOf, all, i);
      assert SameObservation(kept[j], all[i]);
    }
    forall i, j | 0 <= i < j < |kept| ensures !SameObservation(kept[i], kept[j]) {
      assert IdentityOf(kept[i]) != IdentityOf(kept[j]);
    }
  }

  /** The merged column is null exactly when no column lists an object, and else lists the kept objects. */
  lemma MergedColumnExactly<J>(columns: seq<Paths<J>>)
    ensures MergedPaths(columns).Null? <==> Observations(columns) == []
    ensures MergedPaths(columns).Null? || MergedPaths(columns).Listed?
    ensures MergedPaths(columns).Listed? ==>
              var kept := KeepFirst(IdentityOf, Observations(columns));
              && |MergedPaths(columns).items| == |kept|
              && forall i :: 0 <= i < |kept| ==> MergedPaths(columns).items[i] == Some(kept[i])
  {
    KeptFromAll(IdentityOf, Observations(columns));
    EveryObservationOnce(Observations(columns));
  }

  /** One column: unseen objects are appended. */
  method MergeColumn<J(==)>(items: seq<Option<Entry<J>>>, merged: seq<Entry<J>>, seen: set<Identity<J>>,
                       ghost done: seq<Entry<J>>)
    returns (merged': seq<Entry<J>>, seen': set<Identity<J>>)
    requires merged == KeepFirst(IdentityOf, done) && seen == KeysOf(IdentityOf, done)
    ensures merged' == KeepFirst(IdentityOf, done + Objects(items))
            && seen' == KeysOf(IdentityOf, done + Objects(items))
  {
    merged', seen' := merged, seen;
    assert done + Objects(items[..0]) == done;
    for i := 0 to |items|
      invariant merged' == KeepFirst(IdentityOf, done + Objects(items[..i]))
      invariant seen' == KeysOf(IdentityOf, done + Objects(items[..i]))
    {
      ObjectsSnoc(done, items, i);
      if items[i].None? {
        continue;
      }
      var entry := items[i].value;
      KeysSnoc(IdentityOf, done + Objects(items[..i]), entry);
      if IdentityOf(entry) in seen' {
        continue;
      }
      seen' := seen' + {IdentityOf(entry)};
      merged' := merged' + [entry];
    }
    assert items[..|items|] == items;
  }

  method MergeMessagePaths<J(==)>(columns: seq<Paths<J>>) returns (r: Paths<J>)
    ensures r == MergedPaths(columns)
  {
    var merged: seq<Entry<J>> := [];
    var seen: set<Identity<J>> := {};
    for i := 0 to |columns|
      invariant merged == KeepFirst(IdentityOf, Observations(columns[..i]))
      invariant seen == KeysOf(IdentityOf, Observations(columns[..i]))
    {
      assert columns[..i + 1][..i] == columns[..i];
      if columns[i].Listed? {
        merged, seen := MergeColumn(columns[i].items, merged, seen, Observations(columns[..i]));
      } else {
        assert Observations(columns[..i]) + [] == Observations(columns[..i]);
      }
    }
    assert columns[..|columns|] == columns;
    r := if merged == [] then Null else Listed(seq(|merged|, i requires 0 <= i < |merged| => Some(merged[i])));
  }

  // ------------------------------------------------------------ the messages table

  datatype GroupKey<S> = GroupKey(conversation: S, text: S, timestamp: int)

  datatype Message<S, J> = Message(
    id: int,
    incomingDm: bool,              // type = 'PRIV' AND outgoing = 0
    conversation: S,
    text: S,
    senderTimestamp: Option<int>,
    receivedAt: int,
    paths: Paths<J>,
    txtType: Option<int>,
    signature: Option<string>,
    acked: Option<int>,
    senderName: Option<string>,
    senderKey: Option<string>)

  function GroupOf<S, J>(m: Message<S, J>): GroupKey<S> {
    GroupKey(m.conversation, m.text, if m.senderTimestamp.Some? then m.senderTimestamp.value else 0)
  }

  ghost predicate SortedById<S, J>(t: seq<Message<S, J>>) {
    forall i, j :: 0 <= i < j < |t| ==> t[i].id < t[j].id
  }

  predicate InGroup<S(==), J>(m: Message<S, J>, g: GroupKey<S>) {
    m.incomingDm && GroupOf(m) == g
  }

  /** SELECT ... WHERE group ORDER BY id, on a table in id order. */
  function RowsOf<S(==), J>(t: seq<Message<S, J>>, g: GroupKey<S>): seq<Message<S, J>> {
    if t == [] then []
    else
      var before := RowsOf(t[..|t| - 1], g);
      if InGroup(t[|t| - 1], g) then before + [t[|t| - 1]] else before
  }

  // ------------------------------------------------------------ merging a group

  function FirstTxtType<S, J>(rows: seq<Message<S, J>>): Option<int> {
    if rows == [] then Some(0) else if rows[0].txtType != Some(0) then rows[0].txtType else FirstTxtType(rows[1..])
  }

  predicate Truthy(s: Option<string>) {
    s.Some? && s.value != ""
  }

  function FirstTruthy<S, J>(rows: seq<Message<S, J>>, field: Message<S, J> -> Option<string>): Option<string> {
    if rows == [] then None else if Truthy(field(rows[0])) then field(rows[0]) else FirstTruthy(rows[1..], field)
  }

  function Signature<S, J>(): Message<S, J> -> Option<string> { (m: Message<S, J>) => m.signature }

  function SenderName<S, J>(): Message<S, J> -> Option<string> { (m: Message<S, J>) => m.senderName }

  function SenderKey<S, J>(): Message<S, J> -> Option<string> { (m: Message<S, J>) => m.senderKey }

  function AckCount<S, J>(m: Message<S, J>): int {
    if m.acked.Some? then m.acked.value else 0
  }

  function MinReceived<S, J>(rows: seq<Message<S, J>>): int
    requires rows != []
  {
    if |rows| == 1 then rows[0].receivedAt else Min(rows[0].receivedAt, MinReceived(rows[1..]))
  }

  function MaxAcked<S, J>(rows: seq<Message<S, J>>): int
    requires rows != []
  {
    if |rows| == 1 then AckCount(rows[0]) else Max(AckCount(rows[0]), MaxAcked(rows[1..]))
  }

  function PathColumns<S, J>(rows: seq<Message<S, J>>): seq<Paths<J>> {
    seq(|rows|, i requires 0 <= i < |rows| => rows[i].paths)
  }

  /** The row a group is collapsed into: the first one, with the merged columns. */
  ghost function Merged<S, J>(rows: seq<Message<S, J>>): Message<S, J>
    requires rows != []
  {
    rows[0].(receivedAt := MinReceived(rows), paths := MergedPaths(PathColumns(rows)), txtType := FirstTxtType(rows),
             signature := FirstTruthy(rows, Signature()), acked := Some(MaxAcked(rows)),
             senderName := FirstTruthy(rows, SenderName()), senderKey := FirstTruthy(rows, SenderKey()))
  }

  /** The merged times and counts are the extremes of the group. */
  lemma {:induction false} MergedExtremes<S, J>(rows: seq<Message<S, J>>)
    requires rows != []
    ensures forall i :: 0 <= i < |rows| ==>
              MinReceived(rows) <= rows[i].receivedAt && AckCount(rows[i]) <= MaxAcked(rows)
    ensures exists i :: 0 <= i < |rows| && rows[i].receivedAt == MinReceived(rows)
    ensures exists i :: 0 <= i < |rows| && AckCount(rows[i]) == MaxAcked(rows)
  {
    if |rows| > 1 {
      var rest := rows[1..];
      MergedExtremes(rest);
      var i :| 0 <= i < |rest| && rest[i].receivedAt == MinReceived(rest);
      var j :| 0 <= j < |rest| && AckCount(rest[j]) == MaxAcked(rest);
      assert rows[i + 1] == rest[i] && rows[j + 1] == rest[j];
      assert forall k :: 0 < k < |rows| ==> rows[k] == rest[k - 1];
    } else {
      assert rows[0].receivedAt == MinReceived(rows) && AckCount(rows[0]) == MaxAcked(rows);
    }
  }

  /** The merged acknowledgement count in plain words: none is less than any row's, a missing one counting as 0, and
      some row has it. */
  lemma AckedIsLargest<S, J>(rows: seq<Message<S, J>>)
    requires rows != []
    ensures forall i :: 0 <= i < |rows| ==>
              if rows[i].acked.Some? then rows[i].acked.value <= MaxAcked(rows) else 0 <= MaxAcked(rows)
    ensures exists i :: 0 <= i < |rows| &&
                        (rows[i].acked == Some(MaxAcked(rows)) || (rows[i].acked.None? && MaxAcked(rows) == 0))
  {
    MergedExtremes(rows);
    var i :| 0 <= i < |rows| && AckCount(rows[i]) == MaxAcked(rows);
    assert rows[i].acked == Some(MaxAcked(rows)) || (rows[i].acked.None? && MaxAcked(rows) == 0);
  }

  /** A merged text is that of the first row that has one. */
  lemma {:induction false} FirstTruthyIsFirst<S, J>(rows: seq<Message<S, J>>, field: Message<S, J> -> Option<string>,
                                                    i: nat)
    requires i < |rows| && Truthy(field(rows[i])) && forall j :: 0 <= j < i ==> !Truthy(field(rows[j]))
    ensures FirstTruthy(rows, field) == field(rows[i])
  {
    if i > 0 {
      FirstTruthyIsFirst(rows[1..], field, i - 1);
    }
  }

  /** Field by field: the keeper's own columns, and the first text there is in each of the three others. */
  lemma MergedTexts<S, J>(rows: seq<Message<S, J>>, i: nat)
    requires i < |rows|
    ensures var m := Merged(rows);
            && m.id == rows[0].id && m.conversation == rows[0].conversation && m.text == rows[0].text
            && m.senderTimestamp == rows[0].senderTimestamp && m.incomingDm == rows[0].incomingDm
            && (Truthy(rows[i].signature) && (forall j :: 0 <= j < i ==> !Truthy(rows[j].signature)) ==>
                  m.signature == rows[i].signature)
            && (Truthy(rows[i].senderName) && (forall j :: 0 <= j < i ==> !Truthy(rows[j].senderName)) ==>
                  m.senderName == rows[i].senderName)
            && (Truthy(rows[i].senderKey) && (forall j :: 0 <= j < i ==> !Truthy(rows[j].senderKey)) ==>
                  m.senderKey == rows[i].senderKey)
  {
    if Truthy(rows[i].signature) && forall j :: 0 <= j < i ==> !Truthy(rows[j].signature) {
      FirstTruthyIsFirst(rows, Signature(), i);
    }
    if Truthy(rows[i].senderName) && forall j :: 0 <= j < i ==> !Truthy(rows[j].senderName) {
      FirstTruthyIsFirst(rows, SenderName(), i);
    }
    if Truthy(rows[i].senderKey) && forall j :: 0 <= j < i ==> !Truthy(rows[j].senderKey) {
      FirstTruthyIsFirst(rows, SenderKey(), i);
    }
  }

  /** Without any such row there is none, and the plain type. */
  lemma {:induction false} NothingToMerge<S, J>(rows: seq<Message<S, J>>, field: Message<S, J> -> Option<string>)
    ensures (forall i :: 0 <= i < |rows| ==> !Truthy(field(rows[i]))) ==> FirstTruthy(rows, field) == None
    ensures (forall i :: 0 <= i < |rows| ==> rows[i].txtType == Some(0)) ==> FirstTxtType(rows) == Some(0)
  {
    if rows != [] {
      NothingToMerge(rows[1..], field);
      assert forall i :: 0 <= i < |rows[1..]| ==> rows[1..][i] == rows[i + 1];
      assert rows[0] == rows[..][0];
    }
  }

  /** The merged text type is that of the first row whose type is not plain. */
  lemma {:induction false} FirstTxtTypeIsFirst<S, J>(rows: seq<Message<S, J>>, i: nat)
    requires i < |rows| && rows[i].txtType != Some(0) && forall j :: 0 <= j < i ==> rows[j].txtType == Some(0)
    ensures FirstTxtType(rows) == rows[i].txtType
  {
    if i > 0 {
      FirstTxtTypeIsFirst(rows[1..], i - 1);
    }
  }

  // ------------------------------------------------------------ reference: collapse a set of groups at once

  /** What becomes of one row of `full` when the groups in `done` are collapsed. */
  ghost function Fate<S, J>(full: seq<Message<S, J>>, m: Message<S, J>, done: set<GroupKey<S>>): seq<Message<S, J>> {
    if !m.incomingDm || GroupOf(m) !in done then [m]
    else
      var rows := RowsOf(full, GroupOf(m));
      if rows != [] && m.id == rows[0].id then [Merged(rows)] else []
  }

  ghost function Collapsed<S, J>(full: seq<Message<S, J>>, t: seq<Message<S, J>>,
                                 done: set<GroupKey<S>>): seq<Message<S, J>> {
    if t == [] then [] else Collapsed(full, t[..|t| - 1], done) + Fate(full, t[|t| - 1], done)
  }

  ghost function Duplicated<S, J>(t: seq<Message<S, J>>): set<GroupKey<S>> {
    set i | 0 <= i < |t| && t[i].incomingDm && |RowsOf(t, GroupOf(t[i]))| > 1 :: GroupOf(t[i])
  }

  lemma {:induction false} RowsOfMembers<S, J>(t: seq<Message<S, J>>, g: GroupKey<S>)
    ensures forall i :: 0 <= i < |RowsOf(t, g)| ==> InGroup(RowsOf(t, g)[i], g) && RowsOf(t, g)[i] in t
    ensures forall i :: 0 <= i < |t| && InGroup(t[i], g) ==> t[i] in RowsOf(t, g)
  {
    if t != [] {
      var init := t[..|t| - 1];
      RowsOfMembers(init, g);
      assert t == init + [t[|t| - 1]];
      assert forall i :: 0 <= i < |init| ==> init[i] == t[i];
    }
  }

  lemma {:induction false} RowsOfSorted<S, J>(t: seq<Message<S, J>>, g: GroupKey<S>)
    requires SortedById(t)
    ensures SortedById(RowsOf(t, g))
  {
    if t != [] {
      var init := t[..|t| - 1];
      var before := RowsOf(init, g);
      RowsOfSorted(init, g);
      RowsOfMembers(init, g);
      forall i | 0 <= i < |before| ensures before[i].id < t[|t| - 1].id {
        var j :| 0 <= j < |init| && init[j] == before[i];
        assert t[j] == before[i];
      }
    }
  }

  lemma RowsOfConcat<S, J>(a: seq<Message<S, J>>, b: seq<Message<S, J>>, g: GroupKey<S>)
    requires |b| <= 1
    ensures RowsOf(a + b, g) == RowsOf(a, g) + (if b != [] && InGroup(b[0], g) then b else [])
  {
    if b != [] {
      assert (a + b)[..|a|] == a;
    } else {
      assert a + b == a;
    }
  }

  lemma FateOfOther<S, J>(full: seq<Message<S, J>>, m: Message<S, J>, done: set<GroupKey<S>>)
    requires !m.incomingDm || GroupOf(m) !in done
    ensures Fate(full, m, done) == [m]
  {
  }

  lemma FateGroup<S, J>(full: seq<Message<S, J>>, m: Message<S, J>, done: set<GroupKey<S>>)
    ensures |Fate(full, m, done)| <= 1
    ensures Fate(full, m, done) != [] ==> Fate(full, m, done)[0].id == m.id
    ensures Fate(full, m, done) != [] ==>
              Fate(full, m, done)[0].incomingDm == m.incomingDm && GroupOf(Fate(full, m, done)[0]) == GroupOf(m)
  {
    if m.incomingDm && GroupOf(m) in done {
      RowsOfMembers(full, GroupOf(m));
    }
  }

  /** Collapsing other groups leaves the rows of g as they are. */
  lemma {:induction false} OtherGroupsUntouched<S, J>(full: seq<Message<S, J>>, t: seq<Message<S, J>>,
                                                      done: set<GroupKey<S>>, g: GroupKey<S>)
    requires g !in done
    ensures RowsOf(Collapsed(full, t, done), g) == RowsOf(t, g)
  {
    if t != [] {
      var init := t[..|t| - 1];
      OtherGroupsUntouched(full, init, done, g);
      FateGroup(full, t[|t| - 1], done);
      RowsOfConcat(Collapsed(full, init, done), Fate(full, t[|t| - 1], done), g);
    }
  }

  // ------------------------------------------------------------ the statements of one group

  /** UPDATE messages SET ... WHERE id = keeper. */
  function Update<S, J>(t: seq<Message<S, J>>, merged: Message<S, J>): seq<Message<S, J>> {
    seq(|t|, i requires 0 <= i < |t| => if t[i].id == merged.id then merged else t[i])
  }

  /** DELETE FROM messages WHERE id IN (...). */
  function Delete<S, J>(t: seq<Message<S, J>>, ids: set<int>): seq<Message<S, J>> {
    if t == [] then []
    else
      var before := Delete(t[..|t| - 1], ids);
      if t[|t| - 1].id in ids then before else before + [t[|t| - 1]]
  }

  lemma DeleteUpdated<S, J>(a: seq<Message<S, J>>, b: seq<Message<S, J>>, merged: Message<S, J>, ids: set<int>)
    requires |b| <= 1
    ensures Delete(Update(a + b, merged), ids) == Delete(Update(a, merged), ids) + Delete(Update(b, merged), ids)
  {
    if b == [] {
      assert a + b == a;
    } else {
      assert Update(a + b, merged) == Update(a, merged) + Update(b, merged);
      assert (Update(a, merged) + Update(b, merged))[..|a|] == Update(a, merged);
      assert Update(b, merged)[..0] == [];
    }
  }

  /** The ids of a group's rows identify its members in the table. */
  lemma GroupIds<S, J>(full: seq<Message<S, J>>, g: GroupKey<S>, n: nat)
    requires SortedById(full) && n < |full| && RowsOf(full, g) != []
    ensures var rows := RowsOf(full, g);
            var duplicates := set i | 1 <= i < |rows| :: rows[i].id;
            InGroup(full[n], g) <==> full[n].id == rows[0].id || full[n].id in duplicates
    ensures RowsOf(full, g)[0].id !in (set i | 1 <= i < |RowsOf(full, g)| :: RowsOf(full, g)[i].id)
  {
    var rows := RowsOf(full, g);
    RowsOfMembers(full, g);
    RowsOfSorted(full, g);
    if InGroup(full[n], g) {
      var i :| 0 <= i < |rows| && rows[i] == full[n];
    }
    forall i | 0 <= i < |rows| && rows[i].id == full[n].id ensures InGroup(full[n], g) {
      var j :| 0 <= j < |full| && full[j] == rows[i];
    }
  }

  lemma CollapsedSnoc<S, J>(full: seq<Message<S, J>>, n: nat, done: set<GroupKey<S>>)
    requires 0 < n <= |full|
    ensures Collapsed(full, full[..n], done) == Collapsed(full, full[..n - 1], done) + Fate(full, full[n - 1], done)
  {
    assert full[..n][..n - 1] == full[..n - 1];
  }

  /** Update and delete turn "the groups in done are collapsed" into "g is collapsed too". */
  lemma {:induction false} CollapseOne<S, J>(full: seq<Message<S, J>>, n: nat, done: set<GroupKey<S>>, g: GroupKey<S>)
    requires SortedById(full) && n <= |full| && g !in done && RowsOf(full, g) != []
    ensures var rows := RowsOf(full, g);
            Delete(Update(Collapsed(full, full[..n], done), Merged(rows)), set i | 1 <= i < |rows| :: rows[i].id)
              == Collapsed(full, full[..n], done + {g})
  {
    var rows := RowsOf(full, g);
    var ids := set i | 1 <= i < |rows| :: rows[i].id;
    if n > 0 {
      CollapseOne(full, n - 1, done, g);
      var m := full[n - 1];
      var fate := Fate(full, m, done);
      var before := Collapsed(full, full[..n - 1], done);
      CollapsedSnoc(full, n, done);
      CollapsedSnoc(full, n, done + {g});
      assert |fate| <= 1 by { FateGroup(full, m, done); }
      DeleteUpdated(before, fate, Merged(rows), ids);
      assert Delete(Update(fate, Merged(rows)), ids) == Fate(full, m, done + {g}) by {
        GroupIds(full, g, n - 1);
        FateOfOne(full, m, done, g);
      }
    }
  }

  lemma FateOfOne<S, J>(full: seq<Message<S, J>>, m: Message<S, J>, done: set<GroupKey<S>>, g: GroupKey<S>)
    requires g !in done && RowsOf(full, g) != []
    requires var rows := RowsOf(full, g);
             && (InGroup(m, g) <==> m.id == rows[0].id || m.id in (set i | 1 <= i < |rows| :: rows[i].id))
             && rows[0].id !in (set i | 1 <= i < |rows| :: rows[i].id)
    ensures var rows := RowsOf(full, g);
            Delete(Update(Fate(full, m, done), Merged(rows)), set i | 1 <= i < |rows| :: rows[i].id) ==
                Fate(full, m, done + {g})
  {
    var rows := RowsOf(full, g);
    var ids := set i | 1 <= i < |rows| :: rows[i].id;
    FateGroup(full, m, done);
    var fate := Fate(full, m, done);
    if fate != [] {
      var updated := Update(fate, Merged(rows));
      assert updated == [if m.id == rows[0].id then Merged(rows) else fate[0]];
      assert updated[..0] == [];
      assert updated[0].id == m.id;
      assert Delete(updated, ids) == if m.id in ids then [] else updated;
    }
  }

  // ------------------------------------------------------------ links from raw packets

  function IndexOf<S, J>(t: seq<Message<S, J>>, id: int): (r: Option<nat>)
    ensures r.Some? ==> r.value < |t| && t[r.value].id == id
    ensures r.None? ==> forall i :: 0 <= i < |t| ==> t[i].id != id
  {
    if t == [] then None
    else if t[|t| - 1].id == id then Some(|t| - 1)
    else IndexOf(t[..|t| - 1], id)
  }

  /** Reference: a link to a member of a collapsed group leads to the group's first row, any other stays. */
  ghost function Relinked<S, J>(full: seq<Message<S, J>>, link: int, done: set<GroupKey<S>>): int {
    var n := IndexOf(full, link);
    if n.None? || !full[n.value].incomingDm || GroupOf(full[n.value]) !in done then link
    else
      var rows := RowsOf(full, GroupOf(full[n.value]));
      if rows == [] then link else rows[0].id
  }

  ghost function RelinkedPackets<S, J>(full: seq<Message<S, J>>, packets: map<int, Option<int>>,
                                       done: set<GroupKey<S>>): map<int, Option<int>> {
    map p | p in packets :: if packets[p].Some? then Some(Relinked(full, packets[p].value, done)) else None
  }

  lemma RelinkOne<S, J>(full: seq<Message<S, J>>, link: int, done: set<GroupKey<S>>, g: GroupKey<S>)
    requires SortedById(full) && g !in done && RowsOf(full, g) != []
    ensures var rows := RowsOf(full, g);
            var ids := set i | 1 <= i < |rows| :: rows[i].id;
            var now := Relinked(full, link, done);
            Relinked(full, link, done + {g}) == if now in ids then rows[0].id else now
  {
    var rows := RowsOf(full, g);
    RowsOfMembers(full, g);
    var n := IndexOf(full, link);
    if n.Some? {
      GroupIds(full, g, n.value);
      var m := full[n.value];
      var others := RowsOf(full, GroupOf(m));
      RowsOfMembers(full, GroupOf(m));
      if m.incomingDm && GroupOf(m) in done && others != [] {
        var k :| 0 <= k < |full| && full[k] == others[0];
        GroupIds(full, g, k);
      }
    } else {
      assert forall i :: 0 <= i < |rows| ==> rows[i] in full;
    }
  }

  /** Links to any of `ids` are pointed at the keeper. */
  function Repointed(packets: map<int, Option<int>>, ids: set<int>, keeper: int): map<int, Option<int>> {
    map p | p in packets :: if packets[p].Some? && packets[p].value in ids then Some(keeper) else packets[p]
  }

  lemma RelinkNone<S, J>(full: seq<Message<S, J>>, packets: map<int, Option<int>>)
    ensures RelinkedPackets(full, packets, {}) == packets
  {
    forall p | p in packets ensures RelinkedPackets(full, packets, {})[p] == packets[p] {
      if packets[p].Some? { assert Relinked(full, packets[p].value, {}) == packets[p].value; }
    }
  }

  lemma RelinkAll<S, J>(full: seq<Message<S, J>>, packets: map<int, Option<int>>, done: set<GroupKey<S>>,
                        g: GroupKey<S>, ids: set<int>)
    requires SortedById(full) && g !in done && RowsOf(full, g) != []
    requires ids == set i | 1 <= i < |RowsOf(full, g)| :: RowsOf(full, g)[i].id
    ensures Repointed(RelinkedPackets(full, packets, done), ids, RowsOf(full, g)[0].id) ==
              RelinkedPackets(full, packets, done + {g})
  {
    forall p | p in packets && packets[p].Some?
      ensures Repointed(RelinkedPackets(full, packets, done), ids, RowsOf(full, g)[0].id)[p] ==
                Some(Relinked(full, packets[p].value, done + {g}))
    {
      RelinkOne(full, packets[p].value, done, g);
    }
  }

  lemma CollapseAll<S, J>(full: seq<Message<S, J>>, done: set<GroupKey<S>>, g: GroupKey<S>, ids: set<int>)
    requires SortedById(full) && g !in done && RowsOf(full, g) != []
    requires ids == set i | 1 <= i < |RowsOf(full, g)| :: RowsOf(full, g)[i].id
    ensures Delete(Update(Collapsed(full, full, done), Merged(RowsOf(full, g))), ids) ==
              Collapsed(full, full, done + {g})
  {
    CollapseOne(full, |full|, done, g);
    assert full[..|full|] == full;
  }

  /** The merged columns as the program computes them. */
  method MergeRows<S, J(==)>(rows: seq<Message<S, J>>) returns (merged: Message<S, J>)
    requires rows != []
    ensures merged == Merged(rows)
  {
    var mergedPaths := MergeMessagePaths(PathColumns(rows));
    merged := rows[0].(receivedAt := MinReceived(rows), paths := mergedPaths, txtType := FirstTxtType(rows),
                       signature := FirstTruthy(rows, Signature()), acked := Some(MaxAcked(rows)),
                       senderName := FirstTruthy(rows, SenderName()), senderKey := FirstTruthy(rows, SenderKey()));
  }

  class Database<S(==), J(==)> {
    var messages: seq<Message<S, J>>
    var rawPackets: Option<map<int, Option<int>>>   // packet id to linked message, when the table exists

    constructor (messages: seq<Message<S, J>>, rawPackets: Option<map<int, Option<int>>>)
      ensures this.messages == messages && this.rawPackets == rawPackets
    {
      this.messages, this.rawPackets := messages, rawPackets;
    }

    /** UPDATE raw_packets SET message_id = keeper WHERE message_id = duplicate, for each duplicate. */
    method Relink(duplicates: seq<int>, keeper: int)
      requires keeper !in duplicates
      modifies this`rawPackets
      ensures rawPackets ==
              if old(rawPackets).None? then None
              else Some(Repointed(old(rawPackets).value, Elements(duplicates), keeper))
    {
      if rawPackets.None? {
        return;
      }
      var packets := rawPackets.value;
      assert Repointed(packets, Elements(duplicates[..0]), keeper) == packets;
      for i := 0 to |duplicates|
        invariant packets == Repointed(rawPackets.value, Elements(duplicates[..i]), keeper)
      {
        assert duplicates[..i + 1] == duplicates[..i] + [duplicates[i]];
        packets := Repointed(packets, {duplicates[i]}, keeper);
      }
      assert duplicates[..|duplicates|] == duplicates;
      rawPackets := Some(packets);
    }

    /** The statements for one group. */
    method CollapseGroup(g: GroupKey<S>, ghost full: seq<Message<S, J>>, ghost packets: map<int, Option<int>>,
                         ghost done: set<GroupKey<S>>)
      requires SortedById(full) && g !in done && |RowsOf(full, g)| > 1
      requires messages == Collapsed(full, full, done)
      requires rawPackets.Some? ==> rawPackets.value == RelinkedPackets(full, packets, done)
      modifies this
      ensures messages == Collapsed(full, full, done + {g})
      ensures rawPackets.Some? == old(rawPackets).Some?
      ensures rawPackets.Some? ==> rawPackets.value == RelinkedPackets(full, packets, done + {g})
    {
      OtherGroupsUntouched(full, full, done, g);
      var rows := RowsOf(messages, g);
      var duplicates := seq(|rows| - 1, i requires 0 <= i < |rows| - 1 => rows[i + 1].id);
      var merged := MergeRows(rows);
      DuplicateIds(full, g, duplicates);
      messages := Update(messages, merged);
      Relink(duplicates, rows[0].id);
      messages := Delete(messages, Elements(duplicates));
      CollapseAll(full, done, g, Elements(duplicates));
      RelinkAll(full, packets, done, g, Elements(duplicates));
    }

    /** The migration.  `groups` is the duplicate-group query's result, in whatever order it comes. */
    method Migrate(groups: seq<GroupKey<S>>)
      requires SortedById(messages)
      requires Distinct(groups) && Elements(groups) == Duplicated(messages)
      modifies this
      ensures messages == Collapsed(old(messages), old(messages), Duplicated(old(messages)))
      ensures rawPackets.Some? == old(rawPackets).Some?
      ensures rawPackets.Some? ==>
                rawPackets.value == RelinkedPackets(old(messages), old(rawPackets).value, Duplicated(old(messages)))
    {
      ghost var full := messages;
      ghost var packets := if rawPackets.Some? then rawPackets.value else map[];
      NothingCollapsed(full, full);
      RelinkNone(full, packets);
      assert Elements(groups[..0]) == {};
      for i := 0 to |groups|
        invariant messages == Collapsed(full, full, Elements(groups[..i]))
        invariant rawPackets.Some? == old(rawPackets).Some?
        invariant rawPackets.Some? ==> rawPackets.value == RelinkedPackets(full, packets, Elements(groups[..i]))
      {
        NextGroup(groups, i);
        DuplicatedSize(full, groups[i]);
        CollapseGroup(groups[i], full, packets, Elements(groups[..i]));
      }
      assert groups[..|groups|] == groups;
    }
  }

  /** Distinct groups are met one by one. */
  lemma NextGroup<G>(groups: seq<G>, i: nat)
    requires Distinct(groups) && i < |groups|
    ensures groups[i] in Elements(groups) && groups[i] !in Elements(groups[..i])
    ensures Elements(groups[..i + 1]) == Elements(groups[..i]) + {groups[i]}
  {
    assert groups[..i + 1] == groups[..i] + [groups[i]];
  }

  lemma DuplicateIds<S, J>(full: seq<Message<S, J>>, g: GroupKey<S>, duplicates: seq<int>)
    requires SortedById(full) && RowsOf(full, g) != []
    requires var rows := RowsOf(full, g);
             |duplicates| == |rows| - 1 && forall i :: 0 <= i < |duplicates| ==> duplicates[i] == rows[i + 1].id
    ensures var rows := RowsOf(full, g);
            Elements(duplicates) == (set i | 1 <= i < |rows| :: rows[i].id) && rows[0].id !in duplicates
  {
    var rows := RowsOf(full, g);
    RowsOfSorted(full, g);
    forall i | 1 <= i < |rows| ensures rows[i].id in duplicates {
      assert duplicates[i - 1] == rows[i].id;
    }
  }

  lemma {:induction false} NothingCollapsed<S, J>(full: seq<Message<S, J>>, t: seq<Message<S, J>>)
    ensures Collapsed(full, t, {}) == t
  {
    if t != [] {
      NothingCollapsed(full, t[..|t| - 1]);
      FateOfOther(full, t[|t| - 1], {});
      assert Collapsed(full, t, {}) == t[..|t| - 1] + [t[|t| - 1]];
    }
  }

  // ------------------------------------------------------------ what the collapsed table promises

  /** Of the rows of a collapsed group the first leaves the merged row, the others and other groups' rows nothing. */
  lemma FateInGroup<S, J>(full: seq<Message<S, J>>, i: nat, done: set<GroupKey<S>>, g: GroupKey<S>, first: nat)
    requires SortedById(full) && i < |full| && g in done && RowsOf(full, g) != []
    requires first < |full| && full[first] == RowsOf(full, g)[0]
    ensures var fate := Fate(full, full[i], done);
            (if fate != [] && InGroup(fate[0], g) then fate else []) ==
            if i == first then [Merged(RowsOf(full, g))] else []
  {
    var rows := RowsOf(full, g);
    RowsOfMembers(full, g);
    assert InGroup(rows[0], g);
    FateGroup(full, full[i], done);
    assert full[i].id == rows[0].id <==> i == first;
  }

  lemma MergedRowAdded<S, J>(before: seq<Message<S, J>>, fate: seq<Message<S, J>>, g: GroupKey<S>,
                             merged: Message<S, J>, first: nat, n: nat)
    requires n > 0 && |fate| <= 1
    requires RowsOf(before, g) == if first < n - 1 then [merged] else []
    requires (if fate != [] && InGroup(fate[0], g) then fate else []) == if n - 1 == first then [merged] else []
    ensures RowsOf(before + fate, g) == if first < n then [merged] else []
  {
    RowsOfConcat(before, fate, g);
  }

  /** A collapsed group has its merged row once the table has been read past the group's first row. */
  lemma {:induction false} CollapsedGroup<S, J>(full: seq<Message<S, J>>, n: nat, done: set<GroupKey<S>>,
                                                g: GroupKey<S>, first: nat)
    requires SortedById(full) && n <= |full| && g in done && RowsOf(full, g) != []
    requires first < |full| && full[first] == RowsOf(full, g)[0]
    ensures RowsOf(Collapsed(full, full[..n], done), g) == if first < n then [Merged(RowsOf(full, g))] else []
  {
    if n > 0 {
      CollapsedGroup(full, n - 1, done, g, first);
      FateGroup(full, full[n - 1], done);
      FateInGroup(full, n - 1, done, g, first);
      MergedRowAdded(Collapsed(full, full[..n - 1], done), Fate(full, full[n - 1], done), g, Merged(RowsOf(full, g)),
                     first, n);
      CollapsedSnoc(full, n, done);
    }
  }

  lemma CollapsedRows<S, J>(full: seq<Message<S, J>>, g: GroupKey<S>)
    requires SortedById(full)
    ensures var rows := RowsOf(full, g);
            RowsOf(Collapsed(full, full, Duplicated(full)), g) == if |rows| > 1 then [Merged(rows)] else rows
  {
    var rows := RowsOf(full, g);
    if |rows| > 1 {
      RowsOfMembers(full, g);
      var first :| 0 <= first < |full| && full[first] == rows[0];
      assert InGroup(full[first], g);
      assert GroupOf(full[first]) in Duplicated(full);
      CollapsedGroup(full, |full|, Duplicated(full), g, first);
      assert full[..|full|] == full;
    } else {
      assert g !in Duplicated(full);
      OtherGroupsUntouched(full, full, Duplicated(full), g);
    }
  }

  /** Main result: after the migration a duplicated group has exactly one row, the lowest id of the group, carrying
      every distinct path observation once in order, the earliest received_at and the largest acked; any other group
      has exactly the rows it had, so no two incoming messages share a group. */
  lemma CollapsedTable<S, J>(full: seq<Message<S, J>>, g: GroupKey<S>)
    requires SortedById(full)
    ensures var after := Collapsed(full, full, Duplicated(full));
            var rows := RowsOf(full, g);
            && RowsOf(after, g) == (if |rows| > 1 then [Merged(rows)] else rows)
            && |RowsOf(after, g)| <= 1
            && (|rows| > 1 ==>
                  && (forall i :: 0 <= i < |rows| ==>
                       Merged(rows).id <= rows[i].id && Merged(rows).receivedAt <= rows[i].receivedAt
                                                      && AckCount(rows[i]) <= Merged(rows).acked.value)
                  && (exists i :: 0 <= i < |rows| && Merged(rows).receivedAt == rows[i].receivedAt)
                  && (exists i :: 0 <= i < |rows| && Merged(rows).acked == Some(AckCount(rows[i])))
                  && Merged(rows).paths == MergedPaths(PathColumns(rows)))
  {
    CollapsedRows(full, g);
    RowsOfSorted(full, g);
    var rows := RowsOf(full, g);
    if |rows| > 1 {
      MergedExtremes(rows);
    }
  }

  /** Duplicates of one message: incoming direct messages of the same conversation and text whose timestamps agree, a
      missing one counting as 0. */
  predicate SameMessage<S(==), J>(a: Message<S, J>, b: Message<S, J>) {
    && a.incomingDm && b.incomingDm && a.conversation == b.conversation && a.text == b.text
    && match (a.senderTimestamp, b.senderTimestamp)
       case (None, None) => true
       case (Some(x), None) => x == 0
       case (None, Some(y)) => y == 0
       case (Some(x), Some(y)) => x == y
  }

  lemma SameMessageIsSameGroup<S, J>(a: Message<S, J>, b: Message<S, J>)
    ensures a.incomingDm ==> (SameMessage(a, b) <==> InGroup(b, GroupOf(a)))
  {
  }

  lemma {:induction false} TwoRows<S, J>(t: seq<Message<S, J>>, g: GroupKey<S>, i: nat, j: nat)
    requires i < j < |t| && InGroup(t[i], g) && InGroup(t[j], g)
    ensures |RowsOf(t, g)| > 1
  {
    var init := t[..|t| - 1];
    if j < |t| - 1 {
      TwoRows(init, g, i, j);
    } else {
      RowsOfMembers(init, g);
      assert init[i] in RowsOf(init, g);
    }
  }

  /** A message is collapsed exactly when the table holds another duplicate of it. */
  lemma CollapsedIffDuplicated<S, J>(full: seq<Message<S, J>>, n: nat)
    requires SortedById(full) && n < |full| && full[n].incomingDm
    ensures GroupOf(full[n]) in Duplicated(full) <==>
            exists i :: 0 <= i < |full| && i != n && SameMessage(full[n], full[i])
  {
    var g := GroupOf(full[n]);
    RowsOfMembers(full, g);
    RowsOfSorted(full, g);
    if i :| 0 <= i < |full| && i != n && SameMessage(full[n], full[i]) {
      SameMessageIsSameGroup(full[n], full[i]);
      TwoRows(full, g, if i < n then i else n, if i < n then n else i);
    }
    if g in Duplicated(full) {
      DuplicatedSize(full, g);
      var rows := RowsOf(full, g);
      var other := if rows[0] == full[n] then rows[1] else rows[0];
      assert rows[0].id != rows[1].id;
      assert other in rows && other.id != full[n].id;
      var i :| 0 <= i < |full| && full[i] == other;
      SameMessageIsSameGroup(full[n], full[i]);
    }
  }

  /** Rows that are not part of a duplicated group are unchanged. */
  lemma {:induction false} OthersUnchanged<S, J>(full: seq<Message<S, J>>, t: seq<Message<S, J>>,
                                                 done: set<GroupKey<S>>, n: nat)
    requires n < |t| && !(t[n].incomingDm && GroupOf(t[n]) in done)
    ensures t[n] in Collapsed(full, t, done)
  {
    if n < |t| - 1 {
      OthersUnchanged(full, t[..|t| - 1], done, n);
    }
  }

  /** A row of the table with an id, in the scope and group of a message. */
  ghost predicate HasRow<S, J>(t: seq<Message<S, J>>, id: int, m: Message<S, J>) {
    exists i :: 0 <= i < |t| && t[i].id == id && t[i].incomingDm == m.incomingDm && GroupOf(t[i]) == GroupOf(m)
  }

  lemma GroupRowPresent<S, J>(t: seq<Message<S, J>>, row: Message<S, J>, m: Message<S, J>)
    requires m.incomingDm && RowsOf(t, GroupOf(m)) == [row]
    ensures HasRow(t, row.id, m)
  {
    RowsOfMembers(t, GroupOf(m));
    assert RowsOf(t, GroupOf(m))[0] == row;
    var j :| 0 <= j < |t| && t[j] == row;
    assert InGroup(row, GroupOf(m));
  }

  /** Every packet linked to a message still leads to a row of that message's group. */
  lemma LinksStayInGroup<S, J>(full: seq<Message<S, J>>, n: nat)
    requires SortedById(full) && n < |full|
    ensures HasRow(Collapsed(full, full, Duplicated(full)), Relinked(full, full[n].id, Duplicated(full)), full[n])
  {
    var done := Duplicated(full);
    var after := Collapsed(full, full, done);
    var m := full[n];
    assert IndexOf(full, m.id) == Some(n);
    if m.incomingDm && GroupOf(m) in done {
      CollapsedTable(full, GroupOf(m));
      RowsOfMembers(full, GroupOf(m));
      DuplicatedSize(full, GroupOf(m));
      GroupRowPresent(after, Merged(RowsOf(full, GroupOf(m))), m);
    } else {
      OthersUnchanged(full, full, done, n);
      var j :| 0 <= j < |after| && after[j] == m;
    }
  }

  lemma DuplicatedSize<S, J>(full: seq<Message<S, J>>, g: GroupKey<S>)
    requires g in Duplicated(full)
    ensures |RowsOf(full, g)| > 1
  {
  }
}
