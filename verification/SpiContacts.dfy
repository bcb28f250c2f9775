/**
 * The SPI contact store: a list of contact objects and an index from names to the same objects.
 */
module SpiContacts {
  import opened Common

  class SpiContact {
    const publicKey: string
    var name: string

    constructor (publicKey: string, name: string)
      ensures this.publicKey == publicKey && this.name == name
    {
      this.publicKey, this.name := publicKey, name;
    }
  }

  /** What the contacts table yields for one row; a null name reads as "". */
  datatype DbContact = DbContact(publicKey: string, name: Option<string>)

  function NameOf(d: DbContact): string {
    if d.name.Some? then d.name.value else ""
  }

  class SpiContactStore {
    var cache: seq<SpiContact>
    var byName: map<string, SpiContact>

    /** Sound: list keys are distinct, and each index entry names a listed contact that has that name now. */
    ghost predicate Valid()
      reads this, cache
    {
      && (forall i, j :: 0 <= i < j < |cache| ==> cache[i].publicKey != cache[j].publicKey)
      && (forall n :: n in byName ==> n != "" && byName[n] in cache && byName[n].name == n)
    }

    /** Complete: every named contact is found under its name. */
    ghost predicate Complete()
      reads this, cache
    {
      forall i :: 0 <= i < |cache| && cache[i].name != "" ==>
          cache[i].name in byName && byName[cache[i].name] == cache[i]
    }

    ghost predicate NamesDistinct()
      reads this, cache
    {
      forall i, j :: 0 <= i < j < |cache| && cache[i].name != "" ==> cache[i].name != cache[j].name
    }

    constructor ()
      ensures Valid() && Complete() && cache == [] && byName == map[]
    {
      cache, byName := [], map[];
    }

    method GetByPublicKey(publicKey: string) returns (r: SpiContact?)
      requires Valid()
      ensures r != null ==> r in cache && r.publicKey == Lower(publicKey)
      ensures r == null ==> forall c :: c in cache ==> c.publicKey != Lower(publicKey)
    {
      var pk := Lower(publicKey);
      for i := 0 to |cache|
        invariant forall j :: 0 <= j < i ==> cache[j].publicKey != pk
      {
        if cache[i].publicKey == pk {
          return cache[i];
        }
      }
      return null;
    }

    method GetByName(name: string) returns (r: SpiContact?)
      requires Valid()
      ensures r != null ==> r in cache && r.name == name
      ensures Complete() && name != "" && r == null ==> forall c :: c in cache ==> c.name != name
    {
      return if name in byName then byName[name] else null;
    }

    /** Replaces list and index by fresh objects for the rows; of two rows with one name the index keeps the later. */
    method Refresh(rows: seq<DbContact>)
      requires forall i, j :: 0 <= i < j < |rows| ==> Lower(rows[i].publicKey) != Lower(rows[j].publicKey)
      modifies this
      ensures Valid() && |cache| == |rows|
      ensures forall i :: 0 <= i < |rows| ==>
                fresh(cache[i]) && cache[i].publicKey == Lower(rows[i].publicKey) && cache[i].name == NameOf(rows[i])
      ensures forall i :: 0 <= i < |rows| && rows[i].name.Some? ==> cache[i].name == rows[i].name.value
      ensures forall i :: 0 <= i < |rows| && rows[i].name.None? ==> cache[i].name == ""
      ensures NamesDistinct() ==> Complete()
    {
      var newCache: seq<SpiContact> := [];
      var newByName: map<string, SpiContact> := map[];
      for i := 0 to |rows|
        invariant |newCache| == i
        invariant forall j :: 0 <= j < i ==>
                    fresh(newCache[j]) && newCache[j].publicKey == Lower(rows[j].publicKey)
                        && newCache[j].name == NameOf(rows[j])
        invariant forall n :: n in newByName ==> n != "" && newByName[n] in newCache && newByName[n].name == n
        invariant forall j :: 0 <= j < i && newCache[j].name != "" ==>
                    newCache[j].name in newByName &&
                    (|| newByName[newCache[j].name] == newCache[j]
                     || exists k :: j < k < i && newCache[k].name == newCache[j].name)
      {
        var sc := new SpiContact(Lower(rows[i].publicKey), NameOf(rows[i]));
        newCache := newCache + [sc];
        if sc.name != "" {
          newByName := newByName[sc.name := sc];
        }
      }
      cache, byName := newCache, newByName;
    }

    /** Renames a listed contact: the index entry of its old name goes, the new name leads to it. */
    method Rename(c: SpiContact, name: string)
      requires Valid() && c in cache
      modifies this`byName, c
      ensures Valid() && c.name == name
      ensures byName == Reindexed(old(byName), old(c.name), name, c)
    {
      Unindex(c);
      c.name := name;
      if name != "" {
        byName := byName[name := c];
      }
    }

    /** A rename that leaves the names distinct leaves a complete index complete. */
    twostate lemma RenameKeepsComplete(c: SpiContact)
      requires old(Valid()) && old(Complete()) && cache == old(cache) && c in cache
      requires forall d :: d in cache && d != c ==> d.name == old(d.name)
      requires byName == Reindexed(old(byName), old(c.name), c.name, c) && NamesDistinct()
      ensures Complete()
    {
      var k :| 0 <= k < |cache| && cache[k] == c;
      forall i | 0 <= i < |cache| && cache[i].name != ""
        ensures cache[i].name in byName && byName[cache[i].name] == cache[i]
      {
        if i != k {
          assert cache[i].publicKey != c.publicKey;
          assert cache[i].name != c.name;
          assert old(byName)[cache[i].name] == cache[i];
        }
      }
    }

    /** Before a rename the old name is taken out of the index, so that no entry leads to the contact. */
    method Unindex(c: SpiContact)
      requires Valid() && c in cache
      modifies this`byName
      ensures Valid() && byName == (if c.name != "" then old(byName) - {c.name} else old(byName))
      ensures forall n :: n in byName ==> byName[n] != c
    {
      if c.name != "" {
        byName := byName - {c.name};
      }
    }

    method Append(publicKey: string, name: string) returns (c: SpiContact)
      requires Valid() && forall i :: 0 <= i < |cache| ==> cache[i].publicKey != publicKey
      modifies this
      ensures Valid() && fresh(c) && c.publicKey == publicKey && c.name == name
      ensures cache == old(cache) + [c] && byName == if name != "" then old(byName)[name := c] else old(byName)
      ensures old(Complete()) && NamesDistinct() ==> Complete()
    {
      c := new SpiContact(publicKey, name);
      cache := cache + [c];
      if name != "" {
        byName := byName[name := c];
      }
    }

    /** Adds a contact, or renames the one listed under the key. */
    method AddOrUpdate(publicKey: string, name: string) returns (c: SpiContact)
      requires Valid()
      modifies this, cache
      ensures Valid() && c in cache && c.publicKey == Lower(publicKey) && c.name == name
      ensures c in old(cache) ==> cache == old(cache)
      ensures c !in old(cache) ==>
                fresh(c) && cache == old(cache) + [c] && forall d :: d in old(cache) ==> d.publicKey != Lower(publicKey)
      ensures forall d :: d in old(cache) && d != c ==> d.name == old(d.name)
      ensures name != "" ==> name in byName && byName[name] == c
      ensures old(Complete()) && NamesDistinct() ==> Complete()
    {
      var existing := GetByPublicKey(publicKey);
      if existing != null {
        c := existing;
        Rename(c, name);
        if old(Complete()) && NamesDistinct() { RenameKeepsComplete(c); }
      } else {
        c := Append(Lower(publicKey), name);
      }
    }

    /** Drops a key from list and index; soundness and completeness both survive. */
    method Remove(publicKey: string)
      requires Valid()
      modifies this
      ensures Valid()
      ensures forall c :: c in cache <==> c in old(cache) && c.publicKey != Lower(publicKey)
      ensures forall n :: n in byName <==> n in old(byName) && old(byName)[n].publicKey != Lower(publicKey)
      ensures forall n :: n in byName ==> byName[n] == old(byName)[n]
      ensures old(Complete()) ==> Complete()
    {
      var pk := Lower(publicKey);
      WithoutKey(cache, pk);
      WithoutDistinct(cache, pk);
      cache := Without(cache, pk);
      byName := map n | n in byName && byName[n].publicKey != pk :: byName[n];
    }
  }

  /** The index after a contact's name changed. */
  function Reindexed(index: map<string, SpiContact>, oldName: string, name: string, c: SpiContact): map<string,
                     SpiContact> {
    var rest := if oldName != "" then index - {oldName} else index;
    if name != "" then rest[name := c] else rest
  }

  function Without(cache: seq<SpiContact>, pk: string): seq<SpiContact> {
    if cache == [] then []
    else if cache[0].publicKey != pk then [cache[0]] + Without(cache[1..], pk)
    else Without(cache[1..], pk)
  }

  lemma {:induction false} WithoutKey(cache: seq<SpiContact>, pk: string)
    ensures forall c :: c in Without(cache, pk) <==> c in cache && c.publicKey != pk
    ensures forall i :: 0 <= i < |Without(cache, pk)| ==> Without(cache, pk)[i] in cache
  {
    if cache != [] {
      WithoutKey(cache[1..], pk);
      assert cache == [cache[0]] + cache[1..];
    }
  }

  lemma {:induction false} WithoutDistinct(cache: seq<SpiContact>, pk: string)
    requires forall i, j :: 0 <= i < j < |cache| ==> cache[i].publicKey != cache[j].publicKey
    ensures forall i, j :: 0 <= i < j < |Without(cache, pk)| ==>
              Without(cache, pk)[i].publicKey != Without(cache, pk)[j].publicKey
  {
    if cache != [] {
      var rest := Without(cache[1..], pk);
      WithoutDistinct(cache[1..], pk);
      WithoutKey(cache[1..], pk);
      forall j | 0 <= j < |rest| ensures rest[j].publicKey != cache[0].publicKey {
        var k :| 0 <= k < |cache[1..]| && cache[1..][k] == rest[j];
        assert cache[k + 1] == rest[j];
      }
    }
  }
}
