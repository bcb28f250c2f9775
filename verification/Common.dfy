/** Small vocabulary shared by the models: optional values, integer extremes and duplicate-free sequences. */
module Common {

  datatype Option<+T> = None | Some(value: T)

  function Max(a: int, b: int): int {
    if a < b then b else a
  }

  function Min(a: int, b: int): int {
    if a < b then a else b
  }

  /** No value occurs at two positions. */
  ghost predicate Distinct<T>(s: seq<T>) {
    forall i, j :: 0 <= i < j < |s| ==> s[i] != s[j]
  }

  /** The values that occur in a sequence. */
  function Elements<T>(s: seq<T>): set<T> {
    set x | x in s
  }

  /** A sequence has at most as many distinct values as positions, and exactly as many when duplicate-free. */
  lemma {:induction false} ElementsCount<T>(s: seq<T>)
    ensures |Elements(s)| <= |s|
    ensures Distinct(s) ==> |Elements(s)| == |s|
  {
    if s == [] {
    } else {
      var last := |s| - 1;
      ElementsCount(s[..last]);
      assert s == s[..last] + [s[last]];
      assert Elements(s) == Elements(s[..last]) + {s[last]};
    }
  }

  /** The naturals below n, as a set. */
  function Below(n: nat): (r: set<nat>)
    ensures forall i: nat :: i in r <==> i < n
    ensures |r| == n
  {
    if n == 0 then {} else Below(n - 1) + {n - 1}
  }

  lemma {:induction false} SubsetCount<T>(a: set<T>, b: set<T>)
    requires a <= b
    ensures |a| <= |b|
    ensures |a| == |b| ==> a == b
  {
    assert b == a + (b - a);
    assert |b| == |a| + |b - a|;
  }

  /** n boxes hold at most n distinct naturals below n; fewer leave a box free, n of them fill every box. */
  lemma Pigeonhole(claimed: set<nat>, n: nat)
    requires forall s :: s in claimed ==> s < n
    ensures |claimed| < n ==> exists s: nat :: s < n && s !in claimed
    ensures |claimed| >= n ==> |claimed| == n && forall s: nat :: s < n ==> s in claimed
  {
    SubsetCount(claimed, Below(n));
    if |claimed| < n {
      assert Below(n) == claimed + (Below(n) - claimed);
      var s: nat :| s in Below(n) - claimed;
      assert s < n && s !in claimed;
    }
  }

  /** ASCII case mapping, enough for hexadecimal keys. */
  function UpperChar(c: char): char {
    if 'a' <= c <= 'z' then (c as int - 32) as char else c
  }

  function LowerChar(c: char): char {
    if 'A' <= c <= 'Z' then (c as int + 32) as char else c
  }

  function Upper(s: string): (r: string)
    ensures |r| == |s| && forall i :: 0 <= i < |s| ==> !('a' <= r[i] <= 'z')
    ensures forall i :: 0 <= i < |s| ==>
              r[i] == s[i] || ('a' <= s[i] <= 'z' && s[i] as int - r[i] as int == 'a' as int - 'A' as int)
  {
    seq(|s|, i requires 0 <= i < |s| => UpperChar(s[i]))
  }

  function Lower(s: string): (r: string)
    ensures |r| == |s| && forall i :: 0 <= i < |s| ==> !('A' <= r[i] <= 'Z')
    ensures forall i :: 0 <= i < |s| ==>
              r[i] == s[i] || ('A' <= s[i] <= 'Z' && r[i] as int - s[i] as int == 'a' as int - 'A' as int)
  {
    seq(|s|, i requires 0 <= i < |s| => LowerChar(s[i]))
  }

  lemma UpperTwice(s: string)
    ensures Upper(Upper(s)) == Upper(s)
  {
    assert forall c :: UpperChar(UpperChar(c)) == UpperChar(c);
  }
}
