/**
 * Flat telemetry keys for LPP sensors: "lpp_<type>_ch<channel>", with "_2", "_3", ... for repeated readings.
 */
module LppKeys {
  import opened Common

  /** A reading; a missing type or channel takes its default. */
  datatype Sensor<V> = Sensor(typeName: Option<string>, channel: Option<int>, value: V)

  const DIGITS := "0123456789"

  function Decimal(n: nat): (s: string)
    ensures s != "" && forall i :: 0 <= i < |s| ==> '0' <= s[i] <= '9'
  {
    if n < 10 then [DIGITS[n]] else Decimal(n / 10) + [DIGITS[n % 10]]
  }

  function IntText(n: int): string {
    if n < 0 then "-" + Decimal(-n) else Decimal(n)
  }

  function TypeName<V>(s: Sensor<V>): string {
    if s.typeName.Some? then s.typeName.value else "unknown"
  }

  function Channel<V>(s: Sensor<V>): int {
    if s.channel.Some? then s.channel.value else 0
  }

  function LppSensorKey(typeName: string, channel: int): string {
    "lpp_" + typeName + "_ch" + IntText(channel)
  }

  function BaseKey<V>(s: Sensor<V>): string {
    LppSensorKey(TypeName(s), Channel(s))
  }

  function Suffixed(base: string, n: nat): string {
    if n == 1 then base else base + "_" + Decimal(n)
  }

  /** How many of the first n items have a given base key. */
  function CountOf<T, K(==)>(items: seq<T>, keyOf: T -> K, n: nat, base: K): nat
    requires n <= |items|
  {
    if n == 0 then 0 else CountOf(items, keyOf, n - 1, base) + if keyOf(items[n - 1]) == base then 1 else 0
  }

  /** The number of item i among those with its base key, counting from 1. */
  function Occurrence<T, K(==)>(items: seq<T>, keyOf: T -> K, i: nat): nat
    requires i < |items|
  {
    CountOf(items, keyOf, i, keyOf(items[i])) + 1
  }

  /** The loop, for any way to build base keys. */
  method AssignKeys<T>(items: seq<T>, keyOf: T -> string) returns (result: seq<(T, string, nat)>)
    ensures |result| == |items|
    ensures forall i :: 0 <= i < |items| ==>
              result[i] ==
              (items[i], Suffixed(keyOf(items[i]), Occurrence(items, keyOf, i)), Occurrence(items, keyOf, i))
  {
    var counts: map<string, nat> := map[];
    result := [];
    for i := 0 to |items|
      invariant |result| == i
      invariant forall base :: CountOf(items, keyOf, i, base) == if base in counts then counts[base] else 0
      invariant forall j :: 0 <= j < i ==>
                  result[j] ==
                  (items[j], Suffixed(keyOf(items[j]), Occurrence(items, keyOf, j)), Occurrence(items, keyOf, j))
    {
      var base := keyOf(items[i]);
      var n := (if base in counts then counts[base] else 0) + 1;
      counts := counts[base := n];
      result := result + [(items[i], if n == 1 then base else base + "_" + Decimal(n), n)];
    }
  }

  /** The n-th reading of a base key gets occurrence n and the key suffixed accordingly, and no two keys are equal. */
  method AssignLppKeys<V>(sensors: seq<Sensor<V>>) returns (result: seq<(Sensor<V>, string, nat)>)
    ensures |result| == |sensors|
    ensures forall i :: 0 <= i < |sensors| ==>
              var n := Occurrence(sensors, BaseKey, i);
              && result[i] == (sensors[i], Suffixed(BaseKey(sensors[i]), n), n)
              && (n == 1 ==> result[i].1 == BaseKey(sensors[i]))
              && (n > 1 ==> result[i].1 == BaseKey(sensors[i]) + "_" + Decimal(n))
    ensures forall i, j :: 0 <= i < j < |result| ==> result[i].1 != result[j].1
  {
    result := AssignKeys(sensors, BaseKey);
    forall i, j | 0 <= i < j < |result| ensures result[i].1 != result[j].1 {
      KeysDistinct(sensors, i, j);
    }
  }

  // ------------------------------------------------------------ distinctness

  /** What follows the last underscore. */
  function Tail(s: string): string {
    if s == "" || s[|s| - 1] == '_' then "" else Tail(s[..|s| - 1]) + [s[|s| - 1]]
  }

  predicate NoUnderscore(s: string) {
    forall i :: 0 <= i < |s| ==> s[i] != '_'
  }

  lemma {:induction false} TailOfJoin(x: string, t: string)
    requires NoUnderscore(t)
    ensures Tail(x + "_" + t) == t
  {
    var s := x + "_" + t;
    if t == "" {
      assert s[|s| - 1] == '_';
    } else {
      var t' := t[..|t| - 1];
      TailOfJoin(x, t');
      assert s[..|s| - 1] == x + "_" + t';
    }
  }

  /** The number a text of digits reads as. */
  function Value(s: string): int {
    if s == "" then 0 else 10 * Value(s[..|s| - 1]) + (s[|s| - 1] as int - '0' as int)
  }

  lemma DigitValue(d: nat)
    requires d < 10
    ensures Value([DIGITS[d]]) == d && DIGITS[d] as int == '0' as int + d
  {
    assert [DIGITS[d]][..0] == "";
  }

  /** Decimal texts read as their numbers, so different numbers have different texts. */
  lemma {:induction false} DecimalReads(n: nat)
    ensures Value(Decimal(n)) == n
  {
    DigitValue(n % 10);
    if n >= 10 {
      DecimalReads(n / 10);
      assert Decimal(n)[..|Decimal(n)| - 1] == Decimal(n / 10);
    }
  }

  lemma DecimalInjective(a: nat, b: nat)
    requires Decimal(a) == Decimal(b)
    ensures a == b
  {
    DecimalReads(a);
    DecimalReads(b);
  }

  lemma AfterPrefix(p: string, a: string, b: string)
    requires p + a == p + b
    ensures a == b
  {
    assert a == (p + a)[|p|..] && b == (p + b)[|p|..];
  }

  lemma IntTextInjective(a: int, b: int)
    requires IntText(a) == IntText(b)
    ensures a == b
  {
    assert IntText(a)[0] == '-' <==> a < 0;
    assert IntText(b)[0] == '-' <==> b < 0;
    if a < 0 {
      AfterPrefix("-", Decimal(-a), Decimal(-b));
      DecimalInjective(-a, -b);
    } else {
      DecimalInjective(a, b);
    }
  }

  /** A base key: its last part starts with a letter. */
  ghost predicate IsBase(b: string) {
    Tail(b) != "" && Tail(b)[0] == 'c'
  }

  lemma Regroup(a: string, b: string, c: string, d: string)
    ensures a + (b + c) + d == a + b + (c + d)
  {
  }

  /** A base key ends in its channel. */
  lemma BaseTail(typeName: string, channel: int)
    ensures Tail(LppSensorKey(typeName, channel)) == "ch" + IntText(channel) && IsBase(LppSensorKey(typeName, channel))
  {
    var name, number := "lpp_" + typeName, IntText(channel);
    TailOfJoin(name, "ch" + number);
    assert "_" + "ch" == "_ch";
    Regroup(name, "_", "ch", number);
  }

  lemma Between(a: string, b: string, before: string, mid: string, after: string)
    requires before + a + mid + after == before + b + mid + after
    ensures a == b
  {
    assert a == (before + a + mid + after)[|before|..|before| + |a|];
    assert b == (before + b + mid + after)[|before|..|before| + |b|];
  }

  /** Two readings share a base key exactly when they have the same type and channel, a missing type being "unknown" and
      a missing channel 0: so occurrences count the readings of one type and channel. */
  lemma SameBaseExactly<V>(a: Sensor<V>, b: Sensor<V>)
    ensures BaseKey(a) == BaseKey(b) <==>
            && (if a.typeName.Some? then a.typeName.value else "unknown") ==
               (if b.typeName.Some? then b.typeName.value else "unknown")
            && (if a.channel.Some? then a.channel.value else 0) == (if b.channel.Some? then b.channel.value else 0)
  {
    if BaseKey(a) == BaseKey(b) {
      BaseTail(TypeName(a), Channel(a));
      BaseTail(TypeName(b), Channel(b));
      AfterPrefix("ch", IntText(Channel(a)), IntText(Channel(b)));
      IntTextInjective(Channel(a), Channel(b));
      Between(TypeName(a), TypeName(b), "lpp_", "_ch", IntText(Channel(a)));
    }
  }

  /** A suffixed key ends in its number, which starts with a digit. */
  lemma SuffixTail(b: string, n: nat)
    requires n != 1
    ensures Tail(Suffixed(b, n)) == Decimal(n) && !IsBase(Suffixed(b, n))
  {
    TailOfJoin(b, Decimal(n));
  }

  lemma SameSuffix(b: string, b': string, t: string)
    requires b + "_" + t == b' + "_" + t
    ensures b == b'
  {
    assert b == (b + "_" + t)[..|b|];
    assert b' == (b' + "_" + t)[..|b'|];
  }

  /** A key determines its base key and occurrence. */
  lemma SuffixedInjective(b: string, n: nat, b': string, n': nat)
    requires IsBase(b) && IsBase(b') && Suffixed(b, n) == Suffixed(b', n')
    ensures b == b' && n == n'
  {
    if n != 1 { SuffixTail(b, n); }
    if n' != 1 { SuffixTail(b', n'); }
    if n != 1 && n' != 1 {
      DecimalInjective(n, n');
      SameSuffix(b, b', Decimal(n));
    }
  }

  lemma {:induction false} CountGrows<T, K>(items: seq<T>, keyOf: T -> K, i: nat, j: nat)
    requires i < j <= |items|
    ensures CountOf(items, keyOf, i, keyOf(items[i])) < CountOf(items, keyOf, j, keyOf(items[i]))
    decreases j
  {
    if j > i + 1 {
      CountGrows(items, keyOf, i, j - 1);
    }
  }

  /** Keys are distinct as soon as base keys never look suffixed. */
  lemma DisambiguatedDistinct<T>(items: seq<T>, keyOf: T -> string, i: nat, j: nat)
    requires i < j < |items| && IsBase(keyOf(items[i])) && IsBase(keyOf(items[j]))
    ensures Suffixed(keyOf(items[i]), Occurrence(items, keyOf, i)) !=
            Suffixed(keyOf(items[j]), Occurrence(items, keyOf, j))
  {
    var n, n' := Occurrence(items, keyOf, i), Occurrence(items, keyOf, j);
    CountGrows(items, keyOf, i, j);
    if Suffixed(keyOf(items[i]), n) == Suffixed(keyOf(items[j]), n') {
      SuffixedInjective(keyOf(items[i]), n, keyOf(items[j]), n');
    }
  }

  /** Main result: keys of different readings differ, suffixed or not. */
  lemma KeysDistinct<V>(sensors: seq<Sensor<V>>, i: nat, j: nat)
    requires i < j < |sensors|
    ensures Suffixed(BaseKey(sensors[i]), Occurrence(sensors, BaseKey, i)) !=
            Suffixed(BaseKey(sensors[j]), Occurrence(sensors, BaseKey, j))
  {
    BaseTail(TypeName(sensors[i]), Channel(sensors[i]));
    BaseTail(TypeName(sensors[j]), Channel(sensors[j]));
    DisambiguatedDistinct(sensors, BaseKey, i, j);
  }
}
