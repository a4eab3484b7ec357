/** The three sparse rate tables of the CARE estimator: the Annual Revaluation Amount
    (ARA) by scheme-year end, and the Early and Late Retirement Factors (ERF, LRF) by whole
    months. A JavaScript object with numeric keys becomes a `map<int, real>`. */
module CareTables {

  import opened Common

  /** The built-in ARA rates, scheme-year ends 2016 to 2025. */
  const NhsAraSet: map<int, real> := map[
    2016 := 0.014, 2017 := 0.025, 2018 := 0.045, 2019 := 0.039, 2020 := 0.032,
    2021 := 0.020, 2022 := 0.046, 2023 := 0.116, 2024 := 0.082, 2025 := 0.032]

  /** The factor table the tool starts from and resets to: no adjustment at 0 months. */
  const UnitFactorTable: map<int, real> := map[0 := 1.0]

  /** `table[t] ?? 0`: the rate for a year, zero when the table has none. */
  function Ara(table: map<int, real>, t: int): (r: real)
    ensures t in table ==> r == table[t]
    ensures t !in table ==> r == 0.0
  {
    if t in table then table[t] else 0.0
  }

  predicate StrictlyIncreasing(keys: seq<int>) {
    forall i, j :: 0 <= i < j < |keys| ==> keys[i] < keys[j]
  }

  /** m is the least element of s. */
  predicate IsMin(s: set<int>, m: int) {
    m in s && forall k :: k in s ==> m <= k
  }

  /** m is the greatest element of s. */
  predicate IsMax(s: set<int>, m: int) {
    m in s && forall k :: k in s ==> k <= m
  }

  /** Adding x back to s - {x} keeps the smaller of x and the old minimum as the minimum. */
  lemma MinStep(s: set<int>, x: int, m: int)
    requires x in s && IsMin(s - {x}, m)
    ensures IsMin(s, if x < m then x else m)
  {
    forall k | k in s ensures (if x < m then x else m) <= k {
      if k != x { assert k in s - {x}; }
    }
  }

  lemma {:induction false} MinimumExists(s: set<int>)
    requires s != {}
    ensures exists m :: IsMin(s, m)
    decreases s
  {
    EmptyOrMember(s);
    var x :| x in s;
    if s == {x} {
      assert IsMin(s, x);
    } else {
      MinimumExists(s - {x});
      var m :| IsMin(s - {x}, m);
      MinStep(s, x, m);
    }
  }

  /** The state of the key sort: `keys` is an ascending prefix of the table's keys, every key
      not yet emitted is in `rest`, and every emitted key is below every key left. */
  ghost predicate SortedSplit(table: map<int, real>, keys: seq<int>, rest: set<int>) {
    && StrictlyIncreasing(keys)
    && (forall k :: k in table <==> (k in keys || k in rest))
    && (forall i, k :: 0 <= i < |keys| && k in rest ==> keys[i] < k)
  }

  /** Emitting the least remaining key keeps the split. */
  lemma SortedSplitStep(table: map<int, real>, keys: seq<int>, rest: set<int>, m: int)
    requires SortedSplit(table, keys, rest)
    requires IsMin(rest, m)
    ensures SortedSplit(table, keys + [m], rest - {m})
  {
    var keys' := keys + [m];
    forall i, j | 0 <= i < j < |keys'| ensures keys'[i] < keys'[j] {
      if j == |keys| { assert keys'[i] == keys[i]; }
    }
    forall k ensures k in table <==> (k in keys' || k in rest - {m}) {
      assert k in keys' <==> (k in keys || k == m);
    }
  }

  /** `Object.keys(table).map(parseInt).sort((a, b) => a - b)`: the keys in ascending order. */
  method SortedKeys(table: map<int, real>) returns (keys: seq<int>)
    ensures StrictlyIncreasing(keys)
    ensures forall k :: k in table <==> k in keys
  {
    keys := [];
    var rest := table.Keys;
    while rest != {}
      invariant SortedSplit(table, keys, rest)
      decreases rest
    {
      MinimumExists(rest);
      var m :| m in rest && IsMin(rest, m);
      SortedSplitStep(table, keys, rest, m);
      keys := keys + [m];
      rest := rest - {m};
    }
  }

  /** k is the largest key of the table that does not exceed `months`. */
  ghost predicate IsFloorKey(table: map<int, real>, months: int, k: int) {
    k in table && k <= months && forall j :: j in table && j <= months ==> j <= k
  }

  /** k is the smallest key of the table. */
  ghost predicate IsLeastKey(table: map<int, real>, k: int) {
    k in table && forall j :: j in table ==> k <= j
  }

  /** What a factor lookup promises: the neutral factor 1.0 for an empty table, the exact
      entry when there is one, otherwise the entry at the floor key, and, when `months` lies
      below every key, the entry at the smallest key (not 1.0). */
  ghost predicate FactorLookup(table: map<int, real>, months: int, f: real) {
    && (table == map[] ==> f == 1.0)
    && (months in table ==> f == table[months])
    && (forall k :: IsFloorKey(table, months, k) ==> f == table[k])
    && (forall k :: IsLeastKey(table, k) && months < k ==> f == table[k])
  }

  /** `getFactor`: exact key first, else a scan of the sorted keys that keeps the last key not
      above `months`, starting from the smallest key. */
  method GetFactor(table: map<int, real>, months: int) returns (f: real)
    ensures FactorLookup(table, months, f)
    ensures table != map[] ==> f in table.Values
  {
    var keys := SortedKeys(table);
    if |keys| == 0 {
      EmptyOrMember(table.Keys);
      assert table.Keys == {};
      return 1.0;
    }
    if months in table {
      return table[months];
    }
    var floorK := keys[0];
    var i := 0;
    while i < |keys|
      invariant 0 <= i <= |keys|
      invariant forall j :: 0 <= j < i ==> keys[j] <= months
      invariant floorK == keys[if i == 0 then 0 else i - 1]
    {
      if keys[i] <= months {
        floorK := keys[i];
      } else {
        break;
      }
      i := i + 1;
    }
    // Every key at or beyond position i exceeds `months`.
    assert forall j :: i <= j < |keys| ==> months < keys[j] by {
      forall j | i <= j < |keys| ensures months < keys[j] {
        assert months < keys[i];
      }
    }
    f := table[floorK];
    forall k | IsFloorKey(table, months, k) ensures f == table[k] {
      var j :| 0 <= j < |keys| && keys[j] == k;
      assert j < i;
      assert floorK <= months;
    }
    forall k | IsLeastKey(table, k) && months < k ensures f == table[k] {
      assert keys[0] in table;
    }
  }

  /** The declarative lookup pins the factor down: two results that both satisfy it agree. */
  lemma FactorLookupDetermines(table: map<int, real>, months: int, f1: real, f2: real)
    requires FactorLookup(table, months, f1) && FactorLookup(table, months, f2)
    ensures f1 == f2
  {
    if table != map[] && months !in table {
      var below := set k | k in table && k <= months;
      if below != {} {
        MaximumExists(below);
        var k :| IsMax(below, k);
        forall j | j in table && j <= months ensures j <= k { assert j in below; }
        assert IsFloorKey(table, months, k);
        assert f1 == table[k] && f2 == table[k];
      } else {
        EmptyOrKey(table);
        MinimumExists(table.Keys);
        var k :| IsMin(table.Keys, k);
        assert k !in below;
        assert IsLeastKey(table, k);
        assert f1 == table[k] && f2 == table[k];
      }
    }
  }

  lemma MaxStep(s: set<int>, x: int, m: int)
    requires x in s && IsMax(s - {x}, m)
    ensures IsMax(s, if m < x then x else m)
  {
    forall k | k in s ensures k <= (if m < x then x else m) {
      if k != x { assert k in s - {x}; }
    }
  }

  lemma {:induction false} MaximumExists(s: set<int>)
    requires s != {}
    ensures exists m :: IsMax(s, m)
    decreases s
  {
    EmptyOrMember(s);
    var x :| x in s;
    if s == {x} {
      assert IsMax(s, x);
    } else {
      MaximumExists(s - {x});
      var m :| IsMax(s - {x}, m);
      MaxStep(s, x, m);
    }
  }

  /** A worked table of ERF factors: none at 0 months, then entries at 12 and 24 months. */
  const ErfExampleTable: map<int, real> := map[0 := 1.0, 12 := 0.9236, 24 := 0.8598]

  lemma FloorKeyPins(table: map<int, real>, months: int, k: int, f: real)
    requires FactorLookup(table, months, f) && IsFloorKey(table, months, k)
    ensures f == table[k]
  {
  }

  lemma ExampleFloorAt18()
    ensures IsFloorKey(ErfExampleTable, 18, 12)
  {
  }

  lemma ExampleFloorAt100()
    ensures IsFloorKey(ErfExampleTable, 100, 24)
  {
  }

  /** 18 months falls back to the 12-month entry, 100 months to the 24-month entry, and an
      exact key is used as it stands. */
  lemma ErfFloorExample(f18: real, f0: real, f100: real)
    requires FactorLookup(ErfExampleTable, 18, f18)
    requires FactorLookup(ErfExampleTable, 0, f0)
    requires FactorLookup(ErfExampleTable, 100, f100)
    ensures f18 == 0.9236 && f0 == 1.0 && f100 == 0.8598
  {
    ExampleFloorAt18();
    FloorKeyPins(ErfExampleTable, 18, 12, f18);
    ExampleFloorAt100();
    FloorKeyPins(ErfExampleTable, 100, 24, f100);
  }

  /** A table whose smallest key is above zero answers the value at that key, not 1.0, for a
      month count below it. */
  lemma BelowEveryKeyExample(f: real)
    requires FactorLookup(map[12 := 0.9236, 24 := 0.8598], 0, f)
    ensures f == 0.9236
  {
    assert IsLeastKey(map[12 := 0.9236, 24 := 0.8598], 12);
  }
}
