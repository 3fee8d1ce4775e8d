/** The environment of common_env.c as a list of variables in the order of the
    table, and what the calls do to it as a map. */
module EnvTable {

  const MAX_ENV: nat := 128

  type Name = seq<int>

  datatype Variable = Variable(key: Name, value: Name)

  type Table = seq<Variable>

  /** The first position that holds k, or the length. */
  function Index(t: Table, k: Name): (i: nat)
    ensures i <= |t| && (i < |t| ==> t[i].key == k)
    ensures forall j :: 0 <= j < i ==> t[j].key != k
  {
    if t == [] then 0 else if t[0].key == k then 0 else 1 + Index(t[1..], k)
  }

  predicate Has(t: Table, k: Name) {
    Index(t, k) < |t|
  }

  ghost predicate WellFormed(t: Table) {
    && |t| <= MAX_ENV
    && (forall i :: 0 <= i < |t| ==> t[i].key != [])
    && (forall i, j :: 0 <= i < j < |t| ==> t[i].key != t[j].key)
  }

  // ----- The calls -----

  datatype Call =
    | Set(name: Name, value: Name, overwrite: bool)
    | Unset(name: Name)
    | Clear

  /** The table after a call with a valid name. */
  function After(t: Table, call: Call): (r: Table)
  {
    match call
    case Set(k, v, overwrite) =>
      if Has(t, k) then (if overwrite then t[Index(t, k) := Variable(k, v)] else t)
      else if |t| >= MAX_ENV then t
      else t + [Variable(k, v)]
    case Unset(k) => if Has(t, k) then t[..|t| - 1] else t
    case Clear => []
  }

  function AfterAll(t: Table, calls: seq<Call>): Table
    decreases |calls|
  {
    if calls == [] then t else AfterAll(After(t, calls[0]), calls[1..])
  }

  lemma AfterKeepsWellFormed(t: Table, call: Call)
    requires WellFormed(t) && (call.Set? ==> call.name != [])
    ensures WellFormed(After(t, call))
  {
  }

  lemma SetHas(t: Table, k: Name, v: Name, overwrite: bool)
    ensures Has(After(t, Set(k, v, overwrite)), k) <==> Has(t, k) || |t| < MAX_ENV
  {
    var u := After(t, Set(k, v, overwrite));
    if Has(t, k) {
      assert u[Index(t, k)].key == k;
    } else if |t| < MAX_ENV {
      assert u[|t|].key == k;
    }
  }

  /** Every run keeps the table within bounds, its keys non-empty and distinct. */
  lemma {:induction false} RunsKeepWellFormed(t: Table, calls: seq<Call>)
    requires WellFormed(t) && forall c :: c in calls && c.Set? ==> c.name != []
    ensures WellFormed(AfterAll(t, calls))
    decreases |calls|
  {
    if calls == [] {
    } else {
      assert calls[0] in calls;
      AfterKeepsWellFormed(t, calls[0]);
      RunsKeepWellFormed(After(t, calls[0]), calls[1..]);
    }
  }

  // ----- The table as a map -----

  function AsMap(t: Table): (m: map<Name, Name>)
  {
    if t == [] then map[] else
      var last := t[|t| - 1];
      AsMap(t[..|t| - 1])[last.key := last.value]
  }

  lemma {:induction false} AsMapKeys(t: Table, k: Name)
    ensures k in AsMap(t) <==> exists i :: 0 <= i < |t| && t[i].key == k
  {
    if t == [] {
    } else {
      AsMapKeys(t[..|t| - 1], k);
      assert forall i :: 0 <= i < |t| - 1 ==> t[..|t| - 1][i] == t[i];
    }
  }

  /** Looking a name up by scanning is looking it up in the map. */
  lemma {:induction false} AsMapLooksUp(t: Table, i: nat)
    requires WellFormed(t) && i < |t|
    ensures t[i].key in AsMap(t) && AsMap(t)[t[i].key] == t[i].value
    decreases |t|
  {
    if i == |t| - 1 {
    } else {
      AsMapLooksUp(t[..|t| - 1], i);
    }
  }

  lemma HasIsInMap(t: Table, k: Name)
    requires WellFormed(t)
    ensures Has(t, k) <==> k in AsMap(t)
    ensures Has(t, k) ==> AsMap(t)[k] == t[Index(t, k)].value
  {
    AsMapKeys(t, k);
    if Has(t, k) {
      AsMapLooksUp(t, Index(t, k));
    }
  }

  lemma {:induction false} AsMapUpdate(t: Table, i: nat, v: Name)
    requires WellFormed(t) && i < |t|
    ensures AsMap(t[i := Variable(t[i].key, v)]) == AsMap(t)[t[i].key := v]
    decreases |t|
  {
    var u := t[i := Variable(t[i].key, v)];
    if i < |t| - 1 {
      AsMapUpdate(t[..|t| - 1], i, v);
      assert u[..|t| - 1] == t[..|t| - 1][i := Variable(t[i].key, v)];
    } else {
      assert u[..|t| - 1] == t[..|t| - 1];
    }
  }

  lemma AsMapAppend(t: Table, x: Variable)
    ensures AsMap(t + [x]) == AsMap(t)[x.key := x.value]
  {
    assert (t + [x])[..|t|] == t;
  }

  /** setenv refines insertion into a map with room for 128 keys. */
  lemma SetRefinesMap(t: Table, k: Name, v: Name, overwrite: bool)
    requires WellFormed(t)
    ensures var m, m' := AsMap(t), AsMap(After(t, Set(k, v, overwrite)));
            m' == if (k in m && !overwrite) || (k !in m && |t| >= MAX_ENV) then m else m[k := v]
  {
    hide AsMap;
    HasIsInMap(t, k);
    if Has(t, k) {
      hide WellFormed;
      AsMapUpdate(t, Index(t, k), v);
      if !overwrite {
        assert After(t, Set(k, v, overwrite)) == t;
      }
    } else if |t| < MAX_ENV {
      AsMapAppend(t, Variable(k, v));
    }
  }

  /** The size of the map is the number of live entries. */
  lemma {:induction false} AsMapSize(t: Table)
    requires WellFormed(t)
    ensures |AsMap(t)| == |t|
  {
    if t == [] {
    } else {
      AsMapSize(t[..|t| - 1]);
      AsMapKeys(t[..|t| - 1], t[|t| - 1].key);
    }
  }

  lemma AddThenRemove(m: map<Name, Name>, k: Name, v: Name)
    requires k !in m
    ensures m[k := v] - {k} == m
  {
  }

  lemma LastIsNew(t: Table)
    requires WellFormed(t) && t != []
    ensures t[|t| - 1].key !in AsMap(t[..|t| - 1])
  {
    AsMapKeys(t[..|t| - 1], t[|t| - 1].key);
  }

  lemma DropLast(t: Table)
    requires WellFormed(t) && t != []
    ensures var last := t[|t| - 1].key;
            last in AsMap(t) && AsMap(t[..|t| - 1]) == AsMap(t) - {last}
  {
    LastIsNew(t);
    hide WellFormed;
    AddThenRemove(AsMap(t[..|t| - 1]), t[|t| - 1].key, t[|t| - 1].value);
  }

  /** unsetenv of a name that is present drops the last variable of the table,
      whichever that is: it removes the name exactly when the name comes last. */
  lemma UnsetRemovesOnlyTheLast(t: Table, k: Name)
    requires WellFormed(t)
    ensures Has(t, k) ==> AsMap(After(t, Unset(k))) == AsMap(t) - {t[|t| - 1].key}
    ensures AsMap(After(t, Unset(k))) == AsMap(t) - {k} <==> !Has(t, k) || t[|t| - 1].key == k
  {
    hide AsMap, WellFormed;
    HasIsInMap(t, k);
    if Has(t, k) {
      DropLast(t);
      if t[|t| - 1].key != k {
        assert k in AsMap(t) - {t[|t| - 1].key};
      }
    }
  }

  /** Unsetting the first of two variables removes the second. */
  lemma UnsetRemovesAnother()
    ensures var a, b := Variable([97], [49]), Variable([98], [50]);
            WellFormed([a, b]) && After([a, b], Unset(a.key)) == [a]
            && a.key in AsMap([a]) && b.key !in AsMap([a])
  {
    var a, b := Variable([97], [49]), Variable([98], [50]);
    assert Index([a, b], a.key) == 0;
    assert [a, b][..1] == [a] && [a][..0] == [];
    AsMapKeys([a], a.key);
    AsMapKeys([a], b.key);
  }

  // ----- The capacity -----

  function SetAll(names: seq<Name>, value: Name): seq<Call> {
    if names == [] then [] else [Set(names[0], value, true)] + SetAll(names[1..], value)
  }

  ghost predicate NewTo(t: Table, names: seq<Name>) {
    && (forall i :: 0 <= i < |names| ==> !Has(t, names[i]))
    && (forall i, j :: 0 <= i < j < |names| ==> names[i] != names[j])
  }

  function Variables(names: seq<Name>, value: Name): (vs: Table)
    ensures |vs| == |names| && forall i :: 0 <= i < |names| ==> vs[i] == Variable(names[i], value)
  {
    if names == [] then [] else [Variable(names[0], value)] + Variables(names[1..], value)
  }

  lemma HasAppended(t: Table, x: Variable, k: Name)
    ensures Has(t + [x], k) <==> Has(t, k) || x.key == k
  {
    var s := t + [x];
    assert forall j :: 0 <= j < |t| ==> s[j] == t[j];
    assert s[|t|] == x;
    if Has(t, k) {
      assert s[Index(t, k)].key == k;
    }
  }

  lemma SetNew(t: Table, names: seq<Name>, value: Name)
    requires |t| <= 128 && NewTo(t, names) && names != []
    ensures var u := After(t, Set(names[0], value, true));
            NewTo(u, names[1..]) && u == if |t| < 128 then t + [Variable(names[0], value)] else t
  {
    hide Has;
    forall i | 0 <= i < |names| - 1
      ensures !Has(t + [Variable(names[0], value)], names[1..][i])
    {
      HasAppended(t, Variable(names[0], value), names[i + 1]);
    }
  }

  /** How many of n new names fit behind t. */
  function Room(t: Table, n: nat): nat
    requires |t| <= 128
  {
    if n <= 128 - |t| then n else 128 - |t|
  }

  lemma VariablesCons(names: seq<Name>, value: Name, n: nat)
    requires 0 < n <= |names|
    ensures Variables(names, value)[..n] == [Variable(names[0], value)] + Variables(names[1..], value)[..n - 1]
  {
  }

  lemma SetAllCons(t: Table, names: seq<Name>, value: Name)
    requires names != []
    ensures AfterAll(t, SetAll(names, value)) == AfterAll(After(t, Set(names[0], value, true)), SetAll(names[1..], value))
  {
    hide After;
    assert SetAll(names, value)[1..] == SetAll(names[1..], value);
  }

  /** Names that are not in the table yet go in one behind the other, until there are
      128 variables; after that new names are refused. */
  lemma {:induction false} NewNamesFillUp(t: Table, names: seq<Name>, value: Name)
    requires |t| <= 128 && NewTo(t, names)
    ensures AfterAll(t, SetAll(names, value)) == t + Variables(names, value)[..Room(t, |names|)]
    decreases |names|
  {
    hide After, AfterAll, SetAll, Variables, NewTo, Has;
    if names == [] {
      NoNames(t, value);
    } else {
      SetAllCons(t, names, value);
      SetNew(t, names, value);
      var u := After(t, Set(names[0], value, true));
      NewNamesFillUp(u, names[1..], value);
      if |t| < 128 {
        FilledFront(t, names, value, Room(t, |names|));
      }
    }
  }

  lemma NoNames(t: Table, value: Name)
    ensures AfterAll(t, SetAll([], value)) == t && Variables([], value) == [] && t + Variables([], value)[..0] == t
  {
  }

  lemma FilledFront(t: Table, names: seq<Name>, value: Name, n: nat)
    requires 0 < n <= |names|
    ensures t + [Variable(names[0], value)] + Variables(names[1..], value)[..n - 1] == t + Variables(names, value)[..n]
  {
    VariablesCons(names, value, n);
    hide Variables;
  }

  // ----- Runs on the table against runs on a map -----

  /** What the calls are for, on a map with room for 128 names. */
  function MapAfter(m: map<Name, Name>, call: Call): map<Name, Name> {
    match call
    case Set(k, v, overwrite) => if (k in m && !overwrite) || (k !in m && |m| >= MAX_ENV) then m else m[k := v]
    case Unset(k) => m - {k}
    case Clear => map[]
  }

  function MapAfterAll(m: map<Name, Name>, calls: seq<Call>): map<Name, Name>
    decreases |calls|
  {
    if calls == [] then m else MapAfterAll(MapAfter(m, calls[0]), calls[1..])
  }

  /** The call does not unset a variable that has others behind it in the table. */
  predicate Removes(t: Table, call: Call) {
    call.Unset? && Has(t, call.name) ==> t[|t| - 1].key == call.name
  }

  predicate AllRemove(t: Table, calls: seq<Call>)
    decreases |calls|
  {
    calls != [] ==> Removes(t, calls[0]) && AllRemove(After(t, calls[0]), calls[1..])
  }

  lemma StepRefinesMap(t: Table, call: Call)
    requires WellFormed(t)
    ensures AsMap(After(t, call)) == MapAfter(AsMap(t), call) <==> Removes(t, call)
  {
    hide AsMap, WellFormed, Has;
    match call {
      case Set(k, v, overwrite) =>
        AsMapSize(t);
        SetRefinesMap(t, k, v, overwrite);
      case Unset(k) =>
        UnsetRemovesOnlyTheLast(t, k);
      case Clear =>
        AsMapSize([]);
    }
  }

  /** Every run whose unsetenv calls name the last variable, or none that is set, is
      the run of the map operations. */
  lemma {:induction false} RunRefinesMap(t: Table, calls: seq<Call>)
    requires WellFormed(t) && AllRemove(t, calls)
    requires forall c :: c in calls && c.Set? ==> c.name != []
    ensures AsMap(AfterAll(t, calls)) == MapAfterAll(AsMap(t), calls)
    decreases |calls|
  {
    if calls == [] {
    } else {
      assert calls[0] in calls;
      AfterKeepsWellFormed(t, calls[0]);
      StepRefinesMap(t, calls[0]);
      RunRefinesMap(After(t, calls[0]), calls[1..]);
    }
  }
}
