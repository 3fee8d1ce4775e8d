/** setenv, unsetenv, getenv and clearenv of common_env.c, on their table of
    fixed-size buffers. */
module Environment {
  import opened Bytes
  import opened Comparison
  import opened EnvTable
  import opened Padding
  import Search

  const KEY_SIZE: nat := 64
  const VALUE_SIZE: nat := 128

  /** One struct _env. */
  datatype Entry = Entry(key: seq<Byte>, value: seq<Byte>)

  /** A char pointer. */
  datatype Pointer = NULL | To(s: seq<Byte>)

  datatype Errno = Unchanged | EINVAL | ENOMEM

  predicate IsString(p: Pointer) {
    p.To? ==> Terminated(p.s)
  }

  /** The variable an entry stands for. */
  function VariableOf(e: Entry): Variable {
    Variable(Text(e.key, KEY_SIZE), Text(e.value, VALUE_SIZE))
  }

  function View(es: seq<Entry>): (t: Table)
    ensures |t| == |es|
    ensures forall i :: 0 <= i < |es| ==> t[i] == VariableOf(es[i])
  {
    if es == [] then [] else View(es[..|es| - 1]) + [VariableOf(es[|es| - 1])]
  }

  lemma ViewUpdate(es: seq<Entry>, i: nat, e: Entry)
    requires i < |es|
    ensures View(es[i := e]) == View(es)[i := VariableOf(e)]
  {
    var t, u := View(es[i := e]), View(es)[i := VariableOf(e)];
    assert forall k :: 0 <= k < |es| ==> t[k] == u[k];
  }

  lemma ViewAppend(es: seq<Entry>, e: Entry)
    ensures View(es + [e]) == View(es) + [VariableOf(e)]
  {
    assert (es + [e])[..|es|] == es;
  }

  lemma {:induction false} ViewTake(es: seq<Entry>, n: nat)
    requires n <= |es|
    ensures View(es[..n]) == View(es)[..n]
    decreases |es|
  {
    if n == |es| {
      assert es[..n] == es;
    } else {
      ViewTake(es[..|es| - 1], n);
      assert es[..|es| - 1][..n] == es[..n];
    }
  }

  /** The name that setenv stores and that lookups compare: at most 64 characters. */
  function Key(name: seq<Byte>): Name {
    Text(name, KEY_SIZE)
  }

  function ValueText(value: Pointer): Name {
    match value
    case NULL => []
    case To(s) => Text(s, VALUE_SIZE)
  }

  /** A name that setenv and unsetenv accept. */
  predicate GoodName(name: Pointer) {
    name.To? && name.s != [] && name.s[0] != 0 && Code('=') !in Text(name.s, |name.s|)
  }

  /** A name is accepted exactly when it has a character and none of its characters is =. */
  lemma GoodNames(name: seq<Byte>)
    requires 0 !in name
    ensures GoodName(To(name + [0])) <==> name != [] && 61 !in name
    ensures !GoodName(NULL)
  {
    TextOfPrefix(name + [0], name, |name| + 1);
  }

  /** Names count up to their 64th character, values are kept up to their 128th. */
  lemma SizesAre(name: seq<Byte>, value: seq<Byte>)
    requires 0 !in name && 0 !in value
    ensures Key(name + [0]) == if |name| <= 64 then name else name[..64]
    ensures ValueText(To(value + [0])) == if |value| <= 128 then value else value[..128]
    ensures ValueText(NULL) == []
  {
    TextOfPrefix(name + [0], if |name| <= 64 then name else name[..64], 64);
    TextOfPrefix(value + [0], if |value| <= 128 then value else value[..128], 128);
  }

  predicate Sized(e: Entry) {
    |e.key| == KEY_SIZE && |e.value| == VALUE_SIZE
  }

  /** A name or value that leaves room for its NUL. */
  predicate Short(p: Pointer, n: nat) {
    p.To? ==> |Text(p.s, n)| < n
  }

  /** Both buffers hold a NUL. */
  predicate Closed(e: Entry) {
    0 in e.key && 0 in e.value
  }

  // ----- _strncpy -----

  /** _strncpy into a buffer of n bytes; the new contents of the buffer are returned. */
  method StrNCpy(src: seq<Byte>, n: nat) returns (dest: seq<Byte>)
    requires 0 in src
    ensures dest == Padded(src, n)
  {
    var srcSize := |Text(src, |src|)|;
    var s := if srcSize > n then n else srcSize;
    TextOfPrefix(src, src[..s], n);
    dest := src[..s];
    if n > s {
      dest := dest + seq(n - s, _ => 0);
    }
  }

  // ----- Buffers and tables -----

  lemma IndexIsFirst(t: Table, k: Name, i: nat)
    requires i <= |t| && (i < |t| ==> t[i].key == k) && forall j :: 0 <= j < i ==> t[j].key != k
    ensures Index(t, k) == i
  {
  }

  lemma StoredText(before: seq<Byte>, value: Pointer, buffer: seq<Byte>)
    requires |before| == VALUE_SIZE
    requires buffer == match value case To(s) => Padded(s, VALUE_SIZE) case NULL => before[0 := 0]
    ensures |buffer| == VALUE_SIZE && Text(buffer, VALUE_SIZE) == ValueText(value)
    ensures Short(value, VALUE_SIZE) ==> 0 in buffer
  {
    if value.To? {
      PaddedText(value.s, VALUE_SIZE);
    } else {
      assert buffer[0] == 0;
    }
  }

  lemma OverwriteKeepsWellFormed(t: Table, i: nat, v: Name)
    requires WellFormed(t) && i < |t|
    ensures WellFormed(t[i := Variable(t[i].key, v)])
  {
  }

  lemma AppendKeepsWellFormed(t: Table, k: Name, v: Name)
    requires WellFormed(t) && |t| < MAX_ENV && k != [] && !Has(t, k)
    ensures WellFormed(t + [Variable(k, v)])
  {
    AfterKeepsWellFormed(t, Set(k, v, false));
  }

  lemma GoodKey(s: seq<Byte>)
    requires s != [] && s[0] != 0
    ensures Key(s) != []
  {
  }

  lemma Blanked(e: Entry)
    requires Sized(e)
    ensures VariableOf(Entry(e.key[0 := 0], e.value[0 := 0])) == Variable([], [])
  {
  }

  lemma TakeKeepsWellFormed(t: Table, n: nat)
    requires WellFormed(t) && n <= |t|
    ensures WellFormed(t[..n])
  {
  }

  // ----- The table -----

  class EnvironmentArray {
    var env: array<Entry>
    var pos: nat

    ghost predicate Valid()
      reads this, env
    {
      && env.Length == MAX_ENV && pos <= MAX_ENV
      && (forall i :: 0 <= i < MAX_ENV ==> Sized(env[i]))
      && WellFormed(Live())
    }

    /** The live variables, in the order of the table. */
    ghost function Live(): (t: Table)
      requires pos <= env.Length
      reads this, env
      ensures |t| == pos
    {
      View(env[..pos])
    }

    /** Every live buffer holds a NUL. */
    ghost predicate AllClosed()
      requires pos <= env.Length
      reads this, env
    {
      forall i :: 0 <= i < pos ==> Closed(env[i])
    }

    constructor ()
      ensures Valid() && Live() == [] && fresh(env)
    {
      var zero := Entry(seq(KEY_SIZE, _ => 0), seq(VALUE_SIZE, _ => 0));
      env := new Entry[MAX_ENV](_ => zero);
      pos := 0;
    }

    /** The scan of lines 52-53, 90-91 and 119-120. */
    method Find(name: seq<Byte>) returns (i: nat)
      requires Valid() && Terminated(name)
      ensures i == Index(Live(), Key(name))
    {
      hide Text, Difference, View;
      ghost var t := Live();
      i := 0;
      while i < pos
        invariant i <= pos && forall j :: 0 <= j < i ==> t[j].key != Key(name)
      {
        var c := StrNCmp(env[i].key, name, KEY_SIZE, false);
        DifferenceZero(Text(env[i].key, KEY_SIZE), Text(name, KEY_SIZE));
        if c == 0 {
          break;
        }
        i := i + 1;
      }
      IndexIsFirst(t, Key(name), i);
    }

    method BadName(name: Pointer) returns (bad: bool)
      requires IsString(name)
      ensures bad == !GoodName(name)
    {
      if name.NULL? || name.s[0] == 0 {
        return true;
      }
      var r := Search.StrChr(name.s, 0, Code('='));
      assert Text(name.s, |name.s|) == name.s[..Search.Length(name.s)];
      bad := r.At?;
      if bad {
        assert name.s[r.offset] != 0;
        assert name.s[..Search.Length(name.s)][r.offset] == Code('=');
      }
    }

    /** Lines 55-58: the value of entry i is overwritten. */
    method StoreValue(i: nat, value: Pointer)
      requires Valid() && i < pos && IsString(value)
      modifies env
      ensures Valid()
      ensures Live() == old(Live())[i := Variable(old(Live())[i].key, ValueText(value))]
      ensures old(AllClosed()) && Short(value, VALUE_SIZE) ==> AllClosed()
    {
      hide Text, Padded, View, WellFormed;
      ghost var t := Live();
      ghost var es := env[..pos];
      var buffer := env[i].value;
      match value {
        case To(s) => buffer := StrNCpy(s, VALUE_SIZE);
        case NULL => buffer := buffer[0 := 0];
      }
      StoredText(env[i].value, value, buffer);
      var e := Entry(env[i].key, buffer);
      ViewUpdate(es, i, e);
      env[i] := e;
      assert env[..pos] == es[i := e];
      OverwriteKeepsWellFormed(t, i, ValueText(value));
    }

    /** Lines 68-75: a new entry. */
    method Append(name: seq<Byte>, value: Pointer)
      requires Valid() && pos < MAX_ENV && Terminated(name) && IsString(value)
      requires Key(name) != [] && !Has(Live(), Key(name))
      modifies this`pos, env
      ensures Valid()
      ensures Live() == old(Live()) + [Variable(Key(name), ValueText(value))]
      ensures old(AllClosed()) && Short(To(name), KEY_SIZE) && Short(value, VALUE_SIZE) ==> AllClosed()
    {
      hide Text, Padded, View, WellFormed, Has;
      ghost var t := Live();
      ghost var es := env[..pos];
      var key := StrNCpy(name, KEY_SIZE);
      PaddedText(name, KEY_SIZE);
      var buffer := env[pos].value;
      match value {
        case To(s) => buffer := StrNCpy(s, VALUE_SIZE);
        case NULL => buffer := buffer[0 := 0];
      }
      StoredText(env[pos].value, value, buffer);
      ViewAppend(es, Entry(key, buffer));
      env[pos] := Entry(key, buffer);
      pos := pos + 1;
      assert env[..pos] == es + [Entry(key, buffer)];
      AppendKeepsWellFormed(t, Key(name), ValueText(value));
    }

    method SetEnv(name: Pointer, value: Pointer, overwrite: bool) returns (r: int, errno: Errno)
      requires Valid() && IsString(name) && IsString(value)
      modifies this, env
      ensures Valid() && env == old(env)
      ensures !GoodName(name) ==> r == -1 && errno == EINVAL && Live() == old(Live())
      ensures GoodName(name) ==>
                && Live() == After(old(Live()), Set(Key(name.s), ValueText(value), overwrite))
                && (r, errno) == if Has(Live(), Key(name.s)) then (0, Unchanged) else (-1, ENOMEM)
      ensures old(AllClosed()) && Short(name, KEY_SIZE) && Short(value, VALUE_SIZE) ==> AllClosed()
    {
      hide Text, Padded, View, WellFormed;
      var bad := BadName(name);
      if bad {
        return -1, EINVAL;
      }
      GoodKey(name.s);
      SetHas(Live(), Key(name.s), ValueText(value), overwrite);
      var i := Find(name.s);
      if i < pos {
        if overwrite {
          StoreValue(i, value);
        }
        return 0, Unchanged;
      }
      if pos >= MAX_ENV {
        return -1, ENOMEM;
      }
      Append(name.s, value);
      return 0, Unchanged;
    }

    /** Lines 92-104: entry i has been found.  Unless it is the last one, it is
        copied over the last one; either way the last one is then given up. */
    method Drop(i: nat)
      requires Valid() && i < pos && (i == pos - 1 || Closed(env[i]))
      modifies this`pos, env
      ensures Valid() && env == old(env) && pos == old(pos) - 1 && Live() == old(Live())[..old(pos) - 1]
      ensures VariableOf(env[pos]) == if i == pos then Variable([], []) else old(Live())[i]
      ensures old(AllClosed()) ==> AllClosed()
    {
      hide Text, Padded, View, WellFormed;
      ghost var es := env[..pos];
      if i == pos - 1 {
        Blanked(env[i]);
        env[i] := Entry(env[i].key[0 := 0], env[i].value[0 := 0]);
      } else {
        var key := StrNCpy(env[i].key, KEY_SIZE);
        var value := StrNCpy(env[i].value, VALUE_SIZE);
        PaddedText(env[i].key, KEY_SIZE);
        PaddedText(env[i].value, VALUE_SIZE);
        env[pos - 1] := Entry(key, value);
      }
      pos := pos - 1;
      assert env[..pos] == es[..pos];
      ViewTake(es, pos);
      TakeKeepsWellFormed(View(es), pos);
    }

    /** unsetenv of the name copies from a buffer without NUL: strlen in _strncpy reads
        past its end. */
    ghost predicate ReadsPast(name: Pointer)
      requires Valid()
      reads this, env
    {
      GoodName(name) && var i := Index(Live(), Key(name.s)); i < pos - 1 && !Closed(env[i])
    }

    /** ok is false when the call reads past a buffer; the run stops there. */
    method UnsetEnv(name: Pointer) returns (r: int, errno: Errno, ok: bool)
      requires Valid() && IsString(name)
      modifies this, env
      ensures Valid() && env == old(env)
      ensures ok <==> !old(ReadsPast(name))
      ensures ok ==> (r, errno) == if GoodName(name) then (0, Unchanged) else (-1, EINVAL)
      ensures ok ==> Live() == if GoodName(name) then After(old(Live()), Unset(Key(name.s))) else old(Live())
      ensures !ok ==> Live() == old(Live())
      ensures old(AllClosed()) ==> ok && AllClosed()
    {
      hide Text, View, WellFormed;
      var bad := BadName(name);
      if bad {
        return -1, EINVAL, true;
      }
      var i := Find(name.s);
      if i < pos {
        if i < pos - 1 && !(0 in env[i].key && 0 in env[i].value) {
          return 0, Unchanged, false;
        }
        Drop(i);
      }
      return 0, Unchanged, true;
    }

    /** The value of the variable, or null. */
    method GetEnv(name: Pointer) returns (found: bool, value: seq<Byte>)
      requires Valid() && IsString(name)
      ensures found == (name.To? && Key(name.s) in AsMap(Live()))
      ensures found ==> Text(value, VALUE_SIZE) == AsMap(Live())[Key(name.s)]
    {
      if name.NULL? {
        return false, [];
      }
      hide Text, View, WellFormed, AsMap;
      var i := Find(name.s);
      HasIsInMap(Live(), Key(name.s));
      if i < pos {
        return true, env[i].value;
      }
      return false, [];
    }

    /** The loop of clearenv. */
    method BlankLive()
      requires env.Length == MAX_ENV && pos <= MAX_ENV && forall j :: 0 <= j < MAX_ENV ==> Sized(env[j])
      modifies env
      ensures forall j :: 0 <= j < MAX_ENV ==> Sized(env[j]) && (j < pos ==> env[j].key[0] == 0 && env[j].value[0] == 0)
    {
      for i := 0 to pos
        invariant forall j :: 0 <= j < MAX_ENV ==> Sized(env[j])
        invariant forall j :: 0 <= j < i ==> env[j].key[0] == 0 && env[j].value[0] == 0
      {
        env[i] := Entry(env[i].key[0 := 0], env[i].value[0 := 0]);
      }
    }

    method ClearEnv() returns (r: int)
      requires Valid()
      modifies this, env
      ensures Valid() && env == old(env) && r == 0 && Live() == [] && AllClosed()
      ensures forall j :: 0 <= j < old(pos) ==> env[j].key[0] == 0 && env[j].value[0] == 0
    {
      BlankLive();
      pos := 0;
      assert Live() == [];
      return 0;
    }

    method RunOne(request: Request)
      requires Valid() && AllClosed() && Proper(request)
      modifies this, env
      ensures Valid() && AllClosed() && env == old(env)
      ensures Live() == AfterAll(old(Live()), Calls([request]))
    {
      hide View, WellFormed, Text;
      match request {
        case SetRequest(name, value, overwrite) =>
          OneRequest(name, value, overwrite);
          var r, errno := SetEnv(name, value, overwrite);
        case UnsetRequest(name) =>
          OneRequest(name, NULL, false);
          var r, errno, ok := UnsetEnv(name);
        case ClearRequest =>
          var r := ClearEnv();
      }
    }

    /** Every run of the calls refines the run on the table of variables. */
    method Run(requests: seq<Request>)
      requires Valid() && AllClosed() && forall q :: q in requests ==> Proper(q)
      modifies this, env
      ensures Valid() && AllClosed() && env == old(env)
      ensures Live() == AfterAll(old(Live()), Calls(requests))
      decreases |requests|
    {
      hide View, WellFormed, Text, AfterAll, Calls, Proper;
      if requests == [] {
        NoRequests(Live());
      } else {
        assert requests[0] in requests;
        RunOfRequests(Live(), requests);
        RunOne(requests[0]);
        Run(requests[1..]);
      }
    }
  }

  // ----- Runs -----

  datatype Request =
    | SetRequest(name: Pointer, value: Pointer, overwrite: bool)
    | UnsetRequest(name: Pointer)
    | ClearRequest

  /** Names under 64 bytes and values under 128. */
  predicate Proper(q: Request) {
    match q
    case SetRequest(name, value, _) => IsString(name) && IsString(value) && Short(name, KEY_SIZE) && Short(value, VALUE_SIZE)
    case UnsetRequest(name) => IsString(name)
    case ClearRequest => true
  }

  /** What the requests ask of the table; those with a bad name ask nothing. */
  function Calls(requests: seq<Request>): (calls: seq<Call>)
    ensures forall c :: c in calls && c.Set? ==> c.name != []
  {
    if requests == [] then [] else
      var rest := Calls(requests[1..]);
      match requests[0]
      case SetRequest(name, value, overwrite) =>
        if GoodName(name) then [Set(Key(name.s), ValueText(value), overwrite)] + rest else rest
      case UnsetRequest(name) => if GoodName(name) then [Unset(Key(name.s))] + rest else rest
      case ClearRequest => [Clear] + rest
  }

  // ----- A read past a buffer -----

  function LongName(n: nat): (s: seq<Byte>)
    ensures |s| == n + 1 && s[n] == 0 && forall i :: 0 <= i < n ==> s[i] == 97
  {
    seq(n, _ => 97) + [0]
  }

  lemma LongNameKey()
    ensures Terminated(LongName(KEY_SIZE)) && GoodName(To(LongName(KEY_SIZE)))
    ensures Key(LongName(KEY_SIZE)) == LongName(KEY_SIZE)[..KEY_SIZE]
  {
    var s := LongName(KEY_SIZE);
    TextOfPrefix(s, s[..KEY_SIZE], KEY_SIZE);
    TextOfPrefix(s, s[..KEY_SIZE], |s|);
  }

  lemma FullKeyIsOpen(e: Entry)
    requires Sized(e) && |VariableOf(e).key| == KEY_SIZE
    ensures !Closed(e)
  {
    assert e.key == e.key[..KEY_SIZE];
  }

  lemma NameB()
    ensures Terminated([98, 0]) && GoodName(To([98, 0])) && Key([98, 0]) == [98]
  {
    TextOfPrefix([98, 0], [98], KEY_SIZE);
    TextOfPrefix([98, 0], [98], 2);
  }

  /** What the two setenv calls of LongNameReadsPast make of the empty table. */
  lemma TwoNames(k: Name, l: Name, v: Name)
    requires k != l
    ensures var t := After(After([], Set(k, v, true)), Set(l, v, true));
            t == [Variable(k, v), Variable(l, v)] && Index(t, k) == 0
  {
    assert After([], Set(k, v, true)) == [Variable(k, v)];
  }

  /** A variable whose name has 64 characters is set, then another one; unsetting the
      first reads past its key buffer. */
  method LongNameReadsPast() returns (ok: bool)
    ensures !ok
  {
    hide Text, View, WellFormed, After, Index, Key, GoodName, LongName;
    var a := LongName(KEY_SIZE);
    var b: seq<Byte> := [98, 0];
    LongNameKey();
    NameB();
    TwoNames(Key(a), Key(b), []);
    var env := new EnvironmentArray();
    var r, errno := env.SetEnv(To(a), NULL, true);
    r, errno := env.SetEnv(To(b), NULL, true);
    assert env.Live()[0] == VariableOf(env.env[0]);
    FullKeyIsOpen(env.env[0]);
    r, errno, ok := env.UnsetEnv(To(a));
  }

  // ----- Setting and looking up -----

  lemma SetThenLookUp(t: Table, k: Name, v: Name)
    requires WellFormed(t) && k != [] && (Has(t, k) || |t| < 128)
    ensures k in AsMap(After(t, Set(k, v, true))) && AsMap(After(t, Set(k, v, true)))[k] == v
  {
    hide AsMap, After, WellFormed;
    SetRefinesMap(t, k, v, true);
    HasIsInMap(t, k);
  }

  /** When the last of any requests is a setenv that overwrites, the name has that value
      afterwards, unless it is new and the table full. */
  lemma LastSetWins(t: Table, requests: seq<Request>, name: Pointer, value: Pointer)
    requires WellFormed(t) && GoodName(name)
    ensures var u := AsMap(AfterAll(t, Calls(requests + [SetRequest(name, value, true)])));
            var before := AfterAll(t, Calls(requests));
            Has(before, Key(name.s)) || |before| < 128 ==>
              Key(name.s) in u && u[Key(name.s)] == ValueText(value)
  {
    var k, v := Key(name.s), ValueText(value);
    CallsConcat(requests, [SetRequest(name, value, true)]);
    OneRequest(name, value, true);
    AfterAllConcat(t, Calls(requests), [Set(k, v, true)]);
    AfterOne(AfterAll(t, Calls(requests)), Set(k, v, true));
    RunsKeepWellFormed(t, Calls(requests));
    GoodKey(name.s);
    hide AsMap, After, Calls, AfterAll, Key, ValueText, WellFormed, Has, GoodName;
    var before := AfterAll(t, Calls(requests));
    if Has(before, k) || |before| < 128 {
      SetThenLookUp(before, k, v);
    }
  }

  /** What each request asks of the table; one with a bad name asks nothing. */
  lemma OneRequest(name: Pointer, value: Pointer, overwrite: bool)
    ensures GoodName(name) ==>
              && Calls([SetRequest(name, value, overwrite)]) == [Set(Key(name.s), ValueText(value), overwrite)]
              && Calls([UnsetRequest(name)]) == [Unset(Key(name.s))]
    ensures !GoodName(name) ==> Calls([SetRequest(name, value, overwrite)]) == [] == Calls([UnsetRequest(name)])
    ensures Calls([ClearRequest]) == [Clear]
  {
    hide GoodName, Key, ValueText;
  }

  lemma {:induction false} CallsConcat(a: seq<Request>, b: seq<Request>)
    ensures Calls(a + b) == Calls(a) + Calls(b)
    decreases |a|
  {
    if a == [] {
      assert a + b == b;
    } else {
      assert (a + b)[1..] == a[1..] + b;
      CallsConcat(a[1..], b);
    }
  }

  lemma {:induction false} AfterAllConcat(t: Table, a: seq<Call>, b: seq<Call>)
    ensures AfterAll(t, a + b) == AfterAll(AfterAll(t, a), b)
    decreases |a|
  {
    hide After;
    if a == [] {
      assert a + b == b;
    } else {
      assert (a + b)[1..] == a[1..] + b;
      AfterAllConcat(After(t, a[0]), a[1..], b);
    }
  }

  lemma NoRequests(t: Table)
    ensures AfterAll(t, Calls([])) == t
  {
  }

  lemma RunOfRequests(t: Table, requests: seq<Request>)
    requires requests != []
    ensures AfterAll(t, Calls(requests)) == AfterAll(AfterAll(t, Calls([requests[0]])), Calls(requests[1..]))
  {
    hide AfterAll, Calls;
    assert [requests[0]] + requests[1..] == requests;
    CallsConcat([requests[0]], requests[1..]);
    AfterAllConcat(t, Calls([requests[0]]), Calls(requests[1..]));
  }

  lemma AfterOne(t: Table, call: Call)
    ensures AfterAll(t, [call]) == After(t, call)
  {
    hide After;
    assert [call][1..] == [];
  }
}
