/** The BioSystem aggregate: ordered registries of compositors, constants and
    parts, the symbol list handed to the rate compiler, and the name indexes. */
module BioSystems {
  import opened Outcomes
  import opened Records
  import opened Compositors
  import opened Constants

  /** The symbol for time, always the first compiled-function argument. */
  const Time: string := "t"

  datatype BioSystem = BioSystem(
    parts: seq<Part>,
    compositors: seq<Compositor>,
    constants: seq<Const>,
    symbols: seq<string>,
    mapConstants: map<string, nat>,
    mapCompositors: map<string, nat>,
    ratesDetermined: bool)

  datatype LookupError = UnknownName(name: string)

  function CompositorNames(cs: seq<Compositor>): (ns: seq<string>)
    ensures |ns| == |cs| && forall i :: 0 <= i < |cs| ==> ns[i] == cs[i].name
  {
    seq(|cs|, i requires 0 <= i < |cs| => cs[i].name)
  }

  /** The constants' counterpart of `CompositorNames`, kept parallel on purpose:
      the two registries are indexed the same way. */
  function ConstantNames(ks: seq<Const>): (ns: seq<string>)
    ensures |ns| == |ks| && forall i :: 0 <= i < |ks| ==> ns[i] == ks[i].name
  {
    seq(|ks|, i requires 0 <= i < |ks| => ks[i].name)
  }

  /** `m` maps every name occurring in `names` to the position of its last
      occurrence, and maps nothing else. */
  ghost predicate IndexesLast(m: map<string, nat>, names: seq<string>) {
    && (forall n :: n in m ==> m[n] < |names| && names[m[n]] == n)
    && (forall n, j :: n in m && m[n] < j < |names| ==> names[j] != n)
    && (forall i :: 0 <= i < |names| ==> names[i] in m)
  }

  /** The registry invariant every reachable system keeps. */
  ghost predicate Valid(s: BioSystem) {
    && s.symbols == [Time] + CompositorNames(s.compositors)
    && IndexesLast(s.mapCompositors, CompositorNames(s.compositors))
    && IndexesLast(s.mapConstants, ConstantNames(s.constants))
  }

  /** A newly constructed system: no entities, only the time symbol. */
  function Empty(): (s: BioSystem)
    ensures Valid(s)
    ensures s.symbols == [Time] && |s.compositors| == 0 && |s.constants| == 0 && |s.parts| == 0
    ensures !s.ratesDetermined
  {
    BioSystem([], [], [], [Time], map[], map[], false)
  }

  lemma {:induction false} IndexesLastAppend(m: map<string, nat>, names: seq<string>, n: string)
    requires IndexesLast(m, names)
    ensures IndexesLast(m[n := |names|], names + [n])
  {
    var m', names' := m[n := |names|], names + [n];
    forall x | x in m'
      ensures m'[x] < |names'| && names'[m'[x]] == x
    {
      if x != n {
        assert x in m;
      }
    }
    forall x, j | x in m' && m'[x] < j < |names'|
      ensures names'[j] != x
    {
      if x != n {
        assert x in m && m'[x] == m[x];
        if j < |names| {
          assert names'[j] == names[j];
        }
      }
    }
  }

  /** Appends a compositor; its name now resolves to its own position and its
      symbol follows all earlier ones. */
  function AddCompositor(s: BioSystem, c: Compositor): (r: BioSystem)
    requires Valid(s)
    ensures Valid(r)
    ensures r.compositors == s.compositors + [c]
    ensures r.symbols == s.symbols + [c.name]
    ensures c.name in r.mapCompositors && r.mapCompositors[c.name] == |s.compositors|
    ensures r.parts == s.parts && r.constants == s.constants && r.mapConstants == s.mapConstants
    ensures r.ratesDetermined == s.ratesDetermined
  {
    IndexesLastAppend(s.mapCompositors, CompositorNames(s.compositors), c.name);
    assert CompositorNames(s.compositors + [c]) == CompositorNames(s.compositors) + [c.name];
    s.(compositors := s.compositors + [c],
       mapCompositors := s.mapCompositors[c.name := |s.compositors|],
       symbols := s.symbols + [c.name])
  }

  /** Creates a compositor with the given initial value and appends it. */
  function AddNewCompositor(s: BioSystem, name: string, initValue: real): (r: BioSystem)
    requires Valid(s)
    ensures Valid(r)
    ensures |r.compositors| == |s.compositors| + 1 && r.compositors[..|s.compositors|] == s.compositors
    ensures r.compositors[|s.compositors|] == Compositors.New(name, initValue)
    ensures r.symbols == s.symbols + [name]
    ensures name in r.mapCompositors && r.mapCompositors[name] == |s.compositors|
    ensures r.parts == s.parts && r.constants == s.constants && r.mapConstants == s.mapConstants
    ensures r.ratesDetermined == s.ratesDetermined
  {
    AddCompositor(s, Compositors.New(name, initValue))
  }

  /** The position recorded for `name`: the most recently added compositor of that name. */
  function CompositorIndex(s: BioSystem, name: string): (r: Option<nat>)
    requires Valid(s)
    ensures r.None? <==> forall i :: 0 <= i < |s.compositors| ==> s.compositors[i].name != name
    ensures r.Some? ==> r.value < |s.compositors| && s.compositors[r.value].name == name
    ensures r.Some? ==> forall j :: r.value < j < |s.compositors| ==> s.compositors[j].name != name
  {
    var names := CompositorNames(s.compositors);
    if name in s.mapCompositors then
      assert names[s.mapCompositors[name]] == name;
      Some(s.mapCompositors[name])
    else
      assert forall i :: 0 <= i < |s.compositors| ==> names[i] in s.mapCompositors;
      None
  }

  /** The position recorded for constant `name`: the most recently added constant of that name. */
  function ConstantIndex(s: BioSystem, name: string): (r: Option<nat>)
    requires Valid(s)
    ensures r.None? <==> forall i :: 0 <= i < |s.constants| ==> s.constants[i].name != name
    ensures r.Some? ==> r.value < |s.constants| && s.constants[r.value].name == name
    ensures r.Some? ==> forall j :: r.value < j < |s.constants| ==> s.constants[j].name != name
  {
    var names := ConstantNames(s.constants);
    if name in s.mapConstants then
      assert names[s.mapConstants[name]] == name;
      Some(s.mapConstants[name])
    else
      assert forall i :: 0 <= i < |s.constants| ==> names[i] in s.mapConstants;
      None
  }

  /** Appends a part; nothing else changes (in particular the rate flag does not). */
  function AddPart(s: BioSystem, p: Part): (r: BioSystem)
    ensures r.parts == s.parts + [p]
    ensures r.compositors == s.compositors && r.constants == s.constants && r.symbols == s.symbols
    ensures r.mapCompositors == s.mapCompositors && r.mapConstants == s.mapConstants
    ensures r.ratesDetermined == s.ratesDetermined
  {
    s.(parts := s.parts + [p])
  }

  /** Appends an already constructed constant; its name now resolves to it. */
  function AddConstant(s: BioSystem, k: Const): (r: BioSystem)
    requires Valid(s)
    ensures Valid(r)
    ensures r.constants == s.constants + [k]
    ensures k.name in r.mapConstants && r.mapConstants[k.name] == |s.constants|
    ensures r.parts == s.parts && r.compositors == s.compositors && r.symbols == s.symbols
    ensures r.mapCompositors == s.mapCompositors && r.ratesDetermined == s.ratesDetermined
  {
    IndexesLastAppend(s.mapConstants, ConstantNames(s.constants), k.name);
    assert ConstantNames(s.constants + [k]) == ConstantNames(s.constants) + [k.name];
    s.(constants := s.constants + [k], mapConstants := s.mapConstants[k.name := |s.constants|])
  }

  /** Constructs a constant from a name and a value and appends it; the reserved
      name fails and leaves no trace. */
  function AddNewConstant(s: BioSystem, name: string, value: real): (r: Result<BioSystem, ConstError>)
    requires Valid(s)
    ensures r.Failure? <==> name == Reserved
    ensures r.Success? ==> Valid(r.value) && r.value.constants == s.constants + [ConstRecord(name, value)]
    ensures r.Success? ==> name in r.value.mapConstants && r.value.mapConstants[name] == |s.constants|
    ensures r.Success? ==> r.value.parts == s.parts && r.value.compositors == s.compositors && r.value.symbols == s.symbols
    ensures r.Success? ==> r.value.mapCompositors == s.mapCompositors && r.value.ratesDetermined == s.ratesDetermined
  {
    match Constants.New(name, value)
    case Failure(e) => Failure(e)
    case Success(k) => Success(AddConstant(s, k))
  }

  /** Sets both the initial and the current value of the named compositor and of
      no other; an unknown name fails. */
  function ChangeInitialValue(s: BioSystem, name: string, v: real): (r: Result<BioSystem, LookupError>)
    requires Valid(s)
    ensures r.Failure? <==> forall i :: 0 <= i < |s.compositors| ==> s.compositors[i].name != name
    ensures r.Failure? ==> r.error == UnknownName(name)
    ensures r.Success? ==> Valid(r.value)
    ensures r.Success? ==> |r.value.compositors| == |s.compositors|
    ensures r.Success? ==> exists i :: CompositorIndex(s, name) == Some(i) && ChangedOnlyAt(s.compositors, r.value.compositors, i, v)
    ensures r.Success? ==> r.value.(compositors := s.compositors) == s
  {
    match CompositorIndex(s, name)
    case None => Failure(UnknownName(name))
    case Some(i) =>
      var c := s.compositors[i].SetInitialValue(v).(value := v);
      assert CompositorNames(s.compositors[i := c]) == CompositorNames(s.compositors);
      Success(s.(compositors := s.compositors[i := c]))
  }

  /** `after` differs from `before` only in position `i`, whose initial and current values are `v`. */
  ghost predicate ChangedOnlyAt(before: seq<Compositor>, after: seq<Compositor>, i: nat, v: real) {
    && |after| == |before| && i < |before|
    && after[i] == before[i].(initValue := v, value := v)
    && forall j :: 0 <= j < |before| && j != i ==> after[j] == before[j]
  }

  /** Every current value returns to its initial value; nothing else changes. */
  function ResetStateVariables(s: BioSystem): (r: BioSystem)
    ensures |r.compositors| == |s.compositors|
    ensures forall i :: 0 <= i < |s.compositors| ==> r.compositors[i] == s.compositors[i].(value := s.compositors[i].initValue)
    ensures r.(compositors := s.compositors) == s
    ensures Valid(s) ==> Valid(r)
  {
    var cs := seq(|s.compositors|, i requires 0 <= i < |s.compositors| => s.compositors[i].(value := s.compositors[i].initValue));
    assert CompositorNames(cs) == CompositorNames(s.compositors);
    s.(compositors := cs)
  }

  /** Resetting state variables twice is the same as once. */
  lemma ResetStateVariablesIdempotent(s: BioSystem)
    ensures ResetStateVariables(ResetStateVariables(s)) == ResetStateVariables(s)
  {
    var r := ResetStateVariables(s);
    assert ResetStateVariables(r).compositors == r.compositors;
  }
}
