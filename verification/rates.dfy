/** The rate compiler: folding every part's rate laws onto the compositors they
    target, guarded by the system's `ratesDetermined` flag, and the reset that
    invalidates the fold when a constant changes. Substituting constant values
    and compiling the formula are represented only by the `compiled` marker. */
module RateFolding {
  import opened Outcomes
  import opened Records
  import opened Compositors
  import opened Constants
  import opened BioSystems

  ghost predicate PartsWellFormed(parts: seq<Part>) {
    forall k :: 0 <= k < |parts| ==> parts[k].WellFormed()
  }

  /** Adds `r` to the compositor at position `i`; a position outside the list is a
      compositor object outside the system, whose change is not visible here. */
  function AddRateAt(cs: seq<Compositor>, i: nat, r: string): seq<Compositor> {
    if i < |cs| then cs[i := cs[i].AddRate(r)] else cs
  }

  /** One part: its k-th rate goes to its k-th target, in k order. */
  function FoldPart(cs: seq<Compositor>, targets: seq<nat>, rates: seq<Rate>): seq<Compositor>
    requires |targets| <= |rates|
    decreases |targets|
  {
    if |targets| == 0 then cs
    else FoldPart(AddRateAt(cs, targets[0], rates[0].ToString()), targets[1..], rates[1..])
  }

  /** All parts, in declaration order. */
  function FoldParts(cs: seq<Compositor>, parts: seq<Part>): seq<Compositor>
    requires PartsWellFormed(parts)
    decreases |parts|
  {
    if |parts| == 0 then cs
    else
      assert parts[0].WellFormed();
      FoldParts(FoldPart(cs, parts[0].targets, parts[0].rates), parts[1..])
  }

  /** Reference definition: the rate texts one part contributes to position `i`, in k order. */
  function PartContributions(targets: seq<nat>, rates: seq<Rate>, i: nat): seq<string>
    requires |targets| <= |rates|
    decreases |targets|
  {
    if |targets| == 0 then []
    else (if targets[0] == i then [rates[0].ToString()] else []) + PartContributions(targets[1..], rates[1..], i)
  }

  /** Reference definition: everything all parts contribute to position `i`, in part then k order. */
  function Contributions(parts: seq<Part>, i: nat): seq<string>
    requires PartsWellFormed(parts)
    decreases |parts|
  {
    if |parts| == 0 then []
    else
      assert parts[0].WellFormed();
      PartContributions(parts[0].targets, parts[0].rates, i) + Contributions(parts[1..], i)
  }

  lemma PartsWellFormedTail(parts: seq<Part>)
    requires |parts| > 0 && PartsWellFormed(parts)
    ensures parts[0].WellFormed() && PartsWellFormed(parts[1..])
  {
    assert parts[0].WellFormed();
    forall k | 0 <= k < |parts[1..]| ensures parts[1..][k].WellFormed() {
      assert parts[1..][k] == parts[k + 1];
    }
  }

  lemma {:induction false} FoldPartLength(cs: seq<Compositor>, targets: seq<nat>, rates: seq<Rate>)
    requires |targets| <= |rates|
    ensures |FoldPart(cs, targets, rates)| == |cs|
    decreases |targets|
  {
    if |targets| > 0 {
      FoldPartLength(AddRateAt(cs, targets[0], rates[0].ToString()), targets[1..], rates[1..]);
    }
  }

  /** Position `i` after one part: its formula gains exactly that part's contributions to `i`. */
  lemma {:induction false} FoldPartAt(cs: seq<Compositor>, targets: seq<nat>, rates: seq<Rate>, i: nat)
    requires |targets| <= |rates| && i < |cs|
    ensures |FoldPart(cs, targets, rates)| == |cs|
    ensures FoldPart(cs, targets, rates)[i] == cs[i].(rate := cs[i].rate + Joined(PartContributions(targets, rates, i)))
    decreases |targets|
  {
    FoldPartLength(cs, targets, rates);
    if |targets| > 0 {
      var r0 := rates[0].ToString();
      var cs' := AddRateAt(cs, targets[0], r0);
      FoldPartAt(cs', targets[1..], rates[1..], i);
      var rest := PartContributions(targets[1..], rates[1..], i);
      assert FoldPart(cs, targets, rates) == FoldPart(cs', targets[1..], rates[1..]);
      if targets[0] == i {
        assert cs'[i] == cs[i].(rate := cs[i].rate + Joined([r0]));
        AppendTwice(cs[i], [r0], rest);
        assert PartContributions(targets, rates, i) == [r0] + rest;
      } else {
        assert cs'[i] == cs[i];
        assert PartContributions(targets, rates, i) == [] + rest == rest;
      }
    }
  }

  lemma {:induction false} FoldPartsLength(cs: seq<Compositor>, parts: seq<Part>)
    requires PartsWellFormed(parts)
    ensures |FoldParts(cs, parts)| == |cs|
    decreases |parts|
  {
    if |parts| > 0 {
      PartsWellFormedTail(parts);
      FoldPartLength(cs, parts[0].targets, parts[0].rates);
      FoldPartsLength(FoldPart(cs, parts[0].targets, parts[0].rates), parts[1..]);
    }
  }

  /** Position `i` after all parts: its formula gains all contributions to `i`, in order. */
  lemma {:induction false} FoldPartsAt(cs: seq<Compositor>, parts: seq<Part>, i: nat)
    requires PartsWellFormed(parts) && i < |cs|
    ensures |FoldParts(cs, parts)| == |cs|
    ensures FoldParts(cs, parts)[i] == cs[i].(rate := cs[i].rate + Joined(Contributions(parts, i)))
    decreases |parts|
  {
    FoldPartsLength(cs, parts);
    if |parts| > 0 {
      var p := parts[0];
      PartsWellFormedTail(parts);
      var cs' := FoldPart(cs, p.targets, p.rates);
      FoldPartAt(cs, p.targets, p.rates, i);
      FoldPartsAt(cs', parts[1..], i);
      var head := PartContributions(p.targets, p.rates, i);
      var tail := Contributions(parts[1..], i);
      assert FoldParts(cs, parts) == FoldParts(cs', parts[1..]);
      assert Contributions(parts, i) == head + tail;
      AppendTwice(cs[i], head, tail);
    }
  }

  lemma FoldPartsAppends(cs: seq<Compositor>, parts: seq<Part>)
    requires PartsWellFormed(parts)
    ensures |FoldParts(cs, parts)| == |cs|
    ensures forall i :: 0 <= i < |cs| ==>
      FoldParts(cs, parts)[i] == cs[i].(rate := cs[i].rate + Joined(Contributions(parts, i)))
  {
    FoldPartsLength(cs, parts);
    forall i | 0 <= i < |cs|
      ensures FoldParts(cs, parts)[i] == cs[i].(rate := cs[i].rate + Joined(Contributions(parts, i)))
    {
      FoldPartsAt(cs, parts, i);
    }
  }

  /** Marks every compositor's compiled rate function present. */
  function Compile(cs: seq<Compositor>): (r: seq<Compositor>)
    ensures |r| == |cs| && forall i :: 0 <= i < |cs| ==> r[i] == cs[i].(compiled := true)
  {
    seq(|cs|, i requires 0 <= i < |cs| => cs[i].(compiled := true))
  }

  /** determine_rates: a no-op once the flag is set; otherwise every compositor's
      formula is followed by the terms of every contribution aimed at it, in part
      then k order, every compositor gets a compiled function, and the flag is set. */
  function DetermineRates(s: BioSystem): (r: BioSystem)
    requires PartsWellFormed(s.parts)
    ensures s.ratesDetermined ==> r == s
    ensures !s.ratesDetermined ==> |r.compositors| == |s.compositors|
    ensures !s.ratesDetermined ==> forall i :: 0 <= i < |s.compositors| ==>
      r.compositors[i] == s.compositors[i].(rate := s.compositors[i].rate + Joined(Contributions(s.parts, i)), compiled := true)
    ensures r.ratesDetermined
    ensures r.(compositors := s.compositors, ratesDetermined := s.ratesDetermined) == s
    ensures Valid(s) ==> Valid(r)
  {
    if s.ratesDetermined then s
    else
      FoldPartsAppends(s.compositors, s.parts);
      var cs := Compile(FoldParts(s.compositors, s.parts));
      assert CompositorNames(cs) == CompositorNames(s.compositors);
      s.(compositors := cs, ratesDetermined := true)
  }

  /** A compositor no part targets keeps its formula through the fold. */
  lemma UntouchedKeepsRate(s: BioSystem, i: nat)
    requires PartsWellFormed(s.parts) && i < |s.compositors|
    requires Contributions(s.parts, i) == []
    ensures DetermineRates(s).compositors[i].rate == s.compositors[i].rate
  {
  }

  /** Determining rates a second time changes nothing. */
  lemma DetermineRatesIdempotent(s: BioSystem)
    requires PartsWellFormed(s.parts)
    ensures DetermineRates(DetermineRates(s)) == DetermineRates(s)
  {
  }

  /** Adding a part does not clear the flag, so a part added after the rates
      were determined is not folded in by a later determine_rates. */
  lemma PartAddedAfterFoldIsIgnored(s: BioSystem, p: Part)
    requires PartsWellFormed(s.parts) && p.WellFormed()
    requires !s.ratesDetermined
    ensures DetermineRates(AddPart(DetermineRates(s), p)).compositors == DetermineRates(s).compositors
  {
  }

  /** reset_rates: clears the flag, every formula back to "0", every compiled function gone. */
  function ResetRates(s: BioSystem): (r: BioSystem)
    ensures !r.ratesDetermined && |r.compositors| == |s.compositors|
    ensures forall i :: 0 <= i < |s.compositors| ==>
      r.compositors[i] == s.compositors[i].(rate := InitialRate, compiled := false)
    ensures r.(compositors := s.compositors, ratesDetermined := s.ratesDetermined) == s
    ensures Valid(s) ==> Valid(r)
  {
    var cs := seq(|s.compositors|, i requires 0 <= i < |s.compositors| => s.compositors[i].(rate := InitialRate, compiled := false));
    assert CompositorNames(cs) == CompositorNames(s.compositors);
    s.(compositors := cs, ratesDetermined := false)
  }

  /** changeConstantValue: sets the value of the named constant (the most recently
      added of that name) and invalidates the fold; an unknown name fails and
      changes nothing. */
  function ChangeConstantValue(s: BioSystem, name: string, v: real): (r: Result<BioSystem, LookupError>)
    requires Valid(s)
    ensures r.Failure? <==> forall i :: 0 <= i < |s.constants| ==> s.constants[i].name != name
    ensures r.Failure? ==> r.error == UnknownName(name)
    ensures r.Success? ==> Valid(r.value) && !r.value.ratesDetermined
    ensures r.Success? ==> exists k :: ConstantIndex(s, name) == Some(k) && r.value.constants == s.constants[k := s.constants[k].(value := v)]
    ensures r.Success? ==> |r.value.compositors| == |s.compositors| && forall i :: 0 <= i < |s.compositors| ==>
      r.value.compositors[i] == s.compositors[i].(rate := InitialRate, compiled := false)
    ensures r.Success? ==> r.value.(compositors := s.compositors, constants := s.constants, ratesDetermined := s.ratesDetermined) == s
  {
    match ConstantIndex(s, name)
    case None => Failure(UnknownName(name))
    case Some(k) =>
      var ks := s.constants[k := s.constants[k].(value := v)];
      assert ConstantNames(ks) == ConstantNames(s.constants);
      Success(ResetRates(s.(constants := ks)))
  }

  /** After a constant changes, the next determine_rates refolds every part from
      "0" instead of keeping the stale formulas. */
  lemma RefoldAfterConstantChange(s: BioSystem, name: string, v: real, i: nat)
    requires Valid(s) && PartsWellFormed(s.parts) && i < |s.compositors|
    requires ChangeConstantValue(s, name, v).Success?
    ensures DetermineRates(ChangeConstantValue(s, name, v).value).compositors[i].rate == InitialRate + Joined(Contributions(s.parts, i))
    ensures DetermineRates(ChangeConstantValue(s, name, v).value).compositors[i].compiled
  {
  }
}
