/** A named numeric constant usable inside rate laws. */
module Constants {
  import opened Outcomes

  /** The one name a constant may not have. */
  const Reserved: string := "gamma"

  datatype ConstRecord = ConstRecord(name: string, value: real)

  /** Every constant that can exist passed the reserved-name check. */
  type Const = c: ConstRecord | c.name != Reserved witness ConstRecord("k", 0.0)

  datatype ConstError = ReservedName(name: string)

  /** The constructor: fails, producing no constant at all, when the name is
      exactly the reserved one; otherwise stores name and value as given. */
  function New(name: string, value: real := 0.0): (r: Result<Const, ConstError>)
    ensures r.Failure? <==> name == Reserved
    ensures r.Failure? ==> r.error == ReservedName(name)
    ensures r.Success? ==> r.value.name == name && r.value.value == value
  {
    if name == Reserved then Failure(ReservedName(name)) else Success(ConstRecord(name, value))
  }

  /** Naming a constant "gamma" fails whatever its value. */
  lemma GammaAlwaysRejected(value: real)
    ensures New("gamma", value).Failure?
  {
  }

  /** The check is exact string equality: a different spelling such as "Gamma" is accepted. */
  lemma OnlyExactNameRejected(value: real)
    ensures New("Gamma", value) == Success(ConstRecord("Gamma", value))
  {
    assert "Gamma" != Reserved by { assert "Gamma"[0] != Reserved[0]; }
  }

  /** The default value is 0. */
  lemma NewDefault(name: string)
    requires name != Reserved
    ensures New(name) == Success(ConstRecord(name, 0.0))
  {
  }
}
