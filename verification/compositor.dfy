/** A Compositor is one state variable (a substance concentration) together with
    the running text of its total rate of change. */
module Compositors {

  /** The formula every compositor starts from, the additive identity. */
  const InitialRate: string := "0"

  /** The text appended for one contribution `r`. */
  function Term(r: string): string {
    " + (" + r + ")"
  }

  /** Reference definition: the contributions `rs`, each wrapped by `Term`, in order. */
  function Joined(rs: seq<string>): string {
    if |rs| == 0 then "" else Term(rs[0]) + Joined(rs[1..])
  }

  /** `compiled` stands for the presence of the compiled rate function (`ratef`);
      the symbol of a compositor is represented by its name. */
  datatype Compositor = Compositor(name: string, initValue: real, value: real, rate: string, compiled: bool) {

    /** Adds one rate contribution to the formula; nothing but the formula changes. */
    function AddRate(r: string): (c: Compositor)
      ensures c.name == name && c.initValue == initValue && c.value == value && c.compiled == compiled
      ensures |rate| < |c.rate| && c.rate[..|rate|] == rate
      ensures c.rate == rate + Joined([r])
    {
      this.(rate := rate + Term(r))
    }

    /** Sets the initial value; the current value is left as it was. */
    function SetInitialValue(v: real): (c: Compositor)
      ensures c.initValue == v
      ensures c.name == name && c.value == value && c.rate == rate && c.compiled == compiled
    {
      this.(initValue := v)
    }
  }

  /** A fresh compositor: formula "0", current value equal to the initial value. */
  function New(name: string, initValue: real := 0.0): (c: Compositor)
    ensures c.name == name && c.initValue == initValue && c.value == c.initValue
    ensures c.rate == InitialRate && !c.compiled
  {
    Compositor(name, initValue, initValue, InitialRate, false)
  }

  /** Applies `AddRate` for each of `rs` in order. */
  function AddRates(c: Compositor, rs: seq<string>): Compositor
    decreases |rs|
  {
    if |rs| == 0 then c else AddRates(c.AddRate(rs[0]), rs[1..])
  }

  lemma {:induction false} JoinedAppend(a: seq<string>, b: seq<string>)
    ensures Joined(a + b) == Joined(a) + Joined(b)
  {
    if |a| == 0 {
      assert a + b == b;
    } else {
      assert (a + b)[1..] == a[1..] + b;
      JoinedAppend(a[1..], b);
    }
  }

  /** Folding contributions appends exactly their joined terms and changes nothing else. */
  lemma {:induction false} AddRatesAppends(c: Compositor, rs: seq<string>)
    ensures AddRates(c, rs) == c.(rate := c.rate + Joined(rs))
    decreases |rs|
  {
    if |rs| > 0 {
      AddRatesAppends(c.AddRate(rs[0]), rs[1..]);
      assert rs == [rs[0]] + rs[1..];
      AppendTwice(c, [rs[0]], rs[1..]);
    }
  }

  /** Appending `x` and then `y` to a formula appends `x + y`. */
  lemma AppendTwice(c: Compositor, x: seq<string>, y: seq<string>)
    ensures c.(rate := c.rate + Joined(x)).(rate := (c.rate + Joined(x)) + Joined(y)) == c.(rate := c.rate + Joined(x + y))
  {
    JoinedAppend(x, y);
    assert (c.rate + Joined(x)) + Joined(y) == c.rate + (Joined(x) + Joined(y));
  }

  /** Folding r1..rn onto a fresh compositor gives "0 + (r1) + ... + (rn)". */
  lemma FreshFold(name: string, v: real, rs: seq<string>)
    ensures AddRates(New(name, v), rs).rate == "0" + Joined(rs)
    ensures AddRates(New(name, v), rs).value == v
  {
    AddRatesAppends(New(name, v), rs);
  }

  /** The default initial value is 0. */
  lemma NewDefault(name: string)
    ensures New(name).initValue == 0.0 && New(name).value == 0.0
  {
  }
}
