/** The plain records the system consumes: rate laws, reactions (parts) and pulses. */
module Records {

  /** A rate law, kept as the text the user wrote; its string form is that text. */
  datatype Rate = Rate(rateString: string) {
    function ToString(): string { rateString }
  }

  /** A reaction. `targets[k]` is the position, in the owning system's compositor
      list, of the k-th compositor the reaction changes, and `rates[k]` is how it
      changes it. A position outside the list stands for a compositor object that
      was never added to the system. */
  datatype Part = Part(name: string, targets: seq<nat>, rates: seq<Rate>) {
    /** Every target has a rate; a shorter rate list makes the fold index past its end. */
    predicate WellFormed() { |targets| <= |rates| }
  }

  /** At `time`, set the compositor named `compositorName` to `value`; an empty
      name marks a plain boundary (the last pulse is only a stop time). */
  datatype Pulse = Pulse(time: real, compositorName: string, value: real)
}
