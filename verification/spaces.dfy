/** What both inference adapters are handed: the linguistic-variable spaces
    (each variable with the ordered names of its terms) and the reasoning
    order, whose layers are computed from the last to the first. */
module Spaces {
  /** One variable and the ordered names of its terms. */
  datatype Space = Space(variable: string, terms: seq<string>)

  /** The variables of a term-space table are distinct, as dictionary keys are. */
  ghost predicate WellKeyed(spaces: seq<Space>) {
    forall i, j :: 0 <= i < j < |spaces| ==> spaces[i].variable != spaces[j].variable
  }

  /** `reversed(...)`: the same elements, last first. */
  function Reverse<T>(xs: seq<T>): (r: seq<T>)
    ensures |r| == |xs|
    ensures forall i :: 0 <= i < |xs| ==> r[i] == xs[|xs| - 1 - i]
  {
    if |xs| == 0 then [] else Reverse(xs[1..]) + [xs[0]]
  }
}
