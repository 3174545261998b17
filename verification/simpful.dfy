/** The Simpful adapter: three-term triangular partitions of each variable's
    universe, linguistic variables over a fixed discourse, textual rules, and
    the per-run state that layer-by-layer inference threads through.  The
    Mamdani inference itself is a parameter: any function from the current
    inputs and the requested targets to a map of crisp outputs. */
module Simpful {
  import opened Wrappers
  import opened Ontology
  import RuleText
  import opened Spaces

  /** A triangular fuzzy set with feet `a`, `c` and peak `b`, labelled by its term. */
  datatype TriangleSet = TriangleSet(a: real, b: real, c: real, term: string)

  /** A linguistic variable: its sets in term order over a universe of discourse. */
  datatype LinguisticVariable = LinguisticVariable(sets: seq<TriangleSet>, low: real, high: real)

  /** What the constructor builds before any inference runs. */
  datatype Config = Config(
    fuzzySets: map<string, TriangleSet>,
    variables: map<string, LinguisticVariable>,
    rules: seq<string>)

  /** Per-run state: the engine's crisp inputs and every value inferred so far. */
  datatype State = State(inputs: map<string, real>, goalsInferred: map<string, real>)

  /** The Mamdani inference: from current inputs and target names to crisp outputs. */
  type Inference = (map<string, real>, seq<string>) -> map<string, real>

  /** Every linguistic variable gets this universe of discourse, whatever
      universe the partition was computed over. */
  const DiscourseLow: real := 0.0
  const DiscourseHigh: real := 40.0

  predicate Ordered(t: TriangleSet) {
    t.a <= t.b <= t.c
  }

  // ---------------------------------------------------------------------
  // Triangular partition

  /** The partition point shared by the three triangles: a third of the sum
      of the universe bounds. */
  function Peak(lo: real, hi: real): (m: real)
    ensures lo <= m <= hi <==> 2.0 * lo <= hi && lo <= 2.0 * hi
  {
    (lo + hi) / 3.0
  }

  /** `_get_triangle_fuzzy_points`: three terms become a low shoulder, a
      middle triangle spanning the universe and a high shoulder; any other
      number of terms is refused.  A repeated term keeps its last set. */
  function TriangleSets(terms: seq<string>, lo: real, hi: real): (r: Result<map<string, TriangleSet>>)
    ensures r.Failure? <==> |terms| != 3
    ensures r.Failure? ==> r.error == UnsupportedTermCount(|terms|)
    ensures r.Success? ==> r.value.Keys == {terms[0], terms[1], terms[2]}
    ensures r.Success? ==> forall t :: t in r.value ==> r.value[t].term == t
    ensures r.Success? ==> r.value[terms[2]] == TriangleSet((lo + hi) / 3.0, hi, hi, terms[2])
    ensures r.Success? && terms[1] != terms[2] ==>
              r.value[terms[1]] == TriangleSet(lo, (lo + hi) / 3.0, hi, terms[1])
    ensures r.Success? && terms[0] != terms[1] && terms[0] != terms[2] ==>
              r.value[terms[0]] == TriangleSet(lo, lo, (lo + hi) / 3.0, terms[0])
  {
    if |terms| != 3 then Failure(UnsupportedTermCount(|terms|))
    else
      var m := Peak(lo, hi);
      Success(map[terms[0] := TriangleSet(lo, lo, m, terms[0])]
                 [terms[1] := TriangleSet(lo, m, hi, terms[1])]
                 [terms[2] := TriangleSet(m, hi, hi, terms[2])])
  }

  /** With the peak at a third of the bound sum, the three triangles are
      well formed exactly when neither bound exceeds twice the other in the
      directions below; the universe (10, 15), for one, yields a middle
      triangle whose peak lies left of its left foot. */
  lemma TrianglesOrderedIff(terms: seq<string>, lo: real, hi: real)
    requires |terms| == 3 && terms[0] != terms[1] && terms[1] != terms[2] && terms[0] != terms[2]
    ensures var sets := TriangleSets(terms, lo, hi).value;
            (forall t :: t in sets ==> Ordered(sets[t])) <==> 2.0 * lo <= hi && lo <= 2.0 * hi
  {
    var sets := TriangleSets(terms, lo, hi).value;
    if 2.0 * lo <= hi && lo <= 2.0 * hi {
      forall t | t in sets ensures Ordered(sets[t]) {
        assert t == terms[0] || t == terms[1] || t == terms[2];
      }
    } else {
      if 2.0 * lo > hi {
        assert !Ordered(sets[terms[0]]);
      } else {
        assert !Ordered(sets[terms[2]]);
      }
    }
  }

  // ---------------------------------------------------------------------
  // Assembly of the fuzzy-set table and the linguistic variables

  /** Every term named in any space. */
  function AllTerms(spaces: seq<Space>): set<string>
    decreases |spaces|
  {
    if |spaces| == 0 then {}
    else AllTerms(spaces[..|spaces| - 1]) + TermSet(spaces[|spaces| - 1].terms)
  }

  function TermSet(terms: seq<string>): set<string> {
    set t | t in terms
  }

  lemma {:induction false} TermsInAllTerms(spaces: seq<Space>)
    ensures forall i, j :: 0 <= i < |spaces| && 0 <= j < |spaces[i].terms| ==> spaces[i].terms[j] in AllTerms(spaces)
    decreases |spaces|
  {
    if |spaces| > 0 {
      var prefix := spaces[..|spaces| - 1];
      TermsInAllTerms(prefix);
      forall i, j | 0 <= i < |spaces| && 0 <= j < |spaces[i].terms| ensures spaces[i].terms[j] in AllTerms(spaces) {
        if i < |spaces| - 1 {
          assert spaces[i] == prefix[i];
        }
      }
    }
  }

  /** Index of the first space whose term count is not three, if any. */
  function FirstUnsupported(spaces: seq<Space>): (r: Option<nat>)
    ensures r.Some? ==> r.value < |spaces| && |spaces[r.value].terms| != 3
    ensures r.Some? ==> forall j :: 0 <= j < r.value ==> |spaces[j].terms| == 3
    ensures r.None? ==> forall j :: 0 <= j < |spaces| ==> |spaces[j].terms| == 3
  {
    if |spaces| == 0 then None
    else if |spaces[0].terms| != 3 then Some(0)
    else match FirstUnsupported(spaces[1..])
      case None => None
      case Some(i) => Some(i + 1)
  }

  /** The table of fuzzy sets by term, built space by space; a later space's
      set for a term replaces an earlier one. */
  function Table(spaces: seq<Space>, lo: real, hi: real): (r: map<string, TriangleSet>)
    requires forall i :: 0 <= i < |spaces| ==> |spaces[i].terms| == 3
    ensures r.Keys == AllTerms(spaces)
    ensures forall t :: t in r ==> r[t].term == t
    decreases |spaces|
  {
    if |spaces| == 0 then map[]
    else
      var prefix := spaces[..|spaces| - 1];
      var last := spaces[|spaces| - 1];
      assert TermSet(last.terms) == {last.terms[0], last.terms[1], last.terms[2]};
      Table(prefix, lo, hi) + TriangleSets(last.terms, lo, hi).value
  }

  /** The constructor's loop over the spaces: the table over all of them,
      or the term count of the first space that does not have three terms. */
  function FuzzySets(spaces: seq<Space>, lo: real, hi: real): (r: Result<map<string, TriangleSet>>)
    ensures r.Failure? <==> exists i :: 0 <= i < |spaces| && |spaces[i].terms| != 3
    ensures r.Failure? ==> exists i :: && 0 <= i < |spaces|
                                       && r.error == UnsupportedTermCount(|spaces[i].terms|)
                                       && forall j :: 0 <= j < i ==> |spaces[j].terms| == 3
    ensures r.Success? ==> r.value.Keys == AllTerms(spaces)
    ensures r.Success? ==> forall t :: t in r.value ==> r.value[t].term == t
  {
    match FirstUnsupported(spaces)
    case Some(i) => Failure(UnsupportedTermCount(|spaces[i].terms|))
    case None => Success(Table(spaces, lo, hi))
  }

  /** The last space contributes exactly its own triangle sets, laid over
      the table built from the spaces before it. */
  lemma FuzzySetsLast(spaces: seq<Space>, lo: real, hi: real)
    requires |spaces| > 0 && FuzzySets(spaces, lo, hi).Success?
    ensures FuzzySets(spaces[..|spaces| - 1], lo, hi).Success?
    ensures TriangleSets(spaces[|spaces| - 1].terms, lo, hi).Success?
    ensures FuzzySets(spaces, lo, hi).value
         == FuzzySets(spaces[..|spaces| - 1], lo, hi).value + TriangleSets(spaces[|spaces| - 1].terms, lo, hi).value
  {
  }

  /** Building over two runs of spaces is building over each and letting the
      later run's sets replace the earlier run's. */
  lemma {:induction false} FuzzySetsAppend(first: seq<Space>, second: seq<Space>, lo: real, hi: real)
    requires FuzzySets(first + second, lo, hi).Success?
    ensures FuzzySets(first, lo, hi).Success? && FuzzySets(second, lo, hi).Success?
    ensures FuzzySets(first + second, lo, hi).value
         == FuzzySets(first, lo, hi).value + FuzzySets(second, lo, hi).value
    decreases |second|
  {
    var all := first + second;
    if |second| == 0 {
      assert all == first;
    } else {
      var prefix := second[..|second| - 1];
      var last := second[|second| - 1];
      FuzzySetsLast(all, lo, hi);
      assert all[..|all| - 1] == first + prefix;
      assert all[|all| - 1] == last;
      FuzzySetsAppend(first, prefix, lo, hi);
      AllThreeTerms(first + second, lo, hi);
      forall i | 0 <= i < |second| ensures |second[i].terms| == 3 {
        assert second[i] == all[|first| + i];
      }
      FuzzySetsLast(second, lo, hi);
      var a := FuzzySets(first, lo, hi).value;
      var b := FuzzySets(prefix, lo, hi).value;
      var c := TriangleSets(last.terms, lo, hi).value;
      assert FuzzySets(first + prefix, lo, hi).value == a + b;
      assert FuzzySets(all, lo, hi).value == (a + b) + c;
      assert FuzzySets(second, lo, hi).value == b + c;
      UnionAssociative(a, b, c);
    }
  }

  lemma UnionAssociative<K, V>(a: map<K, V>, b: map<K, V>, c: map<K, V>)
    ensures (a + b) + c == a + (b + c)
  {
  }

  lemma AllThreeTerms(spaces: seq<Space>, lo: real, hi: real)
    ensures FuzzySets(spaces, lo, hi).Success? <==> forall i :: 0 <= i < |spaces| ==> |spaces[i].terms| == 3
  {
  }

  /** The sets of `terms`, in term order, looked up in the table. */
  function SetsOf(terms: seq<string>, table: map<string, TriangleSet>): (r: seq<TriangleSet>)
    requires forall j :: 0 <= j < |terms| ==> terms[j] in table
    ensures |r| == |terms|
    ensures forall j :: 0 <= j < |terms| ==> r[j] == table[terms[j]]
  {
    seq(|terms|, j requires 0 <= j < |terms| => table[terms[j]])
  }

  /** `_add_linguistic_variables`: one variable per space holding the sets
      of its own terms in term order, always over the discourse [0, 40]. */
  function LinguisticVariables(spaces: seq<Space>, table: map<string, TriangleSet>): (r: map<string, LinguisticVariable>)
    requires forall i, j :: 0 <= i < |spaces| && 0 <= j < |spaces[i].terms| ==> spaces[i].terms[j] in table
    requires WellKeyed(spaces)
    ensures r.Keys == set i | 0 <= i < |spaces| :: spaces[i].variable
    ensures forall i :: 0 <= i < |spaces| ==>
              && r[spaces[i].variable].low == DiscourseLow
              && r[spaces[i].variable].high == DiscourseHigh
              && |r[spaces[i].variable].sets| == |spaces[i].terms|
              && forall j :: 0 <= j < |spaces[i].terms| ==> r[spaces[i].variable].sets[j] == table[spaces[i].terms[j]]
  {
    map i | 0 <= i < |spaces| :: spaces[i].variable := LinguisticVariable(SetsOf(spaces[i].terms, table), DiscourseLow, DiscourseHigh)
  }

  /** The rendered text of every rule, in order; the first failure stops. */
  function RuleTexts(rules: seq<Entity>): (r: Result<seq<string>>)
    ensures r.Success? <==> forall i :: 0 <= i < |rules| ==> RuleText.RuleToString(rules[i]).Success?
    ensures r.Success? ==> && |r.value| == |rules|
                           && forall i :: 0 <= i < |rules| ==> RuleText.RuleToString(rules[i]) == Success(r.value[i])
    ensures r.Failure? ==> exists i :: 0 <= i < |rules| && RuleText.RuleToString(rules[i]) == Failure(r.error)
  {
    MapAll(RuleText.RuleToString, rules)
  }

  /** The constructor: the fuzzy-set table over the given universe, one
      linguistic variable per space, and the rules as text. */
  function Configure(spaces: seq<Space>, lo: real, hi: real, rules: seq<Entity>): (r: Result<Config>)
    requires WellKeyed(spaces)
    ensures r.Success? <==> && (forall i :: 0 <= i < |spaces| ==> |spaces[i].terms| == 3)
                            && forall i :: 0 <= i < |rules| ==> RuleText.RuleToString(rules[i]).Success?
    ensures r.Success? ==> r.value.variables.Keys == set i | 0 <= i < |spaces| :: spaces[i].variable
    ensures r.Success? ==> forall i :: 0 <= i < |spaces| ==>
              && r.value.variables[spaces[i].variable].low == DiscourseLow
              && r.value.variables[spaces[i].variable].high == DiscourseHigh
              && |r.value.variables[spaces[i].variable].sets| == |spaces[i].terms|
              && forall j :: 0 <= j < |spaces[i].terms| ==>
                   && spaces[i].terms[j] in r.value.fuzzySets
                   && r.value.variables[spaces[i].variable].sets[j] == r.value.fuzzySets[spaces[i].terms[j]]
                   && r.value.variables[spaces[i].variable].sets[j].term == spaces[i].terms[j]
    ensures r.Success? ==> r.value.fuzzySets == FuzzySets(spaces, lo, hi).value
    ensures r.Success? ==> |r.value.rules| == |rules|
    ensures r.Success? ==> forall i :: 0 <= i < |rules| ==> RuleText.RuleToString(rules[i]) == Success(r.value.rules[i])
  {
    var table :- FuzzySets(spaces, lo, hi);
    TermsInAllTerms(spaces);
    var texts :- RuleTexts(rules);
    Success(Config(table, LinguisticVariables(spaces, table), texts))
  }

  // ---------------------------------------------------------------------
  // Per-run state

  /** `set_start_values`: sets exactly the supplied variables; nothing is
      filled in for variables left out. */
  function SetStartValues(s: State, values: map<string, real>): (r: State)
    ensures r.inputs.Keys == s.inputs.Keys + values.Keys
    ensures forall v :: v in values ==> r.inputs[v] == values[v]
    ensures forall v :: v in s.inputs && v !in values ==> r.inputs[v] == s.inputs[v]
    ensures r.goalsInferred == s.goalsInferred
  {
    s.(inputs := s.inputs + values)
  }

  /** Index of the first target the inference did not return, if any. */
  function FirstMissing(goals: seq<string>, out: map<string, real>): (r: Option<nat>)
    ensures r.Some? ==> r.value < |goals| && goals[r.value] !in out
    ensures r.Some? ==> forall j :: 0 <= j < r.value ==> goals[j] in out
    ensures r.None? ==> forall j :: 0 <= j < |goals| ==> goals[j] in out
  {
    if |goals| == 0 then None
    else if goals[0] !in out then Some(0)
    else match FirstMissing(goals[1..], out)
      case None => None
      case Some(i) => Some(i + 1)
  }

  /** Writes the inferred value of each target, in order, into both the
      inputs and the inferred table; a target the inference did not return
      stops the run.  A target named twice is written twice with the same
      value, so the order of the writes does not matter. */
  function Record(s: State, goals: seq<string>, out: map<string, real>): (r: Result<State>)
    ensures r.Failure? <==> exists i :: 0 <= i < |goals| && goals[i] !in out
    ensures r.Failure? ==> exists i :: && 0 <= i < |goals| && goals[i] !in out
                                       && r.error == MissingOutput(goals[i])
                                       && forall j :: 0 <= j < i ==> goals[j] in out
    ensures r.Success? ==> && r.value.inputs.Keys == s.inputs.Keys + (set g | g in goals)
                           && r.value.goalsInferred.Keys == s.goalsInferred.Keys + (set g | g in goals)
    ensures r.Success? ==> forall g :: g in goals ==>
              g in out && r.value.inputs[g] == out[g] && r.value.goalsInferred[g] == out[g]
    ensures r.Success? ==> forall v :: v !in goals ==>
              && (v in s.inputs ==> r.value.inputs[v] == s.inputs[v])
              && (v in s.goalsInferred ==> r.value.goalsInferred[v] == s.goalsInferred[v])
  {
    match FirstMissing(goals, out)
    case Some(i) => Failure(MissingOutput(goals[i]))
    case None =>
      var written := map g | g in goals :: out[g];
      Success(State(s.inputs + written, s.goalsInferred + written))
  }

  /** `compute(layer)`: one inference call for the whole layer, whose
      outputs become inputs of later layers and are kept as inferred. */
  function Compute(s: State, layer: seq<string>, infer: Inference): (r: Result<State>)
    ensures r.Failure? <==> exists i :: 0 <= i < |layer| && layer[i] !in infer(s.inputs, layer)
    ensures r.Success? ==> forall g :: g in layer ==>
              && g in infer(s.inputs, layer)
              && g in r.value.goalsInferred
              && g in r.value.inputs
              && r.value.goalsInferred[g] == infer(s.inputs, layer)[g]
              && r.value.inputs[g] == infer(s.inputs, layer)[g]
    ensures r.Success? ==> r.value.goalsInferred.Keys == s.goalsInferred.Keys + (set g | g in layer)
    ensures r.Success? ==> forall v :: v !in layer ==>
              && (v in r.value.inputs <==> v in s.inputs)
              && (v in s.inputs ==> r.value.inputs[v] == s.inputs[v])
              && (v in r.value.goalsInferred <==> v in s.goalsInferred)
              && (v in s.goalsInferred ==> r.value.goalsInferred[v] == s.goalsInferred[v])
  {
    Record(s, layer, infer(s.inputs, layer))
  }

  /** Computes the layers in the order given. */
  function Run(s: State, layers: seq<seq<string>>, infer: Inference): Result<State>
    decreases |layers|
  {
    if |layers| == 0 then Success(s)
    else
      var next :- Compute(s, layers[0], infer);
      Run(next, layers[1..], infer)
  }

  /** A reasoning session: the layers of a reasoning order, farthest from the
      goal first, the goal layer last. */
  function Session(s: State, reasoningOrder: seq<seq<string>>, infer: Inference): Result<State> {
    Run(s, Reverse(reasoningOrder), infer)
  }

  // ---------------------------------------------------------------------
  // Properties of runs

  ghost predicate InSomeLayer(layers: seq<seq<string>>, v: string) {
    exists k :: 0 <= k < |layers| && v in layers[k]
  }

  /** The inferred table always agrees with the inputs. */
  ghost predicate Consistent(s: State) {
    forall v :: v in s.goalsInferred ==> v in s.inputs && s.inputs[v] == s.goalsInferred[v]
  }

  /** A run splits at any point into the run of the first part followed by
      the run of the rest. */
  lemma {:induction false} RunAppend(s: State, first: seq<seq<string>>, second: seq<seq<string>>, infer: Inference)
    ensures Run(s, first + second, infer)
         == match Run(s, first, infer)
            case Failure(e) => Failure(e)
            case Success(mid) => Run(mid, second, infer)
    decreases |first|
  {
    if |first| == 0 {
      assert first + second == second;
    } else {
      assert (first + second)[0] == first[0];
      assert (first + second)[1..] == first[1..] + second;
      match Compute(s, first[0], infer)
      case Failure(_) =>
      case Success(next) =>
        RunAppend(next, first[1..], second, infer);
    }
  }

  /** Running a single layer is one `compute(layer)` call: with `RunAppend`,
      each layer is computed from the state the layers before it left. */
  lemma RunSingle(s: State, layer: seq<string>, infer: Inference)
    ensures Run(s, [layer], infer) == Compute(s, layer, infer)
  {
    assert [layer][1..] == [];
  }

  /** The first layer of the reasoning order is computed last, from the
      state every other layer left; a failure there stops the session. */
  lemma SessionLast(s: State, reasoningOrder: seq<seq<string>>, infer: Inference)
    requires |reasoningOrder| > 0
    ensures Session(s, reasoningOrder, infer)
         == match Session(s, reasoningOrder[1..], infer)
            case Failure(e) => Failure(e)
            case Success(mid) => Compute(mid, reasoningOrder[0], infer)
  {
    var rest := Reverse(reasoningOrder[1..]);
    assert Reverse(reasoningOrder) == rest + [reasoningOrder[0]];
    RunAppend(s, rest, [reasoningOrder[0]], infer);
    match Run(s, rest, infer)
    case Failure(_) =>
    case Success(mid) => RunSingle(mid, reasoningOrder[0], infer);
  }

  /** After a successful run every variable of every layer has an inferred
      value, and a variable outside all layers keeps its input and its
      inferred value. */
  lemma {:induction false} RunCoversLayers(s: State, layers: seq<seq<string>>, infer: Inference)
    requires Run(s, layers, infer).Success?
    ensures forall k, v :: 0 <= k < |layers| && v in layers[k] ==> v in Run(s, layers, infer).value.goalsInferred
    ensures forall v :: !InSomeLayer(layers, v) ==>
              && (v in Run(s, layers, infer).value.inputs <==> v in s.inputs)
              && (v in s.inputs ==> Run(s, layers, infer).value.inputs[v] == s.inputs[v])
              && (v in Run(s, layers, infer).value.goalsInferred <==> v in s.goalsInferred)
    decreases |layers|
  {
    if |layers| > 0 {
      var next := Compute(s, layers[0], infer).value;
      RunCoversLayers(next, layers[1..], infer);
      var r := Run(s, layers, infer).value;
      assert r == Run(next, layers[1..], infer).value;
      forall k, v | 0 <= k < |layers| && v in layers[k] ensures v in r.goalsInferred {
        if k > 0 {
          assert layers[1..][k - 1] == layers[k];
        }
      }
      forall v | !InSomeLayer(layers, v)
        ensures && (v in r.inputs <==> v in s.inputs)
                && (v in s.inputs ==> r.inputs[v] == s.inputs[v])
                && (v in r.goalsInferred <==> v in s.goalsInferred)
      {
        assert v !in layers[0];
        forall k | 0 <= k < |layers[1..]| ensures v !in layers[1..][k] {
          assert layers[1..][k] == layers[k + 1];
        }
      }
    }
  }

  /** Computing keeps the inferred table in agreement with the inputs. */
  lemma {:induction false} RunKeepsConsistent(s: State, layers: seq<seq<string>>, infer: Inference)
    requires Consistent(s)
    requires Run(s, layers, infer).Success?
    ensures Consistent(Run(s, layers, infer).value)
    decreases |layers|
  {
    if |layers| > 0 {
      var next := Compute(s, layers[0], infer).value;
      assert Consistent(next);
      RunKeepsConsistent(next, layers[1..], infer);
    }
  }

  /** Driving `compute` over the reversed reasoning order computes the goal
      layer last: each goal ends up inferred, with the value the inference
      gave it from the inputs the earlier layers left behind. */
  lemma SessionInfersGoal(s: State, reasoningOrder: seq<seq<string>>, infer: Inference, goal: string)
    requires |reasoningOrder| > 0 && goal in reasoningOrder[0]
    requires Session(s, reasoningOrder, infer).Success?
    ensures Session(s, reasoningOrder[1..], infer).Success?
    ensures var before := Session(s, reasoningOrder[1..], infer).value;
            var after := Session(s, reasoningOrder, infer).value;
            && goal in after.goalsInferred
            && goal in infer(before.inputs, reasoningOrder[0])
            && after.goalsInferred[goal] == infer(before.inputs, reasoningOrder[0])[goal]
            && goal in after.inputs
            && after.inputs[goal] == after.goalsInferred[goal]
  {
    assert Reverse(reasoningOrder) == Reverse(reasoningOrder[1..]) + [reasoningOrder[0]];
    RunAppend(s, Reverse(reasoningOrder[1..]), [reasoningOrder[0]], infer);
    var before := Session(s, reasoningOrder[1..], infer);
    assert before.Success?;
    var after := Compute(before.value, reasoningOrder[0], infer);
    assert Run(before.value, [reasoningOrder[0]], infer) == after;
  }
}
