/** The scikit-fuzzy adapter: which variables become antecedents and
    consequents, how rules are projected onto them, how the simulator's
    inputs are seeded, and how one layer's outputs are written back.  The
    control-system simulation is a parameter: any function from the current
    inputs to a map of crisp outputs. */
module Scikit {
  import opened Wrappers
  import opened Ontology
  import opened Spaces

  /** An antecedent or consequent: its name, its universe and its
      automatically generated terms, one per term name in order. */
  datatype FuzzyVariable = FuzzyVariable(name: string, universe: seq<real>, terms: seq<string>)

  /** A projected rule: the conjunction of its surviving conditions and one consequent. */
  datatype SkRule = SkRule(conditions: seq<Clause>, consequent: Clause)

  /** What the constructor builds. */
  datatype Wrapper = Wrapper(
    universe: seq<real>,
    antecedents: map<string, FuzzyVariable>,
    consequents: map<string, FuzzyVariable>,
    rules: seq<SkRule>)

  /** Per-run state: the simulator's inputs and its latest outputs. */
  datatype State = State(inputs: map<string, real>, output: map<string, real>)

  /** The control-system simulation: from current inputs to crisp outputs. */
  type Simulation = map<string, real> -> map<string, real>

  function Variables(spaces: seq<Space>): set<string> {
    set i | 0 <= i < |spaces| :: spaces[i].variable
  }

  // ---------------------------------------------------------------------
  // Antecedents and consequents

  /** Walks the spaces and creates a variable for every wanted name, with
      the term count and names of its space.  The source also skips a name
      already created; the spaces' variables are distinct keys, so that
      never happens. */
  function Select(spaces: seq<Space>, wanted: set<string>, universe: seq<real>): (r: map<string, FuzzyVariable>)
    requires WellKeyed(spaces)
    ensures r.Keys == Variables(spaces) * wanted
    ensures forall i :: 0 <= i < |spaces| && spaces[i].variable in wanted ==>
              r[spaces[i].variable] == FuzzyVariable(spaces[i].variable, universe, spaces[i].terms)
  {
    map i | 0 <= i < |spaces| && spaces[i].variable in wanted
      :: spaces[i].variable := FuzzyVariable(spaces[i].variable, universe, spaces[i].terms)
  }

  /** `make_antecedents`: every variable except the goal. */
  function MakeAntecedents(spaces: seq<Space>, goal: string, universe: seq<real>): (r: map<string, FuzzyVariable>)
    requires WellKeyed(spaces)
    ensures r.Keys == Variables(spaces) - {goal}
    ensures forall i :: 0 <= i < |spaces| && spaces[i].variable != goal ==>
              && r[spaces[i].variable].name == spaces[i].variable
              && r[spaces[i].variable].terms == spaces[i].terms
              && r[spaces[i].variable].universe == universe
  {
    Select(spaces, Variables(spaces) - {goal}, universe)
  }

  /** The left-hand variable of every conclusion of every rule. */
  function ConclusionVariables(rules: seq<Rule>): set<string> {
    set i, j | 0 <= i < |rules| && 0 <= j < |rules[i].conclusions| :: rules[i].conclusions[j].variable
  }

  /** The variables concluded by several rules are those of each, as the
      loop over the rules adds them to one set. */
  lemma ConclusionVariablesAppend(first: seq<Rule>, second: seq<Rule>)
    ensures ConclusionVariables(first + second) == ConclusionVariables(first) + ConclusionVariables(second)
  {
    var rs := first + second;
    assert forall k :: 0 <= k < |first| ==> rs[k] == first[k];
    assert forall k :: 0 <= k < |second| ==> rs[|first| + k] == second[k];
  }

  /** A single rule concludes the left hands of all of its conclusions. */
  lemma ConclusionVariablesSingle(rule: Rule)
    ensures ConclusionVariables([rule]) == set j | 0 <= j < |rule.conclusions| :: rule.conclusions[j].variable
  {
    assert [rule][0] == rule;
  }

  /** `make_consequents`: exactly the variables some rule concludes. */
  function MakeConsequents(rules: seq<Rule>, spaces: seq<Space>, universe: seq<real>): (r: map<string, FuzzyVariable>)
    requires WellKeyed(spaces)
    ensures r.Keys == Variables(spaces) * ConclusionVariables(rules)
    ensures forall i :: 0 <= i < |spaces| && spaces[i].variable in ConclusionVariables(rules) ==>
              && r[spaces[i].variable].name == spaces[i].variable
              && r[spaces[i].variable].terms == spaces[i].terms
              && r[spaces[i].variable].universe == universe
  {
    Select(spaces, ConclusionVariables(rules), universe)
  }

  /** A concluded variable other than the goal is both an antecedent and a
      consequent, so it can be computed in one layer and read in a later one. */
  lemma ConcludedIntermediateIsBoth(spaces: seq<Space>, goal: string, universe: seq<real>,
                                    rules: seq<Rule>, i: nat, j: nat)
    requires WellKeyed(spaces)
    requires i < |rules| && j < |rules[i].conclusions|
    requires rules[i].conclusions[j].variable in Variables(spaces)
    requires rules[i].conclusions[j].variable != goal
    ensures rules[i].conclusions[j].variable in MakeAntecedents(spaces, goal, universe)
    ensures rules[i].conclusions[j].variable in MakeConsequents(rules, spaces, universe)
  {
    assert rules[i].conclusions[j].variable in ConclusionVariables(rules);
  }

  // ---------------------------------------------------------------------
  // Rule projection

  /** One premise of `_make_rules`' inner loop: kept when its variable is an
      antecedent, refused when that antecedent lacks its term. */
  function Keeper(antecedents: map<string, FuzzyVariable>): Clause -> Result<Option<Clause>> {
    (p: Clause) => if p.variable !in antecedents then Success(None)
                   else if p.term !in antecedents[p.variable].terms then Failure(UnknownTerm(p.variable, p.term))
                   else Success(Some(p))
  }

  /** The premises whose variable is an antecedent, in order; a kept premise
      whose term the antecedent lacks is refused. */
  function Conditions(premises: seq<Clause>, antecedents: map<string, FuzzyVariable>): (r: Result<seq<Clause>>)
    ensures r.Failure? <==> exists i :: 0 <= i < |premises| && premises[i].variable in antecedents
                                         && premises[i].term !in antecedents[premises[i].variable].terms
    ensures r.Success? ==> |r.value| <= |premises|
    ensures r.Success? ==> (|r.value| == 0 <==> forall i :: 0 <= i < |premises| ==> premises[i].variable !in antecedents)
  {
    FilterMap(Keeper(antecedents), premises)
  }

  /** The kept premises are exactly those on antecedents. */
  lemma ConditionsMembers(premises: seq<Clause>, antecedents: map<string, FuzzyVariable>)
    requires Conditions(premises, antecedents).Success?
    ensures forall c :: c in Conditions(premises, antecedents).value <==> c in premises && c.variable in antecedents
  {
    var kept := Conditions(premises, antecedents).value;
    forall c | c in kept ensures c in premises && c.variable in antecedents {
      var k :| 0 <= k < |kept| && kept[k] == c;
      FilterMapFrom(Keeper(antecedents), premises, k);
    }
    forall c | c in premises && c.variable in antecedents ensures c in kept {
      var i :| 0 <= i < |premises| && premises[i] == c;
      FilterMapHas(Keeper(antecedents), premises, i);
    }
  }

  /** Projection keeps premise order: projecting two runs of premises is
      projecting each and concatenating. */
  lemma ConditionsAppend(first: seq<Clause>, second: seq<Clause>, antecedents: map<string, FuzzyVariable>)
    requires Conditions(first + second, antecedents).Success?
    ensures Conditions(first, antecedents).Success? && Conditions(second, antecedents).Success?
    ensures Conditions(first + second, antecedents).value
         == Conditions(first, antecedents).value + Conditions(second, antecedents).value
  {
    FilterMapAppend(Keeper(antecedents), first, second);
  }

  /** One rule of `_make_rules`: its conditions, then its first conclusion if
      any; a rule yields nothing when that conclusion is not a consequent or
      no premise survived. */
  function ProjectRule(rule: Rule, antecedents: map<string, FuzzyVariable>,
                       consequents: map<string, FuzzyVariable>): (r: Result<Option<SkRule>>)
    ensures r.Failure? <==> || Conditions(rule.premises, antecedents).Failure?
                            || (&& |rule.conclusions| > 0
                                && rule.conclusions[0].variable in consequents
                                && rule.conclusions[0].term !in consequents[rule.conclusions[0].variable].terms)
    ensures r.Success? && r.value.Some? ==> r.value.value.conditions == Conditions(rule.premises, antecedents).value
    ensures r.Success? && r.value.Some? ==>
              && |rule.conclusions| > 0
              && r.value.value.consequent == rule.conclusions[0]
              && r.value.value.consequent.variable in consequents
              && r.value.value.consequent.term in consequents[rule.conclusions[0].variable].terms
              && |r.value.value.conditions| > 0
              && forall c :: c in r.value.value.conditions <==> c in rule.premises && c.variable in antecedents
    ensures r.Success? ==> (r.value.Some? <==>
              && |rule.conclusions| > 0
              && rule.conclusions[0].variable in consequents
              && exists i :: 0 <= i < |rule.premises| && rule.premises[i].variable in antecedents)
  {
    var conditions :- Conditions(rule.premises, antecedents);
    ConditionsMembers(rule.premises, antecedents);
    if |rule.conclusions| == 0 then Success(None)
    else
      var c := rule.conclusions[0];
      if c.variable !in consequents then Success(None)
      else if c.term !in consequents[c.variable].terms then Failure(UnknownTerm(c.variable, c.term))
      else if |conditions| == 0 then Success(None)
      else Success(Some(SkRule(conditions, c)))
  }

  /** A projected rule: non-empty conditions on antecedents, a consequent on a consequent. */
  ghost predicate WellFormed(r: SkRule, antecedents: map<string, FuzzyVariable>, consequents: map<string, FuzzyVariable>) {
    && |r.conditions| > 0
    && (forall c :: c in r.conditions ==> c.variable in antecedents && c.term in antecedents[c.variable].terms)
    && r.consequent.variable in consequents
    && r.consequent.term in consequents[r.consequent.variable].terms
  }

  /** The projection of one rule against fixed antecedents and consequents. */
  function Projector(antecedents: map<string, FuzzyVariable>, consequents: map<string, FuzzyVariable>)
    : Rule -> Result<Option<SkRule>>
  {
    rule => ProjectRule(rule, antecedents, consequents)
  }

  /** `_make_rules`: the projections that yield a rule, in input order. */
  function MakeRules(rules: seq<Rule>, antecedents: map<string, FuzzyVariable>,
                     consequents: map<string, FuzzyVariable>): (r: Result<seq<SkRule>>)
    ensures r.Success? <==> forall i :: 0 <= i < |rules| ==> ProjectRule(rules[i], antecedents, consequents).Success?
    ensures r.Success? ==> |r.value| <= |rules|
  {
    FilterMap(Projector(antecedents, consequents), rules)
  }

  /** A rule that projection emits is well formed. */
  lemma ProjectedWellFormed(rule: Rule, antecedents: map<string, FuzzyVariable>,
                            consequents: map<string, FuzzyVariable>, sk: SkRule)
    requires ProjectRule(rule, antecedents, consequents) == Success(Some(sk))
    ensures WellFormed(sk, antecedents, consequents)
  {
    forall c | c in sk.conditions ensures c.variable in antecedents && c.term in antecedents[c.variable].terms {
      var j :| 0 <= j < |rule.premises| && rule.premises[j] == c;
    }
  }

  /** Every emitted rule is well formed: non-empty conditions on
      antecedents with known terms, and a consequent with a known term. */
  lemma MakeRulesWellFormed(rules: seq<Rule>, antecedents: map<string, FuzzyVariable>,
                            consequents: map<string, FuzzyVariable>)
    requires MakeRules(rules, antecedents, consequents).Success?
    ensures forall k :: 0 <= k < |MakeRules(rules, antecedents, consequents).value| ==>
              WellFormed(MakeRules(rules, antecedents, consequents).value[k], antecedents, consequents)
  {
    var emitted := MakeRules(rules, antecedents, consequents).value;
    forall k | 0 <= k < |emitted| ensures WellFormed(emitted[k], antecedents, consequents) {
      FilterMapFrom(Projector(antecedents, consequents), rules, k);
      var i :| 0 <= i < |rules| && Projector(antecedents, consequents)(rules[i]) == Success(Some(emitted[k]));
      ProjectedWellFormed(rules[i], antecedents, consequents, emitted[k]);
    }
  }

  /** Projection follows input order: the rules of two runs of input rules
      are those of the first run followed by those of the second. */
  lemma MakeRulesAppend(first: seq<Rule>, second: seq<Rule>,
                        antecedents: map<string, FuzzyVariable>,
                        consequents: map<string, FuzzyVariable>)
    requires MakeRules(first + second, antecedents, consequents).Success?
    ensures MakeRules(first, antecedents, consequents).Success?
    ensures MakeRules(second, antecedents, consequents).Success?
    ensures MakeRules(first + second, antecedents, consequents).value
         == MakeRules(first, antecedents, consequents).value + MakeRules(second, antecedents, consequents).value
  {
    FilterMapAppend(Projector(antecedents, consequents), first, second);
  }

  /** One input rule yields its projection's rule, nothing, or its error;
      with `MakeRulesAppend` this fixes which rules are emitted and in what
      order. */
  lemma MakeRulesSingle(rule: Rule, antecedents: map<string, FuzzyVariable>,
                        consequents: map<string, FuzzyVariable>)
    ensures ProjectRule(rule, antecedents, consequents).Failure? ==>
              MakeRules([rule], antecedents, consequents) == Failure(ProjectRule(rule, antecedents, consequents).error)
    ensures ProjectRule(rule, antecedents, consequents) == Success(None) ==>
              MakeRules([rule], antecedents, consequents) == Success([])
    ensures ProjectRule(rule, antecedents, consequents).Success? && ProjectRule(rule, antecedents, consequents).value.Some? ==>
              MakeRules([rule], antecedents, consequents) == Success([ProjectRule(rule, antecedents, consequents).value.value])
  {
    FilterMapSingle(Projector(antecedents, consequents), rule);
  }

  /** The constructor: decode the rule headers, build the antecedents and
      consequents, project the rules. */
  function Configure(spaces: seq<Space>, goal: string, universe: seq<real>, rules: seq<Entity>): (r: Result<Wrapper>)
    requires WellKeyed(spaces)
    ensures DecodeRules(rules).Failure? ==> r.Failure?
    ensures DecodeRules(rules).Success? ==>
              (r.Success? <==> forall i :: 0 <= i < |rules| ==>
                 ProjectRule(DecodeRules(rules).value[i], MakeAntecedents(spaces, goal, universe),
                             MakeConsequents(DecodeRules(rules).value, spaces, universe)).Success?)
    ensures r.Success? ==> && r.value.universe == universe
                           && r.value.antecedents == MakeAntecedents(spaces, goal, universe)
                           && r.value.consequents == MakeConsequents(DecodeRules(rules).value, spaces, universe)
                           && r.value.rules == MakeRules(DecodeRules(rules).value, r.value.antecedents, r.value.consequents).value
    ensures r.Success? ==> && r.value.antecedents.Keys == Variables(spaces) - {goal}
                           && r.value.consequents.Keys == Variables(spaces) * ConclusionVariables(DecodeRules(rules).value)
                           && |r.value.rules| <= |rules|
                           && forall k :: 0 <= k < |r.value.rules| ==>
                                WellFormed(r.value.rules[k], r.value.antecedents, r.value.consequents)
  {
    var decoded :- DecodeRules(rules);
    var antecedents := MakeAntecedents(spaces, goal, universe);
    var consequents := MakeConsequents(decoded, spaces, universe);
    var projected :- MakeRules(decoded, antecedents, consequents);
    MakeRulesWellFormed(decoded, antecedents, consequents);
    Success(Wrapper(universe, antecedents, consequents, projected))
  }

  // ---------------------------------------------------------------------
  // Running

  /** The simulator's inputs: the antecedents the projected rules read. */
  function SimInputs(w: Wrapper): set<string> {
    set k, c | 0 <= k < |w.rules| && c in w.rules[k].conditions :: c.variable
  }

  /** The inputs of several rules are those of each: the simulator gathers
      its inputs rule by rule. */
  lemma SimInputsAppend(w: Wrapper, first: seq<SkRule>, second: seq<SkRule>)
    ensures SimInputs(w.(rules := first + second)) == SimInputs(w.(rules := first)) + SimInputs(w.(rules := second))
  {
    var rs := first + second;
    assert forall k :: 0 <= k < |first| ==> rs[k] == first[k];
    assert forall k :: 0 <= k < |second| ==> rs[|first| + k] == second[k];
  }

  /** A single rule's inputs are the variables of its conditions. */
  lemma SimInputsSingle(w: Wrapper, sk: SkRule)
    ensures SimInputs(w.(rules := [sk])) == set c | c in sk.conditions :: c.variable
  {
    assert [sk][0] == sk;
  }

  lemma SimInputsAreAntecedents(w: Wrapper)
    requires forall k :: 0 <= k < |w.rules| ==> WellFormed(w.rules[k], w.antecedents, w.consequents)
    ensures SimInputs(w) <= w.antecedents.Keys
  {
  }

  /** `set_start_values`: every simulator input gets the supplied value or,
      failing that, half the distance between the first two universe points;
      supplied names that are not inputs are ignored. */
  function SetStartValues(w: Wrapper, s: State, values: map<string, real>): (r: Result<State>)
    ensures r.Failure? <==> |w.universe| < 2 && exists v :: v in SimInputs(w) && v !in values
    ensures r.Success? ==> r.value.inputs.Keys == s.inputs.Keys + SimInputs(w)
    ensures r.Success? ==> forall v :: v in SimInputs(w) && v in values ==> r.value.inputs[v] == values[v]
    ensures r.Success? ==> forall v :: v in SimInputs(w) && v !in values ==>
              r.value.inputs[v] == (w.universe[1] - w.universe[0]) / 2.0
    ensures r.Success? ==> forall v :: v !in SimInputs(w) && v in s.inputs ==> r.value.inputs[v] == s.inputs[v]
    ensures r.Success? ==> r.value.output == s.output
  {
    var inputs := SimInputs(w);
    if |w.universe| < 2 && exists v :: v in inputs && v !in values then Failure(ShortUniverse)
    else
      var fallback := if |w.universe| < 2 then 0.0 else (w.universe[1] - w.universe[0]) / 2.0;
      Success(s.(inputs := s.inputs + map v | v in inputs :: if v in values then values[v] else fallback))
  }

  /** `compute(layer)`: one simulation over the current inputs; each layer
      variable that the simulation output and that is an antecedent is fed
      back as an input.  Nothing else changes. */
  function Layer(w: Wrapper, s: State, layer: seq<string>, simulate: Simulation): (r: State)
    ensures r.output == simulate(s.inputs)
    ensures forall v :: v in layer && v in r.output && v in w.antecedents ==>
              v in r.inputs && r.inputs[v] == r.output[v]
    ensures forall v :: v in r.inputs ==> v in s.inputs || (v in layer && v in r.output && v in w.antecedents)
    ensures forall v :: v in s.inputs && !(v in layer && v in r.output && v in w.antecedents) ==>
              v in r.inputs && r.inputs[v] == s.inputs[v]
  {
    var output := simulate(s.inputs);
    State(s.inputs + map v | v in layer && v in output && v in w.antecedents :: output[v], output)
  }

  /** The write-back loop of `compute(layer)`, one layer variable at a time,
      ends in the state `Layer` describes. */
  method Compute(w: Wrapper, s: State, layer: seq<string>, simulate: Simulation) returns (r: State)
    ensures r == Layer(w, s, layer, simulate)
  {
    var output := simulate(s.inputs);
    var inputs := s.inputs;
    var i := 0;
    while i < |layer|
      invariant 0 <= i <= |layer|
      invariant forall v :: v in layer[..i] && v in output && v in w.antecedents ==>
                  v in inputs && inputs[v] == output[v]
      invariant forall v :: v in inputs ==> v in s.inputs || (v in layer[..i] && v in output && v in w.antecedents)
      invariant forall v :: v in s.inputs && !(v in layer[..i] && v in output && v in w.antecedents) ==>
                  v in inputs && inputs[v] == s.inputs[v]
    {
      var v := layer[i];
      if v in output && v in w.antecedents {
        inputs := inputs[v := output[v]];
      }
      assert layer[..i + 1] == layer[..i] + [v];
      i := i + 1;
    }
    assert layer[..i] == layer;
    r := State(inputs, output);
    SameState(r, Layer(w, s, layer, simulate));
  }

  /** Two states with the same input and output entries are the same state. */
  lemma SameState(a: State, b: State)
    requires a.output == b.output
    requires forall v :: v in a.inputs <==> v in b.inputs
    requires forall v :: v in a.inputs ==> a.inputs[v] == b.inputs[v]
    ensures a == b
  {
  }

  /** Computes the layers in the order given, each from the state the
      previous one left. */
  function Run(w: Wrapper, s: State, layers: seq<seq<string>>, simulate: Simulation): (r: State)
    decreases |layers|
    ensures forall v :: v in s.inputs && (forall k :: 0 <= k < |layers| ==> v !in layers[k]) ==>
              v in r.inputs && r.inputs[v] == s.inputs[v]
    ensures forall v :: v in r.inputs ==> v in s.inputs || exists k :: 0 <= k < |layers| && v in layers[k]
  {
    if |layers| == 0 then s
    else
      assert forall k :: 1 <= k < |layers| ==> layers[k] == layers[1..][k - 1];
      Run(w, Layer(w, s, layers[0], simulate), layers[1..], simulate)
  }

  /** Running two runs of layers is running the first and then the second
      from the state it left: outputs are fed forward. */
  lemma {:induction false} RunAppend(w: Wrapper, s: State, first: seq<seq<string>>, second: seq<seq<string>>,
                                     simulate: Simulation)
    ensures Run(w, s, first + second, simulate) == Run(w, Run(w, s, first, simulate), second, simulate)
    decreases |first|
  {
    if |first| == 0 {
      assert first + second == second;
    } else {
      assert (first + second)[0] == first[0];
      assert (first + second)[1..] == first[1..] + second;
      RunAppend(w, Layer(w, s, first[0], simulate), first[1..], second, simulate);
    }
  }

  /** Running a single layer is computing it: with `RunAppend`, each layer
      is computed from the inputs the layers before it wrote back. */
  lemma RunSingle(w: Wrapper, s: State, layer: seq<string>, simulate: Simulation)
    ensures Run(w, s, [layer], simulate) == Layer(w, s, layer, simulate)
  {
    assert [layer][1..] == [];
  }

  /** After a non-empty run the output is the last layer's simulation of the
      inputs the earlier layers left. */
  lemma RunOutput(w: Wrapper, s: State, layers: seq<seq<string>>, simulate: Simulation)
    requires |layers| > 0
    ensures Run(w, s, layers, simulate).output == simulate(Run(w, s, layers[..|layers| - 1], simulate).inputs)
  {
    var prefix := layers[..|layers| - 1];
    assert layers == prefix + [layers[|layers| - 1]];
    RunAppend(w, s, prefix, [layers[|layers| - 1]], simulate);
    var before := Run(w, s, prefix, simulate);
    assert Run(w, before, [layers[|layers| - 1]], simulate) == Run(w, Layer(w, before, layers[|layers| - 1], simulate), [], simulate);
  }

  /** The reasoning session: the layers of a reasoning order in reverse. */
  function Session(w: Wrapper, s: State, reasoningOrder: seq<seq<string>>, simulate: Simulation): (r: State)
    ensures forall v :: v in s.inputs && (forall k :: 0 <= k < |reasoningOrder| ==> v !in reasoningOrder[k]) ==>
              v in r.inputs && r.inputs[v] == s.inputs[v]
  {
    var order := Reverse(reasoningOrder);
    assert forall k :: 0 <= k < |order| ==> order[k] == reasoningOrder[|reasoningOrder| - 1 - k];
    Run(w, s, order, simulate)
  }

  /** The first layer of the reasoning order is computed last, from the
      state every other layer left. */
  lemma SessionLast(w: Wrapper, s: State, reasoningOrder: seq<seq<string>>, simulate: Simulation)
    requires |reasoningOrder| > 0
    ensures Session(w, s, reasoningOrder, simulate)
         == Layer(w, Session(w, s, reasoningOrder[1..], simulate), reasoningOrder[0], simulate)
  {
    var rest := Reverse(reasoningOrder[1..]);
    assert Reverse(reasoningOrder) == rest + [reasoningOrder[0]];
    RunAppend(w, s, rest, [reasoningOrder[0]], simulate);
    RunSingle(w, Run(w, s, rest, simulate), reasoningOrder[0], simulate);
  }

  /** The session's output, which the test reads, is the simulation over the
      inputs left by every layer but the first of the reasoning order, which
      runs last. */
  lemma SessionOutput(w: Wrapper, s: State, reasoningOrder: seq<seq<string>>, simulate: Simulation)
    requires |reasoningOrder| > 0
    ensures Session(w, s, reasoningOrder, simulate).output
         == simulate(Session(w, s, reasoningOrder[1..], simulate).inputs)
  {
    var order := Reverse(reasoningOrder);
    assert order[..|order| - 1] == Reverse(reasoningOrder[1..]);
    RunOutput(w, s, order, simulate);
  }

  // ---------------------------------------------------------------------
  // The test configuration's default

  /** `numpy.arange(0, 40, 1)`. */
  function Arange40(): (u: seq<real>)
    ensures |u| == 40 && forall i :: 0 <= i < 40 ==> u[i] == i as real
  {
    seq(40, i => i as real)
  }

  /** Over the universe 0, 1, ..., 39 an unsupplied input starts at 0.5, half
      the first step. */
  lemma DefaultIsHalfFirstStep(w: Wrapper, s: State, v: string)
    requires w.universe == Arange40()
    requires v in SimInputs(w)
    ensures SetStartValues(w, s, map[]).Success?
    ensures SetStartValues(w, s, map[]).value.inputs[v] == 0.5
  {
  }
}
