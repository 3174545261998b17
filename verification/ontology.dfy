/** The ontology view the rule code relies on: an individual is a name plus
    named properties, each holding a list of individuals.  A premise or a
    conclusion is an individual whose `hasLeftHand` names a variable and whose
    `hasRightHand` names a term; a rule header holds `hasPremise` and
    `hasConclusion`. */
module Ontology {
  import opened Wrappers

  datatype Entity = Entity(name: string, properties: seq<Property>)
  datatype Property = Property(name: string, values: seq<Entity>)

  /** A decoded premise or conclusion: `variable IS term`. */
  datatype Clause = Clause(variable: string, term: string)

  /** A decoded rule: its premises in order and all of its conclusions. */
  datatype Rule = Rule(name: string, premises: seq<Clause>, conclusions: seq<Clause>)

  const LeftHand := "hasLeftHand"
  const RightHand := "hasRightHand"
  const HasPremise := "hasPremise"
  const HasConclusion := "hasConclusion"

  /** Index of the first property called `p`, if any. */
  function FirstProperty(ps: seq<Property>, p: string): (r: Option<nat>)
    ensures r.Some? ==> r.value < |ps| && ps[r.value].name == p
    ensures r.Some? ==> forall j :: 0 <= j < r.value ==> ps[j].name != p
    ensures r.None? ==> forall j :: 0 <= j < |ps| ==> ps[j].name != p
  {
    if |ps| == 0 then None
    else if ps[0].name == p then Some(0)
    else match FirstProperty(ps[1..], p)
      case None => None
      case Some(i) => Some(i + 1)
  }

  /** The values of the first property of `e` called `p`; failing when there is none. */
  function PropertyValues(e: Entity, p: string): (r: Result<seq<Entity>>)
    ensures r.Failure? <==> forall j :: 0 <= j < |e.properties| ==> e.properties[j].name != p
    ensures r.Failure? ==> r.error == NoSuchProperty(e.name, p)
    ensures r.Success? ==> exists i :: 0 <= i < |e.properties| && e.properties[i].name == p
                                     && r.value == e.properties[i].values
                                     && forall j :: 0 <= j < i ==> e.properties[j].name != p
  {
    match FirstProperty(e.properties, p)
    case None => Failure(NoSuchProperty(e.name, p))
    case Some(i) => Success(e.properties[i].values)
  }

  /** The first value of the first property `p` of `e`. */
  function FirstValue(e: Entity, p: string): (r: Result<Entity>)
    ensures r.Success? <==> PropertyValues(e, p).Success? && |PropertyValues(e, p).value| > 0
    ensures r.Success? ==> r.value == PropertyValues(e, p).value[0]
  {
    var vs :- PropertyValues(e, p);
    if |vs| == 0 then Failure(NoValue(e.name, p)) else Success(vs[0])
  }

  /** The left and right hands of a premise or conclusion: the first value of
      each property.  Both lists are looked up before either is indexed. */
  function LeftRightHands(e: Entity): (r: Result<(Entity, Entity)>)
    ensures r.Success? <==> FirstValue(e, LeftHand).Success? && FirstValue(e, RightHand).Success?
    ensures r.Success? ==> && r.value.0 == PropertyValues(e, LeftHand).value[0]
                           && r.value.1 == PropertyValues(e, RightHand).value[0]
  {
    var left :- PropertyValues(e, LeftHand);
    var right :- PropertyValues(e, RightHand);
    if |left| == 0 then Failure(NoValue(e.name, LeftHand))
    else if |right| == 0 then Failure(NoValue(e.name, RightHand))
    else Success((left[0], right[0]))
  }

  /** The clause a premise or conclusion stands for: the names of its hands. */
  function Decode(e: Entity): (r: Result<Clause>)
    ensures r.Success? <==> LeftRightHands(e).Success?
    ensures r.Success? ==> r.value == Clause(LeftRightHands(e).value.0.name, LeftRightHands(e).value.1.name)
  {
    var (left, right) :- LeftRightHands(e);
    Success(Clause(left.name, right.name))
  }

  /** Decodes every individual in order; fails with the first failure. */
  function DecodeAll(es: seq<Entity>): Result<seq<Clause>> {
    MapAll(Decode, es)
  }

  /** The premise individuals of a rule header. */
  function Premises(rule: Entity): (r: Result<seq<Entity>>)
    ensures r.Failure? <==> forall j :: 0 <= j < |rule.properties| ==> rule.properties[j].name != HasPremise
    ensures r.Success? ==> exists i :: && 0 <= i < |rule.properties| && rule.properties[i].name == HasPremise
                                       && r.value == rule.properties[i].values
                                       && forall j :: 0 <= j < i ==> rule.properties[j].name != HasPremise
  {
    PropertyValues(rule, HasPremise)
  }

  /** The conclusion individuals of a rule header. */
  function Conclusions(rule: Entity): (r: Result<seq<Entity>>)
    ensures r.Failure? <==> forall j :: 0 <= j < |rule.properties| ==> rule.properties[j].name != HasConclusion
    ensures r.Success? ==> exists i :: && 0 <= i < |rule.properties| && rule.properties[i].name == HasConclusion
                                       && r.value == rule.properties[i].values
                                       && forall j :: 0 <= j < i ==> rule.properties[j].name != HasConclusion
  {
    PropertyValues(rule, HasConclusion)
  }

  /** A rule header with every premise and every conclusion decoded. */
  function DecodeRule(rule: Entity): (r: Result<Rule>)
    ensures r.Success? <==> && Premises(rule).Success? && Conclusions(rule).Success?
                            && (forall i :: 0 <= i < |Premises(rule).value| ==> Decode(Premises(rule).value[i]).Success?)
                            && (forall i :: 0 <= i < |Conclusions(rule).value| ==> Decode(Conclusions(rule).value[i]).Success?)
    ensures r.Success? ==> && r.value.name == rule.name
                           && |r.value.premises| == |Premises(rule).value|
                           && |r.value.conclusions| == |Conclusions(rule).value|
                           && (forall i :: 0 <= i < |r.value.premises| ==> Decode(Premises(rule).value[i]) == Success(r.value.premises[i]))
                           && (forall i :: 0 <= i < |r.value.conclusions| ==> Decode(Conclusions(rule).value[i]) == Success(r.value.conclusions[i]))
  {
    var premises :- Premises(rule);
    var conclusions :- Conclusions(rule);
    var ps :- DecodeAll(premises);
    var cs :- DecodeAll(conclusions);
    Success(Rule(rule.name, ps, cs))
  }

  /** Decodes every rule header in order; fails with the first failure. */
  function DecodeRules(rules: seq<Entity>): (r: Result<seq<Rule>>)
    ensures r.Success? <==> forall i :: 0 <= i < |rules| ==> DecodeRule(rules[i]).Success?
    ensures r.Success? ==> && |r.value| == |rules|
                           && forall i :: 0 <= i < |rules| ==> DecodeRule(rules[i]) == Success(r.value[i])
    ensures r.Failure? ==> exists i :: 0 <= i < |rules| && DecodeRule(rules[i]) == Failure(r.error)
  {
    MapAll(DecodeRule, rules)
  }
}
