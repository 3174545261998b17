/** The textual rule form handed to the Simpful engine:
      IF (v1 IS t1) AND (v2 IS t2) THEN (v IS t);
    together with a parser for that form, which serves as the renderer's
    inverse whenever names hold no blank and no parenthesis. */
module RuleText {
  import opened Wrappers
  import opened Ontology

  const And := " AND "
  const Then := " THEN "

  /** One premise or conclusion as text: `(variable IS term)`. */
  function ClauseText(c: Clause): string {
    "(" + c.variable + " IS " + c.term + ")"
  }

  function ClauseTexts(cs: seq<Clause>): (r: seq<string>)
    ensures |r| == |cs|
    ensures forall i :: 0 <= i < |cs| ==> r[i] == ClauseText(cs[i])
  {
    if |cs| == 0 then [] else [ClauseText(cs[0])] + ClauseTexts(cs[1..])
  }

  /** `sep.join(parts)`: the parts in order with `sep` between neighbours. */
  function Join(parts: seq<string>, sep: string): string
  {
    if |parts| == 0 then ""
    else if |parts| == 1 then parts[0]
    else parts[0] + sep + Join(parts[1..], sep)
  }

  /** The rule text for decoded premises and one conclusion. */
  function RenderRule(premises: seq<Clause>, conclusion: Clause): string {
    "IF " + Join(ClauseTexts(premises), And) + Then + ClauseText(conclusion) + ";"
  }

  /** `_build_rule_from_premises`: decodes the premises in order, then the
      first conclusion, and renders them; later conclusions are never read. */
  function BuildRule(premises: seq<Entity>, conclusions: seq<Entity>): (r: Result<string>)
    ensures r.Success? <==> && DecodeAll(premises).Success?
                            && |conclusions| > 0
                            && Decode(conclusions[0]).Success?
    ensures DecodeAll(premises).Success? && |conclusions| == 0 ==> r == Failure(NoConclusion)
    ensures DecodeAll(premises).Failure? ==> r == Failure(DecodeAll(premises).error)
    ensures r.Success? ==> r.value == RenderRule(DecodeAll(premises).value, Decode(conclusions[0]).value)
  {
    var clauses :- DecodeAll(premises);
    if |conclusions| == 0 then Failure(NoConclusion)
    else
      var c :- Decode(conclusions[0]);
      Success(RenderRule(clauses, c))
  }

  /** `rule_to_string`: the text of a rule header. */
  function RuleToString(rule: Entity): (r: Result<string>)
    ensures r.Success? <==> && Premises(rule).Success? && Conclusions(rule).Success?
                            && BuildRule(Premises(rule).value, Conclusions(rule).value).Success?
    ensures Premises(rule).Failure? ==> r == Failure(NoSuchProperty(rule.name, HasPremise))
    ensures r.Success? ==> r.value == BuildRule(Premises(rule).value, Conclusions(rule).value).value
  {
    var premises :- Premises(rule);
    var conclusions :- Conclusions(rule);
    BuildRule(premises, conclusions)
  }

  // ---------------------------------------------------------------------
  // Shape of the text

  function TotalLength(parts: seq<string>): nat {
    if |parts| == 0 then 0 else |parts[0]| + TotalLength(parts[1..])
  }

  /** The joined text's length is the parts' total plus n - 1 separators. */
  lemma {:induction false} JoinLength(parts: seq<string>, sep: string)
    requires |parts| > 0
    ensures |Join(parts, sep)| == TotalLength(parts) + (|parts| - 1) * |sep|
  {
    if |parts| > 1 {
      JoinLength(parts[1..], sep);
    }
  }

  /** Appending a part appends the separator and that part: the text is the
      parts in order with `sep` between neighbours and nothing else. */
  lemma {:induction false} JoinSnoc(parts: seq<string>, p: string, sep: string)
    requires |parts| > 0
    ensures Join(parts + [p], sep) == Join(parts, sep) + sep + p
    decreases |parts|
  {
    var all := parts + [p];
    assert all[0] == parts[0];
    assert all[1..] == parts[1..] + [p];
    if |parts| > 1 {
      JoinSnoc(parts[1..], p, sep);
    }
  }

  /** The rule text is the premise clauses, in order, between "IF " and the
      conclusion clause; the separators add five characters per premise beyond
      the first, and zero premises leave "IF  THEN". */
  lemma RenderRuleLength(premises: seq<Clause>, conclusion: Clause)
    ensures |premises| > 0 ==>
      |RenderRule(premises, conclusion)|
        == 3 + TotalLength(ClauseTexts(premises)) + 5 * (|premises| - 1) + 6 + |ClauseText(conclusion)| + 1
    ensures |premises| == 0 ==> RenderRule(premises, conclusion) == "IF  THEN " + ClauseText(conclusion) + ";"
  {
    if |premises| > 0 {
      JoinLength(ClauseTexts(premises), And);
    }
  }

  /** Only the first conclusion reaches the text. */
  lemma ExtraConclusionsIgnored(premises: seq<Entity>, conclusions: seq<Entity>, more: seq<Entity>)
    requires |conclusions| > 0
    ensures BuildRule(premises, conclusions + more) == BuildRule(premises, conclusions[..1])
  {
    assert (conclusions + more)[0] == conclusions[..1][0];
  }

  // ---------------------------------------------------------------------
  // Parsing back

  predicate IsDelimiter(ch: char) {
    ch == ' ' || ch == '(' || ch == ')'
  }

  /** A name that the text form can carry unambiguously. */
  predicate Plain(name: string) {
    forall i :: 0 <= i < |name| ==> !IsDelimiter(name[i])
  }

  predicate PlainClause(c: Clause) {
    Plain(c.variable) && Plain(c.term)
  }

  predicate StartsWith(s: string, prefix: string) {
    |prefix| <= |s| && s[..|prefix|] == prefix
  }

  /** Length of the longest delimiter-free prefix of `s`. */
  function NameLength(s: string): (n: nat)
    ensures n <= |s|
    ensures Plain(s[..n])
    ensures n < |s| ==> IsDelimiter(s[n])
  {
    if |s| == 0 || IsDelimiter(s[0]) then 0
    else
      var n := 1 + NameLength(s[1..]);
      assert s[..n] == [s[0]] + s[1..][..n - 1];
      n
  }

  /** What is left of `s` after `prefix`, when `s` starts with it. */
  function Expect(s: string, prefix: string): (r: Option<string>)
    ensures r.Some? ==> |r.value| == |s| - |prefix|
  {
    if StartsWith(s, prefix) then Some(s[|prefix|..]) else None
  }

  /** Splits `s` into its leading name and the rest. */
  function ReadName(s: string): (r: (string, string))
    ensures |r.1| <= |s|
  {
    var n := NameLength(s);
    (s[..n], s[n..])
  }

  /** Reads `(variable IS term)` off the front of `s`. */
  function ParseClause(s: string): (r: Option<(Clause, string)>)
    ensures r.Some? ==> |r.value.1| < |s|
  {
    match Expect(s, "(")
    case None => None
    case Some(s1) =>
      var (variable, s2) := ReadName(s1);
      match Expect(s2, " IS ")
      case None => None
      case Some(s3) =>
        var (term, s4) := ReadName(s3);
        match Expect(s4, ")")
        case None => None
        case Some(s5) => Some((Clause(variable, term), s5))
  }

  /** Reads one or more clauses separated by " AND ". */
  function ParseClauses(s: string): (r: Option<(seq<Clause>, string)>)
    decreases |s|
  {
    match ParseClause(s)
    case None => None
    case Some((c, rest)) =>
      match Expect(rest, And)
      case None => Some(([c], rest))
      case Some(next) =>
        match ParseClauses(next)
        case None => None
        case Some((cs, tail)) => Some(([c] + cs, tail))
  }

  /** Reads the premise part of a rule body: nothing when the body goes
      straight to " THEN ", otherwise one or more clauses. */
  function ParsePremises(body: string): Option<(seq<Clause>, string)> {
    if StartsWith(body, Then) then Some(([], body)) else ParseClauses(body)
  }

  /** Reads ` THEN (variable IS term);` to the very end. */
  function ParseConclusion(tail: string): Option<Clause> {
    match Expect(tail, Then)
    case None => None
    case Some(rest) =>
      match ParseClause(rest)
      case None => None
      case Some((conclusion, end)) => if end == ";" then Some(conclusion) else None
  }

  /** Reads a whole rule text back into its premises and conclusion. */
  function ParseRule(s: string): Option<(seq<Clause>, Clause)> {
    match Expect(s, "IF ")
    case None => None
    case Some(body) =>
      match ParsePremises(body)
      case None => None
      case Some((premises, tail)) =>
        match ParseConclusion(tail)
        case None => None
        case Some(conclusion) => Some((premises, conclusion))
  }

  lemma {:induction false} NameLengthOfPlain(name: string, rest: string)
    requires Plain(name)
    requires |rest| > 0 && IsDelimiter(rest[0])
    ensures NameLength(name + rest) == |name|
  {
    if |name| == 0 {
      assert name + rest == rest;
    } else {
      assert (name + rest)[1..] == name[1..] + rest;
      NameLengthOfPlain(name[1..], rest);
    }
  }

  lemma ExpectPrefix(prefix: string, rest: string)
    ensures Expect(prefix + rest, prefix) == Some(rest)
  {
    assert (prefix + rest)[..|prefix|] == prefix;
    assert (prefix + rest)[|prefix|..] == rest;
  }

  lemma ReadPlainName(name: string, rest: string)
    requires Plain(name)
    requires |rest| > 0 && IsDelimiter(rest[0])
    ensures ReadName(name + rest) == (name, rest)
  {
    NameLengthOfPlain(name, rest);
    assert (name + rest)[..|name|] == name;
    assert (name + rest)[|name|..] == rest;
  }

  lemma ParseClauseText(c: Clause, tail: string)
    requires PlainClause(c)
    ensures ParseClause(ClauseText(c) + tail) == Some((c, tail))
  {
    var v, t := c.variable, c.term;
    var s4 := ")" + tail;
    var s3 := t + s4;
    var s2 := " IS " + s3;
    var s1 := v + s2;
    ClauseTextShape(c, tail);
    ExpectPrefix("(", s1);
    ReadPlainName(v, s2);
    ExpectPrefix(" IS ", s3);
    ReadPlainName(t, s4);
    ExpectPrefix(")", tail);
  }

  lemma ClauseTextShape(c: Clause, tail: string)
    ensures ClauseText(c) + tail == "(" + (c.variable + (" IS " + (c.term + (")" + tail))))
  {
  }

  lemma ClauseTextsStart(cs: seq<Clause>)
    requires |cs| > 0
    ensures |Join(ClauseTexts(cs), And)| > 0 && Join(ClauseTexts(cs), And)[0] == '('
  {
    var parts := ClauseTexts(cs);
    assert parts[0] == ClauseText(cs[0]);
    if |parts| > 1 {
      assert Join(parts, And) == parts[0] + (And + Join(parts[1..], And));
    }
  }

  /** Text that opens with " THEN " does not open with " AND ". */
  lemma ThenIsNotAnd(tail: string)
    requires StartsWith(tail, Then)
    ensures !StartsWith(tail, And)
  {
    assert tail[..|And|][1] == tail[1] == tail[..|Then|][1] == 'T' != And[1];
  }

  lemma ParseLastClause(c: Clause, tail: string)
    requires PlainClause(c)
    requires StartsWith(tail, Then)
    ensures ParseClauses(ClauseText(c) + tail) == Some(([c], tail))
  {
    ParseClauseText(c, tail);
    ThenIsNotAnd(tail);
  }

  lemma ParseNextClause(c: Clause, more: string, cs: seq<Clause>, tail: string)
    requires PlainClause(c)
    requires ParseClauses(more) == Some((cs, tail))
    ensures ParseClauses(ClauseText(c) + (And + more)) == Some(([c] + cs, tail))
  {
    ParseClauseText(c, And + more);
    ExpectPrefix(And, more);
  }

  /** The joined text of two or more clauses is the first clause, " AND ",
      and the joined rest. */
  lemma JoinStep(cs: seq<Clause>, tail: string)
    requires |cs| > 1
    ensures Join(ClauseTexts(cs), And) + tail
         == ClauseText(cs[0]) + (And + (Join(ClauseTexts(cs[1..]), And) + tail))
  {
    var parts := ClauseTexts(cs);
    assert ClauseTexts(cs[1..]) == parts[1..];
    var first, rest := parts[0], Join(parts[1..], And);
    assert Join(parts, And) == first + And + rest;
    AppendAssoc(first + And, rest, tail);
    AppendAssoc(first, And, rest + tail);
  }

  lemma AppendAssoc<T>(a: seq<T>, b: seq<T>, c: seq<T>)
    ensures (a + b) + c == a + (b + c)
  {
  }

  /** One more clause in front of parsed clauses is parsed in front of them. */
  lemma ParseMany(cs: seq<Clause>, tail: string)
    requires |cs| > 1
    requires PlainClause(cs[0])
    requires ParseClauses(Join(ClauseTexts(cs[1..]), And) + tail) == Some((cs[1..], tail))
    ensures ParseClauses(Join(ClauseTexts(cs), And) + tail) == Some(([cs[0]] + cs[1..], tail))
  {
    JoinStep(cs, tail);
    ParseNextClause(cs[0], Join(ClauseTexts(cs[1..]), And) + tail, cs[1..], tail);
  }

  lemma ConsSplit<T>(xs: seq<T>)
    requires |xs| > 0
    ensures [xs[0]] + xs[1..] == xs
  {
  }

  lemma {:induction false} ParseClausesRoundTrip(cs: seq<Clause>, tail: string)
    requires |cs| > 0
    requires forall i :: 0 <= i < |cs| ==> PlainClause(cs[i])
    requires StartsWith(tail, Then)
    ensures ParseClauses(Join(ClauseTexts(cs), And) + tail) == Some((cs, tail))
  {
    assert PlainClause(cs[0]);
    if |cs| == 1 {
      assert Join(ClauseTexts(cs), And) == ClauseText(cs[0]);
      ParseLastClause(cs[0], tail);
      assert [cs[0]] == cs;
    } else {
      assert forall i :: 0 <= i < |cs[1..]| ==> cs[1..][i] == cs[i + 1];
      ParseClausesRoundTrip(cs[1..], tail);
      ParseMany(cs, tail);
      ConsSplit(cs);
    }
  }

  lemma ParsePremisesRoundTrip(premises: seq<Clause>, tail: string)
    requires forall i :: 0 <= i < |premises| ==> PlainClause(premises[i])
    requires StartsWith(tail, Then)
    ensures ParsePremises(Join(ClauseTexts(premises), And) + tail) == Some((premises, tail))
  {
    var joined := Join(ClauseTexts(premises), And);
    if |premises| == 0 {
      assert joined + tail == tail;
    } else {
      ClauseTextsStart(premises);
      assert (joined + tail)[0] == '(';
      assert !StartsWith(joined + tail, Then) by {
        assert (joined + tail)[..6][0] == '(';
      }
      ParseClausesRoundTrip(premises, tail);
    }
  }

  lemma ParseConclusionRoundTrip(conclusion: Clause)
    requires PlainClause(conclusion)
    ensures ParseConclusion(Then + ClauseText(conclusion) + ";") == Some(conclusion)
  {
    assert Then + ClauseText(conclusion) + ";" == Then + (ClauseText(conclusion) + ";");
    ExpectPrefix(Then, ClauseText(conclusion) + ";");
    ParseClauseText(conclusion, ";");
  }

  /** Parsing undoes rendering: the text determines the premises, in order,
      and the conclusion, whenever no name holds a blank or a parenthesis. */
  lemma RenderParseRoundTrip(premises: seq<Clause>, conclusion: Clause)
    requires forall i :: 0 <= i < |premises| ==> PlainClause(premises[i])
    requires PlainClause(conclusion)
    ensures ParseRule(RenderRule(premises, conclusion)) == Some((premises, conclusion))
  {
    var joined := Join(ClauseTexts(premises), And);
    var tail := Then + ClauseText(conclusion) + ";";
    RenderRuleShape(premises, conclusion);
    ExpectPrefix("IF ", joined + tail);
    OpensWith(Then, ClauseText(conclusion) + ";");
    ParsePremisesRoundTrip(premises, tail);
    ParseConclusionRoundTrip(conclusion);
  }

  /** The rule text is "IF " followed by the premises and the THEN part. */
  lemma RenderRuleShape(premises: seq<Clause>, conclusion: Clause)
    ensures RenderRule(premises, conclusion)
         == "IF " + (Join(ClauseTexts(premises), And) + (Then + ClauseText(conclusion) + ";"))
  {
  }

  lemma OpensWith(prefix: string, rest: string)
    ensures StartsWith(prefix + rest, prefix)
  {
    assert (prefix + rest)[..|prefix|] == prefix;
  }

  /** Distinct rules with plain names never render to the same text. */
  lemma RenderRuleInjective(p1: seq<Clause>, c1: Clause, p2: seq<Clause>, c2: Clause)
    requires forall i :: 0 <= i < |p1| ==> PlainClause(p1[i])
    requires forall i :: 0 <= i < |p2| ==> PlainClause(p2[i])
    requires PlainClause(c1) && PlainClause(c2)
    requires RenderRule(p1, c1) == RenderRule(p2, c2)
    ensures p1 == p2 && c1 == c2
  {
    RenderParseRoundTrip(p1, c1);
    RenderParseRoundTrip(p2, c2);
  }

  // ---------------------------------------------------------------------
  // The first rule of the test ontology

  function Individual(name: string): Entity {
    Entity(name, [])
  }

  function Statement(name: string, variable: string, term: string): Entity {
    Entity(name, [Property(LeftHand, [Individual(variable)]), Property(RightHand, [Individual(term)])])
  }

  lemma StatementDecodes(name: string, variable: string, term: string)
    ensures Decode(Statement(name, variable, term)) == Success(Clause(variable, term))
  {
    var e := Statement(name, variable, term);
    assert |LeftHand| != |RightHand|;
    assert e.properties[1..] == [Property(RightHand, [Individual(term)])];
    assert FirstProperty(e.properties, RightHand) == Some(1);
    assert PropertyValues(e, LeftHand) == Success([Individual(variable)]);
    assert PropertyValues(e, RightHand) == Success([Individual(term)]);
  }

  lemma R01Premises()
    ensures Join(ClauseTexts([Clause("sFL", "low"), Clause("sFR", "low")]), And) == "(sFL IS low) AND (sFR IS low)"
  {
    var texts := ClauseTexts([Clause("sFL", "low"), Clause("sFR", "low")]);
    assert ClauseText(Clause("sFL", "low")) == "(sFL IS low)";
    assert ClauseText(Clause("sFR", "low")) == "(sFR IS low)";
    assert texts == ["(sFL IS low)", "(sFR IS low)"];
    assert texts[1..] == ["(sFR IS low)"];
  }

  lemma R01If()
    ensures "IF " + "(sFL IS low) AND (sFR IS low)" == "IF (sFL IS low) AND (sFR IS low)"
  {
  }

  lemma R01Opening()
    ensures "IF " + "(sFL IS low) AND (sFR IS low)" + Then == "IF (sFL IS low) AND (sFR IS low) THEN "
  {
    R01If();
  }

  lemma R01Closing()
    ensures "IF (sFL IS low) AND (sFR IS low) THEN " + "(sFassessment IS low)" + ";"
         == "IF (sFL IS low) AND (sFR IS low) THEN (sFassessment IS low);"
  {
    assert "IF (sFL IS low) AND (sFR IS low) THEN " + "(sFassessment IS low)"
        == "IF (sFL IS low) AND (sFR IS low) THEN (sFassessment IS low)";
  }

  lemma R01Text()
    ensures RenderRule([Clause("sFL", "low"), Clause("sFR", "low")], Clause("sFassessment", "low"))
         == "IF (sFL IS low) AND (sFR IS low) THEN (sFassessment IS low);"
  {
    R01Premises();
    assert ClauseText(Clause("sFassessment", "low")) == "(sFassessment IS low)";
    R01Opening();
    R01Closing();
  }

  /** A rule header holding its premises and then its conclusions. */
  function Header(name: string, premises: seq<Entity>, conclusions: seq<Entity>): Entity {
    Entity(name, [Property(HasPremise, premises), Property(HasConclusion, conclusions)])
  }

  lemma HeaderLookups(name: string, premises: seq<Entity>, conclusions: seq<Entity>)
    ensures Premises(Header(name, premises, conclusions)) == Success(premises)
    ensures Conclusions(Header(name, premises, conclusions)) == Success(conclusions)
  {
    var rule := Header(name, premises, conclusions);
    assert |HasPremise| != |HasConclusion|;
    assert rule.properties[1..] == [Property(HasConclusion, conclusions)];
    assert FirstProperty(rule.properties, HasConclusion) == Some(1);
  }

  lemma R01Decodes()
    ensures DecodeAll([Statement("premise01", "sFL", "low"), Statement("premise02", "sFR", "low")])
         == Success([Clause("sFL", "low"), Clause("sFR", "low")])
    ensures Decode(Statement("conclusion01", "sFassessment", "low")) == Success(Clause("sFassessment", "low"))
  {
    StatementDecodes("premise01", "sFL", "low");
    StatementDecodes("premise02", "sFR", "low");
    StatementDecodes("conclusion01", "sFassessment", "low");
    var decoded := DecodeAll([Statement("premise01", "sFL", "low"), Statement("premise02", "sFR", "low")]);
    assert decoded.Success? && |decoded.value| == 2;
    assert decoded.value == [Clause("sFL", "low"), Clause("sFR", "low")];
  }

  /** Rule R01 of the test ontology renders as the expected text. */
  lemma RuleR01()
    ensures RuleToString(Header("R01",
              [Statement("premise01", "sFL", "low"), Statement("premise02", "sFR", "low")],
              [Statement("conclusion01", "sFassessment", "low")]))
            == Success("IF (sFL IS low) AND (sFR IS low) THEN (sFassessment IS low);")
  {
    HeaderLookups("R01",
      [Statement("premise01", "sFL", "low"), Statement("premise02", "sFR", "low")],
      [Statement("conclusion01", "sFassessment", "low")]);
    R01Decodes();
    R01Text();
  }
}
