# onto2robot rule core in Dafny

This project models the rule-handling core of onto2robot. onto2robot reads
fuzzy rules about a mobile robot's sensors from an OWL ontology and drives a
fuzzy inference engine with them. The model covers four parts:

- **Rule text** (`Ontology`, `RuleText`). A rule header's premises and first
  conclusion become the text `IF (v IS t) AND … THEN (v IS t);`. Property
  lookup on ontology individuals is included. A parser for the same form
  serves as the renderer's inverse.
- **Simpful adapter** (`Simpful`). It builds three-term triangular partitions
  and the fuzzy-set table and linguistic variables made from them. It also
  keeps the per-run state that `compute(layer)` updates, layer by layer.
- **scikit-fuzzy adapter** (`Scikit`). It selects the antecedents and
  consequents, projects the rules onto them, seeds the simulator's inputs,
  and writes a layer's outputs back.
- **Spreadsheet import** (`Workbook`). It filters blank rows, then turns the
  premise and conclusion sheets into individuals. Rule and rule-set rows are
  grouped by id.

The term-space table and the reasoning order that both adapters are handed
live in `Spaces`. Both inference engines are parameters: a function from the
current inputs (and, for Simpful, the requested targets) to a map of crisp
outputs.
Ontology individuals are the `Ontology.Entity` datatype: a name plus named
properties, each holding a list of individuals. Python exceptions such as
`IndexError`, `KeyError` and `ValueError` become `Failure` values of
`Wrappers.Result`, each with a named `Wrappers.Error`.

Two constants of the code are worth stating exactly:

- **Triangle peak.** `_get_triangle_fuzzy_points` places the point shared by
  the three triangles at `(lo + hi) / 3`. `Simpful.TrianglesOrderedIff` shows
  what that means: the three triangles are well formed exactly when
  `2·lo <= hi` and `lo <= 2·hi`.
- **scikit-fuzzy default input.** An input that is not supplied starts at
  `(universe[1] - universe[0]) / 2`, which is half the first step. For the
  universe `arange(0, 40, 1)` that is 0.5 (see `Scikit.DefaultIsHalfFirstStep`).

## Model

| member | source | states |
|---|---|---|
| Ontology.FirstProperty | src/onto2robot/core.py:28 | the index returned is that of the first property with the requested name; None exactly when no property has that name |
| Ontology.PropertyValues | src/onto2robot/core.py:27-28 | fails exactly when no property has the name; otherwise yields the values of the first property so named |
| Ontology.FirstValue | src/onto2robot/core.py:32-34 | succeeds exactly when the property exists and holds a value; that value is the first one |
| Ontology.LeftRightHands | src/onto2robot/core.py:31-34 | succeeds exactly when both hands exist and are non-empty; yields the first left hand and the first right hand |
| Ontology.Decode | src/onto2robot/core.py:46-47 | a premise or conclusion stands for the clause naming its left hand (variable) and right hand (term) |
| Ontology.Premises | src/onto2robot/core.py:55-56 | fails exactly when the header has no `hasPremise` property; otherwise the values of the first such property |
| Ontology.Conclusions | src/onto2robot/core.py:59-60 | fails exactly when the header has no `hasConclusion` property; otherwise the values of the first such property |
| Wrappers.MapAll | src/onto2robot/core.py:45-47 | a list comprehension over a fallible step: succeeds iff every element succeeds; keeps length and order, element i being the step's result on element i; on failure reports the error of the first failing element |
| Wrappers.FilterMap | src/onto2robot/scikit_fuzz_wrapper.py:63-94 | a loop that keeps what each step yields: succeeds iff every step succeeds; never longer than the input; empty iff no step yields a value |
| Wrappers.FilterMapSingle | src/onto2robot/scikit_fuzz_wrapper.py:63-94 | one element gives its step's error, nothing, or its yielded value |
| Wrappers.FilterMapAppend | src/onto2robot/scikit_fuzz_wrapper.py:63-94 | the kept values of two runs are those of the first followed by those of the second |
| Wrappers.FilterMapFrom | src/onto2robot/scikit_fuzz_wrapper.py:63-94 | every kept value was yielded by the step on some element |
| Wrappers.FilterMapHas | src/onto2robot/scikit_fuzz_wrapper.py:63-94 | every value a step yields is kept |
| Ontology.DecodeRule | src/onto2robot/scikit_fuzz_wrapper.py:63-71 | succeeds iff both property lists exist and every premise and conclusion individual decodes; the i-th decoded premise (conclusion) is the decoding of the i-th individual, and none is added or dropped |
| Ontology.DecodeRules | src/onto2robot/scikit_fuzz_wrapper.py:63-71 | succeeds iff every rule header decodes; rule i is the decoding of header i; on failure the error is that of some header, the first failing one by MapAll |
| RuleText.ClauseTexts | src/onto2robot/core.py:44-47 | one `(v IS t)` text per premise, in the premises' order |
| RuleText.ParseClauseText | src/onto2robot/core.py:47 | the `(v IS t)` text of a clause whose names hold no blank or parenthesis parses back to that clause, leaving what follows untouched |
| RuleText.BuildRule | src/onto2robot/core.py:43-52 | succeeds iff all premises decode and a first conclusion exists and decodes; an empty conclusion list is an error; the text is that of the decoded premises and the first conclusion |
| RuleText.RuleToString | src/onto2robot/core.py:37-40 | succeeds iff the header has premises and conclusions and they build; a header without `hasPremise` fails on that property; the text is the one built from the header's premise and conclusion individuals |
| RuleText.JoinLength | src/onto2robot/core.py:48 | the joined length of n > 0 parts is their total length plus n - 1 separator lengths |
| RuleText.JoinSnoc | src/onto2robot/core.py:48 | joining one more part appends the separator and then that part, so the text is the parts in order with the separator between neighbours |
| RuleText.RenderRuleLength | src/onto2robot/core.py:48-52 | the text's length is the clauses plus five characters per premise after the first; zero premises give `IF  THEN (…);` |
| RuleText.ExtraConclusionsIgnored | src/onto2robot/core.py:50-52 | conclusions after the first do not affect the result |
| RuleText.RenderParseRoundTrip | src/onto2robot/core.py:43-52 | parsing the rendered text gives back the premises in order and the conclusion, whenever names hold no blank or parenthesis |
| RuleText.RenderRuleInjective | src/onto2robot/core.py:43-52 | two rules with such names render to the same text only if they are the same rule |
| RuleText.RuleR01 | tests/test_core.py:74-80 | rule R01 renders as `IF (sFL IS low) AND (sFR IS low) THEN (sFassessment IS low);` |
| Simpful.TriangleSets | src/onto2robot/fs_wrapper.py:25-43 | fails exactly when the term count is not 3; keys are the three terms, each set labelled by its term; points (lo,lo,m), (lo,m,hi), (m,hi,hi) with m = (lo+hi)/3 |
| Simpful.Peak | src/onto2robot/fs_wrapper.py:32-38 | the shared point lies within [lo, hi] iff 2·lo <= hi and lo <= 2·hi |
| Simpful.TrianglesOrderedIff | src/onto2robot/fs_wrapper.py:32-38 | for distinct terms the three triangles all have a <= b <= c iff 2·lo <= hi and lo <= 2·hi |
| Simpful.FuzzySets | src/onto2robot/fs_wrapper.py:56-59 | fails iff some space lacks three terms, reporting the first such space; the table's keys are exactly the terms of all spaces, each set labelled by its term; the sets themselves are fixed by FuzzySetsLast |
| Simpful.FuzzySetsLast | src/onto2robot/fs_wrapper.py:57-59 | the last space contributes exactly its triangle sets (TriangleSets of its terms) over the table of the spaces before it; with FuzzySetsAppend this fixes every entry of the table |
| Simpful.FuzzySetsAppend | src/onto2robot/fs_wrapper.py:56-59 | the table of two runs of spaces is the first run's table overridden by the second's, so a later space's same-named term wins |
| Simpful.LinguisticVariables | src/onto2robot/fs_wrapper.py:73-77 | one variable per space; its sets are those of its own terms in term order; its discourse is [0, 40] whatever the universe |
| Simpful.RuleTexts | src/onto2robot/fs_wrapper.py:62 | succeeds iff every rule renders; text i is the rendering of rule i; on failure the error is that of some rule |
| Simpful.Configure | src/onto2robot/fs_wrapper.py:45-71 | succeeds iff every space has three terms and every rule renders; the table is the one built over all spaces; variables keyed by space, over [0, 40], whose j-th set is the table's set for the space's j-th term; rule text i is the rendering of rule i |
| Simpful.SetStartValues | src/onto2robot/fs_wrapper.py:80-85 | sets exactly the supplied variables to the supplied values; others keep their value and nothing is defaulted |
| Simpful.Record | src/onto2robot/fs_wrapper.py:92-95 | fails iff some target has no inferred value, naming the first; otherwise every target is set as input and as inferred to its value, and other variables are unchanged |
| Simpful.Compute | src/onto2robot/fs_wrapper.py:87-95 | after one inference call every layer variable is in the inferred table and in the inputs with the inferred value; entries of other variables are unchanged; a missing value is an error |
| Simpful.RunSingle | tests/test_core.py:351-352 | running one layer is one compute(layer) call; with RunAppend each layer is computed from the state the earlier ones left |
| Simpful.RunAppend | tests/test_core.py:351-352 | running two runs of layers is running the first and then the second from its result |
| Simpful.SessionLast | tests/test_core.py:351-352 | over the reversed reasoning order, the first layer is computed last, from the state every other layer left; a failure before it stops the session |
| Simpful.RunCoversLayers | src/onto2robot/fs_wrapper.py:87-95 | after a successful run every variable of every layer is inferred; variables outside all layers keep their inputs and inferred status |
| Simpful.RunKeepsConsistent | src/onto2robot/fs_wrapper.py:94-95 | every inferred value is also the variable's input, before and after any run |
| Simpful.SessionInfersGoal | tests/test_core.py:351-353 | over the reversed reasoning order the goal ends up inferred, with the value the last inference call gave it from the state the earlier layers left |
| Scikit.Select | src/onto2robot/scikit_fuzz_wrapper.py:12-18 | keys are exactly the wanted space variables; each is the variable of that name over the universe with its space's term names |
| Scikit.MakeAntecedents | src/onto2robot/scikit_fuzz_wrapper.py:7-18 | keys are exactly the space variables other than the goal; each uses its space's terms and the universe |
| Scikit.ConclusionVariablesSingle | src/onto2robot/scikit_fuzz_wrapper.py:28-33 | one rule contributes the left hands of all of its conclusions |
| Scikit.ConclusionVariablesAppend | src/onto2robot/scikit_fuzz_wrapper.py:28-33 | the variables concluded by two runs of rules are the union of each run's, as the loop adds them to one set |
| Scikit.MakeConsequents | src/onto2robot/scikit_fuzz_wrapper.py:21-40 | keys are exactly the space variables that are the left hand of some conclusion of some rule; each uses its space's terms |
| Scikit.ConcludedIntermediateIsBoth | src/onto2robot/scikit_fuzz_wrapper.py:15-16 | a concluded variable other than the goal is both an antecedent and a consequent |
| Scikit.Conditions | src/onto2robot/scikit_fuzz_wrapper.py:68-79 | fails iff a premise on an antecedent names a term that antecedent lacks; never more conditions than premises; empty iff no premise is on an antecedent |
| Scikit.ConditionsMembers | src/onto2robot/scikit_fuzz_wrapper.py:68-79 | a clause is a condition iff it is a premise whose variable is an antecedent |
| Scikit.ConditionsAppend | src/onto2robot/scikit_fuzz_wrapper.py:69-79 | the kept premises keep their order |
| Scikit.ProjectRule | src/onto2robot/scikit_fuzz_wrapper.py:63-92 | fails iff the conditions fail or the first conclusion is on a consequent that lacks its term; otherwise a rule is emitted iff there is a conclusion, the first conclusion is on a consequent and some premise is on an antecedent; the emitted rule is the conditions with the first conclusion as consequent |
| Scikit.MakeRules | src/onto2robot/scikit_fuzz_wrapper.py:60-94 | succeeds iff every rule projects; at most one rule per input rule |
| Scikit.MakeRulesSingle | src/onto2robot/scikit_fuzz_wrapper.py:63-94 | one input rule gives its projection's error, no rule, or exactly its projected rule |
| Scikit.MakeRulesWellFormed | src/onto2robot/scikit_fuzz_wrapper.py:74-92 | every emitted rule has non-empty conditions on antecedents with known terms and a consequent with a known term |
| Scikit.MakeRulesAppend | src/onto2robot/scikit_fuzz_wrapper.py:63-94 | the rules of two runs of input rules are the first run's followed by the second's; with MakeRulesSingle this fixes the emitted rules and their order |
| Scikit.Configure | src/onto2robot/scikit_fuzz_wrapper.py:44-58 | fails when a rule header does not decode; otherwise succeeds iff every decoded rule projects; keeps the universe; antecedents are the non-goal variables, consequents the concluded ones; its rules are the projection of the decoded rules, each well formed |
| Scikit.SimInputsSingle | src/onto2robot/scikit_fuzz_wrapper.py:100 | one projected rule contributes the variables of its conditions as simulator inputs |
| Scikit.SimInputsAppend | src/onto2robot/scikit_fuzz_wrapper.py:100 | the simulator inputs of two runs of rules are the union of each run's |
| Scikit.SimInputsAreAntecedents | src/onto2robot/scikit_fuzz_wrapper.py:100 | the simulator's inputs are antecedents |
| Scikit.SetStartValues | src/onto2robot/scikit_fuzz_wrapper.py:96-105 | each simulator input gets the supplied value or (u[1]-u[0])/2; fails iff a default is needed and the universe has fewer than two points; other names are ignored |
| Scikit.DefaultIsHalfFirstStep | src/onto2robot/scikit_fuzz_wrapper.py:105 | over the universe 0..39 an unsupplied input starts at 0.5 |
| Scikit.Layer | src/onto2robot/scikit_fuzz_wrapper.py:107-120 | the output is the simulation of the current inputs; exactly the layer variables that are in the output and are antecedents are written back; every other input is unchanged |
| Scikit.Compute | src/onto2robot/scikit_fuzz_wrapper.py:116-120 | the write-back loop, one layer variable at a time, ends in the state Layer describes |
| Scikit.Run | tests/test_scikit.py:26-27 | across several layers a variable in no layer keeps its input and no input outside the layers appears; RunSingle and RunAppend fix what each step does |
| Scikit.RunSingle | tests/test_scikit.py:26-27 | running one layer is computing it (Layer); with RunAppend each layer is computed from the inputs the earlier ones wrote back |
| Scikit.RunAppend | tests/test_scikit.py:26-27 | running two runs of layers is running the first and then the second from the state it left |
| Scikit.RunOutput | tests/test_scikit.py:26-29 | after a non-empty run the output is the simulation of the inputs left by all but the last layer |
| Scikit.Session | tests/test_scikit.py:26-27 | over the reversed reasoning order, variables in no layer keep their start values |
| Scikit.SessionLast | tests/test_scikit.py:26-27 | over the reversed reasoning order, the first layer is computed last, from the state every other layer left |
| Scikit.SessionOutput | tests/test_scikit.py:26-29 | the returned output is the simulation over the inputs left by every layer but the first of the reasoning order, which runs last |
| Workbook.KeepRows | utils/xslxkb.py:21-24 | a row is kept iff some cell holds a value |
| Workbook.KeepRowsAppend | utils/xslxkb.py:21-24 | filtering keeps the sheet's row order |
| Workbook.KeepRowsIdempotent | utils/xslxkb.py:22-24 | filtering a filtered sheet changes nothing |
| Workbook.KeepRowsSingle | utils/xslxkb.py:22-24 | one row is kept iff it is not blank; with KeepRowsAppend this fixes order and multiplicity |
| Workbook.ImportWorksheets | utils/xslxkb.py:18-26 | every sheet, under its own name, holding its filtered rows in sheet order (KeepRows), so exactly its non-blank rows |
| Workbook.Items | utils/xslxkb.py:34 | a missing sheet gives no rows; the first `drop` rows are skipped, and a shorter sheet gives none |
| Workbook.Statements | utils/xslxkb.py:36-44 | one individual per row, with name and label from column 0 and hands from columns 1 and 2; a row narrower than three cells is an error |
| Workbook.SheetStatements | utils/xslxkb.py:33-45 | for the premises sheet (and likewise the conclusions sheet, lines 48-56): an absent sheet gives none; fails iff a row after the header rows is narrower than three cells; otherwise statement i is built from sheet row drop + i, with name and label from column 0 and hands from columns 1 and 2 |
| Workbook.ColumnMembers | utils/xslxkb.py:85-86 | an id's column holds exactly the values of the rows with that id |
| Workbook.Column | utils/xslxkb.py:64 | at most one value per row; ColumnSingle and ColumnAppend fix which values and their order |
| Workbook.ColumnAppend | utils/xslxkb.py:64 | an id's column follows row order |
| Workbook.ColumnHead | utils/xslxkb.py:85 | an id's column starts with the value in the first row with that id |
| Workbook.ColumnSingle | utils/xslxkb.py:64 | one row contributes its value iff it has the id; with ColumnAppend this fixes the column's order and multiplicity |
| Workbook.GroupRuleSets | utils/xslxkb.py:61-65 | one rule-set per distinct id, whose contents are the column-1 values of that id's rows in row order (Column), so each row's value and no other |
| Workbook.Group | utils/xslxkb.py:84-87 | the rule of an id: premises are the column-2 values of its rows in row order, conclusion the column-1 value of its first row |
| Workbook.RuleSets | utils/xslxkb.py:59-65 | fails iff a row after the header rows is narrower than two cells; otherwise the rule-sets grouped from those rows; an absent sheet gives no rule-sets |
| Workbook.GroupRules | utils/xslxkb.py:82-94 | one rule per distinct id, grouped from that id's rows: premises are their column-2 values in row order (Column) |
| Workbook.GroupRulesRows | utils/xslxkb.py:85-91 | every row's column 2 is among its id's premises and every premise comes from such a row; column 1 of an id's first row is its conclusion |
| Workbook.Rules | utils/xslxkb.py:80-87 | fails iff a row after the header rows is narrower than three cells; otherwise the rules grouped from those rows; an absent sheet gives no rules |
| Workbook.GroupExtend | utils/xslxkb.py:85-94 | for an id already present, more rows keep the first conclusion and append their column-2 values to the premises |
| Workbook.RulesExtend | utils/xslxkb.py:85-94 | the same for the grouped rules: for an id already present, later rows leave its conclusion alone and append their column-2 values to its premises |

## Left out

- Ontology loading and lifetime (`load_ontology`, `MobileOntologyMeta`, `destroy`): this is owlready2 file I/O. Individuals are plain datatype values here.
- The fuzzy engines themselves: Simpful's Mamdani inference, scikit-fuzzy's simulation, `automf` membership shapes and "mom" defuzzification. They are floating-point work in foreign libraries, so each engine is a function parameter.
- `rule_to_pair` and the sorted printing of rule names in the Simpful constructor: `rule_to_pair` is not defined in core.py, so there is nothing to model it from.
- The backward-chaining resolver (`get_possible_chains` and its helpers): not defined in core.py.
- `FuzzySystem.add_fuzzy_set`: a thin wrapper that ignores its points and set type.
- cli.py: argument parsing only.
- All printing, the ontology `save` and `run_import`: I/O.
- Writes into the ontology in utils/xslxkb.py: premises, conclusions, rules and rule-sets are returned as records. Looking up names with `ontology[...]` is not modelled.
- The order of a layer: the source passes a Python set of individuals. The model takes the layer as a sequence in any order.
- Simpful.Compute: if a target is missing from the inference result, the model leaves the state unchanged. The source raises `KeyError` only after it has already written the targets before it.
- Scikit.Compute: does not model scikit-fuzzy refusing an input name that no projected rule reads, or refusing to simulate with an input unset.
- Scikit.Configure: decodes every rule header up front. It succeeds or fails on the same inputs as the source, but when several things are wrong the error reported may be a different one.
- Floating point: triangle points, universes, start values and crisp outputs are exact reals. Python floats round `(lo + hi) / 3` and `(universe[1] - universe[0]) / 2`; that rounding is not modelled.
- Checks made inside simpful and scikit-fuzzy on what they are handed, such as a triangle with its points out of order, or scikit-fuzzy limiting an input to its universe. Those libraries are not part of this model. `Simpful.TrianglesOrderedIff` says exactly when the points are in order.
- SheetStatements: a short row fails the whole sheet and no records come back. The source has by then already created the individuals of the rows before it.
- Items: `drop` is a natural number. Python's negative slice start, which counts from the end, is not modelled; every caller uses the default of 2.
- Scikit.SetStartValues: universe values are reals. The `numpy` integer array and its dtype are not modelled.
- Workbook: a cell is either empty or a string. openpyxl also yields numbers, booleans and dates. Python's `==` and set membership then make 1, 1.0 and True the same id when rows are grouped at xslxkb.py:63-64 and 84-85. String cells cannot express that merging.
- Scikit.SetStartValues: with a universe of fewer than two points, the source writes the inputs it meets before the first one needing a default and then raises `IndexError`. The model returns a Failure and no partial state.
