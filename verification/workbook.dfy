/** The spreadsheet import: worksheets become lists of rows with the empty
    rows dropped, and the rows of the premise, conclusion, rule and rule-set
    sheets become records to be written into the ontology.  Writing those
    records is left to the caller; here they are values. */
module Workbook {
  import opened Wrappers

  /** A cell's value: `None` for an empty cell. */
  type Cell = Option<string>
  type Row = seq<Cell>

  /** A row with no value in any cell. */
  predicate Blank(row: Row) {
    forall i :: 0 <= i < |row| ==> row[i].None?
  }

  // ---------------------------------------------------------------------
  // Reading worksheets

  /** The rows of a sheet that have at least one value, in sheet order. */
  function KeepRows(rows: seq<Row>): (r: seq<Row>)
    ensures |r| <= |rows|
    ensures forall row :: row in r <==> row in rows && !Blank(row)
  {
    if |rows| == 0 then []
    else
      assert forall row :: row in rows <==> row == rows[0] || row in rows[1..];
      if Blank(rows[0]) then KeepRows(rows[1..]) else [rows[0]] + KeepRows(rows[1..])
  }

  /** Filtering two runs of rows is filtering each: the filter keeps the
      sheet's row order. */
  lemma {:induction false} KeepRowsAppend(first: seq<Row>, second: seq<Row>)
    ensures KeepRows(first + second) == KeepRows(first) + KeepRows(second)
    decreases |first|
  {
    if |first| == 0 {
      assert first + second == second;
    } else {
      assert (first + second)[0] == first[0];
      assert (first + second)[1..] == first[1..] + second;
      KeepRowsAppend(first[1..], second);
    }
  }

  /** A single row is kept exactly when it is not blank; with
      `KeepRowsAppend` this fixes the filter's order and multiplicity. */
  lemma KeepRowsSingle(row: Row)
    ensures KeepRows([row]) == if Blank(row) then [] else [row]
  {
    assert [row][1..] == [];
  }

  /** Filtering an already filtered sheet changes nothing. */
  lemma {:induction false} KeepRowsIdempotent(rows: seq<Row>)
    ensures KeepRows(KeepRows(rows)) == KeepRows(rows)
    decreases |rows|
  {
    if |rows| > 0 {
      KeepRowsIdempotent(rows[1..]);
      if !Blank(rows[0]) {
        var kept := KeepRows(rows);
        assert kept[0] == rows[0] && kept[1..] == KeepRows(rows[1..]);
      }
    }
  }

  /** `import_worksheets_from_excel`: every sheet, keyed by its name, with its
      blank rows dropped. */
  function ImportWorksheets(workbook: map<string, seq<Row>>): (r: map<string, seq<Row>>)
    ensures r.Keys == workbook.Keys
    ensures forall name :: name in r ==> r[name] == KeepRows(workbook[name])
    ensures forall name :: name in r ==>
              && |r[name]| <= |workbook[name]|
              && forall row :: row in r[name] <==> row in workbook[name] && !Blank(row)
  {
    map name | name in workbook :: KeepRows(workbook[name])
  }

  /** The rows of one sheet after the header rows: an absent sheet has no
      rows, and a sheet shorter than `drop` has none left. */
  function Items(imports: map<string, seq<Row>>, sheet: string, drop: nat): (r: seq<Row>)
    ensures sheet !in imports ==> r == []
    ensures sheet in imports ==> |r| == if drop <= |imports[sheet]| then |imports[sheet]| - drop else 0
    ensures forall i :: 0 <= i < |r| ==> r[i] == imports[sheet][drop + i]
  {
    if sheet !in imports then []
    else if drop <= |imports[sheet]| then imports[sheet][drop..]
    else []
  }

  // ---------------------------------------------------------------------
  // Premises and conclusions

  /** A premise or conclusion individual: its name and label, and the
      individuals naming its variable and its term. */
  datatype Statement = Statement(name: Cell, rdfsLabel: Cell, leftHand: Cell, rightHand: Cell)

  /** One individual per row: name and label from column 0, hands from columns 1 and 2. */
  function Statements(items: seq<Row>): (r: Result<seq<Statement>>)
    ensures r.Success? <==> forall i :: 0 <= i < |items| ==> |items[i]| >= 3
    ensures r.Failure? ==> exists i :: 0 <= i < |items| && |items[i]| < 3 && r.error == ShortRow(|items[i]|)
    ensures r.Success? ==> |r.value| == |items|
    ensures r.Success? ==> forall i :: 0 <= i < |items| ==>
              && r.value[i].name == items[i][0]
              && r.value[i].rdfsLabel == items[i][0]
              && r.value[i].leftHand == items[i][1]
              && r.value[i].rightHand == items[i][2]
  {
    if |items| == 0 then Success([])
    else if |items[0]| < 3 then Failure(ShortRow(|items[0]|))
    else
      var rest :- Statements(items[1..]);
      Success([Statement(items[0][0], items[0][0], items[0][1], items[0][2])] + rest)
  }

  const PremisesSheet := "premises"
  const ConclusionsSheet := "conclusions"

  /** `get_all_premises` over `PremisesSheet` and `get_all_conclusions` over
      `ConclusionsSheet`: one individual per row after the header rows. */
  function SheetStatements(imports: map<string, seq<Row>>, sheet: string, drop: nat): (r: Result<seq<Statement>>)
    ensures sheet !in imports ==> r == Success([])
    ensures r.Success? <==> forall i :: sheet in imports && drop <= i < |imports[sheet]| ==> |imports[sheet][i]| >= 3
    ensures r.Failure? ==> exists i :: sheet in imports && drop <= i < |imports[sheet]| && |imports[sheet][i]| < 3
    ensures r.Success? ==> |r.value| == if sheet in imports && drop <= |imports[sheet]| then |imports[sheet]| - drop else 0
    ensures r.Success? ==> forall i :: 0 <= i < |r.value| ==>
              && sheet in imports && drop + i < |imports[sheet]| && |imports[sheet][drop + i]| >= 3
              && r.value[i].name == imports[sheet][drop + i][0]
              && r.value[i].rdfsLabel == imports[sheet][drop + i][0]
              && r.value[i].leftHand == imports[sheet][drop + i][1]
              && r.value[i].rightHand == imports[sheet][drop + i][2]
  {
    Statements(Items(imports, sheet, drop))
  }

  // ---------------------------------------------------------------------
  // Grouping by id

  /** The distinct column-0 ids of the rows. */
  function Ids(items: seq<Row>): set<Cell>
    requires forall i :: 0 <= i < |items| ==> |items[i]| >= 1
  {
    set i | 0 <= i < |items| :: items[i][0]
  }

  /** Column `col` of the rows whose id is `id`, in row order. */
  function Column(items: seq<Row>, id: Cell, col: nat): (r: seq<Cell>)
    requires forall i :: 0 <= i < |items| ==> |items[i]| > col
    ensures |r| <= |items|
  {
    if |items| == 0 then []
    else
      var rest := Column(items[1..], id, col);
      if items[0][0] == id then [items[0][col]] + rest else rest
  }

  /** A single row contributes its value exactly when it has the id; with
      `ColumnAppend` this fixes the column's order and multiplicity. */
  lemma ColumnSingle(row: Row, id: Cell, col: nat)
    requires |row| > col
    ensures Column([row], id, col) == if row[0] == id then [row[col]] else []
  {
    assert [row][1..] == [];
  }

  /** The column holds exactly the values of the rows with that id. */
  lemma {:induction false} ColumnMembers(items: seq<Row>, id: Cell, col: nat)
    requires forall i :: 0 <= i < |items| ==> |items[i]| > col
    ensures forall i :: 0 <= i < |items| && items[i][0] == id ==> items[i][col] in Column(items, id, col)
    ensures forall x :: x in Column(items, id, col) ==>
              exists i :: 0 <= i < |items| && items[i][0] == id && items[i][col] == x
    decreases |items|
  {
    if |items| > 0 {
      var tail := items[1..];
      assert forall i :: 1 <= i < |items| ==> items[i] == tail[i - 1];
      ColumnMembers(tail, id, col);
      forall x | x in Column(items, id, col)
        ensures exists i :: 0 <= i < |items| && items[i][0] == id && items[i][col] == x
      {
        if x !in Column(tail, id, col) {
          assert items[0][0] == id && items[0][col] == x;
        } else {
          var j :| 0 <= j < |tail| && tail[j][0] == id && tail[j][col] == x;
          assert items[j + 1] == tail[j];
        }
      }
    }
  }

  /** The column follows row order: the column of two runs of rows is the
      first run's column followed by the second's. */
  lemma {:induction false} ColumnAppend(first: seq<Row>, second: seq<Row>, id: Cell, col: nat)
    requires forall i :: 0 <= i < |first| ==> |first[i]| > col
    requires forall i :: 0 <= i < |second| ==> |second[i]| > col
    ensures forall i :: 0 <= i < |first + second| ==> |(first + second)[i]| > col
    ensures Column(first + second, id, col) == Column(first, id, col) + Column(second, id, col)
    decreases |first|
  {
    var all := first + second;
    if |first| == 0 {
      assert all == second;
    } else {
      assert all[0] == first[0];
      assert all[1..] == first[1..] + second;
      ColumnAppend(first[1..], second, id, col);
    }
  }

  /** The head of a column is the value in the first row with that id. */
  lemma {:induction false} ColumnHead(items: seq<Row>, id: Cell, col: nat, i: nat)
    requires forall k :: 0 <= k < |items| ==> |items[k]| > col
    requires i < |items| && items[i][0] == id
    requires forall k :: 0 <= k < i ==> items[k][0] != id
    ensures |Column(items, id, col)| > 0 && Column(items, id, col)[0] == items[i][col]
    decreases i
  {
    assert forall k :: 1 <= k < |items| ==> items[k] == items[1..][k - 1];
    if i > 0 {
      ColumnHead(items[1..], id, col, i - 1);
    }
  }

  /** Width check shared by the grouping sheets: every row must reach column `col`. */
  function CheckWidth(items: seq<Row>, col: nat): (r: Result<()>)
    ensures r.Success? <==> forall i :: 0 <= i < |items| ==> |items[i]| > col
    ensures r.Failure? ==> exists i :: 0 <= i < |items| && |items[i]| <= col && r.error == ShortRow(|items[i]|)
  {
    if |items| == 0 then Success(())
    else if |items[0]| <= col then Failure(ShortRow(|items[0]|))
    else
      assert forall i :: 1 <= i < |items| ==> items[i] == items[1..][i - 1];
      CheckWidth(items[1..], col)
  }

  /** The rule-sets of the rows: one per distinct id, containing the
      column-1 values of that id's rows in row order. */
  function GroupRuleSets(items: seq<Row>): (r: map<Cell, seq<Cell>>)
    requires forall i :: 0 <= i < |items| ==> |items[i]| >= 2
    ensures r.Keys == Ids(items)
    ensures forall id :: id in r ==> r[id] == Column(items, id, 1)
    ensures forall i :: 0 <= i < |items| ==> items[i][1] in r[items[i][0]]
    ensures forall id, x :: id in r && x in r[id] ==>
              exists i :: 0 <= i < |items| && items[i][0] == id && items[i][1] == x
  {
    var sets := map id | id in Ids(items) :: Column(items, id, 1);
    forall id | id in Ids(items)
      ensures forall i :: 0 <= i < |items| && items[i][0] == id ==> items[i][1] in sets[id]
      ensures forall x :: x in sets[id] ==> exists i :: 0 <= i < |items| && items[i][0] == id && items[i][1] == x
    {
      ColumnMembers(items, id, 1);
    }
    sets
  }

  /** `get_rulesests`: the rule-sets of the "rulesSets" sheet after its header rows. */
  function RuleSets(imports: map<string, seq<Row>>, drop: nat): (r: Result<map<Cell, seq<Cell>>>)
    ensures var items := Items(imports, "rulesSets", drop);
            r.Success? <==> forall i :: 0 <= i < |items| ==> |items[i]| >= 2
    ensures r.Success? ==> r.value == GroupRuleSets(Items(imports, "rulesSets", drop))
    ensures "rulesSets" !in imports ==> r == Success(map[])
  {
    var items := Items(imports, "rulesSets", drop);
    var _ :- CheckWidth(items, 1);
    Success(GroupRuleSets(items))
  }

  /** A rule header: the name of its conclusion and its premises. */
  datatype RuleRecord = RuleRecord(conclusion: Cell, premises: seq<Cell>)

  /** The rule of one id: the conclusion of its first row and the premises of all of them. */
  function Group(items: seq<Row>, id: Cell): (r: RuleRecord)
    requires forall i :: 0 <= i < |items| ==> |items[i]| >= 3
    requires id in Ids(items)
    ensures r.premises == Column(items, id, 2)
    ensures forall i :: 0 <= i < |items| && items[i][0] == id && (forall k :: 0 <= k < i ==> items[k][0] != id) ==>
              r.conclusion == items[i][1]
  {
    ColumnMembers(items, id, 1);
    var i :| 0 <= i < |items| && items[i][0] == id;
    assert items[i][1] in Column(items, id, 1);
    forall j | 0 <= j < |items| && items[j][0] == id && (forall k :: 0 <= k < j ==> items[k][0] != id)
      ensures Column(items, id, 1)[0] == items[j][1]
    {
      ColumnHead(items, id, 1, j);
    }
    RuleRecord(Column(items, id, 1)[0], Column(items, id, 2))
  }

  /** The rules of the rows: one per distinct id; its conclusion is column 1
      of the first row with that id and its premises are column 2 of all of
      them. */
  function GroupRules(items: seq<Row>): (r: map<Cell, RuleRecord>)
    requires forall i :: 0 <= i < |items| ==> |items[i]| >= 3
    ensures r.Keys == Ids(items)
    ensures forall id :: id in r ==> r[id] == Group(items, id) && r[id].premises == Column(items, id, 2)
  {
    map id | id in Ids(items) :: Group(items, id)
  }

  /** Read row by row: every row's column 2 is among its id's premises and
      every premise comes from such a row; the first row of an id gives the
      conclusion. */
  lemma GroupRulesRows(items: seq<Row>)
    requires forall i :: 0 <= i < |items| ==> |items[i]| >= 3
    ensures forall i :: 0 <= i < |items| ==> items[i][0] in GroupRules(items) && items[i][2] in GroupRules(items)[items[i][0]].premises
    ensures forall id, x :: id in GroupRules(items) && x in GroupRules(items)[id].premises ==>
              exists i :: 0 <= i < |items| && items[i][0] == id && items[i][2] == x
    ensures forall i :: 0 <= i < |items| && (forall k :: 0 <= k < i ==> items[k][0] != items[i][0]) ==>
              items[i][0] in GroupRules(items) && GroupRules(items)[items[i][0]].conclusion == items[i][1]
  {
    var rules := GroupRules(items);
    forall id | id in Ids(items)
      ensures forall i :: 0 <= i < |items| && items[i][0] == id ==> items[i][2] in rules[id].premises
      ensures forall x :: x in rules[id].premises ==> exists i :: 0 <= i < |items| && items[i][0] == id && items[i][2] == x
    {
      ColumnMembers(items, id, 2);
    }
    assert forall i :: 0 <= i < |items| ==> items[i][0] in Ids(items);
  }

  /** `get_rules`: the rules of the "rules" sheet after its header rows. */
  function Rules(imports: map<string, seq<Row>>, drop: nat): (r: Result<map<Cell, RuleRecord>>)
    ensures var items := Items(imports, "rules", drop);
            r.Success? <==> forall i :: 0 <= i < |items| ==> |items[i]| >= 3
    ensures r.Success? ==> r.value == GroupRules(Items(imports, "rules", drop))
    ensures "rules" !in imports ==> r == Success(map[])
  {
    var items := Items(imports, "rules", drop);
    var _ :- CheckWidth(items, 2);
    Success(GroupRules(items))
  }

  /** Appending rows to an id already present keeps its first conclusion
      and extends its premises. */
  lemma GroupExtend(first: seq<Row>, second: seq<Row>, id: Cell)
    requires forall i :: 0 <= i < |first| ==> |first[i]| >= 3
    requires forall i :: 0 <= i < |second| ==> |second[i]| >= 3
    requires id in Ids(first)
    ensures forall i :: 0 <= i < |first + second| ==> |(first + second)[i]| >= 3
    ensures id in Ids(first + second)
    ensures Group(first + second, id).conclusion == Group(first, id).conclusion
    ensures Group(first + second, id).premises == Group(first, id).premises + Column(second, id, 2)
  {
    var all := first + second;
    ColumnAppend(first, second, id, 1);
    ColumnAppend(first, second, id, 2);
    var i :| 0 <= i < |first| && first[i][0] == id;
    assert all[i] == first[i];
    assert id in Ids(all);
    ColumnMembers(first, id, 1);
    assert first[i][1] in Column(first, id, 1);
  }

  /** Later conclusion values of an id are ignored: appending rows with a
      known id leaves that rule's conclusion as it was and extends its
      premises with the new rows' column 2. */
  lemma RulesExtend(first: seq<Row>, second: seq<Row>, id: Cell)
    requires forall i :: 0 <= i < |first| ==> |first[i]| >= 3
    requires forall i :: 0 <= i < |second| ==> |second[i]| >= 3
    requires id in Ids(first)
    ensures forall i :: 0 <= i < |first + second| ==> |(first + second)[i]| >= 3
    ensures id in GroupRules(first) && id in GroupRules(first + second)
    ensures GroupRules(first + second)[id].conclusion == GroupRules(first)[id].conclusion
    ensures GroupRules(first + second)[id].premises == GroupRules(first)[id].premises + Column(second, id, 2)
  {
    GroupExtend(first, second, id);
    var all := first + second;
    assert GroupRules(all)[id] == Group(all, id);
    assert GroupRules(first)[id] == Group(first, id);
  }
}
