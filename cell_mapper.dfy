/**
 * The cell mapper of the upload handler: four fixed rules copy the first
 * column of rows 0, 4, 15 and 18 of the parsed table, rendered as text and
 * stripped, into cells B5, B2, B14 and B16 of the template's active sheet.
 * A rule whose row does not exist is skipped.
 */
module CellMapper {
  import opened Text

  /** A parsed CSV cell: some text, or pandas' missing value (NaN). */
  datatype Cell = Present(text: string) | Missing

  /** The parsed CSV, row by row; row 0 is data, not a header. */
  type Table = seq<seq<Cell>>

  /** A worksheet as a map from cell names such as `B5` to their text. */
  type Sheet = map<string, string>

  /** `str(cell)`: text prints as itself, a missing value as `nan`. */
  function Render(c: Cell): string {
    match c
    case Present(s) => s
    case Missing => "nan"
  }

  /**
   * Column 0 of a parsed row. pandas gives every row the full width, so a
   * parsed row always has a cell there; an empty row is read as missing by
   * convention only.
   */
  function FirstColumn(row: seq<Cell>): Cell {
    if |row| == 0 then Missing else row[0]
  }

  /** `str(df.iloc[row, 0]).strip()`: never starts or ends with whitespace. */
  function Extract(table: Table, row: nat): (v: string)
    requires row < |table|
    ensures NoOuterSpace(v)
  {
    Strip(Render(FirstColumn(table[row])))
  }

  /** A missing cell is written as the text `nan`. */
  lemma ExtractMissing(table: Table, row: nat)
    requires row < |table| && FirstColumn(table[row]) == Missing
    ensures Extract(table, row) == "nan"
  {
    assert [] + "nan" + [] == "nan";
    StripUnique([], "nan", []);
  }

  /** A text cell is written without the whitespace around it. */
  lemma ExtractPresent(table: Table, row: nat, lead: string, text: string, trail: string)
    requires row < |table| && FirstColumn(table[row]) == Present(lead + text + trail)
    requires AllSpace(lead) && AllSpace(trail) && NoOuterSpace(text)
    ensures Extract(table, row) == text
  {
    StripUnique(lead, text, trail);
  }

  /** A mapping rule: copy column 0 of `row` into the cell `target`. */
  datatype Rule = Rule(row: nat, target: string)

  /** The four rules, in the order the handler applies them. */
  const Rules: seq<Rule> := [Rule(0, "B5"), Rule(4, "B2"), Rule(15, "B14"), Rule(18, "B16")]

  const Targets: set<string> := {"B5", "B2", "B14", "B16"}

  /** `df.shape[0] >= row + 1`: the rule's row exists. */
  predicate Applies(rule: Rule, table: Table) {
    |table| >= rule.row + 1
  }

  /** One guarded block: write the rule's target when its row exists. */
  function Apply(rule: Rule, sheet: Sheet, table: Table): Sheet {
    if Applies(rule, table) then sheet[rule.target := Extract(table, rule.row)] else sheet
  }

  /** The blocks one after another. */
  function ApplyRules(rules: seq<Rule>, sheet: Sheet, table: Table): Sheet
    decreases |rules|
  {
    if rules == [] then sheet else ApplyRules(rules[1..], Apply(rules[0], sheet, table), table)
  }

  /** The sheet after the mapping block has run on `table`. */
  function Filled(sheet: Sheet, table: Table): Sheet {
    ApplyRules(Rules, sheet, table)
  }

  predicate DistinctTargets(rules: seq<Rule>) {
    forall i, j :: 0 <= i < j < |rules| ==> rules[i].target != rules[j].target
  }

  /** `k` holds the same value in both sheets, or is absent from both. */
  predicate SameAt(s: Sheet, s': Sheet, k: string) {
    (k !in s && k !in s') || (k in s && k in s' && s[k] == s'[k])
  }

  /** `k` is the target of one of the rules. */
  predicate IsTarget(rules: seq<Rule>, k: string) {
    exists i :: 0 <= i < |rules| && rules[i].target == k
  }

  /**
   * The cells the mapping writes: what it leaves in an empty sheet. They
   * depend on the table only.
   */
  function Written(table: Table): Sheet {
    Filled(map[], table)
  }

  /** Two sheets that agree at every cell name are equal. */
  lemma SameEverywhere(s: Sheet, s': Sheet)
    requires forall k :: SameAt(s, s', k)
    ensures s == s'
  {
    assert s.Keys == s'.Keys by {
      forall k ensures k in s <==> k in s' {
        assert SameAt(s, s', k);
      }
    }
    forall k | k in s ensures s[k] == s'[k] {
      assert SameAt(s, s', k);
    }
  }

  lemma RulesDistinct()
    ensures DistinctTargets(Rules)
  {
  }

  lemma TargetsOfRules(k: string)
    ensures IsTarget(Rules, k) <==> k in Targets
  {
    if k in Targets {
      assert Rules[0].target == "B5" && Rules[1].target == "B2";
      assert Rules[2].target == "B14" && Rules[3].target == "B16";
    }
  }

  lemma DistinctTail(rules: seq<Rule>)
    requires DistinctTargets(rules) && rules != []
    ensures DistinctTargets(rules[1..])
    ensures forall i :: 0 <= i < |rules| - 1 ==> rules[1..][i].target != rules[0].target
  {
    var rest := rules[1..];
    forall i, j | 0 <= i < j < |rest| ensures rest[i].target != rest[j].target {
      assert rest[i] == rules[i + 1] && rest[j] == rules[j + 1];
    }
    forall i | 0 <= i < |rest| ensures rest[i].target != rules[0].target {
      assert rest[i] == rules[i + 1];
    }
  }

  /** A cell that no rule targets keeps its value. */
  lemma {:induction false} ApplyRulesOther(rules: seq<Rule>, sheet: Sheet, table: Table, k: string)
    requires !IsTarget(rules, k)
    ensures SameAt(sheet, ApplyRules(rules, sheet, table), k)
    decreases |rules|
  {
    if rules != [] {
      assert rules[0].target != k;
      ApplyRulesOther(rules[1..], Apply(rules[0], sheet, table), table, k);
    }
  }

  /**
   * With distinct targets, rule `i` writes its target exactly when its row
   * exists, and otherwise leaves it as it was.
   */
  lemma {:induction false} ApplyRulesAt(rules: seq<Rule>, sheet: Sheet, table: Table, i: nat)
    requires DistinctTargets(rules) && i < |rules|
    ensures var r, rule := ApplyRules(rules, sheet, table), rules[i];
      && (Applies(rule, table) ==> rule.target in r && r[rule.target] == Extract(table, rule.row))
      && (!Applies(rule, table) ==> SameAt(sheet, r, rule.target))
    decreases |rules|
  {
    var s1 := Apply(rules[0], sheet, table);
    DistinctTail(rules);
    if i == 0 {
      ApplyRulesOther(rules[1..], s1, table, rules[0].target);
    } else {
      assert rules[1..][i - 1] == rules[i];
      ApplyRulesAt(rules[1..], s1, table, i - 1);
    }
  }

  /**
   * With distinct targets the result does not depend on the order of the
   * rules: any list holding the same rules gives the same sheet.
   */
  lemma OrderIrrelevant(rules: seq<Rule>, rules': seq<Rule>, sheet: Sheet, table: Table)
    requires DistinctTargets(rules) && DistinctTargets(rules')
    requires forall r :: r in rules <==> r in rules'
    ensures ApplyRules(rules, sheet, table) == ApplyRules(rules', sheet, table)
  {
    var a, b := ApplyRules(rules, sheet, table), ApplyRules(rules', sheet, table);
    forall k ensures SameAt(a, b, k) {
      if i :| 0 <= i < |rules| && rules[i].target == k {
        assert rules[i] in rules';
        var j :| 0 <= j < |rules'| && rules'[j] == rules[i];
        ApplyRulesAt(rules, sheet, table, i);
        ApplyRulesAt(rules', sheet, table, j);
      } else {
        assert !IsTarget(rules', k) by {
          forall j | 0 <= j < |rules'| ensures rules'[j].target != k {
            assert rules'[j] in rules;
          }
        }
        ApplyRulesOther(rules, sheet, table, k);
        ApplyRulesOther(rules', sheet, table, k);
      }
    }
    SameEverywhere(a, b);
  }

  /** Each rule writes its target exactly when its row exists. */
  lemma FilledAtRule(sheet: Sheet, table: Table, i: nat)
    requires i < |Rules|
    ensures var r, rule := Filled(sheet, table), Rules[i];
      && (Applies(rule, table) ==> rule.target in r && r[rule.target] == Extract(table, rule.row))
      && (!Applies(rule, table) ==> SameAt(sheet, r, rule.target))
  {
    RulesDistinct();
    ApplyRulesAt(Rules, sheet, table, i);
  }

  /** Every cell other than B5, B2, B14 and B16 keeps its template value. */
  lemma FilledKeepsOthers(sheet: Sheet, table: Table, k: string)
    requires k !in Targets
    ensures SameAt(sheet, Filled(sheet, table), k)
  {
    TargetsOfRules(k);
    ApplyRulesOther(Rules, sheet, table, k);
  }

  /**
   * The four rules spelled out: B5 is written when the table has at least 1
   * row, B2 at least 5, B14 at least 16 and B16 at least 19; a target whose
   * guard fails keeps its template value.
   */
  lemma FilledTargets(sheet: Sheet, table: Table)
    ensures var r := Filled(sheet, table);
      && (|table| >= 1 ==> "B5" in r && r["B5"] == Extract(table, 0))
      && (|table| >= 5 ==> "B2" in r && r["B2"] == Extract(table, 4))
      && (|table| >= 16 ==> "B14" in r && r["B14"] == Extract(table, 15))
      && (|table| >= 19 ==> "B16" in r && r["B16"] == Extract(table, 18))
      && (|table| < 1 ==> SameAt(sheet, r, "B5"))
      && (|table| < 5 ==> SameAt(sheet, r, "B2"))
      && (|table| < 16 ==> SameAt(sheet, r, "B14"))
      && (|table| < 19 ==> SameAt(sheet, r, "B16"))
  {
    FilledAtRule(sheet, table, 0);
    FilledAtRule(sheet, table, 1);
    FilledAtRule(sheet, table, 2);
    FilledAtRule(sheet, table, 3);
  }

  /**
   * The mapped sheet is the template overlaid with the written cells, which
   * are the four targets whose guards hold.
   */
  lemma FilledIsOverlay(sheet: Sheet, table: Table)
    ensures Written(table).Keys <= Targets
    ensures Filled(sheet, table) == sheet + Written(table)
  {
    var r, w := Filled(sheet, table), Written(table);
    forall k | k !in Targets ensures k !in w {
      FilledKeepsOthers(map[], table, k);
    }
    forall k ensures SameAt(r, sheet + w, k) {
      if k in Targets {
        TargetsOfRules(k);
        var i :| 0 <= i < |Rules| && Rules[i].target == k;
        FilledAtRule(sheet, table, i);
        FilledAtRule(map[], table, i);
      } else {
        FilledKeepsOthers(sheet, table, k);
      }
    }
    SameEverywhere(r, sheet + w);
  }

  /** Every written value is stripped: no leading or trailing whitespace. */
  lemma FilledValuesStripped(sheet: Sheet, table: Table, k: string)
    requires k in Written(table)
    ensures k in Filled(sheet, table) && NoOuterSpace(Filled(sheet, table)[k])
  {
    FilledIsOverlay(sheet, table);
    TargetsOfRules(k);
    var i :| 0 <= i < |Rules| && Rules[i].target == k;
    FilledAtRule(map[], table, i);
  }

  /** Mapping twice with the same table gives the sheet mapping once gives. */
  lemma FilledIdempotent(sheet: Sheet, table: Table)
    ensures Filled(Filled(sheet, table), table) == Filled(sheet, table)
  {
    FilledIsOverlay(sheet, table);
    FilledIsOverlay(Filled(sheet, table), table);
    var w := Written(table);
    assert (sheet + w) + w == sheet + w;
  }

  /** An empty table leaves the sheet unchanged. */
  lemma FilledEmptyTable(sheet: Sheet)
    ensures Filled(sheet, []) == sheet
  {
    FilledUnfolds(sheet, []);
  }

  /** A five-row table writes B5 and B2 and nothing else. */
  lemma FilledFiveRows(sheet: Sheet, table: Table)
    requires |table| == 5
    ensures Filled(sheet, table) == sheet["B5" := Extract(table, 0)]["B2" := Extract(table, 4)]
  {
    FilledUnfolds(sheet, table);
  }

  /**
   * A table of at least 19 rows writes all four targets, each with column 0
   * of its row, and changes nothing else.
   */
  lemma FilledFullTable(sheet: Sheet, table: Table)
    requires |table| >= 19
    ensures Filled(sheet, table) ==
      sheet["B5" := Extract(table, 0)]["B2" := Extract(table, 4)]["B14" := Extract(table, 15)]["B16" := Extract(table, 18)]
  {
    FilledUnfolds(sheet, table);
  }

  /** The cell mapper as the handler writes it: four guarded writes, in order. */
  class Worksheet {
    var cells: Sheet

    /** The active sheet of a freshly loaded template. */
    constructor (template: Sheet)
      ensures cells == template
    {
      cells := template;
    }

    /** `ws[coord] = value`. */
    method SetCell(coord: string, value: string)
      modifies this
      ensures cells == old(cells)[coord := value]
    {
      cells := cells[coord := value];
    }

    /** The mapping block of the upload handler. */
    method FillFrom(table: Table)
      modifies this
      ensures cells == Filled(old(cells), table)
    {
      ghost var s0 := cells;
      if |table| >= 1 {
        var valueA1 := Extract(table, 0);
        SetCell("B5", valueA1);
      }
      ghost var s1 := cells;
      if |table| >= 5 {
        var valueA5 := Extract(table, 4);
        SetCell("B2", valueA5);
      }
      ghost var s2 := cells;
      if |table| >= 16 {
        var valueA16 := Extract(table, 15);
        SetCell("B14", valueA16);
      }
      ghost var s3 := cells;
      if |table| >= 19 {
        var valueA19 := Extract(table, 18);
        SetCell("B16", valueA19);
      }
      FilledInSteps(table, s0, s1, s2, s3, cells);
    }
  }

  /** Four guarded writes, one per rule, make up the mapping. */
  lemma FilledInSteps(table: Table, s0: Sheet, s1: Sheet, s2: Sheet, s3: Sheet, s4: Sheet)
    requires s1 == Apply(Rule(0, "B5"), s0, table)
    requires s2 == Apply(Rule(4, "B2"), s1, table)
    requires s3 == Apply(Rule(15, "B14"), s2, table)
    requires s4 == Apply(Rule(18, "B16"), s3, table)
    ensures s4 == Filled(s0, table)
  {
    FilledUnfolds(s0, table);
  }

  /** The fold over the four rules, written out. */
  lemma FilledUnfolds(sheet: Sheet, table: Table)
    ensures Filled(sheet, table) ==
      Apply(Rule(18, "B16"), Apply(Rule(15, "B14"), Apply(Rule(4, "B2"), Apply(Rule(0, "B5"), sheet, table), table), table), table)
  {
    // The intermediate sheets and asserts spell out the unfolding step by
    // step; Dafny finds it alone too, but this keeps the proof stable across
    // solver seeds.
    var s1 := Apply(Rules[0], sheet, table);
    var s2 := Apply(Rule(4, "B2"), s1, table);
    var s3 := Apply(Rule(15, "B14"), s2, table);
    var s4 := Apply(Rule(18, "B16"), s3, table);
    assert Rules[1..][1..][1..][1..] == [];
    assert ApplyRules(Rules[1..][1..][1..][1..], s4, table) == s4;
    assert ApplyRules(Rules[1..][1..][1..], s3, table) == s4;
    assert ApplyRules(Rules[1..][1..], s2, table) == s4;
    assert ApplyRules(Rules[1..], s1, table) == s4;
  }
}
