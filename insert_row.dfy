/** `action_insert_row`: one value is asked for each column of the chosen
    table, in the order `PRAGMA table_info` lists them; blank answers are
    left out; the rest become a parameterised INSERT. The table list and
    each table's column names are given; the engine's answer to the
    statement is not modelled. */
module InsertRow {
  import opened Wrappers
  import opened Text
  import opened Outcomes
  import opened TableList

  /** One entry of the `values` dict: column name and value. */
  type Entry = (string, string)

  function Keys(d: seq<Entry>): (ks: seq<string>)
    ensures |ks| == |d| && forall i :: 0 <= i < |d| ==> ks[i] == d[i].0
  {
    seq(|d|, i requires 0 <= i < |d| => d[i].0)
  }

  function Values(d: seq<Entry>): (vs: seq<string>)
    ensures |vs| == |d| && forall i :: 0 <= i < |d| ==> vs[i] == d[i].1
  {
    seq(|d|, i requires 0 <= i < |d| => d[i].1)
  }

  predicate Distinct(s: seq<string>) {
    forall i, j :: 0 <= i < j < |s| ==> s[i] != s[j]
  }

  /** `d[k] = v` on an insertion-ordered dict kept as a list of entries
      with distinct keys: an existing key keeps its place and takes the new
      value; a new key goes at the end. */
  function DictSet(d: seq<Entry>, k: string, v: string): (r: seq<Entry>)
    requires Distinct(Keys(d))
    ensures Distinct(Keys(r))
    ensures k !in Keys(d) ==> r == d + [(k, v)]
    ensures k in Keys(d) ==> |r| == |d| && forall i :: 0 <= i < |d| ==> r[i] == if d[i].0 == k then (k, v) else d[i]
  {
    if d == [] then [(k, v)]
    else if d[0].0 == k then [(k, v)] + d[1..]
    else
      assert Keys(d[1..]) == Keys(d)[1..];
      [d[0]] + DictSet(d[1..], k, v)
  }

  /** Every answer stripped, as the loop does before testing it. */
  function Stripped(inputs: seq<string>): (answers: seq<string>)
    ensures |answers| == |inputs| && forall i :: 0 <= i < |inputs| ==> answers[i] == Trim(inputs[i])
  {
    seq(|inputs|, i requires 0 <= i < |inputs| => Trim(inputs[i]))
  }

  /** The positions of the non-empty (stripped) answers, in column order. */
  function KeptIndices(answers: seq<string>): (ks: seq<nat>)
    ensures forall k :: 0 <= k < |ks| ==> ks[k] < |answers| && answers[ks[k]] != ""
  {
    if answers == [] then []
    else
      var n := |answers| - 1;
      var init := KeptIndices(answers[..n]);
      if answers[n] != "" then init + [n] else init
  }

  /** Those positions are increasing, and every non-empty answer has one. */
  lemma {:induction false} KeptIndicesComplete(answers: seq<string>)
    ensures var ks := KeptIndices(answers);
            && (forall k, l :: 0 <= k < l < |ks| ==> ks[k] < ks[l])
            && (forall j :: 0 <= j < |answers| && answers[j] != "" ==> j in ks)
  {
    if answers != [] {
      var n := |answers| - 1;
      KeptIndicesComplete(answers[..n]);
      assert forall j :: 0 <= j < n ==> answers[..n][j] == answers[j];
    }
  }

  /** The reference for what gets inserted: for each non-empty answer, in
      column order, its column and the answer. */
  function Kept(columns: seq<string>, answers: seq<string>): (d: seq<Entry>)
    requires |columns| == |answers|
    ensures |d| == |KeptIndices(answers)|
  {
    var ks := KeptIndices(answers);
    seq(|ks|, k requires 0 <= k < |ks| => (columns[ks[k]], answers[ks[k]]))
  }

  /** The `values` dict after the loop has seen the given columns and
      answers. */
  function Collected(columns: seq<string>, inputs: seq<string>): (d: seq<Entry>)
    requires |columns| == |inputs|
    ensures Distinct(Keys(d))
  {
    if columns == [] then []
    else
      var n := |columns| - 1;
      var d := Collected(columns[..n], inputs[..n]);
      var val := Trim(inputs[n]);
      if val != "" then DictSet(d, columns[n], val) else d
  }

  /** Taking one more column into account adds its entry at the end, if
      its answer is non-empty. */
  lemma KeptSnoc(columns: seq<string>, answers: seq<string>)
    requires |columns| == |answers| > 0
    ensures var n := |answers| - 1;
            Kept(columns, answers)
            == Kept(columns[..n], answers[..n]) + (if answers[n] != "" then [(columns[n], answers[n])] else [])
  {
    var n := |answers| - 1;
    var before := Kept(columns[..n], answers[..n]);
    var ks := KeptIndices(answers[..n]);
    var after := Kept(columns, answers);
    assert forall k :: 0 <= k < |ks| ==> before[k] == (columns[ks[k]], answers[ks[k]]);
    if answers[n] != "" {
      assert KeptIndices(answers) == ks + [n];
      assert forall k :: 0 <= k < |ks| ==> after[k] == before[k];
      assert after == before + [(columns[n], answers[n])];
    } else {
      assert KeptIndices(answers) == ks;
    }
  }

  /** With distinct column names, the last column is not among those kept
      before it. */
  lemma NewColumnNotKept(columns: seq<string>, answers: seq<string>)
    requires |columns| == |answers| > 0 && Distinct(columns)
    ensures var n := |columns| - 1;
            columns[n] !in Keys(Kept(columns[..n], answers[..n]))
  {
    var n := |columns| - 1;
    var before := Kept(columns[..n], answers[..n]);
    var ks := KeptIndices(answers[..n]);
    forall k | 0 <= k < |before|
      ensures Keys(before)[k] != columns[n]
    {
      assert ks[k] < n && Keys(before)[k] == columns[ks[k]];
    }
  }

  /** With distinct column names (SQLite refuses a table with two columns
      of one name), the dict holds exactly the non-blank answers, stripped,
      in column order. */
  lemma {:induction false} CollectedIsKept(columns: seq<string>, inputs: seq<string>)
    requires |columns| == |inputs| && Distinct(columns)
    ensures Collected(columns, inputs) == Kept(columns, Stripped(inputs))
  {
    if columns != [] {
      var n := |columns| - 1;
      var answers := Stripped(inputs);
      assert Stripped(inputs[..n]) == answers[..n];
      CollectedIsKept(columns[..n], inputs[..n]);
      KeptSnoc(columns, answers);
      var before := Kept(columns[..n], answers[..n]);
      assert Collected(columns[..n], inputs[..n]) == before;
      assert answers[n] == Trim(inputs[n]);
      if answers[n] == "" {
        assert Collected(columns, inputs) == before;
      } else {
        NewColumnNotKept(columns, answers);
        assert Collected(columns, inputs) == DictSet(before, columns[n], answers[n]);
      }
    }
  }

  /** The loop of `action_insert_row` that reads one answer per column,
      strips it, and records it under the column's name unless blank. */
  method CollectValues(columns: seq<string>, inputs: seq<string>) returns (values: seq<Entry>)
    requires |columns| == |inputs|
    ensures values == Collected(columns, inputs)
    ensures Distinct(columns) ==> values == Kept(columns, Stripped(inputs))
  {
    values := [];
    var i := 0;
    while i < |columns|
      invariant 0 <= i <= |columns|
      invariant values == Collected(columns[..i], inputs[..i])
    {
      assert columns[..i + 1][..i] == columns[..i] && inputs[..i + 1][..i] == inputs[..i];
      var val := Trim(inputs[i]);
      ghost var next := Collected(columns[..i + 1], inputs[..i + 1]);
      assert next == if val != "" then DictSet(values, columns[i], val) else values;
      if val != "" {
        values := DictSet(values, columns[i], val);
      }
      i := i + 1;
    }
    assert columns[..|columns|] == columns && inputs[..|inputs|] == inputs;
    if Distinct(columns) {
      CollectedIsKept(columns, inputs);
    }
  }

  /** `", ".join(["?"] * n)` */
  function Placeholders(n: nat): string {
    Join(seq(n, _ => "?"), ", ")
  }

  /** `f"INSERT INTO {table_name} ({cols_part}) VALUES ({placeholders});"` */
  function InsertSql(table: string, cols: seq<string>): string {
    "INSERT INTO " + table + " (" + Join(cols, ", ") + ") VALUES (" + Placeholders(|cols|) + ");"
  }

  /** The end of `action_insert_row`: nothing at all is executed when every
      answer was blank; otherwise the statement names the dict's columns
      and binds its values, in the same order. */
  function BuildInsert(table: string, values: seq<Entry>): (out: Outcome)
    ensures out == NothingToInsert <==> values == []
    ensures out.Execute? <==> values != []
    ensures out.Execute? ==>
              && |out.params| == |values|
              && Count(Placeholders(|values|), '?') == |out.params|
              && (forall k :: 0 <= k < |values| ==>
                    out.params[k] == values[k].1)
              && out.sql == InsertSql(table, Keys(values))
  {
    PlaceholderCount(|values|);
    if values == [] then NothingToInsert
    else Execute(InsertSql(table, Keys(values)), Values(values))
  }

  /** How many times `c` occurs in `s`. */
  function Count(s: string, c: char): nat {
    if s == [] then 0 else (if s[0] == c then 1 else 0) + Count(s[1..], c)
  }

  lemma {:induction false} CountAppend(a: string, b: string, c: char)
    ensures Count(a + b, c) == Count(a, c) + Count(b, c)
  {
    if a != [] {
      assert a + b != [] && (a + b)[0] == a[0];
      assert (a + b)[1..] == a[1..] + b;
      CountAppend(a[1..], b, c);
      assert Count(a + b, c) == (if a[0] == c then 1 else 0) + Count(a[1..] + b, c);
    } else {
      assert a + b == b;
    }
  }

  /** The placeholder list holds exactly `n` question marks. */
  lemma {:induction false} PlaceholderCount(n: nat)
    ensures Count(Placeholders(n), '?') == n
  {
    if n > 1 {
      var qs := seq(n, _ => "?");
      assert qs[1..] == seq(n - 1, _ => "?");
      assert Placeholders(n) == "?" + ", " + Placeholders(n - 1);
      PlaceholderCount(n - 1);
      CountAppend("?" + ", ", Placeholders(n - 1), '?');
      assert Count("?, ", '?') == 1 by {
        assert "?, "[1..] == ", " && ", "[1..] == " " && " "[1..] == "";
      }
    } else if n == 1 {
      assert Placeholders(1) == "?";
      assert "?"[1..] == "";
    }
  }

  /** What `action_insert_row` hands to the engine for the given answers:
      nothing when all are blank; otherwise one `?` per bound value, the
      k-th named column being the one of the k-th non-blank answer and the
      k-th value that answer stripped. */
  lemma InsertMatchesAnswers(table: string, columns: seq<string>, inputs: seq<string>)
    requires |columns| == |inputs| && Distinct(columns)
    ensures var out := BuildInsert(table, Collected(columns, inputs));
            && (out == NothingToInsert <==> forall j :: 0 <= j < |inputs| ==> Trim(inputs[j]) == "")
            && InsertsKept(out, table, columns, Stripped(inputs))
  {
    CollectedIsKept(columns, inputs);
    NonBlankIffCollected(columns, inputs);
    KeptStatement(table, columns, Stripped(inputs));
  }

  /** An executed INSERT binds, in order, the non-empty answers, one `?`
      each, and names for each the column it was typed for. */
  predicate InsertsKept(out: Outcome, table: string, columns: seq<string>, answers: seq<string>)
    requires |columns| == |answers|
  {
    var ks := KeptIndices(answers);
    out.Execute? ==>
      && |out.params| == |ks|
      && Count(Placeholders(|ks|), '?') == |out.params|
      && (forall k :: 0 <= k < |ks| ==> out.params[k] == answers[ks[k]])
      && out.sql == InsertSql(table, seq(|ks|, k requires 0 <= k < |ks| => columns[ks[k]]))
  }

  /** The statement built from the reference selection of answers. */
  lemma KeptStatement(table: string, columns: seq<string>, answers: seq<string>)
    requires |columns| == |answers|
    ensures InsertsKept(BuildInsert(table, Kept(columns, answers)), table, columns, answers)
  {
    var ks := KeptIndices(answers);
    PlaceholderCount(|ks|);
    assert Keys(Kept(columns, answers)) == seq(|ks|, k requires 0 <= k < |ks| => columns[ks[k]]);
  }

  /** The table's column names as `PRAGMA table_info` lists them; a name
      the catalog does not know has none. */
  function ColumnsOf(catalog: map<string, seq<string>>, table: string): seq<string> {
    if table in catalog then catalog[table] else []
  }

  /** `action_insert_row` as a whole. `choice` is the answer to the table
      menu, `inputs` the lines typed for the columns; running out of lines
      before every column was asked for is end of input. */
  method RunInsertRow(connected: bool, tables: seq<string>, choice: string,
                      catalog: map<string, seq<string>>, inputs: seq<string>) returns (out: Outcome)
    ensures !connected ==> out == NoDatabase
    ensures connected && tables == [] ==> out == NoTables
    ensures connected && tables != [] && ColumnsOf(catalog, ResolveTable(tables, choice)) == [] ==>
              out == NoSuchTable(ResolveTable(tables, choice))
    ensures out.Execute? ==>
              var table := ResolveTable(tables, choice);
              var cols := ColumnsOf(catalog, table);
              && connected && tables != [] && 0 < |cols| <= |inputs|
              && (exists j :: 0 <= j < |cols| && Trim(inputs[j]) != "")
              && var values := Collected(cols, inputs[..|cols|]);
                 && out.sql == InsertSql(table, Keys(values))
                 && out.params == Values(values)
    ensures out == NothingToInsert ==>
              var cols := ColumnsOf(catalog, ResolveTable(tables, choice));
              |cols| <= |inputs| && forall j :: 0 <= j < |cols| ==> Trim(inputs[j]) == ""
    ensures connected && tables != [] ==>
              var table := ResolveTable(tables, choice);
              var cols := ColumnsOf(catalog, table);
              0 < |cols| <= |inputs| ==> out == BuildInsert(table, Collected(cols, inputs[..|cols|]))
    ensures out == EndOfInput <==>
              connected && tables != [] && |inputs| < |ColumnsOf(catalog, ResolveTable(tables, choice))|
  {
    if !connected {
      return NoDatabase;
    }
    if tables == [] {
      return NoTables;
    }
    var table := ResolveTable(tables, choice);
    var cols := ColumnsOf(catalog, table);
    if cols == [] {
      return NoSuchTable(table);
    }
    if |inputs| < |cols| {
      return EndOfInput;
    }
    var answers := inputs[..|cols|];
    var values := CollectValues(cols, answers);
    NonBlankIffCollected(cols, answers);
    out := BuildInsert(table, values);
  }

  /** The dict ends up empty exactly when every answer was blank. */
  lemma {:induction false} NonBlankIffCollected(columns: seq<string>, inputs: seq<string>)
    requires |columns| == |inputs|
    ensures Collected(columns, inputs) == [] <==> forall j :: 0 <= j < |inputs| ==> Trim(inputs[j]) == ""
  {
    if columns != [] {
      var n := |columns| - 1;
      NonBlankIffCollected(columns[..n], inputs[..n]);
      assert forall j :: 0 <= j < n ==> inputs[..n][j] == inputs[j];
    }
  }
}
