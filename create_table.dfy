/** `action_create_table`: the statement is the table name and the column
    definitions, both typed by the user, pasted into a fixed template. */
module CreateTable {
  import opened Wrappers
  import opened Text
  import opened Outcomes

  const Prefix: string := "CREATE TABLE IF NOT EXISTS "
  const Open: string := " ("
  const Close: string := ");"

  /** `f"CREATE TABLE IF NOT EXISTS {table_name} ({columns_def});"` */
  function CreateTableSql(name: string, defs: string): (sql: string)
    ensures StartsWith(sql, Prefix) && EndsWith(sql, Close)
    ensures |sql| == |Prefix| + |name| + |Open| + |defs| + |Close|
  {
    Prefix + name + Open + defs + Close
  }

  /** `pat` occurs in `s` at position `j`. */
  predicate MatchAt(s: string, pat: string, j: nat) {
    j + |pat| <= |s| && s[j..j + |pat|] == pat
  }

  /** The first position at or after `from` where `pat` occurs in `s`. */
  function FindFrom(s: string, pat: string, from: nat): (r: Option<nat>)
    requires from <= |s|
    ensures r.Some? ==> from <= r.value && MatchAt(s, pat, r.value)
    ensures r.Some? ==> forall j :: from <= j < r.value ==> !MatchAt(s, pat, j)
    ensures r.None? ==> forall j :: from <= j ==> !MatchAt(s, pat, j)
    decreases |s| - from
  {
    if from + |pat| > |s| then None
    else if s[from..from + |pat|] == pat then Some(from)
    else FindFrom(s, pat, from + 1)
  }

  /** Reads a CREATE TABLE statement of this template back into the table
      name (up to the first " (") and the column definitions. */
  function ParseCreateTable(sql: string): Option<(string, string)> {
    if |sql| < |Prefix| + |Close| || !StartsWith(sql, Prefix) || !EndsWith(sql, Close) then None
    else
      var body := sql[|Prefix|..|sql| - |Close|];
      match FindFrom(body, Open, 0)
      case None => None
      case Some(i) => Some((body[..i], body[i + |Open|..]))
  }

  /** The statement carries exactly the name and definitions typed, as long
      as the name itself does not contain " (" (it is pasted in verbatim,
      not quoted). */
  lemma {:induction false} CreateTableRoundTrip(name: string, defs: string)
    requires FindFrom(name, Open, 0).None?
    ensures ParseCreateTable(CreateTableSql(name, defs)) == Some((name, defs))
  {
    var sql := CreateTableSql(name, defs);
    var body := sql[|Prefix|..|sql| - |Close|];
    assert body == name + Open + defs;
    assert body[..|name|] == name;
    forall j | 0 <= j < |name|
      ensures !MatchAt(body, Open, j)
    {
      if j + 1 < |name| {
        assert !MatchAt(name, Open, j);
        assert body[j..j + |Open|] == body[..|name|][j..j + |Open|];
      } else {
        assert body[j + 1] == ' ';
      }
    }
    assert MatchAt(body, Open, |name|);
    FindFirst(body, Open, 0, |name|);
    assert body[|name| + |Open|..] == defs;
  }

  /** The search stops at the first occurrence. */
  lemma {:induction false} FindFirst(s: string, pat: string, from: nat, k: nat)
    requires from <= k && MatchAt(s, pat, k)
    requires forall j :: from <= j < k ==> !MatchAt(s, pat, j)
    ensures FindFrom(s, pat, from) == Some(k)
    decreases k - from
  {
    if from < k {
      FindFirst(s, pat, from + 1, k);
    }
  }

  /** `action_create_table` once the name and definitions have been read:
      without a connection nothing is executed; otherwise exactly the
      templated statement is executed and committed. */
  function RunCreateTable(connected: bool, name: string, defs: string): (out: Outcome)
    ensures !connected ==> out == NoDatabase
    ensures connected ==> out == Execute(CreateTableSql(name, defs), [])
    ensures connected ==> ParseCreateTable(out.sql).Some?
                          && (FindFrom(name, Open, 0).None? ==> ParseCreateTable(out.sql) == Some((name, defs)))
  {
    if !connected then NoDatabase
    else
      var sql := CreateTableSql(name, defs);
      ParseAnyCreateTable(name, defs);
      if FindFrom(name, Open, 0).None? then
        CreateTableRoundTrip(name, defs);
        Execute(sql, [])
      else
        Execute(sql, [])
  }

  /** Every statement of the template parses, whatever the name. */
  lemma ParseAnyCreateTable(name: string, defs: string)
    ensures ParseCreateTable(CreateTableSql(name, defs)).Some?
  {
    var sql := CreateTableSql(name, defs);
    var body := sql[|Prefix|..|sql| - |Close|];
    assert body == name + Open + defs;
    assert MatchAt(body, Open, |name|);
  }
}
