/** `action_select_query`: the only check a query passes before it is sent
    to the engine is that, stripped and lower-cased, it starts with
    "select". */
module SelectQuery {
  import opened Text
  import opened Outcomes

  const Keyword: string := "select"

  /** `query.strip().lower().startswith("select")` */
  predicate IsSelectQuery(query: string) {
    StartsWith(Lower(Trim(query)), Keyword)
  }

  /** The gate, character by character: the stripped query has at least six
      characters and they spell "select" in any mix of upper and lower
      case. */
  lemma GateSpelledOut(query: string)
    ensures IsSelectQuery(query) <==>
              |Trim(query)| >= 6 && forall i :: 0 <= i < 6 ==> LowerChar(Trim(query)[i]) == Keyword[i]
  {
    var t := Trim(query);
    if |t| >= 6 && forall i :: 0 <= i < 6 ==> LowerChar(t[i]) == Keyword[i] {
      assert Lower(t)[..6] == Keyword;
    }
    if IsSelectQuery(query) {
      forall i | 0 <= i < 6
        ensures LowerChar(t[i]) == Keyword[i]
      {
        assert Lower(t)[..6][i] == Keyword[i];
      }
    }
  }

  /** The gate only looks at the start: whatever follows an accepted query,
      including a second statement after a semicolon, is accepted too. */
  lemma GateIgnoresSuffix(query: string, rest: string)
    requires IsSelectQuery(query)
    ensures IsSelectQuery(query + rest)
  {
    var a := Trim(query);
    var b := Trim(query + rest);
    TrimKeepsPrefix(query, rest);
    LowerKeepsPrefix(a, b);
    StartsWithExtends(Lower(a), Lower(b), Keyword);
  }

  /** Lower-casing commutes with taking a prefix. */
  lemma LowerKeepsPrefix(a: string, b: string)
    requires a <= b
    ensures Lower(a) <= Lower(b)
  {
    assert forall i :: 0 <= i < |a| ==> Lower(a)[i] == LowerChar(b[i]) == Lower(b)[i];
  }

  /** Whitespace in front of the query is ignored. */
  lemma GateIgnoresLeadingSpace(c: char, query: string)
    requires IsSpace(c)
    ensures IsSelectQuery([c] + query) == IsSelectQuery(query)
  {
    TrimIgnoresLeadingSpace(c, query);
  }

  /** A DROP statement is refused. */
  lemma GateRefusesDrop()
    ensures !IsSelectQuery("DROP TABLE x")
  {
    var q := "DROP TABLE x";
    assert !IsSpace(q[0]) && !IsSpace(q[|q| - 1]);
    assert Trim(q) == q;
    assert Lower(q)[0] == 'd';
  }

  /** Upper case is folded before the comparison. */
  lemma GateFoldsCase()
    ensures IsSelectQuery("SELECT 1")
  {
    var t := "SELECT 1";
    TrimmedIsFixed(t);
    var l := Lower(t);
    assert l[0] == 's' && l[1] == 'e' && l[2] == 'l' && l[3] == 'e' && l[4] == 'c' && l[5] == 't';
    assert l[..6] == Keyword;
  }

  /** An upper-case SELECT after blanks is accepted. */
  lemma GateStripsFirst()
    ensures IsSelectQuery("  SELECT 1")
  {
    var t := "SELECT 1";
    var q := [' '] + ([' '] + t);
    assert q == "  SELECT 1";
    GateFoldsCase();
    GateIgnoresLeadingSpace(' ', t);
    GateIgnoresLeadingSpace(' ', [' '] + t);
  }

  /** The bare keyword passes the gate. */
  lemma GateAcceptsKeyword()
    ensures IsSelectQuery(Keyword)
  {
    TrimmedIsFixed(Keyword);
    var l := Lower(Keyword);
    assert l[0] == 's' && l[1] == 'e' && l[2] == 'l' && l[3] == 'e' && l[4] == 'c' && l[5] == 't';
    assert l[..6] == Keyword;
  }

  /** A SELECT followed by a second statement is accepted as well: the gate
      does not stop statement chaining. */
  lemma GateAcceptsChained()
    ensures IsSelectQuery("select 1; DROP TABLE x")
  {
    var rest := " 1; DROP TABLE x";
    assert Keyword + rest == "select 1; DROP TABLE x";
    GateAcceptsKeyword();
    GateIgnoresSuffix(Keyword, rest);
  }

  /** `action_select_query` once the query has been read: without a
      connection nothing happens; a query the gate refuses is reported and
      not executed; any other query is executed exactly as typed, without
      parameters. */
  function RunSelect(connected: bool, query: string): (out: Outcome)
    ensures out.Execute? <==> connected && IsSelectQuery(query)
    ensures out.Execute? ==> out.sql == query && out.params == []
    ensures !connected ==> out == NoDatabase
    ensures connected && !IsSelectQuery(query) ==> out == OnlySelectAllowed
  {
    if !connected then NoDatabase
    else if !IsSelectQuery(query) then OnlySelectAllowed
    else Execute(query, [])
  }
}
