/** The table list: `action_list_tables`, the numbered menu that
    `action_insert_row` prints, and how the user's answer to that menu is
    resolved to a table name. The table names themselves come from the
    engine's schema catalog and are given as a sequence. */
module TableList {
  import opened Text
  import opened Outcomes

  const EmptyMessage: string := "Nincs tábla az adatbázisban."
  const ListHeading: string := "Táblák az adatbázisban:"

  /** `action_list_tables` once connected: the empty message, or a heading
      and one "  - name" line per table, in catalog order. */
  function ListTables(connected: bool, tables: seq<string>): (out: Outcome)
    ensures !connected ==> out == NoDatabase
    ensures connected ==> out.Listing?
    ensures connected && tables == [] ==> out.lines == [EmptyMessage]
    ensures connected && tables != [] ==>
              |out.lines| == |tables| + 1 && out.lines[0] == ListHeading
              && forall i :: 0 <= i < |tables| ==> out.lines[i + 1] == "  - " + tables[i]
  {
    if !connected then NoDatabase
    else if tables == [] then Listing([EmptyMessage])
    else Listing([ListHeading] + seq(|tables|, i requires 0 <= i < |tables| => "  - " + tables[i]))
  }

  /** The menu line for the table at 1-based position `n`: "  n) name". */
  function ChoiceLine(n: nat, name: string): string {
    "  " + NatToString(n) + ") " + name
  }

  /** The numbered menu `action_insert_row` prints, numbering from 1. */
  function ChoiceLines(tables: seq<string>): (lines: seq<string>)
    ensures |lines| == |tables|
  {
    seq(|tables|, i requires 0 <= i < |tables| => ChoiceLine(i + 1, tables[i]))
  }

  /** The answer to the menu picks a table by its number when it is all
      digits and within 1..|tables|; any other answer is taken as the table
      name itself. */
  function ResolveTable(tables: seq<string>, choice: string): (name: string)
    ensures name == choice || name in tables
  {
    if IsDigits(choice) && 1 <= ParseNat(choice) <= |tables| then tables[ParseNat(choice) - 1]
    else choice
  }

  /** A number in range picks the table at that 1-based position. */
  lemma ResolveNumber(tables: seq<string>, choice: string)
    requires IsDigits(choice) && 1 <= ParseNat(choice) <= |tables|
    ensures ResolveTable(tables, choice) == tables[ParseNat(choice) - 1]
  {
  }

  /** Anything else (not all digits, 0, or past the end) is used verbatim,
      even when it is no table's name. */
  lemma ResolveVerbatim(tables: seq<string>, choice: string)
    requires !IsDigits(choice) || ParseNat(choice) == 0 || ParseNat(choice) > |tables|
    ensures ResolveTable(tables, choice) == choice
  {
  }

  /** Typing the number printed in front of a table selects that table. */
  lemma {:induction false} ShownNumberSelectsTable(tables: seq<string>, n: nat)
    requires 1 <= n <= |tables|
    ensures ChoiceLines(tables)[n - 1] == ChoiceLine(n, tables[n - 1])
    ensures ResolveTable(tables, NatToString(n)) == tables[n - 1]
  {
    ParseNatToString(n);
  }

  /** Leading zeros do not matter: "01" picks the first table. */
  lemma LeadingZero(tables: seq<string>)
    requires |tables| > 0
    ensures ResolveTable(tables, "01") == tables[0]
  {
    assert ParseNat("01"[..1]) == 0;
  }
}
