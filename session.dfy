/** `main`: the menu loop and the one connection it threads through the
    actions. Choice "1" opens a connection to a path and replaces the
    current one (without closing it); "2" to "5" run an action that hands
    the connection back unchanged; "0" closes the connection, if any, and
    ends the loop; anything else is reported and the loop goes on. */
module Session {
  import opened Wrappers

  /** One pass of the loop: the choice `menu()` returned (already
      stripped) and, for choice "1", the path `input_non_empty` then read. */
  datatype Command = Command(choice: string, path: string)

  /** What the loop knows between passes: the path of the current
      connection, if any, and whether it goes on. */
  datatype State = State(db: Option<string>, running: bool)

  const Initial: State := State(None, true)

  /** One pass of the loop on a running session. */
  function Step(s: State, cmd: Command): (t: State)
    ensures t.running <==> cmd.choice != "0"
    ensures cmd.choice == "1" ==> t.db == Some(cmd.path)
    ensures cmd.choice != "1" ==> t.db == s.db
  {
    match cmd.choice
    case "1" => State(Some(cmd.path), true)
    case "0" => State(s.db, false)
    case _ => State(s.db, true)
  }

  /** The loop from `s` over `cmds`, until the commands run out or a "0"
      stops it. */
  function Run(s: State, cmds: seq<Command>): State
    decreases |cmds|
  {
    if cmds == [] || !s.running then s else Run(Step(s, cmds[0]), cmds[1..])
  }

  /** How many commands the loop reads. */
  function Consumed(s: State, cmds: seq<Command>): (n: nat)
    ensures n <= |cmds|
    decreases |cmds|
  {
    if cmds == [] || !s.running then 0 else 1 + Consumed(Step(s, cmds[0]), cmds[1..])
  }

  /** The index of the first "0" command, if any. */
  function FirstExit(cmds: seq<Command>): (r: Option<nat>)
    ensures r.Some? ==> r.value < |cmds| && cmds[r.value].choice == "0"
                        && forall j :: 0 <= j < r.value ==> cmds[j].choice != "0"
    ensures r.None? ==> forall j :: 0 <= j < |cmds| ==> cmds[j].choice != "0"
  {
    if cmds == [] then None
    else if cmds[0].choice == "0" then Some(0)
    else match FirstExit(cmds[1..])
         case None => None
         case Some(i) => Some(i + 1)
  }

  /** The reference for which connection is current: the path of the last
      "1" among `cmds`, or `db` when there is none. */
  function LastOpened(db: Option<string>, cmds: seq<Command>): Option<string> {
    if cmds == [] then db
    else
      var n := |cmds| - 1;
      if cmds[n].choice == "1" then Some(cmds[n].path) else LastOpened(db, cmds[..n])
  }

  /** The loop reads up to and including the first "0" and then stops;
      without a "0" it reads everything and is still running. */
  lemma {:induction false} RunStopsAtFirstExit(s: State, cmds: seq<Command>)
    requires s.running
    ensures FirstExit(cmds).Some? ==>
              Consumed(s, cmds) == FirstExit(cmds).value + 1 && !Run(s, cmds).running
    ensures FirstExit(cmds).None? ==> Consumed(s, cmds) == |cmds| && Run(s, cmds).running
    decreases |cmds|
  {
    if cmds != [] && cmds[0].choice != "0" {
      RunStopsAtFirstExit(Step(s, cmds[0]), cmds[1..]);
    }
  }

  /** Commands after the "0" are never looked at. */
  lemma {:induction false} RunIgnoresRest(s: State, cmds: seq<Command>, more: seq<Command>)
    requires s.running && FirstExit(cmds).Some?
    ensures Run(s, cmds + more) == Run(s, cmds)
    ensures Consumed(s, cmds + more) == Consumed(s, cmds)
    decreases |cmds|
  {
    assert (cmds + more)[0] == cmds[0];
    assert (cmds + more)[1..] == cmds[1..] + more;
    if cmds[0].choice != "0" {
      RunIgnoresRest(Step(s, cmds[0]), cmds[1..], more);
    }
  }

  /** The connection the loop ends with is the one opened last among the
      commands it read; the other choices never change it. */
  lemma {:induction false} RunKeepsLastOpened(s: State, cmds: seq<Command>)
    ensures Run(s, cmds).db == LastOpened(s.db, cmds[..Consumed(s, cmds)])
    decreases |cmds|
  {
    if cmds != [] && s.running {
      var t := Step(s, cmds[0]);
      RunKeepsLastOpened(t, cmds[1..]);
      var k := Consumed(t, cmds[1..]);
      assert cmds[..Consumed(s, cmds)] == [cmds[0]] + cmds[1..][..k];
      LastOpenedCons(s.db, cmds[0], cmds[1..][..k]);
    } else {
      assert cmds[..Consumed(s, cmds)] == [];
    }
  }

  /** `LastOpened` over a command followed by more commands. */
  lemma {:induction false} LastOpenedCons(db: Option<string>, c: Command, cmds: seq<Command>)
    ensures LastOpened(db, [c] + cmds) == LastOpened(Step(State(db, true), c).db, cmds)
    decreases |cmds|
  {
    if cmds != [] {
      var n := |cmds| - 1;
      assert ([c] + cmds)[..n + 1] == [c] + cmds[..n];
      LastOpenedCons(db, c, cmds[..n]);
    }
  }

  /** A database connection; `connect_to_db` opens one, `close` closes it. */
  class Connection {
    const path: string
    var isOpen: bool

    constructor Open(path: string)
      ensures this.path == path && isOpen
    {
      this.path := path;
      isOpen := true;
    }

    method Close()
      modifies this
      ensures !isOpen
    {
      isOpen := false;
    }
  }

  /** The loop's own variables: `conn` and whether it has stopped. */
  class Session {
    var conn: Connection?
    var running: bool

    constructor ()
      ensures conn == null && running
    {
      conn := null;
      running := true;
    }

    function View(): State
      reads this
    {
      State(if conn == null then None else Some(conn.path), running)
    }

    /** One pass of the loop, the action behind the choice abstracted to
        its effect on the connection. Opening a new connection leaves the
        previous one as it was, open if it was open. */
    method Dispatch(cmd: Command)
      requires running
      modifies this, conn
      ensures View() == Step(old(View()), cmd)
      ensures cmd.choice == "1" ==>
                fresh(conn) && conn.isOpen
                && (old(conn) != null ==> old(conn).isOpen == old(conn.isOpen))
      ensures cmd.choice == "0" ==> conn == old(conn) && (conn != null ==> !conn.isOpen)
      ensures cmd.choice != "1" && cmd.choice != "0" ==>
                conn == old(conn) && (conn != null ==> conn.isOpen == old(conn.isOpen))
    {
      if cmd.choice == "1" {
        conn := new Connection.Open(cmd.path);
      } else if cmd.choice == "0" {
        if conn != null {
          conn.Close();
        }
        running := false;
      }
    }
  }

  /** `main`: a fresh session, then passes of the loop until a "0" or the
      end of the commands. The state it ends in is `Run` from the initial
      state; once stopped, the last connection is closed, and while it runs
      the current connection is open. */
  method RunMenu(cmds: seq<Command>) returns (session: Session, consumed: nat)
    ensures fresh(session)
    ensures consumed == Consumed(Initial, cmds)
    ensures session.View() == Run(Initial, cmds)
    ensures !session.running ==> session.conn != null ==> !session.conn.isOpen
    ensures session.running ==> session.conn != null ==> session.conn.isOpen
  {
    session := new Session();
    consumed := 0;
    while consumed < |cmds| && session.running
      invariant consumed <= |cmds|
      invariant fresh(session) && (session.conn != null ==> fresh(session.conn))
      invariant Run(session.View(), cmds[consumed..]) == Run(Initial, cmds)
      invariant consumed + Consumed(session.View(), cmds[consumed..]) == Consumed(Initial, cmds)
      invariant !session.running ==> session.conn != null ==> !session.conn.isOpen
      invariant session.running ==> session.conn != null ==> session.conn.isOpen
    {
      assert cmds[consumed..][1..] == cmds[consumed + 1..];
      session.Dispatch(cmds[consumed]);
      consumed := consumed + 1;
    }
  }
}
