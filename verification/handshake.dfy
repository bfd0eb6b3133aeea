/** The telnet password exchange in the `LinearTouchPhidgetManager`
    constructor, with the socket replaced by the finite sequence of lines
    the server sends before it closes the stream. */
module Handshake {

  /** The one server line that rejects the password. */
  const WrongPassword: string := "Wrong password"

  /** What reading the greeting produced: the server lines copied to the
      log, and whether the rejection line ended the read. */
  datatype Greeting = Greeting(logged: seq<string>, rejected: bool)

  /** The read loop: every line is logged, and only a line exactly equal
      to `WrongPassword` stops it before the end of input. */
  function ReadGreeting(lines: seq<string>): (g: Greeting)
    ensures g.rejected <==> WrongPassword in lines
    ensures g.logged <= lines
    ensures !g.rejected ==> g.logged == lines
    ensures g.rejected ==>
              && 0 < |g.logged|
              && g.logged[|g.logged| - 1] == WrongPassword
              && WrongPassword !in g.logged[..|g.logged| - 1]
    decreases |lines|
  {
    if lines == [] then Greeting([], false)
    else if lines[0] == WrongPassword then Greeting([lines[0]], true)
    else
      var rest := ReadGreeting(lines[1..]);
      assert lines == [lines[0]] + lines[1..];
      var g := Greeting([lines[0]] + rest.logged, rest.rejected);
      assert g.rejected ==> g.logged[..|g.logged| - 1] == [lines[0]] + rest.logged[..|rest.logged| - 1];
      g
  }

  /** The state of the connection once the constructor has finished or thrown. */
  datatype Connection = Connection(
    sent: seq<string>,           // lines written to the server
    logged: seq<string>,         // server lines copied to the log
    authenticated: bool,         // the constructor returned normally
    listening: bool,             // attach and detach listeners were registered
    socketOpen: bool             // the socket is still open
  )

  /** Write the password, then read the greeting. A rejection closes the
      socket and throws before any listener is registered. */
  function Connect(password: string, lines: seq<string>): (c: Connection)
    ensures c.sent == [password]
    ensures c.authenticated <==> WrongPassword !in lines
    ensures c.listening <==> c.authenticated
    ensures c.socketOpen <==> c.authenticated
    ensures c.authenticated ==> c.logged == lines
    ensures !c.authenticated ==>
              && c.logged <= lines
              && 0 < |c.logged|
              && c.logged[|c.logged| - 1] == WrongPassword
              && WrongPassword !in c.logged[..|c.logged| - 1]
  {
    var g := ReadGreeting(lines);
    Connection([password], g.logged, !g.rejected, !g.rejected, !g.rejected)
  }

  /** The logged lines are a function of the first rejection alone: a
      rejected greeting is logged up to and including its first
      `WrongPassword`, whatever the server would have sent after it. */
  lemma {:induction false} LoggedUpToFirstRejection(prefix: seq<string>, rest: seq<string>)
    requires WrongPassword !in prefix
    ensures ReadGreeting(prefix + [WrongPassword] + rest) == Greeting(prefix + [WrongPassword], true)
    decreases |prefix|
  {
    var lines := prefix + [WrongPassword] + rest;
    if prefix != [] {
      assert lines[0] == prefix[0] && lines[0] != WrongPassword;
      assert lines[1..] == prefix[1..] + [WrongPassword] + rest;
      LoggedUpToFirstRejection(prefix[1..], rest);
      assert ReadGreeting(lines) == Greeting([lines[0]] + ReadGreeting(lines[1..]).logged, true);
      assert prefix == [prefix[0]] + prefix[1..];
    }
  }

  /** Two greetings: ordinary greeting lines followed by the end
      of input authenticate; a rejection right after the password does not. */
  lemma GreetingExamples(password: string)
    ensures Connect(password, ["Welcome", "Password:"]).authenticated
    ensures Connect(password, [WrongPassword, "Password:"]) ==
              Connection([password], [WrongPassword], false, false, false)
  {
    assert WrongPassword != "Welcome" by { assert |WrongPassword| != |"Welcome"|; }
    assert WrongPassword != "Password:" by { assert WrongPassword[0] != "Password:"[0]; }
    assert WrongPassword !in ["Welcome", "Password:"];
  }
}
