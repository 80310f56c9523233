/**
 * Connection acquisition and the query facade (sql_lib.js: getActiveConnection,
 * setCommand, exec, optXExec). The driver's `Open` calls are inputs: `open`
 * gives the outcome of opening a new connection with a connection string,
 * `run` the outcome of opening a row-set over a command, and `rs` is the
 * row-set the driver hands back when that succeeds.
 */
module Facade {
  import opened Wrappers
  import opened Config
  import opened Driver
  import opened Records

  /** The `connection` argument: undefined, a string, or an object that may carry `ADOConnect`. */
  datatype ConnArg = Undefined | Literal(text: string) | Wrapper(adoConnect: Option<Connection>)

  /** JavaScript's string form of a plain object, under which resolution sees a wrapper without `ADOConnect`. */
  const ObjectText := "[object Object]"

  /** The error `getActiveConnection` reports when no connection string resolves. */
  const ConfigNotFound := "app_config.xml not found"

  /** The argument as `getConnectionString` sees it. */
  function AsText(arg: ConnArg): Option<string>
  {
    match arg
    case Undefined => None
    case Literal(text) => Some(text)
    case Wrapper(_) => Some(ObjectText)
  }

  /** The argument already carries an open connection. */
  predicate Borrows(arg: ConnArg)
  {
    arg.Wrapper? && arg.adoConnect.Some?
  }

  /** The connection a borrowing argument lends, as a frame. */
  function Lent(arg: ConnArg): set<Connection>
  {
    if Borrows(arg) then {arg.adoConnect.value} else {}
  }

  /** The result of `getActiveConnection`. */
  datatype Acquired = Active(handle: Connection) | NoConnection(error: string)

  /**
   * getActiveConnection: a borrowed handle is returned as it is; otherwise the
   * resolved string must be non-empty, and `newConn` is returned when opening
   * it with that string succeeds.
   */
  function GetActiveConnection(arg: ConnArg, env: Environment, newConn: Connection, open: string -> Outcome): (r: Acquired)
    ensures Borrows(arg) ==> r == Active(arg.adoConnect.value)
    ensures !Borrows(arg) && GetConnectionString(env, AsText(arg)) == "" ==> r == NoConnection(ConfigNotFound)
    ensures !Borrows(arg) && GetConnectionString(env, AsText(arg)) != "" ==>
      (r.Active? <==> open(GetConnectionString(env, AsText(arg))).Pass?)
    ensures !Borrows(arg) && r.Active? ==> r.handle == newConn
    ensures !Borrows(arg) && GetConnectionString(env, AsText(arg)) != "" && r.NoConnection? ==>
      r.error == open(GetConnectionString(env, AsText(arg))).error
  {
    if Borrows(arg) then Active(arg.adoConnect.value)
    else
      var connectionString := GetConnectionString(env, AsText(arg));
      if connectionString == "" then NoConnection(ConfigNotFound)
      else match open(connectionString)
        case Fail(err) => NoConnection(err)
        case Pass => Active(newConn)
  }

  /** Borrowing consults neither the host's files nor the driver. */
  lemma BorrowOpensNothing(arg: ConnArg, env1: Environment, env2: Environment, conn1: Connection, conn2: Connection,
                           open1: string -> Outcome, open2: string -> Outcome)
    requires Borrows(arg)
    ensures GetActiveConnection(arg, env1, conn1, open1) == GetActiveConnection(arg, env2, conn2, open2)
  {
  }

  /** An `ADODB.Command`: connection, command type, timeout and text. */
  datatype Command = Command(activeConnection: Connection, commandType: int, commandTimeout: int, commandText: string)

  /** setCommand: a plain-text command (type 1) with a 3600-second timeout. */
  function SetCommand(activeConnection: Connection, ssql: string): Command
  {
    Command(activeConnection, 1, 3600, ssql)
  }

  /** The result of `exec`: the row-set and its connection, or the error and the connection when one was opened. */
  datatype ExecResult<V> =
    | Executed(records: RecordSet<V>, conn: Connection)
    | ExecFailed(error: string, exposed: Option<Connection>)

  /**
   * exec: acquire a connection, then open a row-set over the command. A failed
   * connection exposes no handle; a failed query exposes the acquired one.
   */
  function Exec<V>(sql: string, arg: ConnArg, env: Environment, newConn: Connection, open: string -> Outcome,
                   run: Command -> Outcome, rs: RecordSet<V>): (r: ExecResult<V>)
    ensures r.Executed? ==>
      GetActiveConnection(arg, env, newConn, open) == Active(r.conn) &&
      run(SetCommand(r.conn, sql)) == Pass && r.records == rs
    ensures r.ExecFailed? ==> (r.exposed.Some? <==> GetActiveConnection(arg, env, newConn, open).Active?)
    ensures r.ExecFailed? && r.exposed.None? ==> r.error == GetActiveConnection(arg, env, newConn, open).error
    ensures r.ExecFailed? && r.exposed.Some? ==>
      GetActiveConnection(arg, env, newConn, open) == Active(r.exposed.value) &&
      run(SetCommand(r.exposed.value, sql)) == Fail(r.error)
  {
    match GetActiveConnection(arg, env, newConn, open)
    case NoConnection(error) => ExecFailed(error, None)
    case Active(handle) =>
      match run(SetCommand(handle, sql))
      case Fail(error) => ExecFailed(error, Some(handle))
      case Pass => Executed(rs, handle)
  }

  /**
   * The handle `exec` produces, on success or on a failed query, is the
   * borrowed one when the argument lends one, and the new one otherwise.
   */
  lemma ExecHandle<V>(sql: string, arg: ConnArg, env: Environment, newConn: Connection, open: string -> Outcome,
                      run: Command -> Outcome, rs: RecordSet<V>)
    ensures var r := Exec(sql, arg, env, newConn, open, run, rs);
      (r.Executed? ==> r.conn == if Borrows(arg) then arg.adoConnect.value else newConn) &&
      (r.ExecFailed? && r.exposed.Some? ==> r.exposed.value == if Borrows(arg) then arg.adoConnect.value else newConn) &&
      (Borrows(arg) ==> r.Executed? || r.exposed.Some?)
  {
  }

  /**
   * optXExec: on failure, close the exposed handle if there is one and return
   * an empty array; on success, convert the row-set and then close its
   * connection once, borrowed or not.
   */
  method OptXExec<V>(sql: string, arg: ConnArg, env: Environment, newConn: Connection, open: string -> Outcome,
                     run: Command -> Outcome, rs: RecordSet<V>, param: Option<ResultParam>, str: V -> string)
    returns (result: Converted<V>)
    requires rs.Valid()
    requires newConn !in Lent(arg)
    requires Exec(sql, arg, env, newConn, open, run, rs).Executed? ==>
      rs.conn == Exec(sql, arg, env, newConn, open, run, rs).conn && rs.conn.isOpen
    modifies rs, newConn, Lent(arg)
    ensures var ex := Exec(sql, arg, env, newConn, open, run, rs);
      ex.ExecFailed? ==> result == AsArray([]) && unchanged(rs)
    ensures var ex := Exec(sql, arg, env, newConn, open, run, rs);
      ex.ExecFailed? && ex.exposed.None? ==> unchanged(newConn) && unchanged(Lent(arg))
    ensures var ex := Exec(sql, arg, env, newConn, open, run, rs);
      ex.ExecFailed? && ex.exposed.Some? ==>
        !ex.exposed.value.isOpen && ex.exposed.value.closeCount == old(ex.exposed.value.closeCount) + 1
    ensures var ex := Exec(sql, arg, env, newConn, open, run, rs);
      ex.Executed? ==>
        result == ConvertSpec(rs.names, old(rs.Remaining()), param, str) && rs.Valid() && rs.EOF() &&
        !ex.conn.isOpen && ex.conn.closeCount == old(ex.conn.closeCount) + 1
    ensures Borrows(arg) ==> unchanged(newConn)
  {
    var resExec := Exec(sql, arg, env, newConn, open, run, rs);
    if resExec.ExecFailed? {
      if resExec.exposed.Some? {
        resExec.exposed.value.Close();
      }
      return AsArray([]);
    }
    result := ConvertRecords(resExec.records, param, str);
    resExec.conn.Close();
  }
}
