/**
 * Connection-string resolution (sql_lib.js: getStrFromEstaffServer,
 * getStrFromConfig, getConnectionString). The files the host reads and the
 * password decryption primitive are inputs.
 */
module Config {
  import opened Wrappers
  import opened Params

  /** `server.config`: absent, present but unreadable or not JSON, or parsed; a parsed file may lack `connections`. */
  datatype ConfigFile =
    | NoConfigFile
    | UnreadableConfig
    | Parsed(connections: Option<map<string, seq<Param>>>)

  /** `app_config.xml`: absent, present but not openable as a form, or its `storage` section. */
  datatype CredentialFile =
    | NoCredentialFile
    | UnreadableCard
    | Card(login: string, passwordEd: string, database: string, server: string)

  /** What the host provides: both files and the decryption primitive (None when it throws). */
  datatype Environment = Environment(
    config: ConfigFile,
    credentials: CredentialFile,
    decrypt: string -> Option<string>)

  /** The parameter set stored under `serverName`, when every step of the lookup succeeds. */
  function ConfigEntry(config: ConfigFile, serverName: Option<string>): (r: Option<seq<Param>>)
    ensures r.Some? <==>
      config.Parsed? && config.connections.Some? && serverName.Some? && serverName.value in config.connections.value
    ensures r.Some? ==> r.value == config.connections.value[serverName.value]
  {
    match config
    case NoConfigFile => None
    case UnreadableConfig => None
    case Parsed(connections) =>
      if connections.None? || serverName.None? || serverName.value !in connections.value then None
      else Some(connections.value[serverName.value])
  }

  /**
   * getStrFromConfig: undefined (None) when the file is missing, unreadable,
   * has no `connections`, or lacks the key; otherwise the entry's
   * properties joined with `;`.
   */
  function GetStrFromConfig(config: ConfigFile, serverName: Option<string>): (r: Option<string>)
    ensures r.None? <==> ConfigEntry(config, serverName).None?
    ensures r.Some? ==> r.value == Join(Pieces(ConfigEntry(config, serverName).value), ";")
    ensures r.Some? ==> (r.value == "" <==> ConfigEntry(config, serverName).value == [])
  {
    match ConfigEntry(config, serverName)
    case None => None
    case Some(params) =>
      JoinedEmpty(params, ";");
      Some(Join(Pieces(params), ";"))
  }

  /** True when the credential store yields a password: the file opens and decryption succeeds. */
  predicate EstaffAvailable(credentials: CredentialFile, decrypt: string -> Option<string>)
  {
    credentials.Card? && decrypt(credentials.passwordEd).Some?
  }

  /** The properties of the e-staff string, in the order they are written. */
  function EstaffParams(login: string, password: string, database: string, server: string): seq<Param>
  {
    [("Provider", "SQLOLEDB.1"), ("User ID", login), ("Password", password),
     ("Trusted_Connection", "False"), ("Database", database), ("Server", server)]
  }

  /**
   * getStrFromEstaffServer: the OLEDB connection string assembled from the
   * credential store, or "" when the file is missing or any step throws.
   */
  function GetStrFromEstaffServer(credentials: CredentialFile, decrypt: string -> Option<string>): (r: string)
    ensures r == "" <==> !EstaffAvailable(credentials, decrypt)
    ensures r != "" ==> "Provider=SQLOLEDB.1;User ID=" <= r && r[|r| - 1] == ';'
  {
    match credentials
    case NoCredentialFile => ""
    case UnreadableCard => ""
    case Card(login, passwordEd, database, server) =>
      match decrypt(passwordEd)
      case None => ""
      case Some(password) =>
        "Provider=SQLOLEDB.1;" +
        "User ID=" + login + ";" +
        "Password=" + password + ";" +
        "Trusted_Connection=False;" +
        "Database=" + database + ";" +
        "Server=" + server + ";"
  }

  /**
   * The e-staff string is the `;`-join of its six properties (the same form
   * `joinParams` produces) followed by a closing `;`.
   */
  lemma EstaffIsJoinedParams(credentials: CredentialFile, decrypt: string -> Option<string>)
    requires EstaffAvailable(credentials, decrypt)
    ensures var c := credentials;
      GetStrFromEstaffServer(c, decrypt) ==
        Join(Pieces(EstaffParams(c.login, decrypt(c.passwordEd).value, c.database, c.server)), ";") + ";"
  {
    var c := credentials;
    var pw := decrypt(c.passwordEd).value;
    var ps := Pieces(EstaffParams(c.login, pw, c.database, c.server));
    var p0, p1, p2 := "Provider=SQLOLEDB.1", "User ID=" + c.login, "Password=" + pw;
    var p3, p4, p5 := "Trusted_Connection=False", "Database=" + c.database, "Server=" + c.server;
    assert ps[0] == p0 && ps[1] == p1 && ps[2] == p2;
    assert ps[3] == p3 && ps[4] == p4 && ps[5] == p5;
    assert ps == [p0, p1, p2, p3, p4, p5];
    JoinSix(p0, p1, p2, p3, p4, p5, ";");
    ConcatSix(p0, p1, p2, p3, p4, p5, ';');
    var s1 := "Provider=SQLOLEDB.1;" + "User ID=" + c.login + ";";
    assert s1 == p0 + ";" + p1 + ";";
    var s2 := s1 + "Password=" + pw + ";";
    assert s2 == p0 + ";" + p1 + ";" + p2 + ";";
    var s3 := s2 + "Trusted_Connection=False;";
    assert s3 == p0 + ";" + p1 + ";" + p2 + ";" + p3 + ";";
    var s4 := s3 + "Database=" + c.database + ";";
    assert s4 == p0 + ";" + p1 + ";" + p2 + ";" + p3 + ";" + p4 + ";";
    var s5 := s4 + "Server=" + c.server + ";";
    assert s5 == p0 + ";" + p1 + ";" + p2 + ";" + p3 + ";" + p4 + ";" + p5 + ";";
    assert GetStrFromEstaffServer(c, decrypt) == s5;
  }

  lemma JoinSix(a: string, b: string, c: string, d: string, e: string, f: string, sep: string)
    ensures Join([a, b, c, d, e, f], sep) == a + sep + (b + sep + (c + sep + (d + sep + (e + sep + f))))
  {
    assert Join([e, f], sep) == e + sep + f by { assert [e, f][1..] == [f]; }
    assert Join([d, e, f], sep) == d + sep + Join([e, f], sep) by { assert [d, e, f][1..] == [e, f]; }
    assert Join([c, d, e, f], sep) == c + sep + Join([d, e, f], sep) by { assert [c, d, e, f][1..] == [d, e, f]; }
    assert Join([b, c, d, e, f], sep) == b + sep + Join([c, d, e, f], sep) by { assert [b, c, d, e, f][1..] == [c, d, e, f]; }
    assert [a, b, c, d, e, f][1..] == [b, c, d, e, f];
  }

  lemma ConcatSix(a: string, b: string, c: string, d: string, e: string, f: string, sep: char)
    ensures a + [sep] + (b + [sep] + (c + [sep] + (d + [sep] + (e + [sep] + f)))) + [sep] ==
      a + [sep] + b + [sep] + c + [sep] + d + [sep] + e + [sep] + f + [sep]
  {
  }

  /**
   * When no credential field holds `;`, the e-staff string (without its
   * closing `;`) reads back as exactly the six properties.
   */
  lemma EstaffReadsBack(credentials: CredentialFile, decrypt: string -> Option<string>)
    requires EstaffAvailable(credentials, decrypt)
    requires var c := credentials;
      ';' !in c.login && ';' !in decrypt(c.passwordEd).value && ';' !in c.database && ';' !in c.server
    ensures var c := credentials; var r := GetStrFromEstaffServer(c, decrypt);
      ParseParams(r[..|r| - 1]) == EstaffParams(c.login, decrypt(c.passwordEd).value, c.database, c.server)
  {
    var c := credentials;
    var obj := EstaffParams(c.login, decrypt(c.passwordEd).value, c.database, c.server);
    EstaffIsJoinedParams(c, decrypt);
    var j := Join(Pieces(obj), ";");
    assert (j + ";")[..|j|] == j;
    ParseJoinedParams(obj);
  }

  /**
   * getConnectionString: the config entry wins, even when it joins to "";
   * otherwise a defined non-empty literal; otherwise the e-staff string.
   */
  function GetConnectionString(env: Environment, sConnection: Option<string>): (r: string)
    ensures GetStrFromConfig(env.config, sConnection).Some? ==>
      r == GetStrFromConfig(env.config, sConnection).value
    ensures GetStrFromConfig(env.config, sConnection).None? && sConnection.Some? && sConnection.value != "" ==>
      r == sConnection.value
    ensures GetStrFromConfig(env.config, sConnection).None? && (sConnection.None? || sConnection.value == "") ==>
      r == GetStrFromEstaffServer(env.credentials, env.decrypt)
  {
    var result := GetStrFromConfig(env.config, sConnection);
    if result.Some? then result.value
    else if sConnection.Some? && sConnection.value != "" then sConnection.value
    else GetStrFromEstaffServer(env.credentials, env.decrypt)
  }

  /**
   * Resolution yields "" exactly when the config entry for the name exists but
   * is empty, or when there is no entry, no usable literal and no usable
   * credential store.
   */
  lemma ResolvedEmpty(env: Environment, sConnection: Option<string>)
    ensures GetConnectionString(env, sConnection) == "" <==>
      ConfigEntry(env.config, sConnection) == Some([]) ||
      (ConfigEntry(env.config, sConnection).None? &&
       (sConnection.None? || sConnection.value == "") &&
       !EstaffAvailable(env.credentials, env.decrypt))
  {
  }

  /** The example of a config with one server entry resolving to its joined properties. */
  lemma ResolvesConfigEntry()
    ensures GetConnectionString(
      Environment(Parsed(Some(map["srv1" := [("Server", "S"), ("Database", "D")]])), NoCredentialFile, _ => None),
      Some("srv1")) == "Server=S;Database=D"
  {
  }
}
