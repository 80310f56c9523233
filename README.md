# sql_lib.js in Dafny

A model of `sql_lib.js`, a small adapter that runs SQL through the host's ADO
COM objects. The model covers four parts:

- **Connection-string resolution**: the `server.config` entry, then a
  literal string, then the OLEDB string built from the e-staff credential
  store.
- **Connection acquisition**: a borrowed `ADOConnect` handle, or a new
  connection opened with the resolved string.
- **Row-set draining**: the cursor is read into an array of records, or into
  an object keyed by one column, with a fallback to the array.
- **The `optXExec` facade**: returns `[]` when `exec` fails and decides which
  connection gets closed.

The host's files and its decryption primitive are inputs. So are the
outcomes of the driver's `Open` calls.

Modules:

- `Wrappers` (wrappers.dfy): `Option`, the model's `undefined`.
- `Params` (params.dfy): `joinParams`, and a reader for the strings it
  builds, so that the round trip can be stated.
- `Config` (config.dfy): `getStrFromEstaffServer`, `getStrFromConfig` and
  `getConnectionString`.
- `Driver` (driver.dfy): the `Outcome` of a driver call, and a `Connection`
  class with `isOpen` and a close counter.
- `Records` (records.dfy): the `RecordSet` cursor class and the converters.
  The cursor holds column names, positions and a current index. A position is
  either a BOF position or a row. The converters `ConvertRecordsToArray`,
  `ConvertRecordsToObject` and `ConvertRecords` are methods that drain the
  cursor. Each is proved equal to a specification function of the positions it
  had not yet passed.
- `Facade` (facade.dfy): `getActiveConnection`, `setCommand`, `exec` and
  `optXExec`.

A row-set can move only while its connection is open. So the verifier checks
that `optXExec` converts the rows before it closes the connection.

Two behaviours of the code worth noting:

- A `server.config` entry with no properties resolves to `""`. This stops
  the fallthrough, and `getActiveConnection` then fails.
- The error for an empty connection string is `app_config.xml not found`.
  The code uses that text for every source.

## Model

| member | source | states |
|---|---|---|
| `Params.JoinParams` | sql_lib.js:34-43 | returns the join, with `separator`, of exactly one `name=value` piece per property, in enumeration order; the result is `""` exactly when the object has no properties |
| `Params.JoinedEmpty` | sql_lib.js:34-43 | the joined pieces are empty iff there are no properties, since every piece holds `=` |
| `Params.ParseJoinedParams` | sql_lib.js:34-43 | round trip: if no name holds `=` or `;` and no value holds `;`, splitting the `;`-joined string at `;` and each piece at its first `=` gives back the properties, in order; an object with no properties joins to `""`, which reads back as no properties |
| `Config.ConfigEntry` | sql_lib.js:53-61 | an entry is found iff the file exists and parses, it has `connections`, the name is defined and the name is a key; the entry found is the stored parameter set |
| `Config.GetStrFromConfig` | sql_lib.js:51-69 | undefined iff the lookup fails (missing file, unreadable file, no `connections`, absent key); otherwise the entry joined with `;`, which is `""` only for an empty entry |
| `Config.GetStrFromEstaffServer` | sql_lib.js:5-25 | `""` iff the credential file is missing or unreadable, or decryption fails; otherwise the string starts with `Provider=SQLOLEDB.1;User ID=` and ends with `;` |
| `Config.EstaffIsJoinedParams` | sql_lib.js:16-21 | the e-staff string is `Provider`, `User ID`, `Password`, `Trusted_Connection`, `Database` and `Server` as `name=value` pieces joined with `;`, followed by a closing `;` |
| `Config.EstaffReadsBack` | sql_lib.js:16-21 | if no credential field holds `;`, the e-staff string without its last `;` reads back as exactly those six properties |
| `Config.GetConnectionString` | sql_lib.js:77-88 | fixed priority: a found config entry wins, even when it is `""`; then a defined non-empty literal, returned unchanged; then the e-staff string |
| `Config.ResolvedEmpty` | sql_lib.js:77-88 | resolution gives `""` iff the config entry exists and is empty, or there is no entry, no non-empty literal and no usable credential store |
| `Config.ResolvesConfigEntry` | sql_lib.js:58-62 | a config with `srv1: {Server: S, Database: D}` resolves `srv1` to `Server=S;Database=D` |
| `Driver.Connection.Close` | sql_lib.js:339 | closing leaves the connection not open and adds exactly one to its close count |
| `Records.RecordSet.MoveNext` | sql_lib.js:196 | the cursor moves one position forward, only while not at EOF and while its connection is open |
| `Records.RecordFields` | sql_lib.js:190-193 | a record's keys are exactly the column names; a column whose name is not repeated later keeps its own value, so a later duplicate overwrites |
| `Records.RecordSize` | sql_lib.js:190-193 | with distinct column names, a record has exactly `Fields.Count` fields |
| `Records.RowsOf` | sql_lib.js:184-188 | no more rows are visited than positions exist, and no row is visited exactly when every position is a BOF position |
| `Records.ArrayRecords` | sql_lib.js:178-200 | the array has one record per non-BOF position, and the k-th record is built from the k-th such row in cursor order |
| `Records.ReadRecord` | sql_lib.js:190-193 | the inner loop over `Fields.Count` columns builds exactly the record of the current row |
| `Records.ConvertRecordsToArray` | sql_lib.js:178-200 | leaves the cursor at EOF and returns the array specified for the positions it had not yet passed |
| `Records.FindField` | sql_lib.js:221 | `Fields(name)` finds the first column with that name; it finds nothing exactly when no column has that name, which is where the driver throws |
| `Records.GroupKeys` | sql_lib.js:215-228 | the grouped object's keys are exactly the stringified key values of the rows read |
| `Records.GroupLastWins` | sql_lib.js:221-225 | last write wins: each key holds the record of the last row with that key |
| `Records.Grouping` | sql_lib.js:215-224 | grouping fails iff at least one row is read and no column has the field's name; with no rows it yields an empty object |
| `Records.ConvertRecordsToObject` | sql_lib.js:209-231 | returns the grouped object specified for the unread positions, with the cursor at EOF; on failure, the cursor is on the first non-BOF position and only BOF positions were passed |
| `Records.IsObjectResult` | sql_lib.js:239-257 | true iff the parameter is defined, is a JsObject, has `type == "object"` and has a defined, non-empty `field` |
| `Records.FallbackSeesAllRows` | sql_lib.js:266-280 | reading the array after skipping only BOF positions gives the same array as reading from the start |
| `Records.ConvertRecords` | sql_lib.js:266-280 | drains the cursor and returns the grouped object when `isObjectResult` holds and grouping succeeds; otherwise it returns the array of all unread rows, including after a failed grouping |
| `Records.MissingFieldFallsBack` | sql_lib.js:266-280 | asking to group by a column that does not exist, with at least one row, returns the array with one record per row, so it is not empty |
| `Records.LastRowWins` | sql_lib.js:221-224 | rows `{K:a,V:1}` and `{K:a,V:2}` grouped by `K` give one entry `a`, holding the second row |
| `Facade.GetActiveConnection` | sql_lib.js:96-129 | a borrowed `ADOConnect` is returned as it is; an empty resolved string fails with `app_config.xml not found`; otherwise the result is the new connection iff `Open` with the resolved string succeeds, and the driver's error when it does not |
| `Facade.BorrowOpensNothing` | sql_lib.js:98-103 | with a borrowed handle, the result depends neither on the host's files nor on the driver's `Open` |
| `Facade.Exec` | sql_lib.js:289-317 | success means the connection was acquired and the row-set opened over `setCommand(handle, sql)`; a failure exposes a handle iff a connection was acquired, and then the query failed with the reported error |
| `Facade.ExecHandle` | sql_lib.js:289-317 | the handle `exec` hands back or exposes is the borrowed one when the argument lends one, and the new connection otherwise; a borrowing call always hands one back |
| `Facade.OptXExec` | sql_lib.js:327-342 | on failure it returns `[]`, leaves the cursor alone and closes the exposed handle once, or closes nothing when there is none; on success it returns the converted rows, leaves the cursor at EOF and then closes the connection once, borrowed or new |

## Left out

- The ActiveX objects and their `Open` calls (sql_lib.js:115-123, 154-170) are inputs: `open` maps a connection string to an outcome, `run` maps a command to an outcome, and `rs` is the row-set the driver returns. `getRecords` is folded into `Facade.Exec`.
- `setCommand` (sql_lib.js:137-146) only assigns properties. `Facade.SetCommand` builds that value (command type 1, timeout 3600) and has no contract of its own.
- The host's file helpers (`FilePath`, `AppDirectoryPath`, `FilePathExists`, `LoadFileData`, `OpenDoc`) and `ParseJson` are replaced by the `ConfigFile` and `CredentialFile` inputs.
- `StrStdDecrypt` is the input `decrypt`, which gives `None` when it throws.
- Config values are taken as strings. JavaScript's stringification of other JSON values in `joinParams` is not modelled. `for...in` order is taken to be the declared order.
- A credential field missing from the card (which JavaScript would concatenate as `undefined`) is not modelled.
- An undefined server name is taken to find no config entry.
- An object without `ADOConnect` is resolved under its JavaScript string form, `[object Object]`.
- `isObjectResult` compares with `!=` and `==`. The model takes `type` and `field` to be strings, so JavaScript's loose-equality coercions are not modelled.
- Column values have an abstract type, and JavaScript's `String()` is the input `str`.
- `Fields(name)` is modelled as an exact, case-sensitive match on the first column with that name. ADO matches names case-insensitively.
- Records and the grouped object (`Converted.AsObject`) are maps, so key order is not kept. JavaScript lists an object's integer-like keys first, in ascending order, and then the other keys in insertion order.
- Cursor moves, reads of column values and `String()` (the input `str`) are assumed never to throw. In the code, a throw while draining in array mode (sql_lib.js:178-200, 338) escapes `optXExec` before the `close()` at sql_lib.js:339, so it neither returns `[]` nor closes the connection. A throw during grouping after some rows are already stored is caught at sql_lib.js:271-275. The array fallback at sql_lib.js:279 then holds only the rows not yet passed. In the model, grouping fails only on the `Fields(sField)` lookup at sql_lib.js:221, at the first non-BOF row. That is why `Records.FallbackSeesAllRows` and `Records.ConvertRecords` can promise every unread row.
- `Driver.Connection.Close` never fails. ADO throws when asked to close a connection that is already closed.
- `alert` logging (sql_lib.js:65, 274) is left out. So is the trailing comment block (sql_lib.js:345-372).
