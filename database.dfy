/**
 Reading the database catalog: the check for the connection settings, the
 table-name sanitiser, the catalog query with its `IN (...)` list, and the
 flow of `build_dbml_schema` from a table list to DBML text.

 The environment is given as a value, and running a query is a parameter
 `run` that maps the query text to the rows it returns or to the error the
 driver reported.
 */
module Database {
  import opened Wrappers
  import opened PyStr
  import opened Dbml

  // ---------------------------------------------------------------------------
  // Connection settings
  // ---------------------------------------------------------------------------

  /** The five connection settings, as `os.getenv` returns them (None when unset). */
  datatype DbEnv = DbEnv(host: Option<string>, port: Option<string>, dbname: Option<string>, user: Option<string>, password: Option<string>)

  /** A setting counts as given when it is set and not empty. */
  predicate Given(v: Option<string>) {
    v.Some? && v.value != ""
  }

  /** The five settings, each read from one environment variable. */
  datatype Setting = Host | Port | DbName | User | Password

  function VarName(k: Setting): string {
    match k
    case Host => "PG_STUDENT_HOST"
    case Port => "PG_STUDENT_PORT"
    case DbName => "PG_STUDENT_DBNAME"
    case User => "PG_STUDENT_USER"
    case Password => "PG_STUDENT_PASSWORD"
  }

  function Value(env: DbEnv, k: Setting): Option<string> {
    match k
    case Host => env.host
    case Port => env.port
    case DbName => env.dbname
    case User => env.user
    case Password => env.password
  }

  /** The order in which the settings are checked and reported. */
  const SettingOrder: seq<Setting> := [Host, Port, DbName, User, Password]

  /** The position of a setting in the fixed order. */
  function Rank(k: Setting): (n: nat)
    ensures n < |SettingOrder| && SettingOrder[n] == k
  {
    match k
    case Host => 0
    case Port => 1
    case DbName => 2
    case User => 3
    case Password => 4
  }

  /** Settings listed in the fixed order, each at most once. */
  predicate InOrder(ks: seq<Setting>) {
    forall i, j :: 0 <= i < j < |ks| ==> Rank(ks[i]) < Rank(ks[j])
  }

  /** The settings of `ks` that are not given, in the order of `ks`. */
  function MissingIn(env: DbEnv, ks: seq<Setting>): (m: seq<Setting>)
    ensures |m| <= |ks|
    ensures forall k :: k in m <==> k in ks && !Given(Value(env, k))
    ensures InOrder(ks) ==> InOrder(m)
    decreases |ks|
  {
    if ks == [] then []
    else
      var rest := MissingIn(env, ks[1..]);
      InOrderTail(ks);
      if Given(Value(env, ks[0])) then rest
      else
        assert InOrder(ks) ==> InOrder([ks[0]] + rest) by {
          if InOrder(ks) { InOrderCons(ks[0], rest); }
        }
        [ks[0]] + rest
  }

  /** Dropping the first setting keeps the order, and the first setting comes before all the others. */
  lemma InOrderTail(ks: seq<Setting>)
    requires ks != []
    ensures InOrder(ks) ==> InOrder(ks[1..]) && forall k :: k in ks[1..] ==> Rank(ks[0]) < Rank(k)
  {
    if InOrder(ks) {
      forall k | k in ks[1..] ensures Rank(ks[0]) < Rank(k) {
        var j :| 0 <= j < |ks[1..]| && ks[1..][j] == k;
        assert ks[j + 1] == k;
      }
    }
  }

  /** A setting placed before settings in order that all come after it keeps the order. */
  lemma InOrderCons(k: Setting, rest: seq<Setting>)
    requires InOrder(rest) && forall x :: x in rest ==> Rank(k) < Rank(x)
    ensures InOrder([k] + rest)
  {
    var ks := [k] + rest;
    forall i, j | 0 <= i < j < |ks| ensures Rank(ks[i]) < Rank(ks[j]) {
      assert ks[j] == rest[j - 1];
      if i > 0 { assert ks[i] == rest[i - 1]; }
    }
  }

  function Names(ks: seq<Setting>): (ns: seq<string>)
    ensures |ns| == |ks|
    ensures forall i :: 0 <= i < |ks| ==> ns[i] == VarName(ks[i])
    decreases |ks|
  {
    if ks == [] then [] else [VarName(ks[0])] + Names(ks[1..])
  }

  /** Different settings are read from different variables. */
  lemma VarNameInjective(k1: Setting, k2: Setting)
    requires VarName(k1) == VarName(k2)
    ensures k1 == k2
  {
    assert VarName(k1)[11] == VarName(k2)[11];
    assert |VarName(k1)| == |VarName(k2)|;
  }

  /** Variable `a` is reported before variable `b`: its setting comes earlier in the fixed order. */
  predicate ReportedBefore(a: string, b: string) {
    exists k1, k2 :: VarName(k1) == a && VarName(k2) == b && Rank(k1) < Rank(k2)
  }

  /**
   The variable names of the missing settings: a name is listed exactly when
   its setting is unset or empty, and the names come in the fixed order HOST,
   PORT, DBNAME, USER, PASSWORD, each at most once.
   */
  function Missing(env: DbEnv): (names: seq<string>)
    ensures forall k :: VarName(k) in names <==> !Given(Value(env, k))
    ensures forall i, j :: 0 <= i < j < |names| ==> ReportedBefore(names[i], names[j])
  {
    var m := MissingIn(env, SettingOrder);
    assert forall k :: k in SettingOrder by {
      forall k ensures k in SettingOrder { assert SettingOrder[Rank(k)] == k; }
    }
    var names := Names(m);
    assert forall k :: VarName(k) in names ==> k in m by {
      forall k | VarName(k) in names ensures k in m {
        var i :| 0 <= i < |names| && names[i] == VarName(k);
        VarNameInjective(k, m[i]);
      }
    }
    assert forall k :: k in m ==> VarName(k) in names by {
      forall k | k in m ensures VarName(k) in names {
        var i :| 0 <= i < |m| && m[i] == k;
        assert names[i] == VarName(k);
      }
    }
    assert forall i, j :: 0 <= i < j < |names| ==> ReportedBefore(names[i], names[j]) by {
      SettingOrderInOrder();
      forall i, j | 0 <= i < j < |names| ensures ReportedBefore(names[i], names[j]) {
        assert VarName(m[i]) == names[i] && VarName(m[j]) == names[j] && Rank(m[i]) < Rank(m[j]);
      }
    }
    names
  }

  /** The fixed order is in order. */
  lemma SettingOrderInOrder()
    ensures InOrder(SettingOrder)
  {
    forall i | 0 <= i < |SettingOrder| ensures Rank(SettingOrder[i]) == i {
      assert SettingOrder[Rank(SettingOrder[i])] == SettingOrder[i];
    }
  }

  /** Nothing is missing exactly when all five settings are given. */
  lemma NothingMissing(env: DbEnv)
    ensures Missing(env) == [] <==> Given(env.host) && Given(env.port) && Given(env.dbname) && Given(env.user) && Given(env.password)
  {
    var m := MissingIn(env, SettingOrder);
    assert Host in SettingOrder && Port in SettingOrder && DbName in SettingOrder;
    assert User in SettingOrder && Password in SettingOrder;
    if m != [] {
      assert m[0] in m;
    }
  }

  /** When none of `ks` is given, all of them are reported, in their order. */
  lemma {:induction false} NoneGiven(env: DbEnv, ks: seq<Setting>)
    requires forall k :: k in ks ==> !Given(Value(env, k))
    ensures MissingIn(env, ks) == ks
    decreases |ks|
  {
    if ks != [] {
      assert ks[0] in ks;
      assert forall k :: k in ks[1..] ==> k in ks;
      NoneGiven(env, ks[1..]);
      assert ks == [ks[0]] + ks[1..];
    }
  }

  /** With every setting unset, every setting is reported, in the fixed order. */
  lemma AllMissing()
    ensures MissingIn(DbEnv(None, None, None, None, None), SettingOrder) == SettingOrder
  {
    NoneGiven(DbEnv(None, None, None, None, None), SettingOrder);
  }

  const MissingPrefix: string := "Missing environment variables: "

  /**
   `execute_sql_query`: with a setting missing the query is not run and the
   error names every missing setting; otherwise the outcome is the driver's.
   */
  function ExecuteSqlQuery<T>(env: DbEnv, sql: string, run: string -> Result<T, string>): (r: Result<T, string>)
    ensures Missing(env) != [] ==> r == Err(MissingPrefix + Join(Missing(env), ", "))
    ensures Missing(env) == [] ==> r == run(sql)
  {
    var missing := Missing(env);
    if missing != [] then Err(MissingPrefix + Join(missing, ", ")) else run(sql)
  }

  // ---------------------------------------------------------------------------
  // Table names
  // ---------------------------------------------------------------------------

  /** `s.replace(c, "")`. */
  function RemoveChar(s: string, c: char): (r: string)
    ensures forall x :: x in r <==> x in s && x != c
    decreases |s|
  {
    if s == [] then []
    else
      var rest := RemoveChar(s[1..], c);
      assert forall x :: x in s <==> x == s[0] || x in s[1..];
      if s[0] == c then rest else [s[0]] + rest
  }

  predicate AllAlnum(s: string) {
    forall i :: 0 <= i < |s| ==> IsAlnum(s[i])
  }

  predicate NameChar(c: char) {
    IsAlnum(c) || c == '_' || c == '-'
  }

  /** Made of letters, digits, '_' and '-', with at least one letter or digit. */
  predicate MadeOfNameChars(name: string) {
    && (forall i :: 0 <= i < |name| ==> NameChar(name[i]))
    && (exists i :: 0 <= i < |name| && IsAlnum(name[i]))
  }

  /**
   `name.replace("_", "").replace("-", "").isalnum()` (`isalnum` is false on
   ""): a name is accepted exactly when it is made of letters, digits, '_' and
   '-' and holds at least one letter or digit.
   */
  function IsSafeTableName(name: string): (ok: bool)
    ensures ok <==> MadeOfNameChars(name)
  {
    CleanedNameChars(name);
    var t := RemoveChar(RemoveChar(name, '_'), '-');
    t != [] && AllAlnum(t)
  }

  /** What is left of a name once '_' and '-' are removed is a non-empty run of letters and digits exactly when the name is made of name characters. */
  lemma CleanedNameChars(name: string)
    ensures var t := RemoveChar(RemoveChar(name, '_'), '-');
      t != [] && AllAlnum(t) <==> MadeOfNameChars(name)
  {
    var t := RemoveChar(RemoveChar(name, '_'), '-');
    assert forall x :: x in t <==> x in name && x != '_' && x != '-';
    if t != [] && AllAlnum(t) {
      forall i | 0 <= i < |name| ensures NameChar(name[i]) {
        if name[i] != '_' && name[i] != '-' {
          assert name[i] in t;
        }
      }
      assert t[0] in name;
    } else if forall i :: 0 <= i < |name| ==> NameChar(name[i]) {
      if i :| 0 <= i < |name| && IsAlnum(name[i]) {
        assert name[i] in t;
        var j :| 0 <= j < |t| && !IsAlnum(t[j]);
        assert t[j] in name;
      }
    }
  }

  /** Names without a letter or digit are rejected, however they are written. */
  lemma RejectedNames()
    ensures !IsSafeTableName("") && !IsSafeTableName("_") && !IsSafeTableName("-_")
  {
  }

  /** A name with a space is rejected. */
  lemma NameWithSpaceRejected()
    ensures !IsSafeTableName("a b")
  {
    assert !NameChar("a b"[1]);
  }

  /** A name with a quote is rejected. */
  lemma NameWithQuoteRejected()
    ensures !IsSafeTableName("a'")
  {
    assert !NameChar("a'"[1]);
  }

  /** A snake_case name with a digit is accepted. */
  lemma SnakeCaseAccepted()
    ensures IsSafeTableName("orders_2")
  {
    assert IsAlnum("orders_2"[0]);
  }

  /** Every name of the list is accepted. */
  predicate AllSafe(names: seq<string>) {
    forall i :: 0 <= i < |names| ==> IsSafeTableName(names[i])
  }

  const InvalidNamePrefix: string := "Invalid table name: "

  /**
   The sanitiser loop: the names are copied one by one; the first name that is
   not accepted stops it with an error naming that name.
   */
  method SanitizeTableNames(tableNames: seq<string>) returns (r: Result<seq<string>, string>)
    ensures r.Ok? <==> AllSafe(tableNames)
    ensures r.Ok? ==> r.value == tableNames
    ensures r.Err? ==> exists i :: (0 <= i < |tableNames| && !IsSafeTableName(tableNames[i])
      && AllSafe(tableNames[..i]) && r.error == InvalidNamePrefix + tableNames[i])
  {
    var safe: seq<string> := [];
    for i := 0 to |tableNames|
      invariant safe == tableNames[..i]
      invariant AllSafe(tableNames[..i])
    {
      var name := tableNames[i];
      if !IsSafeTableName(name) {
        assert !AllSafe(tableNames) by { assert tableNames[i] == name; }
        return Err(InvalidNamePrefix + name);
      }
      safe := safe + [name];
    }
    assert tableNames[..|tableNames|] == tableNames;
    return Ok(safe);
  }

  // ---------------------------------------------------------------------------
  // The catalog query
  // ---------------------------------------------------------------------------

  /**
   `"', '".join(names)`: the inside of the quoted `IN` list. Between its outer
   quotes it is the names, each quoted, separated by ", ".
   */
  function InList(names: seq<string>): (r: string)
    ensures names != [] ==> "'" + r + "'" == Join(QuoteAll(names), ", ")
  {
    InListQuotes(names);
    Join(names, "', '")
  }

  function Quote(name: string): string {
    "'" + name + "'"
  }

  function QuoteAll(names: seq<string>): (q: seq<string>)
    ensures |q| == |names|
    ensures forall i :: 0 <= i < |names| ==> q[i] == Quote(names[i])
    decreases |names|
  {
    if names == [] then [] else [Quote(names[0])] + QuoteAll(names[1..])
  }

  /** Wrapped in quotes, the list is the names, each quoted, in their order, separated by ", ". */
  lemma {:induction false} InListQuotes(names: seq<string>)
    ensures names != [] ==> "'" + Join(names, "', '") + "'" == Join(QuoteAll(names), ", ")
    decreases |names|
  {
    if |names| > 1 {
      InListQuotes(names[1..]);
      var q := QuoteAll(names);
      assert q[1..] == QuoteAll(names[1..]);
      calc {
        "'" + Join(names, "', '") + "'";
        "'" + (names[0] + "', '" + Join(names[1..], "', '")) + "'";
        Quote(names[0]) + ", " + ("'" + Join(names[1..], "', '") + "'");
        Quote(names[0]) + ", " + Join(QuoteAll(names[1..]), ", ");
      }
    }
  }

  /** Accepted names hold no quote character. */
  lemma SafeNameHasNoQuote(name: string)
    requires IsSafeTableName(name)
    ensures '\'' !in name
  {
  }

  /** With accepted names the quoted list holds exactly two quotes per name: no name can end the string literal. */
  lemma {:induction false} InListQuoteCount(names: seq<string>)
    requires names != []
    requires AllSafe(names)
    ensures Occurrences("'" + InList(names) + "'", '\'') == 2 * |names|
    decreases |names|
  {
    SafeNameHasNoQuote(names[0]);
    OccurrencesAbsent(names[0], '\'');
    if |names| == 1 {
      OccurrencesAppend("'" + names[0], "'", '\'');
      OccurrencesAppend("'", names[0], '\'');
    } else {
      InListQuoteCount(names[1..]);
      var tail := "'" + InList(names[1..]) + "'";
      assert "'" + InList(names) + "'" == ("'" + names[0] + "'") + ", " + tail;
      OccurrencesAppend("'" + names[0] + "'" + ", ", tail, '\'');
      OccurrencesAppend("'" + names[0] + "'", ", ", '\'');
      OccurrencesAppend("'" + names[0], "'", '\'');
      OccurrencesAppend("'", names[0], '\'');
    }
  }

  /** The two fixed parts of the catalog query, around the `IN` list. */
  datatype QueryPart = BeforeList | AfterList

  function QueryText(part: QueryPart): string {
    match part
    case BeforeList =>
      "\n        SELECT \n            table_name, \n            column_name, \n            data_type\n"
      + "        FROM information_schema.columns\n        WHERE \n            table_schema = 'public'\n"
      + "            AND table_name IN ("
    case AfterList =>
      ")\n        ORDER BY table_name, ordinal_position;\n    "
  }

  /**
   The catalog query for the accepted names: the columns of those tables in the
   public schema, ordered by table and position. The `IN` list holds the names,
   each quoted, in their order.
   */
  function CatalogQuery(names: seq<string>): (q: string)
    ensures names != [] ==> q == QueryText(BeforeList) + Join(QuoteAll(names), ", ") + QueryText(AfterList)
  {
    var q := QueryText(BeforeList) + "'" + InList(names) + "'" + QueryText(AfterList);
    QuotedInside(QueryText(BeforeList), InList(names), QueryText(AfterList));
    q
  }

  lemma QuotedInside(before: string, list: string, after: string)
    ensures before + "'" + list + "'" + after == before + ("'" + list + "'") + after
  {
  }

  // ---------------------------------------------------------------------------
  // build_dbml_schema
  // ---------------------------------------------------------------------------

  /** The two ways building the schema raises: a rejected name (`ValueError`) or a failed query (`RuntimeError`). */
  datatype SchemaError = InvalidTableName(message: string) | FetchFailed(message: string)

  const FetchFailedPrefix: string := "Failed to fetch schema: "

  /** What the query outcome turns into: the DBML text of the rows, or the fetch error. */
  function SchemaFrom(outcome: Result<seq<CatalogRow>, string>): (r: Result<string, SchemaError>)
    ensures outcome == Ok([]) ==> r == Ok("")
    ensures outcome.Err? ==> r == Err(FetchFailed(FetchFailedPrefix + outcome.error))
  {
    match outcome
    case Err(e) => Err(FetchFailed(FetchFailedPrefix + e))
    case Ok(rows) => Ok(Join(DbmlLines(rows), "\n"))
  }

  /**
   The part of `build_dbml_schema` after the names are accepted: the catalog
   query is run, and its rows are rendered as DBML ("" for no rows).
   */
  method FetchSchema(query: string, env: DbEnv, run: string -> Result<seq<CatalogRow>, string>)
    returns (r: Result<string, SchemaError>)
    ensures r == SchemaFrom(ExecuteSqlQuery(env, query, run))
  {
    var outcome := ExecuteSqlQuery(env, query, run);
    if outcome.Err? {
      return Err(FetchFailed(FetchFailedPrefix + outcome.error));
    }
    if outcome.value == [] {
      return Ok("");
    }
    var text := RenderDbml(outcome.value);
    r := Ok(text);
  }

  /**
   `build_dbml_schema` for a table list: no tables gives "" without a query; a
   rejected name raises before any query is built; otherwise the catalog query
   for the names, in their order, is run and its rows are rendered, no rows
   giving "". The second result is the query that was issued, if any.
   */
  method BuildDbmlSchema(tableNames: seq<string>, env: DbEnv, run: string -> Result<seq<CatalogRow>, string>)
    returns (r: Result<string, SchemaError>, issued: Option<string>)
    ensures tableNames == [] ==> r == Ok("") && issued == None
    ensures !AllSafe(tableNames) ==> r.Err? && r.error.InvalidTableName? && issued == None
    ensures !AllSafe(tableNames) ==> exists i :: (0 <= i < |tableNames| && !IsSafeTableName(tableNames[i])
      && AllSafe(tableNames[..i]) && r.error.message == InvalidNamePrefix + tableNames[i])
    ensures tableNames != [] && AllSafe(tableNames) ==>
      issued == Some(CatalogQuery(tableNames)) && r == SchemaFrom(ExecuteSqlQuery(env, CatalogQuery(tableNames), run))
  {
    if tableNames == [] {
      return Ok(""), None;
    }
    var checked := SanitizeTableNames(tableNames);
    if checked.Err? {
      return Err(InvalidTableName(checked.error)), None;
    }
    var query := CatalogQuery(checked.value);
    issued := Some(query);
    r := FetchSchema(query, env, run);
  }
}
