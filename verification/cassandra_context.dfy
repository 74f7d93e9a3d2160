/** `CassandraContext`: reads the connection settings, makes sure the keyspace
    exists, connects to it with a bounded number of retries, creates the
    `comments` table and its indexes, and owns the session and the cluster
    until it is disposed. */
module CassandraContext {
  import opened Wrappers
  import opened Strings
  import opened Cassandra
  import opened CommentMapping

  /** Connection attempts `ConnectWithRetry` makes at most. */
  const MaxRetries: nat := 5

  /** The pause between two connection attempts. */
  const RetryDelayMs: nat := 5000

  /** Replication factor of a keyspace the service creates (`SimpleStrategy`). */
  const ReplicationFactor: nat := 1

  /** Bounds of the driver's exponential reconnection policy. */
  const ReconnectBaseDelayMs: nat := 1000
  const ReconnectMaxDelayMs: nat := 60000

  // ---------------------------------------------------------------- settings

  /** The configuration entries the constructor reads; None for a missing key. */
  datatype Configuration = Configuration(
    hosts: Option<string>,
    keyspace: Option<string>,
    username: Option<string>,
    password: Option<string>)

  datatype Credentials = Credentials(username: string, password: string)

  datatype Consistency = LocalQuorum

  /** What the cluster builder is given. */
  datatype ClusterSettings = ClusterSettings(
    contactPoints: seq<string>,
    reconnectBaseDelayMs: nat,
    reconnectMaxDelayMs: nat,
    consistency: Consistency,
    credentials: Option<Credentials>)

  /** Credentials are attached only when both the user name and the password
      are present and non-empty. */
  function SelectCredentials(username: Option<string>, password: Option<string>): (r: Option<Credentials>)
    ensures r.Some? <==> username.Some? && password.Some? && |username.value| > 0 && |password.value| > 0
    ensures r.Some? ==> r.value == Credentials(username.value, password.value)
  {
    if !IsNullOrEmpty(username) && !IsNullOrEmpty(password) then Some(Credentials(username.value, password.value))
    else None
  }

  /** Reads the configuration: a missing host list or keyspace name raises
      (host list first), otherwise the comma-separated host list becomes the
      contact points and the keyspace name is returned alongside. */
  function BuildSettings(config: Configuration): Result<(ClusterSettings, string), Fault> {
    if config.hosts.None? then Failure(ConfigurationMissing("CassandraHosts"))
    else if config.keyspace.None? then Failure(ConfigurationMissing("CassandraKeyspace"))
    else
      Success((ClusterSettings(Split(config.hosts.value, ','), ReconnectBaseDelayMs, ReconnectMaxDelayMs,
                               LocalQuorum, SelectCredentials(config.username, config.password)),
               config.keyspace.value))
  }

  /** The settings are read exactly when both required keys are present; the
      contact points are the comma-free pieces of the host list, which join
      back to it; the consistency level is `LOCAL_QUORUM`; and credentials are
      attached as `SelectCredentials` decides. */
  lemma BuildSettingsFacts(config: Configuration)
    ensures var r := BuildSettings(config);
      && (config.hosts.None? ==> r == Failure(ConfigurationMissing("CassandraHosts")))
      && (config.hosts.Some? && config.keyspace.None? ==> r == Failure(ConfigurationMissing("CassandraKeyspace")))
      && (r.Success? <==> config.hosts.Some? && config.keyspace.Some?)
      && (r.Success? ==>
            var (settings, keyspace) := r.value;
            && |settings.contactPoints| >= 1
            && Join(settings.contactPoints, ',') == config.hosts.value
            && (forall i :: 0 <= i < |settings.contactPoints| ==> ',' !in settings.contactPoints[i])
            && keyspace == config.keyspace.value
            && settings.credentials == SelectCredentials(config.username, config.password)
            && settings.consistency == LocalQuorum
            && settings.reconnectBaseDelayMs == ReconnectBaseDelayMs
            && settings.reconnectMaxDelayMs == ReconnectMaxDelayMs)
  {
    if config.hosts.Some? {
      JoinSplit(config.hosts.value, ',');
    }
  }

  // ------------------------------------------------------------------ schema

  /** The statement that creates a missing keyspace. */
  function CreateKeyspaceStatement(keyspace: string): Statement {
    CreateKeyspace(keyspace, ReplicationFactor)
  }

  /** Creates the keyspace only when the cluster metadata does not know it. */
  function CheckAndCreateKeyspaceIfNeeded(w: World, session: Session, keyspace: string): (r: Run<()>)
    ensures keyspace in w.schema.keyspaces ==> r == Run(Success(()), w, [])
    ensures keyspace !in w.schema.keyspaces ==>
      && r.log == [Execute(session.keyspace, CreateKeyspaceStatement(keyspace))]
      && (r.result.Success? <==> NextAnswer(w).0.Normal?)
      && (r.result.Success? ==> r.world.schema == w.schema.(keyspaces := w.schema.keyspaces[keyspace := ReplicationFactor]))
      && (r.result.Failure? ==> r.world.schema == w.schema)
  {
    if keyspace in w.schema.keyspaces then Run(Success(()), w, [])
    else SessionExecute(w, session, CreateKeyspaceStatement(keyspace))
  }

  /** The three statements `EnsureTablesExist` issues, in order. */
  const TableStatements: seq<Statement> := [
    CreateTableIfNotExists(CommentsTableName, CommentsTable),
    CreateIndexIfNotExists(CommentsTableName, "post_id"),
    CreateIndexIfNotExists(CommentsTableName, "user_id") ]

  /** What a successful `stmt` guarantees about schema `s`. */
  ghost predicate Established(stmt: Statement, keyspace: Option<string>, s: Schema) {
    match stmt
    case CreateKeyspace(name, _) => name in s.keyspaces
    case CreateTableIfNotExists(table, _) =>
      keyspace.Some? && keyspace.value in s.keyspaces && TableRef(keyspace.value, table) in s.tables
    case CreateIndexIfNotExists(table, column) =>
      && keyspace.Some?
      && TableRef(keyspace.value, table) in s.tables
      && HasColumn(s.tables[TableRef(keyspace.value, table)], column)
      && IndexRef(TableRef(keyspace.value, table), column) in s.indexes
  }

  /** The `comments` table of `keyspace` and its indexes on `post_id` and `user_id` exist. */
  ghost predicate TablesReady(s: Schema, keyspace: string) {
    forall i :: 0 <= i < |TableStatements| ==> Established(TableStatements[i], Some(keyspace), s)
  }

  lemma ExtendsTransitive(a: Schema, b: Schema, c: Schema)
    requires Extends(a, b) && Extends(b, c)
    ensures Extends(a, c)
  {
  }

  lemma EstablishedPersists(stmt: Statement, keyspace: Option<string>, s: Schema, s': Schema)
    requires Established(stmt, keyspace, s) && Extends(s, s')
    ensures Established(stmt, keyspace, s')
  {
  }

  /** The events `stmts` produce when issued one by one in a session bound to `keyspace`. */
  function Executes(keyspace: Option<string>, stmts: seq<Statement>): (log: seq<Event>)
    ensures |log| == |stmts|
    ensures forall i :: 0 <= i < |stmts| ==> log[i] == Execute(keyspace, stmts[i])
  {
    if |stmts| == 0 then [] else [Execute(keyspace, stmts[0])] + Executes(keyspace, stmts[1..])
  }

  /** Issues `stmts` in order and stops at the first one that raises; the
      statements before it keep their effect. */
  function ExecuteAll(w: World, session: Session, stmts: seq<Statement>): Run<()>
    decreases |stmts|
  {
    if |stmts| == 0 then Run(Success(()), w, [])
    else
      var first := SessionExecute(w, session, stmts[0]);
      if first.result.Failure? then first
      else
        var rest := ExecuteAll(first.world, session, stmts[1..]);
        Run(rest.result, rest.world, first.log + rest.log)
  }

  /** `ExecuteAll` logs a prefix of the statements, non-empty when it raises
      and complete when it succeeds. */
  lemma {:induction false} ExecuteAllLog(w: World, session: Session, stmts: seq<Statement>)
    ensures var r := ExecuteAll(w, session, stmts);
      && |r.log| <= |stmts|
      && (forall i :: 0 <= i < |r.log| ==> r.log[i] == Execute(session.keyspace, stmts[i]))
      && (r.result.Success? ==> |r.log| == |stmts|)
      && (r.result.Failure? ==> |r.log| >= 1)
    decreases |stmts|
  {
    if |stmts| > 0 {
      var first := SessionExecute(w, session, stmts[0]);
      if first.result.Success? {
        var rest := ExecuteAll(first.world, session, stmts[1..]);
        ExecuteAllLog(first.world, session, stmts[1..]);
        var log := first.log + rest.log;
        assert forall i :: 1 <= i < |log| ==> log[i] == rest.log[i - 1];
      }
    }
  }

  /** `ExecuteAll` never changes or removes an existing schema object, and on
      success every statement's object exists. */
  lemma {:induction false} ExecuteAllEffect(w: World, session: Session, stmts: seq<Statement>)
    ensures var r := ExecuteAll(w, session, stmts);
      && Extends(w.schema, r.world.schema)
      && (r.result.Success? ==>
            forall i :: 0 <= i < |stmts| ==> Established(stmts[i], session.keyspace, r.world.schema))
    decreases |stmts|
  {
    if |stmts| > 0 {
      var first := SessionExecute(w, session, stmts[0]);
      if first.result.Success? {
        var rest := ExecuteAll(first.world, session, stmts[1..]);
        ExecuteAllEffect(first.world, session, stmts[1..]);
        ExtendsTransitive(w.schema, first.world.schema, rest.world.schema);
        if rest.result.Success? {
          assert Established(stmts[0], session.keyspace, first.world.schema);
          EstablishedPersists(stmts[0], session.keyspace, first.world.schema, rest.world.schema);
          assert forall i :: 1 <= i < |stmts| ==> stmts[i] == stmts[1..][i - 1];
        }
      }
    }
  }

  /** `EnsureTablesExist`: the table statements, in order, in the keyspace session. */
  function EnsureTablesExist(w: World, session: Session): Run<()> {
    ExecuteAll(w, session, TableStatements)
  }

  /** After `EnsureTablesExist` succeeds the table and both indexes exist;
      whatever happens, nothing that existed before is changed or removed,
      and the statements issued are a prefix of the three, all of them on success. */
  lemma EnsureTablesExistFacts(w: World, session: Session)
    requires session.keyspace.Some?
    ensures var r := EnsureTablesExist(w, session);
      && Extends(w.schema, r.world.schema)
      && (r.result.Success? ==> r.log == Executes(session.keyspace, TableStatements))
      && (r.result.Success? ==> TablesReady(r.world.schema, session.keyspace.value))
      && 1 <= |r.log| <= |TableStatements|
      && (forall i :: 0 <= i < |r.log| ==> r.log[i] == Execute(session.keyspace, TableStatements[i]))
  {
    ExecuteAllLog(w, session, TableStatements);
    ExecuteAllEffect(w, session, TableStatements);
  }

  /** The first `n` answers of `w` are normal (answers past the end are). */
  ghost predicate AnswersNormal(w: World, n: nat) {
    forall i :: 0 <= i < n && i < |w.answers| ==> w.answers[i].Normal?
  }

  /** Re-issuing `IF NOT EXISTS` statements whose objects already exist
      changes nothing, and succeeds when the driver answers. */
  lemma {:induction false} RerunIsNoOp(w: World, session: Session, stmts: seq<Statement>)
    requires forall i :: 0 <= i < |stmts| ==> !stmts[i].CreateKeyspace?
    requires forall i :: 0 <= i < |stmts| ==> Established(stmts[i], session.keyspace, w.schema)
    ensures ExecuteAll(w, session, stmts).world.schema == w.schema
    ensures AnswersNormal(w, |stmts|) ==> ExecuteAll(w, session, stmts).result.Success?
    decreases |stmts|
  {
    if |stmts| > 0 {
      var first := SessionExecute(w, session, stmts[0]);
      assert Apply(w.schema, session.keyspace, stmts[0]) == Success(w.schema) by {
        match stmts[0]
        case CreateTableIfNotExists(_, _) =>
        case CreateIndexIfNotExists(_, _) =>
          assert w.schema.indexes + {IndexRef(TableRef(session.keyspace.value, stmts[0].table), stmts[0].column)} == w.schema.indexes;
      }
      assert first.world.schema == w.schema;
      if first.result.Success? {
        RerunIsNoOp(first.world, session, stmts[1..]);
        if AnswersNormal(w, |stmts|) {
          assert AnswersNormal(first.world, |stmts| - 1) by {
            if |w.answers| > 0 {
              assert forall i :: 0 <= i < |first.world.answers| ==> first.world.answers[i] == w.answers[i + 1];
            }
          }
        }
      } else {
        assert |w.answers| > 0 && w.answers[0].Throw?;
      }
    }
  }

  /** `EnsureTablesExist` is idempotent: run again on the schema a successful
      run left behind, it changes nothing, and it succeeds whenever the
      driver answers its three statements. */
  lemma EnsureTablesIdempotent(w: World, w': World, session: Session)
    requires session.keyspace.Some?
    requires EnsureTablesExist(w, session).result.Success?
    requires w'.schema == EnsureTablesExist(w, session).world.schema
    ensures EnsureTablesExist(w', session).world.schema == w'.schema
    ensures AnswersNormal(w', |TableStatements|) ==> EnsureTablesExist(w', session).result.Success?
  {
    EnsureTablesExistFacts(w, session);
    RerunIsNoOp(w', session, TableStatements);
  }

  /** A `comments` table already in `keyspace` has the two indexed columns,
      as the one this service creates does. */
  predicate TableCompatible(s: Schema, keyspace: string) {
    var t := TableRef(keyspace, CommentsTableName);
    t in s.tables ==> HasColumn(s.tables[t], "post_id") && HasColumn(s.tables[t], "user_id")
  }

  /** `EnsureTablesExist` succeeds in a session bound to an existing keyspace
      when the driver answers its three statements and a `comments` table
      already there has the indexed columns. */
  lemma EnsureTablesSucceed(w: World, session: Session)
    requires session.keyspace.Some? && session.keyspace.value in w.schema.keyspaces
    requires TableCompatible(w.schema, session.keyspace.value)
    requires AnswersNormal(w, |TableStatements|)
    ensures EnsureTablesExist(w, session).result.Success?
  {
    var t := TableRef(session.keyspace.value, CommentsTableName);
    var stmts := TableStatements;
    TableColumnNames("post_id");
    TableColumnNames("user_id");
    var r1 := SessionExecute(w, session, stmts[0]);
    assert r1.result.Success?;
    assert AnswersNormal(r1.world, 2);
    assert t in r1.world.schema.tables;
    assert HasColumn(r1.world.schema.tables[t], "post_id") && HasColumn(r1.world.schema.tables[t], "user_id");
    var r2 := SessionExecute(r1.world, session, stmts[1]);
    assert r2.result.Success?;
    assert AnswersNormal(r2.world, 1);
    assert r2.world.schema.tables == r1.world.schema.tables;
    var r3 := SessionExecute(r2.world, session, stmts[2]);
    assert r3.result.Success?;
    assert stmts[1..][1..][1..] == [];
    assert ExecuteAll(r2.world, session, stmts[1..][1..]).result == r3.result;
    assert ExecuteAll(r1.world, session, stmts[1..]).result == ExecuteAll(r2.world, session, stmts[1..][1..]).result;
  }

  // --------------------------------------------------------- connect, retry

  /** One pass of the retry loop's body: connect to the keyspace, then ensure
      the tables exist. A session whose table creation raised is abandoned,
      not disposed. */
  function Attempt(w: World, keyspace: string): Run<Session> {
    var c := ClusterConnect(w, Some(keyspace));
    if c.result.Failure? then c
    else
      var e := EnsureTablesExist(c.world, c.result.value);
      match e.result
      case Success(_) => Run(Success(c.result.value), e.world, c.log + e.log)
      case Failure(f) => Run(Failure(f), e.world, c.log + e.log)
  }

  /** The calls of one attempt: one connection to `keyspace`, then only table
      statements in it. */
  predicate AttemptLog(log: seq<Event>, keyspace: string) {
    && |log| >= 1 && log[0] == Connect(Some(keyspace))
    && forall i :: 1 <= i < |log| ==>
         log[i].Execute? && log[i].keyspace == Some(keyspace) && log[i].stmt in TableStatements
  }

  /** An attempt connects once, to the keyspace, and then only issues table
      statements in it; it never changes or removes an existing schema
      object; and when it succeeds the keyspace, the table and both indexes
      exist and the session is bound to the keyspace. */
  lemma AttemptFacts(w: World, keyspace: string)
    ensures AttemptLog(Attempt(w, keyspace).log, keyspace)
    ensures Extends(w.schema, Attempt(w, keyspace).world.schema)
    ensures Connected(Attempt(w, keyspace), keyspace)
  {
    var c := ClusterConnect(w, Some(keyspace));
    if c.result.Success? {
      var e := EnsureTablesExist(c.world, c.result.value);
      EnsureTablesExistFacts(c.world, c.result.value);
      var log := c.log + e.log;
      assert forall i :: 1 <= i < |log| ==> log[i] == e.log[i - 1];
      assert forall i :: 0 <= i < |e.log| ==> e.log[i].stmt in TableStatements by {
        forall i | 0 <= i < |e.log| ensures e.log[i].stmt in TableStatements {
          assert e.log[i].stmt == TableStatements[i];
        }
      }
      assert keyspace in e.world.schema.keyspaces;
    }
  }

  /** A run of a connection attempt that either raised or returned a session
      bound to `keyspace` with the keyspace, its table and both indexes in
      place. */
  ghost predicate Connected(r: Run<Session>, keyspace: string) {
    r.result.Success? ==>
      && r.result.value == Session(Some(keyspace))
      && keyspace in r.world.schema.keyspaces
      && TablesReady(r.world.schema, keyspace)
  }

  /** `Attempt` for `keyspace`, as the value the retry loop repeats. */
  function AttemptOf(keyspace: string): World -> Run<Session> {
    w => Attempt(w, keyspace)
  }

  /** What every attempt does, from whatever world it starts: the facts of
      `AttemptFacts`. The retry loop is reasoned about for any such attempt. */
  ghost predicate WellBehaved(attempt: World -> Run<Session>, keyspace: string) {
    forall v :: && AttemptLog(attempt(v).log, keyspace)
                && Extends(v.schema, attempt(v).world.schema)
                && Connected(attempt(v), keyspace)
  }

  lemma AttemptOfWellBehaved(keyspace: string)
    ensures WellBehaved(AttemptOf(keyspace), keyspace)
  {
    forall v ensures && AttemptLog(AttemptOf(keyspace)(v).log, keyspace)
                     && Extends(v.schema, AttemptOf(keyspace)(v).world.schema)
                     && Connected(AttemptOf(keyspace)(v), keyspace)
    {
      AttemptFacts(v, keyspace);
    }
  }

  /** The world in which attempt `i` (counting from 0) starts, when every
      earlier attempt ran from the world the previous one left. */
  function WorldBefore(attempt: World -> Run<Session>, w: World, i: nat): World
    decreases i
  {
    if i == 0 then w else attempt(WorldBefore(attempt, w, i - 1)).world
  }

  /** Attempt number `i`. */
  function AttemptRun(attempt: World -> Run<Session>, w: World, i: nat): Run<Session> {
    attempt(WorldBefore(attempt, w, i))
  }

  /** How many of the first `bound` attempts fail before one succeeds
      (`bound` when none of them does). */
  function LeadingFailures(attempt: World -> Run<Session>, w: World, bound: nat): (k: nat)
    ensures k <= bound
    ensures forall j :: 0 <= j < k ==> AttemptRun(attempt, w, j).result.Failure?
    ensures k < bound ==> AttemptRun(attempt, w, k).result.Success?
  {
    if bound == 0 then 0
    else
      var k := LeadingFailures(attempt, w, bound - 1);
      if k < bound - 1 then k
      else if AttemptRun(attempt, w, bound - 1).result.Success? then bound - 1
      else bound
  }

  /** `LeadingFailures` is determined by where the first success is. */
  lemma LeadingFailuresIs(attempt: World -> Run<Session>, w: World, bound: nat, k: nat)
    requires k <= bound
    requires forall j :: 0 <= j < k ==> AttemptRun(attempt, w, j).result.Failure?
    requires k < bound ==> AttemptRun(attempt, w, k).result.Success?
    ensures LeadingFailures(attempt, w, bound) == k
  {
  }

  /** The calls made by attempts `0 .. m-1`, one `Sleep(RetryDelayMs)` between
      consecutive attempts. */
  function RetryLog(attempt: World -> Run<Session>, w: World, m: nat): seq<Event>
    requires m >= 1
  {
    if m == 1 then AttemptRun(attempt, w, 0).log
    else RetryLog(attempt, w, m - 1) + [Sleep(RetryDelayMs)] + AttemptRun(attempt, w, m - 1).log
  }

  /** The only calls the retry loop makes: connecting to the keyspace, the
      table statements in it, and the fixed pause. */
  predicate RetryEvent(e: Event, keyspace: string) {
    || e == Connect(Some(keyspace))
    || e == Sleep(RetryDelayMs)
    || (e.Execute? && e.keyspace == Some(keyspace) && e.stmt in TableStatements)
  }

  lemma {:induction false} ExecutesCount(log: seq<Event>, keyspace: string)
    requires forall i :: 0 <= i < |log| ==> log[i].Execute?
    ensures Connects(log, Some(keyspace)) == 0 && Sleeps(log) == 0
    decreases |log|
  {
    if |log| > 0 {
      ExecutesCount(log[1..], keyspace);
    }
  }

  /** The calls of `m` attempts with a pause between consecutive ones: exactly
      `m` connections, exactly `m - 1` pauses, no other kind of call, and no
      pause at the end. */
  predicate RetryShape(log: seq<Event>, keyspace: string, m: nat) {
    && Connects(log, Some(keyspace)) == m
    && Sleeps(log) == m - 1
    && (forall i :: 0 <= i < |log| ==> RetryEvent(log[i], keyspace))
    && |log| >= 1 && !log[|log| - 1].Sleep?
  }

  lemma AttemptShape(log: seq<Event>, keyspace: string)
    requires AttemptLog(log, keyspace)
    ensures RetryShape(log, keyspace, 1)
  {
    var rest := log[1..];
    assert log == [log[0]] + rest;
    ExecutesCount(rest, keyspace);
  }

  /** Appending a pause and one more attempt extends the shape by one attempt. */
  lemma ShapeStep(prev: seq<Event>, last: seq<Event>, keyspace: string, m: nat)
    requires m >= 1 && RetryShape(prev, keyspace, m) && AttemptLog(last, keyspace)
    ensures RetryShape(prev + [Sleep(RetryDelayMs)] + last, keyspace, m + 1)
  {
    AttemptShape(last, keyspace);
    ConnectsAppend(prev + [Sleep(RetryDelayMs)], last, Some(keyspace));
    ConnectsAppend(prev, [Sleep(RetryDelayMs)], Some(keyspace));
    SleepsAppend(prev + [Sleep(RetryDelayMs)], last);
    SleepsAppend(prev, [Sleep(RetryDelayMs)]);
    var log := prev + [Sleep(RetryDelayMs)] + last;
    forall i | 0 <= i < |log| ensures RetryEvent(log[i], keyspace) {
      if i < |prev| {
        assert log[i] == prev[i];
      } else if i > |prev| {
        assert log[i] == last[i - |prev| - 1];
      }
    }
    assert log[|log| - 1] == last[|last| - 1];
  }

  /** Attempts `0 .. m-1` with pauses between them connect exactly `m` times,
      pause exactly `m - 1` times, always for `RetryDelayMs`, make no other
      kind of call, and never end with a pause. */
  lemma {:induction false} RetryLogShape(attempt: World -> Run<Session>, keyspace: string, w: World, m: nat)
    requires WellBehaved(attempt, keyspace)
    requires m >= 1
    ensures RetryShape(RetryLog(attempt, w, m), keyspace, m)
  {
    var last := AttemptRun(attempt, w, m - 1);
    assert AttemptLog(last.log, keyspace);
    if m == 1 {
      AttemptShape(last.log, keyspace);
    } else {
      RetryLogShape(attempt, keyspace, w, m - 1);
      ShapeStep(RetryLog(attempt, w, m - 1), last.log, keyspace, m - 1);
    }
  }

  /** The number of attempts `ConnectWithRetry` makes from `w`: up to and
      including the first success, or `MaxRetries` when none succeeds. */
  function AttemptsMade(attempt: World -> Run<Session>, w: World): (n: nat)
    ensures 1 <= n <= MaxRetries
  {
    var k := LeadingFailures(attempt, w, MaxRetries);
    if k < MaxRetries then k + 1 else MaxRetries
  }

  /** What `ConnectWithRetry` computes, in closed form: the result and the
      world of the last attempt it makes, and the calls of all its attempts
      with a pause between consecutive ones. */
  function Retry(attempt: World -> Run<Session>, w: World): Run<Session> {
    var n := AttemptsMade(attempt, w);
    var last := AttemptRun(attempt, w, n - 1);
    Run(last.result, last.world, RetryLog(attempt, w, n))
  }

  /** The state at the head of the retry loop: `retryCount` attempts made and
      failed, the world they left, their calls and the pause after the last. */
  ghost predicate Retrying(attempt: World -> Run<Session>, w: World, retryCount: nat, current: World, log: seq<Event>) {
    && retryCount < MaxRetries
    && current == WorldBefore(attempt, w, retryCount)
    && (forall j :: 0 <= j < retryCount ==> AttemptRun(attempt, w, j).result.Failure?)
    && log == (if retryCount == 0 then [] else RetryLog(attempt, w, retryCount) + [Sleep(RetryDelayMs)])
  }

  /** One pass of the loop body: a success returns, the failure of the last
      permitted attempt rethrows, any other failure pauses and loops. */
  lemma RetryStep(attempt: World -> Run<Session>, w: World, retryCount: nat, current: World, log: seq<Event>)
    requires Retrying(attempt, w, retryCount, current, log)
    ensures var a := attempt(current);
      && (a.result.Success? || retryCount + 1 >= MaxRetries ==>
            Retry(attempt, w) == Run(a.result, a.world, log + a.log))
      && (a.result.Failure? && retryCount + 1 < MaxRetries ==>
            Retrying(attempt, w, retryCount + 1, a.world, log + a.log + [Sleep(RetryDelayMs)]))
  {
    var a := attempt(current);
    assert a == AttemptRun(attempt, w, retryCount);
    assert WorldBefore(attempt, w, retryCount + 1) == a.world;
    assert log + a.log == RetryLog(attempt, w, retryCount + 1);
    if a.result.Success? {
      LeadingFailuresIs(attempt, w, MaxRetries, retryCount);
    } else if retryCount + 1 >= MaxRetries {
      LeadingFailuresIs(attempt, w, MaxRetries, MaxRetries);
    }
  }

  /** The retry loop of `ConnectWithRetry` around a given attempt: at most
      `MaxRetries` attempts, a pause of `RetryDelayMs` after every failed
      attempt but the last, return on the first success, rethrow the fault of
      the last attempt when all fail. The loop never ends by its own
      condition: the fall-through `throw` after it is unreachable. */
  method RetryLoop(attempt: World -> Run<Session>, w: World) returns (r: Result<Session, Fault>, w': World, log: seq<Event>)
    ensures Run(r, w', log) == Retry(attempt, w)
  {
    var retryCount := 0;
    var current := w;
    log := [];
    while retryCount < MaxRetries
      invariant Retrying(attempt, w, retryCount, current, log)
      decreases MaxRetries - retryCount
    {
      var a := attempt(current);
      RetryStep(attempt, w, retryCount, current, log);
      log := log + a.log;
      current := a.world;
      if a.result.Success? {
        r, w' := a.result, current;
        return;
      }
      retryCount := retryCount + 1;
      if retryCount >= MaxRetries {
        r, w' := a.result, current;
        return;
      }
      log := log + [Sleep(RetryDelayMs)];
    }
    assert false;
  }

  /** `ConnectWithRetry`: the retry loop around `Attempt` for the keyspace.
      It returns the session of the first attempt whose connection and table
      creation both succeed, making no further attempt, or raises the fault
      of the last attempt when all `MaxRetries` fail. */
  method ConnectWithRetry(w: World, keyspace: string) returns (r: Result<Session, Fault>, w': World, log: seq<Event>)
    ensures Run(r, w', log) == Retry(AttemptOf(keyspace), w)
  {
    r, w', log := RetryLoop(AttemptOf(keyspace), w);
  }

  /** The retry loop succeeds exactly when one of the first `MaxRetries`
      attempts does. After `k` failures and a success it has connected
      `k + 1` times and paused `k` times; after `MaxRetries` failures it has
      connected `MaxRetries` times, paused one time fewer, and raises the
      fault of the last attempt. It never pauses last and makes no other
      kind of call. */
  lemma RetryCounts(attempt: World -> Run<Session>, keyspace: string, w: World)
    requires WellBehaved(attempt, keyspace)
    ensures var r := Retry(attempt, w);
      var k := LeadingFailures(attempt, w, MaxRetries);
      && (r.result.Success? <==> k < MaxRetries)
      && (r.result.Success? ==> RetryShape(r.log, keyspace, k + 1) && r.result == AttemptRun(attempt, w, k).result)
      && (r.result.Failure? ==>
            && RetryShape(r.log, keyspace, MaxRetries)
            && r.result == AttemptRun(attempt, w, MaxRetries - 1).result
            && (forall j :: 0 <= j < MaxRetries ==> AttemptRun(attempt, w, j).result.Failure?))
  {
    RetryLogShape(attempt, keyspace, w, AttemptsMade(attempt, w));
  }

  /** A corollary: between one and `MaxRetries` connections, one pause fewer. */
  lemma RetryBounds(attempt: World -> Run<Session>, keyspace: string, w: World)
    requires WellBehaved(attempt, keyspace)
    ensures var r := Retry(attempt, w);
      && 1 <= Connects(r.log, Some(keyspace)) <= MaxRetries
      && Sleeps(r.log) == Connects(r.log, Some(keyspace)) - 1
  {
    RetryLogShape(attempt, keyspace, w, AttemptsMade(attempt, w));
  }

  /** The world before any attempt extends the initial one. */
  lemma {:induction false} WorldBeforeExtends(attempt: World -> Run<Session>, keyspace: string, w: World, i: nat)
    requires WellBehaved(attempt, keyspace)
    ensures Extends(w.schema, WorldBefore(attempt, w, i).schema)
  {
    if i > 0 {
      var prev := WorldBefore(attempt, w, i - 1);
      WorldBeforeExtends(attempt, keyspace, w, i - 1);
      assert Extends(prev.schema, attempt(prev).world.schema);
      ExtendsTransitive(w.schema, prev.schema, attempt(prev).world.schema);
    }
  }

  /** The retry loop never changes or removes an existing schema object, and
      a session it returns is bound to the keyspace, whose table and indexes
      then exist. */
  lemma RetryEffect(attempt: World -> Run<Session>, keyspace: string, w: World)
    requires WellBehaved(attempt, keyspace)
    ensures Extends(w.schema, Retry(attempt, w).world.schema)
    ensures Connected(Retry(attempt, w), keyspace)
  {
    var n := AttemptsMade(attempt, w);
    var start := WorldBefore(attempt, w, n - 1);
    WorldBeforeExtends(attempt, keyspace, w, n - 1);
    var last := attempt(start);
    assert Extends(start.schema, last.world.schema) && Connected(last, keyspace);
    ExtendsTransitive(w.schema, start.schema, last.world.schema);
    assert Retry(attempt, w) == last.(log := RetryLog(attempt, w, n));
    ConnectedIgnoresLog(last, RetryLog(attempt, w, n), keyspace);
  }

  lemma ConnectedIgnoresLog(r: Run<Session>, log: seq<Event>, keyspace: string)
    requires Connected(r, keyspace)
    ensures Connected(r.(log := log), keyspace)
  {
  }

  /** The retry loop issues no `CREATE KEYSPACE`. */
  lemma RetryCreatesNoKeyspace(attempt: World -> Run<Session>, keyspace: string, w: World)
    requires WellBehaved(attempt, keyspace)
    ensures KeyspaceCreations(Retry(attempt, w).log) == 0
  {
    RetryLogShape(attempt, keyspace, w, AttemptsMade(attempt, w));
    RetryEventsCreateNoKeyspace(Retry(attempt, w).log, keyspace);
  }

  /** Calls of the retry loop issue no `CREATE KEYSPACE`. */
  lemma {:induction false} RetryEventsCreateNoKeyspace(log: seq<Event>, keyspace: string)
    requires forall i :: 0 <= i < |log| ==> RetryEvent(log[i], keyspace)
    ensures KeyspaceCreations(log) == 0
    decreases |log|
  {
    if |log| > 0 {
      assert log[0].Execute? ==> log[0].stmt in TableStatements;
      RetryEventsCreateNoKeyspace(log[1..], keyspace);
    }
  }

  // ------------------------------------------------------------ construction

  /** The context's ownership of its session and cluster. */
  datatype Lifetime = Lifetime(
    session: Option<Session>,
    hasCluster: bool,
    disposed: bool,
    finalizerSuppressed: bool)

  /** A constructed context: the cluster it built, the keyspace session, the
      mapping it configured, and its ownership state. */
  datatype Context = Context(
    settings: ClusterSettings,
    keyspace: string,
    session: Session,
    mapping: TableMap,
    lifetime: Lifetime)

  /** The constructor. Reads the settings, opens a session without keyspace,
      creates the keyspace if the metadata lacks it, disposes that temporary
      session, connects with retry (`Retry`, which `ConnectWithRetry`
      computes) and configures the mapping. Any exception propagates; a
      temporary session left open by a failed keyspace step is not disposed. */
  function Create(config: Configuration, w: World): Run<Context> {
    match BuildSettings(config)
    case Failure(f) => Run(Failure(f), w, [])
    case Success((settings, keyspace)) =>
      var temp := ClusterConnect(w, None);
      if temp.result.Failure? then Run(Failure(temp.result.error), temp.world, temp.log)
      else
        var created := CheckAndCreateKeyspaceIfNeeded(temp.world, temp.result.value, keyspace);
        var before := temp.log + created.log;
        if created.result.Failure? then Run(Failure(created.result.error), created.world, before)
        else
          var retry := Retry(AttemptOf(keyspace), created.world);
          var log := before + [DisposeSession(None)] + retry.log;
          match retry.result
          case Failure(f) => Run(Failure(f), retry.world, log)
          case Success(s) =>
            Run(Success(Context(settings, keyspace, s, CommentMap, Lifetime(Some(s), true, false, false))), retry.world, log)
  }

  /** A missing host list or keyspace name raises before any call is made;
      otherwise the first call is the connection without keyspace. */
  lemma CreateStartsUnbound(config: Configuration, w: World)
    ensures var r := Create(config, w);
      && (BuildSettings(config).Failure? ==>
            r == Run(Failure(BuildSettings(config).error), w, []))
      && (BuildSettings(config).Success? ==> |r.log| >= 1 && r.log[0] == Connect(None))
  {
  }

  /** A constructed context holds the configured settings, a session bound to
      the keyspace, the `comments` mapping and both resources, undisposed;
      the keyspace, table and indexes exist, and the temporary session was
      disposed. */
  lemma CreateSucceeds(config: Configuration, w: World)
    ensures var r := Create(config, w);
      r.result.Success? ==>
        var ctx := r.result.value;
        && BuildSettings(config) == Success((ctx.settings, ctx.keyspace))
        && ctx.session == Session(Some(ctx.keyspace))
        && ctx.keyspace in r.world.schema.keyspaces
        && TablesReady(r.world.schema, ctx.keyspace)
        && ctx.mapping == CommentMap
        && ctx.lifetime == Lifetime(Some(ctx.session), true, false, false)
        && DisposeSession(None) in r.log
  {
    if BuildSettings(config).Success? {
      var (settings, keyspace) := BuildSettings(config).value;
      var temp := ClusterConnect(w, None);
      if temp.result.Success? {
        var created := CheckAndCreateKeyspaceIfNeeded(temp.world, temp.result.value, keyspace);
        if created.result.Success? {
          AttemptOfWellBehaved(keyspace);
          RetryEffect(AttemptOf(keyspace), keyspace, created.world);
          var before := temp.log + created.log;
          assert (before + [DisposeSession(None)] + Retry(AttemptOf(keyspace), created.world).log)[|before|] == DisposeSession(None);
        }
      }
    }
  }

  /** The constructor succeeds exactly when both required settings are
      present, the connection without keyspace and the keyspace step do not
      raise, and one of the first `MaxRetries` connection attempts succeeds. */
  lemma CreateSucceedsIff(config: Configuration, w: World)
    ensures Create(config, w).result.Success? <==>
      && config.hosts.Some? && config.keyspace.Some?
      && var temp := ClusterConnect(w, None);
         && temp.result.Success?
         && var created := CheckAndCreateKeyspaceIfNeeded(temp.world, temp.result.value, config.keyspace.value);
            && created.result.Success?
            && LeadingFailures(AttemptOf(config.keyspace.value), created.world, MaxRetries) < MaxRetries
  {
    if config.hosts.Some? && config.keyspace.Some? {
      var keyspace := config.keyspace.value;
      var temp := ClusterConnect(w, None);
      if temp.result.Success? {
        var created := CheckAndCreateKeyspaceIfNeeded(temp.world, temp.result.value, keyspace);
        if created.result.Success? {
          AttemptOfWellBehaved(keyspace);
          RetryCounts(AttemptOf(keyspace), keyspace, created.world);
        }
      }
    }
  }

  /** On a cluster whose driver answers every call, the constructor succeeds
      whenever both required settings are present, unless a `comments` table
      already in the keyspace lacks an indexed column. */
  lemma CreateSucceedsOnHealthyCluster(config: Configuration, w: World)
    requires config.hosts.Some? && config.keyspace.Some?
    requires w.answers == []
    requires TableCompatible(w.schema, config.keyspace.value)
    ensures Create(config, w).result.Success?
  {
    var keyspace := config.keyspace.value;
    var temp := ClusterConnect(w, None);
    assert temp.result.Success? && temp.world == w;
    var created := CheckAndCreateKeyspaceIfNeeded(temp.world, temp.result.value, keyspace);
    assert created.result.Success? && created.world.answers == [];
    assert keyspace in created.world.schema.keyspaces;
    assert created.world.schema.tables == w.schema.tables;
    var attempt := AttemptOf(keyspace);
    var c := ClusterConnect(created.world, Some(keyspace));
    assert c.result.Success? && c.world == created.world;
    EnsureTablesSucceed(c.world, c.result.value);
    assert AttemptRun(attempt, created.world, 0) == Attempt(created.world, keyspace);
    assert AttemptRun(attempt, created.world, 0).result.Success?;
    LeadingFailuresIs(attempt, created.world, MaxRetries, 0);
    CreateSucceedsIff(config, w);
  }

  /** Attempts with pauses between them start with a connection to the keyspace. */
  lemma {:induction false} RetryLogStartsConnected(attempt: World -> Run<Session>, keyspace: string, w: World, m: nat)
    requires WellBehaved(attempt, keyspace)
    requires m >= 1
    ensures |RetryLog(attempt, w, m)| >= 1 && RetryLog(attempt, w, m)[0] == Connect(Some(keyspace))
  {
    if m == 1 {
      assert AttemptLog(AttemptRun(attempt, w, 0).log, keyspace);
    } else {
      RetryLogStartsConnected(attempt, keyspace, w, m - 1);
    }
  }

  /** A disposal placed between calls that never connect to `keyspace` and
      calls that start by connecting to it. */
  ghost predicate DisposedBeforeConnecting(log: seq<Event>, keyspace: string) {
    exists i ::
      && 1 <= i && i + 1 < |log|
      && log[i] == DisposeSession(None)
      && log[i + 1] == Connect(Some(keyspace))
      && Connects(log[..i], Some(keyspace)) == 0
  }

  lemma DisposedBetween(before: seq<Event>, after: seq<Event>, keyspace: string)
    requires |before| >= 1 && Connects(before, Some(keyspace)) == 0
    requires |after| >= 1 && after[0] == Connect(Some(keyspace))
    ensures DisposedBeforeConnecting(before + [DisposeSession(None)] + after, keyspace)
  {
    var log := before + [DisposeSession(None)] + after;
    assert log[..|before|] == before;
    assert log[|before| + 1] == after[0];
  }

  /** The calls before the keyspace session: the connection without keyspace
      and at most one `CREATE KEYSPACE`, none of them a keyspace connection. */
  lemma KeyspaceStepConnectsNone(w: World, keyspace: string)
    ensures var temp := ClusterConnect(w, None);
      temp.result.Success? ==>
        var created := CheckAndCreateKeyspaceIfNeeded(temp.world, temp.result.value, keyspace);
        Connects(temp.log + created.log, Some(keyspace)) == 0
  {
    var temp := ClusterConnect(w, None);
    if temp.result.Success? {
      var created := CheckAndCreateKeyspaceIfNeeded(temp.world, temp.result.value, keyspace);
      ConnectsAppend(temp.log, created.log, Some(keyspace));
      ExecutesCount(created.log, keyspace);
    }
  }

  /** The temporary session is disposed before the keyspace session is
      opened: in the calls of a successful construction, its disposal comes
      before any connection to the keyspace and right before the first. */
  lemma CreateDisposesBeforeReconnecting(config: Configuration, w: World)
    ensures var r := Create(config, w);
      r.result.Success? ==> DisposedBeforeConnecting(r.log, r.result.value.keyspace)
  {
    var r := Create(config, w);
    if r.result.Success? {
      var keyspace := config.keyspace.value;
      var temp := ClusterConnect(w, None);
      var created := CheckAndCreateKeyspaceIfNeeded(temp.world, temp.result.value, keyspace);
      var retry := Retry(AttemptOf(keyspace), created.world);
      assert r.log == temp.log + created.log + [DisposeSession(None)] + retry.log;
      assert r.result.value.keyspace == keyspace;
      AttemptOfWellBehaved(keyspace);
      RetryLogStartsConnected(AttemptOf(keyspace), keyspace, created.world, AttemptsMade(AttemptOf(keyspace), created.world));
      KeyspaceStepConnectsNone(w, keyspace);
      DisposedBetween(temp.log + created.log, retry.log, keyspace);
    }
  }

  /** The constructor never changes or removes an existing schema object. */
  lemma CreateExtends(config: Configuration, w: World)
    ensures Extends(w.schema, Create(config, w).world.schema)
  {
    if BuildSettings(config).Success? {
      var (settings, keyspace) := BuildSettings(config).value;
      var temp := ClusterConnect(w, None);
      if temp.result.Success? {
        var created := CheckAndCreateKeyspaceIfNeeded(temp.world, temp.result.value, keyspace);
        if created.result.Success? {
          AttemptOfWellBehaved(keyspace);
          RetryEffect(AttemptOf(keyspace), keyspace, created.world);
          ExtendsTransitive(w.schema, created.world.schema, Retry(AttemptOf(keyspace), created.world).world.schema);
        }
      }
    }
  }

  /** The constructor connects to the keyspace at most `MaxRetries` times. */
  lemma CreateConnects(config: Configuration, w: World)
    ensures config.keyspace.Some? ==> Connects(Create(config, w).log, Some(config.keyspace.value)) <= MaxRetries
  {
    if BuildSettings(config).Success? {
      var (settings, keyspace) := BuildSettings(config).value;
      var temp := ClusterConnect(w, None);
      if temp.result.Success? {
        var created := CheckAndCreateKeyspaceIfNeeded(temp.world, temp.result.value, keyspace);
        var before := temp.log + created.log;
        ConnectsAppend(temp.log, created.log, Some(keyspace));
        if created.result.Success? {
          var retry := Retry(AttemptOf(keyspace), created.world);
          AttemptOfWellBehaved(keyspace);
          RetryBounds(AttemptOf(keyspace), keyspace, created.world);
          ConnectsAppend(before, [DisposeSession(None)], Some(keyspace));
          ConnectsAppend(before + [DisposeSession(None)], retry.log, Some(keyspace));
        }
      }
    }
  }

  /** The constructor issues at most one `CREATE KEYSPACE`, and none when the
      keyspace already exists. */
  lemma CreateKeyspaceAtMostOnce(config: Configuration, w: World)
    ensures KeyspaceCreations(Create(config, w).log) <= 1
    ensures config.keyspace.Some? && config.keyspace.value in w.schema.keyspaces ==>
      KeyspaceCreations(Create(config, w).log) == 0
  {
    if BuildSettings(config).Success? {
      var (settings, keyspace) := BuildSettings(config).value;
      var temp := ClusterConnect(w, None);
      if temp.result.Success? {
        var created := CheckAndCreateKeyspaceIfNeeded(temp.world, temp.result.value, keyspace);
        var before := temp.log + created.log;
        KeyspaceCreationsAppend(temp.log, created.log);
        assert KeyspaceCreations(before) == if keyspace in w.schema.keyspaces then 0 else 1;
        if created.result.Success? {
          var retry := Retry(AttemptOf(keyspace), created.world);
          AttemptOfWellBehaved(keyspace);
          RetryCreatesNoKeyspace(AttemptOf(keyspace), keyspace, created.world);
          KeyspaceCreationsAppend(before, [DisposeSession(None)]);
          KeyspaceCreationsAppend(before + [DisposeSession(None)], retry.log);
        }
      }
    }
  }

  // ---------------------------------------------------------------- disposal

  /** The events that release the resources `l` holds: session first, then cluster. */
  function Releases(l: Lifetime): seq<Event> {
    (if l.session.Some? then [DisposeSession(l.session.value.keyspace)] else [])
    + (if l.hasCluster then [DisposeCluster] else [])
  }

  /** `Dispose(bool disposing)`: the first call marks the context disposed and,
      when `disposing`, releases the session and then the cluster; the
      finalizer path (`disposing` false) releases nothing. Later calls do nothing. */
  function DisposeCore(l: Lifetime, disposing: bool): (r: (Lifetime, seq<Event>))
    ensures r.0.disposed
    ensures r.0 == l.(disposed := true)
    ensures l.disposed ==> r.1 == []
    ensures !l.disposed && disposing && l.session.Some? && l.hasCluster ==>
      r.1 == [DisposeSession(l.session.value.keyspace), DisposeCluster]
    ensures !disposing ==> r.1 == []
  {
    if l.disposed then (l, [])
    else if disposing then (l.(disposed := true), Releases(l))
    else (l.(disposed := true), [])
  }

  /** `Dispose()`: `Dispose(true)` and then the finalizer is suppressed. */
  function Dispose(l: Lifetime): (r: (Lifetime, seq<Event>))
    ensures r.0.disposed && r.0.finalizerSuppressed
    ensures r.0.session == l.session && r.0.hasCluster == l.hasCluster
    ensures l.disposed ==> r.1 == []
  {
    var (l', events) := DisposeCore(l, true);
    (l'.(finalizerSuppressed := true), events)
  }

  /** The finalizer, which the runtime runs only if it was not suppressed. */
  function Finalize(l: Lifetime): (r: (Lifetime, seq<Event>))
    ensures r.1 == []
    ensures !l.finalizerSuppressed ==> r.0.disposed
  {
    if l.finalizerSuppressed then (l, []) else DisposeCore(l, false)
  }

  /** The first `Dispose()` of a constructed context releases the session and
      then the cluster, once each. */
  lemma DisposeReleasesOnce(ctx: Context)
    requires ctx.lifetime == Lifetime(Some(ctx.session), true, false, false)
    ensures Dispose(ctx.lifetime).1 == [DisposeSession(ctx.session.keyspace), DisposeCluster]
  {
  }

  /** `Dispose()` is idempotent: a second call changes nothing and releases
      nothing, so two calls release exactly what one does. */
  lemma DisposeIdempotent(l: Lifetime)
    ensures Dispose(Dispose(l).0) == (Dispose(l).0, [])
    ensures Dispose(l).1 + Dispose(Dispose(l).0).1 == Dispose(l).1
  {
  }

  /** After the finalizer path has run, a `Dispose()` releases nothing. */
  lemma FinalizeThenDispose(l: Lifetime)
    requires !l.finalizerSuppressed
    ensures Finalize(l).1 == [] && Dispose(Finalize(l).0).1 == []
  {
  }
}
