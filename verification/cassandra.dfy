/** The Cassandra cluster as the service sees it, reduced to what the store
    bootstrap depends on: a schema of named keyspaces, tables and secondary
    indexes; the answers the driver gives to the service's calls; and the log
    of those calls. The driver's network behaviour is an oracle: every
    `Connect` and `Execute` takes the next answer from `World.answers`, and a
    `Throw` makes that call raise. Once the answers run out every call
    answers normally. */
module Cassandra {
  import opened Wrappers

  datatype CqlType = Uuid | Text | Timestamp

  datatype ColumnDef = ColumnDef(name: string, cqlType: CqlType)

  /** A table's columns and its single-column primary (partition) key. */
  datatype TableDef = TableDef(columns: seq<ColumnDef>, primaryKey: string)

  datatype TableRef = TableRef(keyspace: string, name: string)

  /** A secondary index on one column of one table. */
  datatype IndexRef = IndexRef(table: TableRef, column: string)

  /** Keyspaces (with their replication factor), tables and indexes. */
  datatype Schema = Schema(
    keyspaces: map<string, nat>,
    tables: map<TableRef, TableDef>,
    indexes: set<IndexRef>)

  predicate HasColumn(t: TableDef, column: string) {
    exists i :: 0 <= i < |t.columns| && t.columns[i].name == column
  }

  /** Schema statements the service issues. `CREATE KEYSPACE` is issued
      without `IF NOT EXISTS`; table and index creation carry it. */
  datatype Statement =
    | CreateKeyspace(name: string, replicationFactor: nat)
    | CreateTableIfNotExists(table: string, def: TableDef)
    | CreateIndexIfNotExists(table: string, column: string)

  /** Why a call raised. */
  datatype Fault =
    | Unavailable(code: nat)              // no host answered, timeout, ... (the oracle's faults)
    | KeyspaceNotFound(keyspace: string)
    | NoKeyspaceInSession
    | AlreadyExists(name: string)
    | UnknownColumn(table: string, column: string)
    | ConfigurationMissing(key: string)

  datatype Answer = Normal | Throw(fault: Fault)

  /** A session, optionally bound to a keyspace. */
  datatype Session = Session(keyspace: Option<string>)

  /** One observable action of the service against the driver or the clock. */
  datatype Event =
    | Connect(keyspace: Option<string>)
    | Execute(keyspace: Option<string>, stmt: Statement)
    | Sleep(ms: nat)
    | DisposeSession(keyspace: Option<string>)
    | DisposeCluster

  datatype World = World(schema: Schema, answers: seq<Answer>)

  /** The outcome of a sequence of calls: the value or the raised fault, the
      world afterwards, and the calls made, in order. */
  datatype Run<T> = Run(result: Result<T, Fault>, world: World, log: seq<Event>)

  /** Every keyspace, table and index of `s` is in `s'`, unchanged. */
  ghost predicate Extends(s: Schema, s': Schema) {
    && (forall k :: k in s.keyspaces ==> k in s'.keyspaces && s'.keyspaces[k] == s.keyspaces[k])
    && (forall t :: t in s.tables ==> t in s'.tables && s'.tables[t] == s.tables[t])
    && s.indexes <= s'.indexes
  }

  /** The driver's answer to the next call. */
  function NextAnswer(w: World): (Answer, World) {
    if |w.answers| == 0 then (Normal, w) else (w.answers[0], w.(answers := w.answers[1..]))
  }

  /** What the cluster does with `stmt` issued in a session bound to `keyspace`. */
  function Apply(s: Schema, keyspace: Option<string>, stmt: Statement): (r: Result<Schema, Fault>)
    ensures r.Success? ==> Extends(s, r.value)
    ensures stmt.CreateKeyspace? ==>
      (r.Success? <==> stmt.name !in s.keyspaces)
      && (r.Success? ==> r.value.keyspaces == s.keyspaces[stmt.name := stmt.replicationFactor])
    ensures stmt.CreateTableIfNotExists? ==>
      (r.Success? <==> keyspace.Some? && keyspace.value in s.keyspaces)
      && (r.Success? ==> TableRef(keyspace.value, stmt.table) in r.value.tables)
    ensures stmt.CreateIndexIfNotExists? ==>
      (r.Success? <==>
         && keyspace.Some?
         && TableRef(keyspace.value, stmt.table) in s.tables
         && HasColumn(s.tables[TableRef(keyspace.value, stmt.table)], stmt.column))
      && (r.Success? ==> IndexRef(TableRef(keyspace.value, stmt.table), stmt.column) in r.value.indexes)
  {
    match stmt
    case CreateKeyspace(name, rf) =>
      if name in s.keyspaces then Failure(AlreadyExists(name))
      else Success(s.(keyspaces := s.keyspaces[name := rf]))
    case CreateTableIfNotExists(table, def) =>
      if keyspace.None? then Failure(NoKeyspaceInSession)
      else if keyspace.value !in s.keyspaces then Failure(KeyspaceNotFound(keyspace.value))
      else
        var t := TableRef(keyspace.value, table);
        if t in s.tables then Success(s) else Success(s.(tables := s.tables[t := def]))
    case CreateIndexIfNotExists(table, column) =>
      if keyspace.None? then Failure(NoKeyspaceInSession)
      else
        var t := TableRef(keyspace.value, table);
        if t !in s.tables || !HasColumn(s.tables[t], column) then Failure(UnknownColumn(table, column))
        else Success(s.(indexes := s.indexes + {IndexRef(t, column)}))
  }

  /** `Cluster.Connect()` / `Cluster.Connect(keyspace)`. */
  function ClusterConnect(w: World, keyspace: Option<string>): (r: Run<Session>)
    ensures r.log == [Connect(keyspace)]
    ensures r.world.schema == w.schema
    ensures r.result.Success? <==>
      NextAnswer(w).0.Normal? && (keyspace.Some? ==> keyspace.value in w.schema.keyspaces)
    ensures r.result.Success? ==> r.result.value == Session(keyspace)
  {
    var (a, w') := NextAnswer(w);
    if a.Throw? then Run(Failure(a.fault), w', [Connect(keyspace)])
    else if keyspace.Some? && keyspace.value !in w.schema.keyspaces then
      Run(Failure(KeyspaceNotFound(keyspace.value)), w', [Connect(keyspace)])
    else Run(Success(Session(keyspace)), w', [Connect(keyspace)])
  }

  /** `ISession.Execute(stmt)`. */
  function SessionExecute(w: World, session: Session, stmt: Statement): (r: Run<()>)
    ensures r.log == [Execute(session.keyspace, stmt)]
    ensures r.result.Success? <==>
      NextAnswer(w).0.Normal? && Apply(w.schema, session.keyspace, stmt).Success?
    ensures r.result.Success? ==> r.world.schema == Apply(w.schema, session.keyspace, stmt).value
    ensures r.result.Failure? ==> r.world.schema == w.schema
  {
    var (a, w') := NextAnswer(w);
    var ev := [Execute(session.keyspace, stmt)];
    if a.Throw? then Run(Failure(a.fault), w', ev)
    else
      match Apply(w.schema, session.keyspace, stmt)
      case Success(s') => Run(Success(()), w'.(schema := s'), ev)
      case Failure(f) => Run(Failure(f), w', ev)
  }

  /** The number of `Connect` calls in `log` naming `keyspace`. */
  function Connects(log: seq<Event>, keyspace: Option<string>): nat {
    if |log| == 0 then 0
    else (if log[0] == Connect(keyspace) then 1 else 0) + Connects(log[1..], keyspace)
  }

  /** The number of sleeps in `log`. */
  function Sleeps(log: seq<Event>): nat {
    if |log| == 0 then 0 else (if log[0].Sleep? then 1 else 0) + Sleeps(log[1..])
  }

  /** The number of `CREATE KEYSPACE` statements issued in `log`. */
  function KeyspaceCreations(log: seq<Event>): nat {
    if |log| == 0 then 0
    else (if log[0].Execute? && log[0].stmt.CreateKeyspace? then 1 else 0) + KeyspaceCreations(log[1..])
  }

  lemma {:induction false} ConnectsAppend(a: seq<Event>, b: seq<Event>, keyspace: Option<string>)
    ensures Connects(a + b, keyspace) == Connects(a, keyspace) + Connects(b, keyspace)
    decreases |a|
  {
    if |a| > 0 {
      assert (a + b)[1..] == a[1..] + b;
      ConnectsAppend(a[1..], b, keyspace);
    } else {
      assert a + b == b;
    }
  }

  lemma {:induction false} SleepsAppend(a: seq<Event>, b: seq<Event>)
    ensures Sleeps(a + b) == Sleeps(a) + Sleeps(b)
    decreases |a|
  {
    if |a| > 0 {
      assert (a + b)[1..] == a[1..] + b;
      SleepsAppend(a[1..], b);
    } else {
      assert a + b == b;
    }
  }

  lemma {:induction false} KeyspaceCreationsAppend(a: seq<Event>, b: seq<Event>)
    ensures KeyspaceCreations(a + b) == KeyspaceCreations(a) + KeyspaceCreations(b)
    decreases |a|
  {
    if |a| > 0 {
      assert (a + b)[1..] == a[1..] + b;
      KeyspaceCreationsAppend(a[1..], b);
    } else {
      assert a + b == b;
    }
  }
}
