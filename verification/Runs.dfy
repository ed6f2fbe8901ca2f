/** Whole runs: every sequence of public operations, started on an empty database,
    answers exactly as one map from id to row would. */
module Runs {
  import opened Bytes
  import opened Rows
  import opened Folds
  import opened Layouts
  import opened Index
  import opened Replay
  import opened Contract
  import opened Filter
  import opened Secondary
  import opened Storage
  import opened Paging
  import opened Engine
  import opened Recovery
  import opened History
  import opened Stolen
  import W = Wal

  datatype Command =
    | InsertRow(row: Row)
    | EraseRow(id: nat)
    | UpdateRow(row: Row)
    | InsertRows(rows: seq<Row>)
    | UpdateRows(rows: seq<Row>)
    | EraseRows(ids: seq<nat>)
    | GetRow(id: nat)
    | ScanRows(constraints: Constraints)
    | RangeRows(field: string, lo: Option<FieldValue>, loInclusive: bool, hi: Option<FieldValue>, hiInclusive: bool)
    | AddIndex(field: string)
    | RemoveIndex(field: string)
    | Flush

  datatype Reply = Reply(status: Status, rows: seq<Row>, count: nat)

  /** What a run is about: the map, the fields with an index, and the rows of the map in the
      order in which they were put in. */
  datatype State = State(table: Table, indexed: set<string>, rows: seq<Row>)

  /** The status the map dictates. */
  ghost function Verdict(schema: Schema, st: State, c: Command): Status {
    var t := st.table;
    match c
    case InsertRow(row) => InsertCheck(t, {}, row, schema)
    case EraseRow(id) => EraseCheck(t, {}, id)
    case UpdateRow(row) => UpdateCheck(t, row, schema)
    case InsertRows(rows) => BatchStatus(rows, InsertRule(t, schema))
    case UpdateRows(rows) => BatchStatus(rows, UpdateRule(t, schema))
    case EraseRows(ids) => BatchStatus(ids, EraseRule(t))
    case GetRow(id) => if id in t then Ok else NotFound
    case RangeRows(field, lo, loInclusive, hi, _) => RangeVerdict(t, schema, field in st.indexed, field, lo, loInclusive, hi)
    case AddIndex(field) => if FieldPos(schema, field) < 0 then UnknownField else Ok
    case _ => Ok
  }

  /** The state after a command; a refused command changes nothing. */
  ghost function Next(schema: Schema, st: State, c: Command): State {
    if Verdict(schema, st, c) != Ok then st else
    match c
    case InsertRow(row) => st.(table := st.table[row.id := row], rows := st.rows + [row])
    case UpdateRow(row) => st.(table := st.table[row.id := row], rows := Moved(st.rows, row))
    case EraseRow(id) => st.(table := st.table - {id}, rows := Lacking(st.rows, {id}))
    case InsertRows(rows) => st.(table := PutAll(st.table, rows), rows := st.rows + rows)
    case UpdateRows(rows) => st.(table := PutAll(st.table, rows), rows := Lacking(st.rows, RowIds(rows)) + rows)
    case EraseRows(ids) => st.(table := st.table - IdSet(ids), rows := Lacking(st.rows, IdSet(ids)))
    case AddIndex(field) => st.(indexed := st.indexed + {field})
    case RemoveIndex(field) => st.(indexed := st.indexed - {field})
    case _ => st
  }

  /** The rows a query must return: those of the map, each exactly once, in the order they
      were put in; through an index by key, and in that order where keys are equal. A batch
      returns how many rows it changed. */
  ghost predicate Answers(schema: Schema, st: State, c: Command, reply: Reply) {
    match c
    case GetRow(id) => id in st.table ==> reply.rows == [st.table[id]]
    case ScanRows(constraints) =>
      var rule := AcceptRule(constraints, schema);
      reply.rows == Select(st.rows, rule) && multiset(reply.rows) == RowsWhere(st.table, rule)
    case RangeRows(field, lo, loInclusive, hi, hiInclusive) =>
      var fi := FieldPos(schema, field);
      reply.status == Ok ==>
        && RangeOrder(reply.rows, st.rows, field in st.indexed, fi, lo, loInclusive, hi, hiInclusive)
        && multiset(reply.rows) == RowsWhere(st.table, RangeRule(fi, lo, loInclusive, hi, hiInclusive))
    case InsertRows(rows) => reply.status == Ok ==> reply.count == |rows|
    case UpdateRows(rows) => reply.status == Ok ==> reply.count == |rows|
    case EraseRows(ids) => reply.status == Ok ==> reply.count == |ids|
    case _ => true
  }

  ghost predicate Correct(schema: Schema, st: State, c: Command, reply: Reply) {
    reply.status == Verdict(schema, st, c) && Answers(schema, st, c, reply)
  }

  /** The state after the first `n` commands. */
  ghost function StateAfter(schema: Schema, st: State, cs: seq<Command>, n: nat): State
    requires n <= |cs|
  {
    if n == 0 then st else Next(schema, StateAfter(schema, st, cs, n - 1), cs[n - 1])
  }

  ghost function StateOf(db: Database): State
    reads db, db.index, db.pager, db.pager.cache, db.wal, db.trees.Values
    requires db.Valid()
  {
    State(db.Map(), db.trees.Keys, Listing(db.pager.layout))
  }

  /** Between operations: no torn tail in the log and nothing left to sync. */
  ghost predicate Settled(db: Database)
    reads db, db.wal
  {
    CleanLog(db) && db.Durable()
  }

  /** What one command promises: the map's reply and the map's next state. */
  twostate predicate Stepped(db: Database, c: Command, fault: bool, reply: Reply)
    requires old(db.Valid())
    reads db, db.index, db.pager, db.pager.cache, db.wal, db.trees.Values
  {
    && (fault ==> db.Faultable())
    && (!fault ==> db.Valid() && Correct(db.schema, old(StateOf(db)), c, reply))
    && (!fault ==> StateOf(db) == Next(db.schema, old(StateOf(db)), c))
    && (!fault && old(Settled(db)) ==> Settled(db))
    && fresh(db.trees.Values - old(db.trees.Values))
  }

  /** One command on the engine. */
  method Step(db: Database, c: Command) returns (fault: bool, reply: Reply)
    requires db.Valid()
    modifies db, db.index, db.pager, db.pager.cache, db.wal, db.trees.Values
    ensures Stepped(db, c, fault, reply)
  {
    hide Stepped, Database.Valid;
    match c {
      case InsertRow(_) => fault, reply := StepInsert(db, c);
      case EraseRow(_) => fault, reply := StepErase(db, c);
      case UpdateRow(_) => fault, reply := StepUpdate(db, c);
      case InsertRows(_) => fault, reply := StepInserts(db, c);
      case UpdateRows(_) => fault, reply := StepUpdates(db, c);
      case EraseRows(_) => fault, reply := StepErases(db, c);
      case GetRow(_) => fault, reply := StepGet(db, c);
      case ScanRows(_) => fault, reply := StepScan(db, c);
      case RangeRows(_, _, _, _, _) => fault, reply := StepRange(db, c);
      case AddIndex(_) => fault, reply := StepAddIndex(db, c);
      case RemoveIndex(_) => fault, reply := StepRemoveIndex(db, c);
      case Flush => fault, reply := StepFlush(db, c);
    }
  }

  lemma InsertRowRules(schema: Schema, st: State, c: Command)
    requires c.InsertRow?
    ensures Verdict(schema, st, c) == InsertCheck(st.table, {}, c.row, schema)
    ensures Next(schema, st, c) == if InsertCheck(st.table, {}, c.row, schema) == Ok then st.(table := st.table[c.row.id := c.row], rows := st.rows + [c.row]) else st
    ensures forall reply :: Answers(schema, st, c, reply)
  {}

  method StepInsert(db: Database, c: Command) returns (fault: bool, reply: Reply)
    requires db.Valid() && c.InsertRow?
    modifies db, db.index, db.pager, db.pager.cache, db.wal, db.trees.Values
    ensures Stepped(db, c, fault, reply)
  {
    hide Database.Valid, Indexed, TableOf, CleanBytes, Listing, Lacking, Moved, Verdict, Next, Answers, InsertCheck;
    InsertRowRules(db.schema, StateOf(db), c);
    var s := db.Insert(c.row);
    fault, reply := s == Fault, Reply(s, [], 0);
  }

  lemma EraseRowRules(schema: Schema, st: State, c: Command)
    requires c.EraseRow?
    ensures Verdict(schema, st, c) == EraseCheck(st.table, {}, c.id)
    ensures Next(schema, st, c) == if EraseCheck(st.table, {}, c.id) == Ok then st.(table := st.table - {c.id}, rows := Lacking(st.rows, {c.id})) else st
    ensures forall reply :: Answers(schema, st, c, reply)
  {}

  method StepErase(db: Database, c: Command) returns (fault: bool, reply: Reply)
    requires db.Valid() && c.EraseRow?
    modifies db, db.index, db.pager, db.pager.cache, db.wal, db.trees.Values
    ensures Stepped(db, c, fault, reply)
  {
    hide Database.Valid, Indexed, TableOf, CleanBytes, Listing, Lacking, Moved, Verdict, Next, Answers, EraseCheck;
    EraseRowRules(db.schema, StateOf(db), c);
    var s := db.Erase(c.id);
    fault, reply := s == Fault, Reply(s, [], 0);
  }

  lemma UpdateRowRules(schema: Schema, st: State, c: Command)
    requires c.UpdateRow?
    ensures Verdict(schema, st, c) == UpdateCheck(st.table, c.row, schema)
    ensures Next(schema, st, c) == if UpdateCheck(st.table, c.row, schema) == Ok then st.(table := st.table[c.row.id := c.row], rows := Moved(st.rows, c.row)) else st
    ensures forall reply :: Answers(schema, st, c, reply)
  {}

  method StepUpdate(db: Database, c: Command) returns (fault: bool, reply: Reply)
    requires db.Valid() && c.UpdateRow?
    modifies db, db.index, db.pager, db.pager.cache, db.wal, db.trees.Values
    ensures Stepped(db, c, fault, reply)
  {
    hide Database.Valid, Indexed, TableOf, CleanBytes, Listing, Lacking, Moved, Verdict, Next, Answers, UpdateCheck;
    UpdateRowRules(db.schema, StateOf(db), c);
    var s := db.Update(c.row);
    fault, reply := s == Fault, Reply(s, [], 0);
  }

  lemma InsertRowsRules(schema: Schema, st: State, c: Command)
    requires c.InsertRows?
    ensures Verdict(schema, st, c) == BatchStatus(c.rows, InsertRule(st.table, schema))
    ensures Next(schema, st, c) == if BatchStatus(c.rows, InsertRule(st.table, schema)) == Ok then st.(table := PutAll(st.table, c.rows), rows := st.rows + c.rows) else st
    ensures forall reply :: Answers(schema, st, c, reply) <==> (reply.status == Ok ==> reply.count == |c.rows|)
  {}

  method StepInserts(db: Database, c: Command) returns (fault: bool, reply: Reply)
    requires db.Valid() && c.InsertRows?
    modifies db, db.index, db.pager, db.pager.cache, db.wal, db.trees.Values
    ensures Stepped(db, c, fault, reply)
  {
    hide Database.Valid, Indexed, TableOf, CleanBytes, Listing, Lacking, Moved, Verdict, Next, Answers, InsertRule, BatchStatus, PutAll;
    InsertRowsRules(db.schema, StateOf(db), c);
    var s, count := db.InsertBatch(c.rows);
    fault, reply := s == Fault, Reply(s, [], count);
  }

  lemma UpdateRowsRules(schema: Schema, st: State, c: Command)
    requires c.UpdateRows?
    ensures Verdict(schema, st, c) == BatchStatus(c.rows, UpdateRule(st.table, schema))
    ensures Next(schema, st, c) == if BatchStatus(c.rows, UpdateRule(st.table, schema)) == Ok then st.(table := PutAll(st.table, c.rows), rows := Lacking(st.rows, RowIds(c.rows)) + c.rows) else st
    ensures forall reply :: Answers(schema, st, c, reply) <==> (reply.status == Ok ==> reply.count == |c.rows|)
  {}

  method StepUpdates(db: Database, c: Command) returns (fault: bool, reply: Reply)
    requires db.Valid() && c.UpdateRows?
    modifies db, db.index, db.pager, db.pager.cache, db.wal, db.trees.Values
    ensures Stepped(db, c, fault, reply)
  {
    hide Database.Valid, Indexed, TableOf, CleanBytes, Listing, Lacking, Moved, Verdict, Next, Answers, UpdateRule, BatchStatus, PutAll;
    UpdateRowsRules(db.schema, StateOf(db), c);
    var s, count := db.UpdateBatch(c.rows);
    fault, reply := s == Fault, Reply(s, [], count);
  }

  lemma EraseRowsRules(schema: Schema, st: State, c: Command)
    requires c.EraseRows?
    ensures Verdict(schema, st, c) == BatchStatus(c.ids, EraseRule(st.table))
    ensures Next(schema, st, c) == if BatchStatus(c.ids, EraseRule(st.table)) == Ok then st.(table := st.table - IdSet(c.ids), rows := Lacking(st.rows, IdSet(c.ids))) else st
    ensures forall reply :: Answers(schema, st, c, reply) <==> (reply.status == Ok ==> reply.count == |c.ids|)
  {}

  method StepErases(db: Database, c: Command) returns (fault: bool, reply: Reply)
    requires db.Valid() && c.EraseRows?
    modifies db, db.index, db.pager, db.pager.cache, db.wal, db.trees.Values
    ensures Stepped(db, c, fault, reply)
  {
    hide Database.Valid, Indexed, TableOf, CleanBytes, Listing, Lacking, Moved, Verdict, Next, Answers, EraseRule, BatchStatus, IdSet;
    EraseRowsRules(db.schema, StateOf(db), c);
    var s, count := db.EraseBatch(c.ids);
    fault, reply := s == Fault, Reply(s, [], count);
  }

  lemma GetRowRules(schema: Schema, st: State, c: Command)
    requires c.GetRow?
    ensures Verdict(schema, st, c) == if c.id in st.table then Ok else NotFound
    ensures Next(schema, st, c) == st
    ensures forall reply :: Answers(schema, st, c, reply) <==> (c.id in st.table ==> reply.rows == [st.table[c.id]])
  {}

  method StepGet(db: Database, c: Command) returns (fault: bool, reply: Reply)
    requires db.Valid() && c.GetRow?
    modifies db, db.index, db.pager, db.pager.cache, db.wal, db.trees.Values
    ensures Stepped(db, c, fault, reply)
  {
    hide Database.Valid, Indexed, TableOf, CleanBytes, Listing, Lacking, Moved, Verdict, Next, Answers;
    GetRowRules(db.schema, StateOf(db), c);
    var s, row := db.Get(c.id);
    fault, reply := s == Fault, Reply(s, [row], 0);
  }

  lemma ScanRowsRules(schema: Schema, st: State, c: Command)
    requires c.ScanRows?
    ensures Verdict(schema, st, c) == Ok
    ensures Next(schema, st, c) == st
    ensures var rule := AcceptRule(c.constraints, schema);
            forall reply :: Answers(schema, st, c, reply) <==> reply.rows == Select(st.rows, rule) && multiset(reply.rows) == RowsWhere(st.table, rule)
  {}

  method StepScan(db: Database, c: Command) returns (fault: bool, reply: Reply)
    requires db.Valid() && c.ScanRows?
    modifies db, db.index, db.pager, db.pager.cache, db.wal, db.trees.Values
    ensures Stepped(db, c, fault, reply)
  {
    hide Database.Valid, Indexed, TableOf, CleanBytes, Listing, Lacking, Moved, Verdict, Next, Answers, AcceptRule, RowsWhere, Flat, Select;
    ScanRowsRules(db.schema, StateOf(db), c);
    var s, rows := db.Scan(c.constraints);
    fault, reply := s == Fault, Reply(s, rows, 0);
  }

  lemma RangeRowsRules(schema: Schema, st: State, c: Command)
    requires c.RangeRows?
    ensures Verdict(schema, st, c) == RangeVerdict(st.table, schema, c.field in st.indexed, c.field, c.lo, c.loInclusive, c.hi)
    ensures Next(schema, st, c) == st
    ensures var fi := FieldPos(schema, c.field);
            forall reply :: Answers(schema, st, c, reply) <==>
              (reply.status == Ok ==>
                 && RangeOrder(reply.rows, st.rows, c.field in st.indexed, fi, c.lo, c.loInclusive, c.hi, c.hiInclusive)
                 && multiset(reply.rows) == RowsWhere(st.table, RangeRule(fi, c.lo, c.loInclusive, c.hi, c.hiInclusive)))
  {}

  method StepRange(db: Database, c: Command) returns (fault: bool, reply: Reply)
    requires db.Valid() && c.RangeRows?
    modifies db, db.index, db.pager, db.pager.cache, db.wal, db.trees.Values
    ensures Stepped(db, c, fault, reply)
  {
    hide Database.Valid, Indexed, TableOf, CleanBytes, Listing, Lacking, Moved, Verdict, Next, Answers, RangeRule, RowsWhere, FieldPos, RangeVerdict, RangeOrder, Flat;
    RangeRowsRules(db.schema, StateOf(db), c);
    var s, rows := db.IndexRangeScan(c.field, c.lo, c.loInclusive, c.hi, c.hiInclusive);
    fault, reply := s == Fault, Reply(s, rows, 0);
  }

  lemma AddIndexRules(schema: Schema, st: State, c: Command)
    requires c.AddIndex?
    ensures Verdict(schema, st, c) == if FieldPos(schema, c.field) < 0 then UnknownField else Ok
    ensures Next(schema, st, c) == if FieldPos(schema, c.field) < 0 then st else st.(indexed := st.indexed + {c.field})
    ensures forall reply :: Answers(schema, st, c, reply)
  {}

  method StepAddIndex(db: Database, c: Command) returns (fault: bool, reply: Reply)
    requires db.Valid() && c.AddIndex?
    modifies db, db.index, db.pager, db.pager.cache, db.wal, db.trees.Values
    ensures Stepped(db, c, fault, reply)
  {
    hide Database.Valid, Indexed, TableOf, CleanBytes, Listing, Lacking, Moved, Verdict, Next, Answers, FieldPos;
    AddIndexRules(db.schema, StateOf(db), c);
    var s := db.CreateIndex(c.field);
    fault, reply := s == Fault, Reply(s, [], 0);
  }

  lemma RemoveIndexRules(schema: Schema, st: State, c: Command)
    requires c.RemoveIndex?
    ensures Verdict(schema, st, c) == Ok
    ensures Next(schema, st, c) == st.(indexed := st.indexed - {c.field})
    ensures forall reply :: Answers(schema, st, c, reply)
  {}

  method StepRemoveIndex(db: Database, c: Command) returns (fault: bool, reply: Reply)
    requires db.Valid() && c.RemoveIndex?
    modifies db, db.index, db.pager, db.pager.cache, db.wal, db.trees.Values
    ensures Stepped(db, c, fault, reply)
  {
    hide Database.Valid, Indexed, TableOf, CleanBytes, Listing, Lacking, Moved, Verdict, Next, Answers;
    RemoveIndexRules(db.schema, StateOf(db), c);
    db.DropIndex(c.field);
    fault, reply := false, Reply(Ok, [], 0);
  }

  lemma FlushRules(schema: Schema, st: State, c: Command)
    requires c.Flush?
    ensures Verdict(schema, st, c) == Ok
    ensures Next(schema, st, c) == st
    ensures forall reply :: Answers(schema, st, c, reply)
  {}

  method StepFlush(db: Database, c: Command) returns (fault: bool, reply: Reply)
    requires db.Valid() && c.Flush?
    modifies db, db.index, db.pager, db.pager.cache, db.wal, db.trees.Values
    ensures Stepped(db, c, fault, reply)
  {
    hide Database.Valid, Indexed, TableOf, CleanBytes, Listing, Lacking, Moved, Verdict, Next, Answers, W.Header, Flushed;
    FlushRules(db.schema, StateOf(db), c);
    NewLogClean();
    var s := db.Checkpoint();
    fault, reply := s == Fault, Reply(s, [], 0);
  }

  lemma NewLogClean()
    ensures CleanBytes([], W.Header())
  {
    EmptyLog();
  }

  /** Every run: each reply is the map's, and the engine ends as the map does. */
  method Run(db: Database, cs: seq<Command>) returns (fault: bool, replies: seq<Reply>)
    requires db.Valid()
    modifies db, db.index, db.pager, db.pager.cache, db.wal, db.trees.Values
    ensures fault ==> db.Faultable()
    ensures !fault ==> db.Valid() && StateOf(db) == StateAfter(db.schema, old(StateOf(db)), cs, |cs|)
    ensures !fault && old(Settled(db)) ==> Settled(db)
    ensures !fault ==> |replies| == |cs|
    ensures forall i :: 0 <= i < |replies| ==> i < |cs| && Correct(db.schema, StateAfter(db.schema, old(StateOf(db)), cs, i), cs[i], replies[i])
  {
    hide Database.Valid, StateOf, Correct, Next, Settled, SomeOverruns;
    fault, replies := false, [];
    ghost var t := StateOf(db);
    for i := 0 to |cs|
      invariant !fault && db.Valid() && |replies| == i
      invariant StateOf(db) == StateAfter(db.schema, t, cs, i)
      invariant forall k :: 0 <= k < i ==> Correct(db.schema, StateAfter(db.schema, t, cs, k), cs[k], replies[k])
      invariant fresh(db.trees.Values - old(db.trees.Values))
      invariant old(Settled(db)) ==> Settled(db)
    {
      var reply;
      fault, reply := Step(db, cs[i]);
      if fault {
        return;
      }
      replies := replies + [reply];
    }
  }

  /** DB::open where no file exists yet: the empty map, checkpointed and clean. */
  method Create(schema: Schema, compression: Compression, capacity: nat) returns (db: Database)
    ensures fresh(db) && fresh(db.index) && fresh(db.pager) && fresh(db.pager.cache) && fresh(db.wal) && db.trees == map[]
    ensures db.Valid() && db.Map() == map[] && db.schema == schema && db.pager.compression == compression
    ensures db.events == [] && db.pager.base == [] && db.past.found == []
    ensures Settled(db) && !db.pager.stolen && db.pager.Pooled() == Pool([], [], {}, map[]) && db.pager.cache.capacity == if capacity == 0 then 1 else capacity
  {
    hide Database.Valid, Database.Loose, Database.Map, Indexed, Points, Opened, W.ReplayFile, TableOf, Entries, ReplayAll, BuiltUpTo, CleanBytes, Pager.Pooled;
    EmptyLogFound();
    var s, unique;
    ghost var m;
    s, db, unique, m := OpenWhole(schema, compression, capacity, [], [], 0, [], []);
    assert UniqueIds([]);
    OpenedEmpty(db, m);
  }

  lemma OpenedEmpty(db: Database, m: map<nat, Loc>)
    requires Opened(db, [], m, [], [])
    ensures db.Valid() && db.Map() == map[] && db.events == [] && db.pager.base == [] && db.past.found == [] && Settled(db) && !db.pager.stolen && db.pager.Pooled() == Pool([], [], {}, map[])
  {
    hide Explains, Manager.Valid, W.Log.Valid, TreesOk, W.ReplayFile, W.Header, CleanBytes, Restores, Exact, Stored, Cached, Traced, Baselined, PagesFit;
    EmptyLogFound();
    NewLogClean();
    assert |Changes(db.events)| == |db.events|;
  }

  /** Commands, then a crash at some point, then a reopen with some cache capacity. */
  datatype Round = Round(commands: seq<Command>, at: CrashPoint, capacity: nat)

  /** The map after the commands of the first `n` rounds; a crash drops the indexes. */
  ghost function TableAfterRounds(schema: Schema, rounds: seq<Round>, n: nat): Table
    requires n <= |rounds|
  {
    if n == 0 then map[]
    else var cs := rounds[n - 1].commands; StateAfter(schema, State(TableAfterRounds(schema, rounds, n - 1), {}, []), cs, |cs|).table
  }

  /** The map does not depend on the order of the rows. */
  lemma {:induction false} TableAlone(schema: Schema, a: State, b: State, cs: seq<Command>, n: nat)
    requires a.table == b.table && a.indexed == b.indexed && n <= |cs|
    ensures var x, y := StateAfter(schema, a, cs, n), StateAfter(schema, b, cs, n); x.table == y.table && x.indexed == y.indexed
  {
    hide InsertCheck, UpdateCheck, EraseCheck, BatchStatus, RangeVerdict, InsertRule, UpdateRule, EraseRule, PutAll, Lacking, Moved;
    if n > 0 { TableAlone(schema, a, b, cs, n - 1); }
  }

  /** One round: acknowledged means durable. The crash strikes between operations or
      anywhere in a checkpoint, and leaves the pages `disk` on file. The reopened engine is
      sound, and a full scan of it lists the map the commands built, exactly when the file
      holds no id twice; then it stands for that map and the next round can start. A cache
      with room for every page always meets the condition, and so does a checkpoint that
      has written all of them. */
  method CrashRound(db: Database, round: Round) returns (fault: bool, unique: bool, again: Database, ghost disk: Layout)
    requires db.Valid() && Settled(db)
    modifies db, db.index, db.pager, db.pager.cache, db.wal, db.trees.Values
    ensures fault ==> again.Faultable()
    ensures !fault ==> fresh(again) && fresh(again.index) && fresh(again.pager) && fresh(again.pager.cache) && fresh(again.wal) && again.trees == map[]
    ensures !fault ==> Leaves(db.pager, disk) && (unique <==> UniqueIds(disk)) && again.Loose() && again.schema == db.schema && (again.Sound() <==> unique)
    ensures !fault ==> (Lists(again.pager.layout, StateAfter(db.schema, old(StateOf(db)), round.commands, |round.commands|).table) <==> unique)
    ensures !fault && unique ==> again.Valid() && Settled(again) && again.Map() == StateAfter(db.schema, old(StateOf(db)), round.commands, |round.commands|).table
    ensures !fault && (Finished(round.at, |db.pager.layout|) || |db.pager.layout| <= db.pager.cache.capacity) ==> unique
  {
    hide Database.Valid, Database.Loose, StateAfter, UniqueIds, Database.Map, Lists, Correct, Settled, Leaves, SomeOverruns;
    again, unique, disk := db, false, [];
    var replies;
    fault, replies := Run(db, round.commands);
    if fault {
      return;
    }
    var s;
    s, again, unique, disk := Crash(db, round.at, round.capacity);
    fault := s == Fault;
  }

  /** The crash of a settled database: nothing logged is lost, and the log has no torn tail. */
  method Crash(db: Database, at: CrashPoint, capacity: nat) returns (s: Status, again: Database, unique: bool, ghost disk: Layout)
    requires db.Valid() && Settled(db)
    modifies db`past, db`events, db.wal, db.pager, db.pager.cache
    ensures s == Ok || s == Fault
    ensures s == Fault ==> again.Faultable()
    ensures s == Ok ==> fresh(again) && fresh(again.index) && fresh(again.pager) && fresh(again.pager.cache) && fresh(again.wal) && again.trees == map[]
    ensures s == Ok ==> Leaves(db.pager, disk) && (unique <==> UniqueIds(disk)) && again.Loose() && again.schema == db.schema && (again.Sound() <==> unique)
    ensures s == Ok ==> (Lists(again.pager.layout, old(db.Map())) <==> unique)
    ensures s == Ok && unique ==> again.Valid() && Settled(again) && again.Map() == old(db.Map())
    ensures s == Ok && (Finished(at, |db.pager.layout|) || |db.pager.layout| <= db.pager.cache.capacity) ==> unique
  {
    hide Database.Valid, Database.Loose, Explained, UniqueIds, FileOf, Database.Map, Lists, NoneOlder, LogLength, CleanBytes, Leaves, SomeOverruns, ReplayAll, TableOf, W.ReplayFile;
    SettledEnd(db);
    TrailNow(db);
    ghost var n;
    s, again, unique, n, disk := CrashAt(db, at, |db.wal.file|, capacity);
  }

  lemma SettledEnd(db: Database)
    requires db.Valid() && Settled(db)
    ensures |db.wal.file| == LogLength(AllRecords(db), |db.events|) && db.wal.synced <= |db.wal.file|
  {
    hide Database.Valid, CleanBytes, W.EncodeLog, W.Header, Logged, W.AllFramed;
    WholeLog(db);
    assert AllRecords(db)[..|db.events|] == AllRecords(db);
  }

  /** Any number of rounds on a new database: unless a crash leaves an id on file twice,
      the engine ends as the map all the commands build. */
  method Rounds(schema: Schema, compression: Compression, capacity: nat, rounds: seq<Round>)
    returns (fault: bool, twice: bool, db: Database, ghost disk: Layout)
    ensures fault ==> db.Faultable()
    ensures !fault && twice ==> Leaves(db.pager, disk) && !UniqueIds(disk)
    ensures !fault && !twice ==> db.Valid() && Settled(db) && db.Map() == TableAfterRounds(schema, rounds, |rounds|)
  {
    hide Database.Valid, Database.Loose, Indexed, TableOf, StateAfter, UniqueIds, Lists, Settled, Leaves, SomeOverruns;
    fault, twice, disk := false, false, [];
    db := Create(schema, compression, capacity);
    for i := 0 to |rounds|
      invariant !fault && !twice && db.Valid() && Settled(db) && db.schema == schema && db.trees == map[]
      invariant fresh(db) && fresh(db.index) && fresh(db.pager) && fresh(db.pager.cache) && fresh(db.wal)
      invariant db.Map() == TableAfterRounds(schema, rounds, i)
    {
      TableAlone(schema, StateOf(db), State(db.Map(), {}, []), rounds[i].commands, |rounds[i].commands|);
      var unique, again;
      fault, unique, again, disk := CrashRound(db, rounds[i]);
      if fault {
        db := again;
        return;
      }
      if !unique {
        twice := true;
        return;
      }
      db := again;
    }
  }
}
