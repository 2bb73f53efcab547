/** The expiring map of src/database_handler.cpp.  `get` erases a dead entry when it meets
    one; the specification never erases and answers from the history of writes. */
module Store {
  import opened Prelude
  import opened Resp

  datatype DBValue = DBValue(value: string, expiryTime: int)

  type Database = map<string, DBValue>

  /** Lines 24 and 28-30: the entry may still be served at time `now`. */
  predicate Live(v: DBValue, now: int) { v.expiryTime == 0 || now < v.expiryTime }

  function DbSet(db: Database, key: string, value: string, expiryTime: int): Database {
    db[key := DBValue(value, expiryTime)]
  }

  function DbGet(db: Database, key: string, now: int): (Database, string) {
    if key !in db then (db, NULL_RESPONSE)
    else if Live(db[key], now) then (db, db[key].value)
    else (db - {key}, NULL_RESPONSE)
  }

  /** `DatabaseHandler`: the map is updated in place, by `get` too. */
  class DatabaseHandler {
    var database: Database

    constructor ()
      ensures database == map[]
    {
      database := map[];
    }

    method Set(key: string, value: string, expiryTime: int)
      modifies this
      ensures database == old(database)[key := DBValue(value, expiryTime)]
    {
      database := database[key := DBValue(value, expiryTime)];
    }

    /** `now` is the clock reading of line 24. */
    method Get(key: string, now: int) returns (response: string)
      modifies this
      ensures (database, response) == DbGet(old(database), key, now)
      ensures database - {key} == old(database) - {key}
      ensures key in database ==> response == database[key].value && Live(database[key], now)
      ensures key !in database ==> response == NULL_RESPONSE
    {
      if key in database {
        var entry := database[key];
        if entry.expiryTime == 0 || now < entry.expiryTime {
          return entry.value;
        } else {
          database := database - {key};
          return NULL_RESPONSE;
        }
      } else {
        return NULL_RESPONSE;
      }
    }
  }

  // ---------------------------------------------------------------------------
  // Runs and histories.

  datatype Op = Write(key: string, value: string, expiryTime: int) | Read(key: string, now: int)

  function Apply(db: Database, op: Op): (Database, string) {
    match op
    case Write(k, v, e) => (DbSet(db, k, v, e), "")
    case Read(k, now) => DbGet(db, k, now)
  }

  /** The map after a run of operations; the last operation is the latest. */
  function After(db: Database, ops: seq<Op>): Database
    decreases |ops|
  {
    if ops == [] then db else Apply(After(db, ops[..|ops| - 1]), ops[|ops| - 1]).0
  }

  lemma {:induction false} AfterConcat(db: Database, a: seq<Op>, b: seq<Op>)
    ensures After(db, a + b) == After(After(db, a), b)
    decreases |b|
  {
    if b == [] {
      assert a + b == a;
    } else {
      assert (a + b)[..|a + b| - 1] == a + b[..|b| - 1];
      AfterConcat(db, a, b[..|b| - 1]);
    }
  }

  lemma AfterOne(db: Database, op: Op)
    ensures After(db, [op]) == Apply(db, op).0
  {
    assert [op][..0] == [];
  }

  lemma AfterFront(db: Database, op: Op, rest: seq<Op>)
    ensures After(db, [op] + rest) == After(Apply(db, op).0, rest)
  {
    AfterConcat(db, [op], rest);
    AfterOne(db, op);
  }

  /** What the last write of `key` left, had nothing ever been erased. */
  function LastWrite(db: Database, ops: seq<Op>, key: string): Option<DBValue>
    decreases |ops|
  {
    if ops == [] then (if key in db then Some(db[key]) else None) else
    var op := ops[|ops| - 1];
    if op.Write? && op.key == key then Some(DBValue(op.value, op.expiryTime))
    else LastWrite(db, ops[..|ops| - 1], key)
  }

  /** Some read since the last write of `key` happened at or after time `limit`. */
  predicate ReadSince(ops: seq<Op>, key: string, limit: int)
    decreases |ops|
  {
    if ops == [] then false else
    var op := ops[|ops| - 1];
    if op.key == key && op.Write? then false
    else (op.key == key && limit <= op.now) || ReadSince(ops[..|ops| - 1], key, limit)
  }

  function Answer(w: Option<DBValue>, now: int): string {
    if w.Some? && Live(w.value, now) then w.value.value else NULL_RESPONSE
  }

  /** The map holds exactly the last writes that no later read has found dead. */
  lemma {:induction false} StoredExactly(db: Database, ops: seq<Op>, key: string)
    ensures var w := LastWrite(db, ops, key);
            && (key in After(db, ops) <==>
                w.Some? && (w.value.expiryTime == 0 || !ReadSince(ops, key, w.value.expiryTime)))
            && (key in After(db, ops) ==> After(db, ops)[key] == w.value)
    decreases |ops|
  {
    if ops != [] {
      StoredExactly(db, ops[..|ops| - 1], key);
    }
  }

  /** A read answers from the write history unless an earlier read, at a clock reading past
      the expiry, has already erased an entry that is live again at this reading, and whose
      value is not the null reply anyway. */
  lemma ReadAnswersExactly(db: Database, ops: seq<Op>, key: string, now: int)
    ensures DbGet(After(db, ops), key, now).1 == Answer(LastWrite(db, ops, key), now)
       <==> !(var w := LastWrite(db, ops, key);
              && w.Some? && w.value.expiryTime != 0 && now < w.value.expiryTime
              && ReadSince(ops, key, w.value.expiryTime) && w.value.value != NULL_RESPONSE)
  {
    StoredExactly(db, ops, key);
  }

  predicate ClockSteady(ops: seq<Op>, now: int) {
    forall i :: 0 <= i < |ops| && ops[i].Read? ==> ops[i].now <= now
  }

  lemma {:induction false} NoReadSince(ops: seq<Op>, key: string, limit: int, now: int)
    requires ClockSteady(ops, now) && now < limit
    ensures !ReadSince(ops, key, limit)
    decreases |ops|
  {
    if ops != [] {
      NoReadSince(ops[..|ops| - 1], key, limit, now);
    }
  }

  /** Lazy expiry: while the clock does not step back, every read answers the last written
      value exactly while it is live, for every value, and erasing never shows. */
  lemma {:induction false} LazyExpiryRefinesHistory(db: Database, ops: seq<Op>, key: string, now: int)
    requires ClockSteady(ops, now)
    ensures DbGet(After(db, ops), key, now).1 == Answer(LastWrite(db, ops, key), now)
  {
    StoredExactly(db, ops, key);
    var w := LastWrite(db, ops, key);
    if w.Some? && now < w.value.expiryTime {
      NoReadSince(ops, key, w.value.expiryTime, now);
    }
  }

  /** The system clock may be set back: the second read finds nothing although the entry,
      due at 10, is live again at 5. */
  lemma ClockSetBack()
    ensures var ops := [Write("k", "v", 10), Read("k", 11)];
            && LastWrite(map[], ops, "k") == Some(DBValue("v", 10))
            && Answer(LastWrite(map[], ops, "k"), 5) == "v"
            && DbGet(After(map[], ops), "k", 5).1 == NULL_RESPONSE
  {
    var ops := [Write("k", "v", 10), Read("k", 11)];
    assert ops[..1] == [Write("k", "v", 10)];
    assert ops[..1][..0] == [];
    assert "v" != NULL_RESPONSE by {
      assert |"v"| != |NULL_RESPONSE|;
    }
  }
}
