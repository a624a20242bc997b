/**
 * The `schedule.pages` table: one row per schedule entry, keyed by `id`
 * (a TEXT primary key) and holding the entry's `data` as JSONB. The table
 * is a map from id to document; the connection and the SQL text are not
 * modelled, only what each statement does to the rows and which rows it
 * returns.
 */
module Db {
  import opened Wrappers
  import opened Strings
  import opened Js

  /** One row of `schedule.pages`, as `SELECT *` returns it. */
  datatype Row = Row(id: string, data: Data)

  /** Why a statement is rejected by the database. */
  datatype StoreError =
    | MissingRelation          // `schedule.pages` has not been created yet
    | DuplicateKey(id: string) // the INSERT would repeat a primary key

  /** The ids of a result set. */
  function Ids(rs: seq<Row>): set<string> {
    if rs == [] then {} else Ids(rs[..|rs| - 1]) + {rs[|rs| - 1].id}
  }

  lemma IdsAppend(rs: seq<Row>, row: Row)
    ensures Ids(rs + [row]) == Ids(rs) + {row.id}
  {
    assert (rs + [row])[..|rs|] == rs;
  }

  /** An id is among the ids of a result set exactly when some row carries it. */
  lemma {:induction false} IdsMember(rs: seq<Row>, id: string)
    ensures id in Ids(rs) <==> exists i :: 0 <= i < |rs| && rs[i].id == id
  {
    if rs != [] {
      var init := rs[..|rs| - 1];
      IdsMember(init, id);
      if id in Ids(init) {
        var i :| 0 <= i < |init| && init[i].id == id;
        assert rs[i].id == id;
      }
    }
  }

  /** No id appears twice in a result set. */
  predicate DistinctIds(rs: seq<Row>) {
    forall i, j :: 0 <= i < j < |rs| ==> rs[i].id != rs[j].id
  }

  /**
   * `rs` is what a `SELECT *` whose WHERE clause is `keep` returns from
   * `table`: each row for which `keep` holds exactly once, as stored, in no
   * particular order.
   */
  predicate Selects(table: map<string, Data>, rs: seq<Row>, keep: (string, Data) -> bool) {
    && DistinctIds(rs)
    && (forall i :: 0 <= i < |rs| ==>
          rs[i].id in table && rs[i].data == table[rs[i].id] && keep(rs[i].id, rs[i].data))
    && (forall id :: id in table && keep(id, table[id]) ==> id in Ids(rs))
  }

  /** Scanning state: the ids in `done` have been looked at, those in `left` not yet. */
  predicate Scanned(table: map<string, Data>, keep: (string, Data) -> bool,
                    rs: seq<Row>, done: set<string>, left: set<string>)
  {
    && done + left == table.Keys && done !! left
    && DistinctIds(rs)
    && (forall i :: 0 <= i < |rs| ==>
          rs[i].id in done && rs[i].data == table[rs[i].id] && keep(rs[i].id, rs[i].data))
    && (forall id :: id in done && keep(id, table[id]) ==> id in Ids(rs))
  }

  /** Looking at one more id keeps the scanning state. */
  lemma ScanStep(table: map<string, Data>, keep: (string, Data) -> bool,
                 rs: seq<Row>, done: set<string>, left: set<string>, id: string)
    requires Scanned(table, keep, rs, done, left) && id in left
    ensures var rs' := if keep(id, table[id]) then rs + [Row(id, table[id])] else rs;
      Scanned(table, keep, rs', done + {id}, left - {id})
  {
    if keep(id, table[id]) {
      IdsAppend(rs, Row(id, table[id]));
    }
  }

  /** A full scan of `table` that keeps the rows satisfying `keep`. */
  method Scan(table: map<string, Data>, keep: (string, Data) -> bool) returns (rs: seq<Row>)
    ensures Selects(table, rs, keep)
  {
    var left := table.Keys;
    ghost var done: set<string> := {};
    rs := [];
    while left != {}
      invariant Scanned(table, keep, rs, done, left)
      decreases |left|
    {
      var id :| id in left;
      ScanStep(table, keep, rs, done, left, id);
      if keep(id, table[id]) {
        rs := rs + [Row(id, table[id])];
      }
      left, done := left - {id}, done + {id};
    }
  }

  /**
   * `data->'at' <= now` with the JSONB ordering PostgreSQL uses between
   * values of different types (null < string < number < boolean < array <
   * object, except that an empty top-level array sorts below null). A
   * missing `at` is SQL NULL, and the comparison is then not true.
   */
  predicate IsDue(data: Data, now: int)
    ensures IsDue(data, now) ==> "at" in data
    ensures Get(data, "at").Num? ==> (IsDue(data, now) <==> Get(data, "at").n <= now)
  {
    match Get(data, "at")
    case Undefined => false
    case Null => true
    case Str(_) => true
    case Num(n) => n <= now
    case Bool(_) => false
    case Arr(items) => items == []
    case Obj(_) => false
  }

  /** A numeric `at` is due exactly when it is not later than `now`. */
  lemma DueNumber(data: Data, at: int, now: int)
    requires Get(data, "at") == Num(at)
    ensures IsDue(data, now) <==> at <= now
  {
  }

  /** Once due, an entry stays due as the clock moves on. */
  lemma DueStaysDue(data: Data, now: int, later: int)
    requires IsDue(data, now) && now <= later
    ensures IsDue(data, later)
  {
  }

  /**
   * `id LIKE pattern` as PostgreSQL matches it: `%` stands for any run of
   * characters, `_` for any one character, and a backslash makes the next
   * character literal.
   */
  predicate Like(s: string, p: string)
    decreases |p|, |s|
    ensures IsLiteralPattern(p) ==> (Like(s, p) <==> s == p)
  {
    if p == [] then s == []
    else if p[0] == '%' then Like(s, p[1..]) || (s != [] && Like(s[1..], p))
    else if p[0] == '\\' && |p| >= 2 then s != [] && s[0] == p[1] && Like(s[1..], p[2..])
    else if p[0] == '_' then s != [] && Like(s[1..], p[1..])
    else s != [] && s[0] == p[0] && Like(s[1..], p[1..])
  }

  /** A lone `%` matches every text. */
  lemma {:induction false} LikeAnything(s: string)
    ensures Like(s, "%")
  {
    if s != [] {
      LikeAnything(s[1..]);
    }
  }

  /** A prefix with no wildcard or escape character in it: `LIKE` reads it literally. */
  predicate IsLiteralPattern(p: string) {
    forall i :: 0 <= i < |p| ==> p[i] != '%' && p[i] != '_' && p[i] != '\\'
  }

  /** For a literal prefix, `id LIKE prefix || '%'` is "id starts with prefix". */
  lemma {:induction false} LikePrefix(s: string, prefix: string)
    requires IsLiteralPattern(prefix)
    ensures Like(s, prefix + "%") <==> StartsWith(s, prefix)
  {
    if prefix == [] {
      assert prefix + "%" == "%";
      LikeAnything(s);
    } else {
      assert (prefix + "%")[1..] == prefix[1..] + "%";
      if s != [] {
        LikePrefix(s[1..], prefix[1..]);
        assert StartsWith(s, prefix) <==> s[0] == prefix[0] && StartsWith(s[1..], prefix[1..]);
      }
    }
  }

  /** An underscore in a site prefix matches any character: "a_b" selects the ids of site "aXb". */
  lemma LikeUnderscoreCounterexample(id: string, prefix: string)
    requires id == "aXb" && prefix == "a_b"
    ensures Like(id, prefix + "%") && !StartsWith(id, prefix)
  {
    assert prefix + "%" == "a_b%";
    assert Like("", "%");
    assert Like("b", "b%");
    assert Like("Xb", "_b%");
  }

  /**
   * The shared table. `hasTable` says whether `setupDb` has created
   * `schedule.pages`; every statement on a missing table fails.
   */
  class Store {
    var hasTable: bool
    var rows: map<string, Data>

    ghost predicate Valid()
      reads this
    {
      !hasTable ==> rows == map[]
    }

    /** A connection to a database in which the schema has not been set up. */
    constructor()
      ensures Valid() && !hasTable && rows == map[]
    {
      hasTable := false;
      rows := map[];
    }

    /** `setupDb`: creates the schema and the table if they do not exist; existing rows are kept. */
    method SetupDb()
      requires Valid()
      modifies this
      ensures Valid() && hasTable
      ensures rows == old(rows)
    {
      hasTable := true;
    }

    /**
     * `insertItem`: adds the row (id, data), storing the document as its
     * JSON text reads back. A duplicate id violates the primary key.
     */
    method InsertItem(id: string, data: Data) returns (r: Result<(), StoreError>)
      requires Valid()
      modifies this
      ensures Valid() && hasTable == old(hasTable)
      ensures !old(hasTable) ==> r == Failure(MissingRelation) && rows == old(rows)
      ensures old(hasTable) && id in old(rows) ==> r == Failure(DuplicateKey(id)) && rows == old(rows)
      ensures old(hasTable) && id !in old(rows) ==> r.Success? && rows == old(rows)[id := JsonData(data)]
    {
      if !hasTable {
        return Failure(MissingRelation);
      }
      if id in rows {
        return Failure(DuplicateKey(id));
      }
      rows := rows[id := JsonData(data)];
      return Success(());
    }

    /** `deleteItem`: removes the row with this id, if there is one. */
    method DeleteItem(id: string) returns (r: Result<(), StoreError>)
      requires Valid()
      modifies this
      ensures Valid() && hasTable == old(hasTable)
      ensures !old(hasTable) ==> r == Failure(MissingRelation) && rows == old(rows)
      ensures old(hasTable) ==> r.Success? && rows == old(rows) - {id}
    {
      if !hasTable {
        return Failure(MissingRelation);
      }
      rows := rows - {id};
      return Success(());
    }

    /** `selectItem`: the row whose id is `id`, if any; the primary key allows at most one. */
    method SelectItem(id: string) returns (r: Result<seq<Row>, StoreError>)
      ensures !hasTable ==> r == Failure(MissingRelation)
      ensures hasTable ==> r.Success? && |r.value| <= 1
      ensures hasTable ==> (|r.value| == 1 <==> id in rows)
      ensures hasTable && id in rows ==> r.value[0] == Row(id, rows[id])
    {
      if !hasTable {
        return Failure(MissingRelation);
      }
      if id in rows {
        return Success([Row(id, rows[id])]);
      }
      return Success([]);
    }

    /**
     * `selectItemsFromSite`: the rows whose id begins with `prefix`. The
     * statement uses `LIKE prefix || '%'`, which agrees with this only for
     * a prefix without `%`, `_` or backslash (see `LikePrefix`).
     */
    method SelectItemsFromSite(prefix: string) returns (r: Result<seq<Row>, StoreError>)
      ensures !hasTable ==> r == Failure(MissingRelation)
      ensures hasTable ==> r.Success? && DistinctIds(r.value)
      ensures hasTable ==> forall i :: 0 <= i < |r.value| ==>
        StartsWith(r.value[i].id, prefix) && r.value[i].id in rows && r.value[i].data == rows[r.value[i].id]
      ensures hasTable ==> forall id :: id in rows && StartsWith(id, prefix) ==> id in Ids(r.value)
    {
      if !hasTable {
        return Failure(MissingRelation);
      }
      var rs := Scan(rows, (id, d) => StartsWith(id, prefix));
      return Success(rs);
    }

    /** `selectItemsFromSite` as the statement is written, with the prefix read as a `LIKE` pattern. */
    method SelectItemsLike(prefix: string) returns (r: Result<seq<Row>, StoreError>)
      ensures !hasTable ==> r == Failure(MissingRelation)
      ensures hasTable ==> r.Success? && DistinctIds(r.value)
      ensures hasTable ==> forall i :: 0 <= i < |r.value| ==>
        Like(r.value[i].id, prefix + "%") && r.value[i].id in rows && r.value[i].data == rows[r.value[i].id]
      ensures hasTable ==> forall id :: id in rows && Like(id, prefix + "%") ==> id in Ids(r.value)
    {
      if !hasTable {
        return Failure(MissingRelation);
      }
      var rs := Scan(rows, (id, d) => Like(id, prefix + "%"));
      return Success(rs);
    }

    /** `selectPublishableItems`: the rows whose `at` is due at `now`. */
    method SelectPublishableItems(now: int) returns (r: Result<seq<Row>, StoreError>)
      ensures !hasTable ==> r == Failure(MissingRelation)
      ensures hasTable ==> r.Success? && DistinctIds(r.value)
      ensures hasTable ==> forall i :: 0 <= i < |r.value| ==>
        r.value[i].id in rows && r.value[i].data == rows[r.value[i].id] && IsDue(r.value[i].data, now)
      ensures hasTable ==> forall id :: id in rows && IsDue(rows[id], now) ==> id in Ids(r.value)
    {
      if !hasTable {
        return Failure(MissingRelation);
      }
      var rs := Scan(rows, (id, d) => IsDue(d, now));
      return Success(rs);
    }
  }
}
