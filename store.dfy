/** The optional value used by the lookups and the abstract number parser. */
module Wrappers {
  datatype Option<T> = None | Some(value: T)
}

/**
 * The two tables the bot keeps in its relational store, as in-memory rows:
 * `discord_user` (the roster: a surrogate key and the chat user id) and
 * `hours` (one row per user key with the latest value). The SQL text, the
 * driver and the row cursors are not modelled; the lookups report one of the
 * three outcomes the handlers switch on.
 */
module Store {
  import opened Wrappers

  type UserId = string

  /** A row of `discord_user`. */
  datatype Registered = Registered(key: nat, userId: UserId)

  /** A row of `hours`. */
  datatype HoursRow = HoursRow(key: nat, hours: real)

  /** What a single-row lookup reports: `sql.ErrNoRows`, a row, or any other error. */
  datatype Lookup = NoRow | Found | Failure

  // ---------------------------------------------------------------- roster

  /** Some roster row carries the chat user id `u`. */
  predicate IsRegistered(roster: seq<Registered>, u: UserId)
  {
    exists i :: 0 <= i < |roster| && roster[i].userId == u
  }

  /** No chat user id and no surrogate key occurs twice, and every key is below `nextKey`
      (the next auto-increment value). */
  ghost predicate RosterValid(roster: seq<Registered>, nextKey: nat)
  {
    && (forall i, j :: 0 <= i < j < |roster| ==> roster[i].userId != roster[j].userId)
    && (forall i, j :: 0 <= i < j < |roster| ==> roster[i].key != roster[j].key)
    && (forall i :: 0 <= i < |roster| ==> roster[i].key < nextKey)
  }

  /** `SELECT * FROM discord_user WHERE userID IN (?)`, scanned. */
  function LookupUser(roster: seq<Registered>, u: UserId, fails: bool): (r: Lookup)
  {
    if fails then Failure else if IsRegistered(roster, u) then Found else NoRow
  }

  /** `INSERT INTO discord_user (userID) VALUES (?)`: a new row with the next key. */
  function InsertUser(roster: seq<Registered>, nextKey: nat, u: UserId): (r: (seq<Registered>, nat))
  {
    (roster + [Registered(nextKey, u)], nextKey + 1)
  }

  /** Inserting a user that the lookup did not find keeps the roster free of duplicates. */
  lemma InsertUserValid(roster: seq<Registered>, nextKey: nat, u: UserId)
    requires RosterValid(roster, nextKey)
    requires !IsRegistered(roster, u)
    ensures RosterValid(InsertUser(roster, nextKey, u).0, InsertUser(roster, nextKey, u).1)
    ensures IsRegistered(InsertUser(roster, nextKey, u).0, u)
    ensures InsertUser(roster, nextKey, u).0[..|roster|] == roster
  {
    var r := InsertUser(roster, nextKey, u).0;
    assert r[|roster|].userId == u;
  }

  // ---------------------------------------------------------------- roster query and scan

  /** The projection of the roster query: `SELECT userID` (as the handler queries it)
      or `SELECT ID, userID` (what its two-target scan expects). */
  datatype RosterQuery = SelectUserId | SelectKeyAndUserId

  /** A column value of a result row. */
  datatype Cell = Number(n: nat) | Chars(s: string)

  type Row = seq<Cell>

  /** The columns the roster query returns for one user. */
  function Project(q: RosterQuery, u: Registered): Row
  {
    match q
    case SelectUserId => [Chars(u.userId)]
    case SelectKeyAndUserId => [Number(u.key), Chars(u.userId)]
  }

  /** The rows the roster query returns, one per roster row, in roster order. */
  function RosterRows(q: RosterQuery, roster: seq<Registered>): (rows: seq<Row>)
    ensures |rows| == |roster|
    ensures forall i :: 0 <= i < |rows| ==> rows[i] == Project(q, roster[i])
  {
    if roster == [] then []
    else RosterRows(q, roster[..|roster| - 1]) + [Project(q, roster[|roster| - 1])]
  }

  /** `rows.Scan(&primaryKey, &userID)`: the scan fails unless the row has exactly as many
      columns as there are targets (two); on success it yields the first column, the key. */
  function ScanKey(row: Row): (r: Option<nat>)
    ensures r.Some? ==> |row| == 2
    ensures |row| == 2 && row[0].Number? ==> r == Some(row[0].n)
  {
    if |row| == 2 && row[0].Number? then Some(row[0].n) else None
  }

  // ---------------------------------------------------------------- hours

  /** The number of `hours` rows for key `k`. */
  function Count(rows: seq<HoursRow>, k: nat): nat
  {
    if rows == [] then 0
    else Count(rows[..|rows| - 1], k) + (if rows[|rows| - 1].key == k then 1 else 0)
  }

  /** At most one `hours` row per key. */
  ghost predicate UniqueKeys(rows: seq<HoursRow>)
  {
    forall k :: Count(rows, k) <= 1
  }

  /** The value recorded for key `k` (by the last row with that key), if any. */
  function HoursOf(rows: seq<HoursRow>, k: nat): (r: Option<real>)
    ensures r.Some? <==> Count(rows, k) > 0
  {
    if rows == [] then None
    else if rows[|rows| - 1].key == k then Some(rows[|rows| - 1].hours)
    else HoursOf(rows[..|rows| - 1], k)
  }

  /** `SELECT hours.ID FROM hours ... LIMIT 1`, scanned. */
  function LookupHours(rows: seq<HoursRow>, k: nat, fails: bool): (r: Lookup)
  {
    if fails then Failure else if Count(rows, k) > 0 then Found else NoRow
  }

  /** `UPDATE hours SET hours=? WHERE userID IN (?)`: every row for `k` gets `v`. */
  function SetHours(rows: seq<HoursRow>, k: nat, v: real): (r: seq<HoursRow>)
    ensures |r| == |rows|
    ensures forall i :: 0 <= i < |rows| ==> r[i].key == rows[i].key
  {
    if rows == [] then []
    else
      var last := rows[|rows| - 1];
      SetHours(rows[..|rows| - 1], k, v) + [if last.key == k then HoursRow(k, v) else last]
  }

  /** `INSERT INTO hours (userID, hours) VALUES (?,?)`. */
  function InsertHours(rows: seq<HoursRow>, k: nat, v: real): seq<HoursRow>
  {
    rows + [HoursRow(k, v)]
  }

  /** The update changes values only, so the number of rows per key is the same. */
  lemma {:induction false} SetHoursCount(rows: seq<HoursRow>, k: nat, v: real, j: nat)
    ensures Count(SetHours(rows, k, v), j) == Count(rows, j)
  {
    if rows != [] {
      var init := rows[..|rows| - 1];
      SetHoursCount(init, k, v, j);
      assert SetHours(rows, k, v)[..|rows| - 1] == SetHours(init, k, v);
    }
  }

  /** After the update, key `k` reads `v` if it had a row, and every other key reads as before. */
  lemma {:induction false} SetHoursValue(rows: seq<HoursRow>, k: nat, v: real, j: nat)
    ensures HoursOf(SetHours(rows, k, v), j) ==
      if j == k && Count(rows, k) > 0 then Some(v) else HoursOf(rows, j)
  {
    if rows != [] {
      var init := rows[..|rows| - 1];
      SetHoursValue(init, k, v, j);
      assert SetHours(rows, k, v)[..|rows| - 1] == SetHours(init, k, v);
    }
  }

  /** Appending a row adds one to its key's count and makes it that key's value. */
  lemma InsertHoursEffect(rows: seq<HoursRow>, k: nat, v: real, j: nat)
    ensures Count(InsertHours(rows, k, v), j) == Count(rows, j) + (if j == k then 1 else 0)
    ensures HoursOf(InsertHours(rows, k, v), j) == if j == k then Some(v) else HoursOf(rows, j)
  {
    assert InsertHours(rows, k, v)[..|rows|] == rows;
  }

  /** The store write of one reply (`UserDMHandler` without its failure paths): insert when
      the key has no row, update when it has one. */
  function Upsert(rows: seq<HoursRow>, k: nat, v: real): seq<HoursRow>
  {
    if Count(rows, k) > 0 then SetHours(rows, k, v) else InsertHours(rows, k, v)
  }

  /** Whichever branch is taken, afterwards key `k` has exactly one row holding `v`, every
      other key reads as before, and no key has two rows. */
  lemma UpsertOneRow(rows: seq<HoursRow>, k: nat, v: real)
    requires UniqueKeys(rows)
    ensures UniqueKeys(Upsert(rows, k, v))
    ensures Count(Upsert(rows, k, v), k) == 1
    ensures HoursOf(Upsert(rows, k, v), k) == Some(v)
    ensures forall j :: j != k ==> HoursOf(Upsert(rows, k, v), j) == HoursOf(rows, j)
  {
    var r := Upsert(rows, k, v);
    if Count(rows, k) > 0 {
      forall j ensures Count(r, j) == Count(rows, j) && HoursOf(r, j) == if j == k then Some(v) else HoursOf(rows, j) {
        SetHoursCount(rows, k, v, j);
        SetHoursValue(rows, k, v, j);
      }
      assert Count(rows, k) <= 1;
    } else {
      forall j ensures Count(r, j) == Count(rows, j) + (if j == k then 1 else 0)
        && HoursOf(r, j) == if j == k then Some(v) else HoursOf(rows, j) {
        InsertHoursEffect(rows, k, v, j);
      }
      forall j ensures Count(r, j) <= 1 {
        assert Count(rows, j) <= 1;
      }
    }
  }

  // ---------------------------------------------------------------- hours lookup as written

  /** The hours lookup as written: the text `param` (the scanned key) is compared with the
      chat user ids of the roster, and a match counts when that user's key has an hours row. */
  function LookupHoursAsWritten(roster: seq<Registered>, rows: seq<HoursRow>, param: string, fails: bool): (r: Lookup)
    ensures !fails && !IsRegistered(roster, param) ==> r == NoRow
  {
    if fails then Failure
    else if exists i :: 0 <= i < |roster| && roster[i].userId == param && Count(rows, roster[i].key) > 0 then Found
    else NoRow
  }

  /** The store write of one reply as written: the lookup addresses `param` as a chat user
      id, while the insert and the update address it as the key `k`. */
  function UpsertAsWritten(roster: seq<Registered>, rows: seq<HoursRow>, param: string, k: nat, v: real): seq<HoursRow>
  {
    if LookupHoursAsWritten(roster, rows, param, false) == Found then SetHours(rows, k, v) else InsertHours(rows, k, v)
  }

  /** When the key's text is no chat user id, the lookup as written never finds a row, so
      every write inserts: two replies leave two more rows for the key, and keys are no
      longer unique. */
  lemma UpsertAsWrittenDuplicates(roster: seq<Registered>, rows: seq<HoursRow>, param: string, k: nat, v1: real, v2: real)
    requires !IsRegistered(roster, param)
    ensures var once := UpsertAsWritten(roster, rows, param, k, v1);
      var twice := UpsertAsWritten(roster, once, param, k, v2);
      && Count(once, k) == Count(rows, k) + 1
      && Count(twice, k) == Count(rows, k) + 2
      && !UniqueKeys(twice)
  {
    var once := UpsertAsWritten(roster, rows, param, k, v1);
    InsertHoursEffect(rows, k, v1, k);
    InsertHoursEffect(once, k, v2, k);
  }

  /** Upserting a value and then another leaves one row for the key, with the second value. */
  lemma UpsertTwice(rows: seq<HoursRow>, k: nat, v1: real, v2: real)
    requires UniqueKeys(rows)
    ensures Count(Upsert(Upsert(rows, k, v1), k, v2), k) == 1
    ensures HoursOf(Upsert(Upsert(rows, k, v1), k, v2), k) == Some(v2)
  {
    UpsertOneRow(rows, k, v1);
    UpsertOneRow(Upsert(rows, k, v1), k, v2);
  }
}
