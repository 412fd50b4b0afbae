/**
 * The visitor ledger of src/persistence/user_info.rs.
 *
 * The SQLite table `user_visits(id, user, is_bot)` is a sequence of rows with
 * an auto-increment counter.  Every SQL statement the source runs gets a
 * boolean parameter saying whether the storage engine executed it; a failed
 * statement changes nothing.
 */
module Persistence {
  import opened Types

  /** One row of `user_visits`. */
  datatype Row = Row(id: nat, user: uint32, isBot: bool)

  /**
   * `UserInfo` without `ip_str`: `UserInfo::new` fills that field from
   * `u32_to_ip`, which is not part of this model.  The datatype constructor
   * stores `ip_dec`, `rank` and `is_bot` unchanged, as `UserInfo::new` does.
   */
  datatype UserInfo = UserInfo(ipDec: uint32, rank: nat, isBot: bool)

  /** Row ids are positive, strictly increasing in insertion order and below the next id. */
  predicate WellFormed(rows: seq<Row>, nextId: nat)
  {
    && 1 <= nextId
    && (forall i :: 0 <= i < |rows| ==> 1 <= rows[i].id < nextId)
    && (forall i, j :: 0 <= i < j < |rows| ==> rows[i].id < rows[j].id)
  }

  predicate HasRows(rows: seq<Row>, user: uint32)
  {
    exists i :: 0 <= i < |rows| && rows[i].user == user
  }

  /**
   * `SELECT id, user, is_bot FROM user_visits WHERE user = ? ORDER BY id DESC LIMIT 1`:
   * the row of `user` with the greatest id, if there is one.
   */
  function LatestRow(rows: seq<Row>, user: uint32): (r: Option<Row>)
    ensures r.None? <==> !HasRows(rows, user)
    ensures r.Some? ==> r.value in rows && r.value.user == user
    ensures r.Some? ==> forall i :: 0 <= i < |rows| && rows[i].user == user ==> rows[i].id <= r.value.id
  {
    if |rows| == 0 then None
    else
      var rest := LatestRow(rows[1..], user);
      assert forall i :: 1 <= i < |rows| ==> rows[i] == rows[1..][i - 1];
      if rows[0].user != user then rest
      else if rest.Some? && rest.value.id > rows[0].id then rest
      else Some(rows[0])
  }

  /**
   * Ids are unique in a well-formed table, so `ORDER BY id DESC LIMIT 1` has one
   * answer: any row of `user` whose id is at least every other id of `user`.
   */
  lemma {:induction false} LatestRowUnique(rows: seq<Row>, nextId: nat, user: uint32, i: nat)
    requires WellFormed(rows, nextId)
    requires i < |rows| && rows[i].user == user
    requires forall j :: 0 <= j < |rows| && rows[j].user == user ==> rows[j].id <= rows[i].id
    ensures LatestRow(rows, user) == Some(rows[i])
  {
    var latest := LatestRow(rows, user).value;
    var j :| 0 <= j < |rows| && rows[j] == latest;
    assert rows[j].id == rows[i].id;
  }

  /** Appending a row whose id exceeds every other makes it the latest row of its user. */
  lemma {:induction false} LatestRowAfterAppend(rows: seq<Row>, row: Row, user: uint32)
    requires forall i :: 0 <= i < |rows| ==> rows[i].id < row.id
    ensures LatestRow(rows + [row], user) == if row.user == user then Some(row) else LatestRow(rows, user)
  {
    if |rows| > 0 {
      assert (rows + [row])[1..] == rows[1..] + [row];
      LatestRowAfterAppend(rows[1..], row, user);
    }
  }

  /**
   * `UPDATE user_visits SET is_bot = FALSE WHERE user = ?`: every row of `user`
   * loses its bot flag, every other row stays as it was.
   */
  function ClearBot(rows: seq<Row>, user: uint32): (r: seq<Row>)
    ensures |r| == |rows|
    ensures forall i :: 0 <= i < |rows| ==> r[i].id == rows[i].id && r[i].user == rows[i].user
    ensures forall i :: 0 <= i < |rows| ==> r[i].isBot == (rows[i].isBot && rows[i].user != user)
  {
    if |rows| == 0 then []
    else
      var first := if rows[0].user == user then rows[0].(isBot := false) else rows[0];
      var r := [first] + ClearBot(rows[1..], user);
      assert forall i :: 1 <= i < |rows| ==> r[i] == ClearBot(rows[1..], user)[i - 1];
      r
  }

  /** Clearing the flag twice is clearing it once. */
  lemma {:induction false} ClearBotIdempotent(rows: seq<Row>, user: uint32)
    ensures ClearBot(ClearBot(rows, user), user) == ClearBot(rows, user)
  {
    var once := ClearBot(rows, user);
    var twice := ClearBot(once, user);
    assert |twice| == |once|;
    forall i | 0 <= i < |once| ensures twice[i] == once[i] {
      assert twice[i].id == once[i].id && twice[i].user == once[i].user && twice[i].isBot == once[i].isBot;
    }
  }

  /** Clearing flags keeps ids and users, so it keeps the ledger well formed. */
  lemma {:induction false} ClearBotWellFormed(rows: seq<Row>, user: uint32, nextId: nat)
    requires WellFormed(rows, nextId)
    ensures WellFormed(ClearBot(rows, user), nextId)
  {
  }

  /** `SELECT count(*) ... WHERE is_bot = <flag>`. */
  function CountFlag(rows: seq<Row>, flag: bool): (n: nat)
    ensures n <= |rows|
  {
    if |rows| == 0 then 0
    else (if rows[0].isBot == flag then 1 else 0) + CountFlag(rows[1..], flag)
  }

  lemma {:induction false} CountFlagAppend(rows: seq<Row>, row: Row, flag: bool)
    ensures CountFlag(rows + [row], flag) == CountFlag(rows, flag) + (if row.isBot == flag then 1 else 0)
  {
    if |rows| > 0 {
      assert (rows + [row])[1..] == rows[1..] + [row];
      CountFlagAppend(rows[1..], row, flag);
    }
  }

  /** Every row is counted either as a bot or as a verified visitor, never both. */
  lemma {:induction false} CountsPartition(rows: seq<Row>)
    ensures CountFlag(rows, true) + CountFlag(rows, false) == |rows|
  {
    if |rows| > 0 {
      CountsPartition(rows[1..]);
    }
  }

  /** No row of `user` is a bot after `ClearBot`, and the rows of other users keep their flags. */
  lemma {:induction false} ClearBotEffect(rows: seq<Row>, user: uint32)
    ensures forall i :: 0 <= i < |rows| && rows[i].user == user ==> !ClearBot(rows, user)[i].isBot
    ensures forall i :: 0 <= i < |rows| && rows[i].user != user ==> ClearBot(rows, user)[i] == rows[i]
    ensures LatestRow(ClearBot(rows, user), user).Some? <==> HasRows(rows, user)
    ensures LatestRow(ClearBot(rows, user), user).Some? ==> !LatestRow(ClearBot(rows, user), user).value.isBot
  {
    var cleared := ClearBot(rows, user);
    if HasRows(rows, user) {
      var i :| 0 <= i < |rows| && rows[i].user == user;
      assert cleared[i].user == user;
    }
    if HasRows(cleared, user) {
      var i :| 0 <= i < |cleared| && cleared[i].user == user;
      assert rows[i].user == user;
    }
  }

  /** Clearing flags never adds bots: the verified count can only grow. */
  lemma {:induction false} ClearBotCounts(rows: seq<Row>, user: uint32)
    ensures CountFlag(ClearBot(rows, user), false) >= CountFlag(rows, false)
    ensures CountFlag(ClearBot(rows, user), true) <= CountFlag(rows, true)
  {
    if |rows| > 0 {
      ClearBotCounts(rows[1..], user);
      assert ClearBot(rows, user)[1..] == ClearBot(rows[1..], user);
    }
  }

  /** The table `user_visits` and its auto-increment counter. */
  class Ledger {
    var rows: seq<Row>
    var nextId: nat

    ghost predicate Valid()
      reads this
    {
      WellFormed(rows, nextId)
    }

    /** The empty table that the migrations create. */
    constructor ()
      ensures Valid() && rows == [] && nextId == 1
    {
      rows := [];
      nextId := 1;
    }

    /**
     * `get_user_by_id`: the latest row of `user` as a `UserInfo`.  A failed
     * query reads as "no such user".
     */
    method GetUserById(user: uint32, selectOk: bool) returns (info: Option<UserInfo>)
      requires Valid()
      ensures !selectOk ==> info.None?
      ensures selectOk ==> (info.Some? <==> HasRows(rows, user))
      ensures info.Some? ==> info.value.ipDec == user && LatestRow(rows, user) == Some(Row(info.value.rank, user, info.value.isBot))
    {
      if !selectOk {
        return None;
      }
      match LatestRow(rows, user) {
        case None =>
          info := None;
        case Some(row) =>
          info := Some(UserInfo(user, row.id, row.isBot));
      }
    }

    /**
     * `insert_user`: `INSERT INTO user_visits (user) VALUES (?)` appends a row
     * with a fresh id and the column default `is_bot = TRUE`.
     */
    method InsertUser(user: uint32, insertOk: bool) returns (ok: bool)
      requires Valid()
      modifies this
      ensures Valid()
      ensures ok == insertOk
      ensures ok ==> rows == old(rows) + [Row(old(nextId), user, true)] && nextId == old(nextId) + 1
      ensures !ok ==> rows == old(rows) && nextId == old(nextId)
    {
      ok := insertOk;
      if ok {
        var row := Row(nextId, user, true);
        assert forall i :: 0 <= i < |rows| ==> (rows + [row])[i] == rows[i];
        rows := rows + [row];
        nextId := nextId + 1;
      }
    }

    /**
     * `get_user_info`: select the latest row of `user`; if there is none (or the
     * select failed), insert one and select again.
     */
    method GetUserInfo(user: uint32, selectOk: bool, insertOk: bool, reselectOk: bool) returns (r: Result<UserInfo>)
      requires Valid()
      modifies this
      ensures Valid()
      // A known user is found and nothing is written.
      ensures selectOk && HasRows(old(rows), user) ==>
                && rows == old(rows) && nextId == old(nextId)
                && r == Ok(UserInfo(user, LatestRow(rows, user).value.id, LatestRow(rows, user).value.isBot))
      // Otherwise one bot row is appended, and its id is the rank.
      ensures (!selectOk || !HasRows(old(rows), user)) && insertOk ==>
                && rows == old(rows) + [Row(old(nextId), user, true)] && nextId == old(nextId) + 1
                && r == (if reselectOk then Ok(UserInfo(user, old(nextId), true)) else Err)
      ensures (!selectOk || !HasRows(old(rows), user)) && !insertOk ==>
                rows == old(rows) && nextId == old(nextId) && r == Err
      // Whatever happened, a returned rank is that of the latest row of the user.
      ensures r.Ok? ==> r.value.ipDec == user && LatestRow(rows, user) == Some(Row(r.value.rank, user, r.value.isBot))
    {
      var found := GetUserById(user, selectOk);
      if found.Some? {
        return Ok(found.value);
      }
      var inserted := InsertUser(user, insertOk);
      if !inserted {
        return Err;
      }
      LatestRowAfterAppend(old(rows), Row(old(nextId), user, true), user);
      found := GetUserById(user, reselectOk);
      if found.Some? {
        return Ok(found.value);
      }
      return Err;
    }

    /**
     * `is_user_bot`: the bot flag of the latest row of `user`; an unknown user is
     * inserted and reported as a bot.
     */
    method IsUserBot(user: uint32, selectOk: bool, insertOk: bool) returns (r: Result<bool>)
      requires Valid()
      modifies this
      ensures Valid()
      ensures selectOk && HasRows(old(rows), user) ==>
                rows == old(rows) && nextId == old(nextId) && r == Ok(LatestRow(rows, user).value.isBot)
      ensures (!selectOk || !HasRows(old(rows), user)) && insertOk ==>
                rows == old(rows) + [Row(old(nextId), user, true)] && nextId == old(nextId) + 1 && r == Ok(true)
      ensures (!selectOk || !HasRows(old(rows), user)) && !insertOk ==>
                rows == old(rows) && nextId == old(nextId) && r == Err
    {
      var found := GetUserById(user, selectOk);
      if found.Some? {
        return Ok(found.value.isBot);
      }
      var inserted := InsertUser(user, insertOk);
      if !inserted {
        return Err;
      }
      // New users are bots until they are verified.
      return Ok(true);
    }

    /** `get_total_user_count`: the number of rows. */
    method GetTotalUserCount(queryOk: bool) returns (count: Option<nat>)
      requires Valid()
      ensures count.Some? <==> queryOk
      ensures count.Some? ==> count.value == |rows| == CountFlag(rows, true) + CountFlag(rows, false)
    {
      if !queryOk {
        return None;
      }
      CountsPartition(rows);
      return Some(|rows|);
    }

    /** `get_user_count`: the number of rows with `is_bot = FALSE`. */
    method GetUserCount(queryOk: bool) returns (count: Option<nat>)
      requires Valid()
      ensures count.Some? <==> queryOk
      ensures count.Some? ==> count.value == CountFlag(rows, false) == |rows| - CountFlag(rows, true)
    {
      if !queryOk {
        return None;
      }
      CountsPartition(rows);
      return Some(CountFlag(rows, false));
    }

    /** `get_bot_count`: the number of rows with `is_bot = TRUE`. */
    method GetBotCount(queryOk: bool) returns (count: Option<nat>)
      requires Valid()
      ensures count.Some? <==> queryOk
      ensures count.Some? ==> count.value == CountFlag(rows, true) == |rows| - CountFlag(rows, false)
    {
      if !queryOk {
        return None;
      }
      CountsPartition(rows);
      return Some(CountFlag(rows, true));
    }

    /** `set_user_not_bot`: the UPDATE over every row of `user`. */
    method SetUserNotBot(user: uint32, updateOk: bool) returns (ok: bool)
      requires Valid()
      modifies this
      ensures Valid()
      ensures ok == updateOk
      ensures !ok ==> unchanged(this)
      ensures nextId == old(nextId)
      ensures rows == if ok then ClearBot(old(rows), user) else old(rows)
      ensures ok ==> forall i :: 0 <= i < |rows| && rows[i].user == user ==> !rows[i].isBot
    {
      ok := updateOk;
      if ok {
        ClearBotWellFormed(rows, user, nextId);
        rows := ClearBot(rows, user);
      }
    }
  }

  /** Resolving the same user twice gives the same rank, and the second call writes nothing. */
  method ResolveTwice(ledger: Ledger, user: uint32, insertOk: bool, reselectOk: bool)
    returns (first: Result<UserInfo>, second: Result<UserInfo>)
    requires ledger.Valid()
    modifies ledger
    ensures ledger.Valid()
    ensures first.Ok? ==> second == first
    ensures first.Ok? ==> ledger.rows == old(ledger.rows) + (if HasRows(old(ledger.rows), user) then [] else [Row(old(ledger.nextId), user, true)])
    ensures first.Ok? ==> ledger.nextId == old(ledger.nextId) + (if HasRows(old(ledger.rows), user) then 0 else 1)
  {
    first := ledger.GetUserInfo(user, true, insertOk, reselectOk);
    ghost var between := ledger.rows;
    second := ledger.GetUserInfo(user, true, insertOk, reselectOk);
    if first.Ok? {
      assert HasRows(between, user);
      assert ledger.rows == between;
    }
  }

  /** Users seen for the first time get increasing ranks in the order they are first seen. */
  method FirstSeenOrder(ledger: Ledger, u1: uint32, u2: uint32)
    returns (r1: Result<UserInfo>, r2: Result<UserInfo>)
    requires ledger.Valid()
    requires !HasRows(ledger.rows, u1) && !HasRows(ledger.rows, u2) && u1 != u2
    modifies ledger
    ensures ledger.Valid()
    ensures r1 == Ok(UserInfo(u1, old(ledger.nextId), true))
    ensures r2 == Ok(UserInfo(u2, old(ledger.nextId) + 1, true))
    ensures forall i :: 0 <= i < |old(ledger.rows)| ==> old(ledger.rows)[i].id < r1.value.rank
  {
    r1 := ledger.GetUserInfo(u1, true, true, true);
    ghost var between := ledger.rows;
    assert between == old(ledger.rows) + [Row(old(ledger.nextId), u1, true)];
    assert !HasRows(between, u2);
    r2 := ledger.GetUserInfo(u2, true, true, true);
  }
}
