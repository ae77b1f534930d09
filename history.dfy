/** The `messages` table of chat_history.db as a sequence of rows, and the three
    ways the bot touches it: INSERT (save), SELECT newest-first (history window)
    and DELETE (clear). The functions here say what each SQL statement computes;
    the methods of Bot.LegalBot perform them on the table object. */
module History {

  datatype Option<T> = None | Some(value: T)

  /** The `role` column; `System` only ever appears in assembled prompts. */
  datatype Role = User | Assistant | System

  /** One `{'role': …, 'content': …}` dictionary as the bot passes it around. */
  datatype Entry = Entry(role: Role, content: string)

  /** One row `(user_id, role, content, timestamp)`; the timestamp is a clock tick. */
  datatype Row = Row(userId: int, role: Role, content: string, timestamp: nat)

  /** The default `limit` of get_conversation_history. */
  const DefaultLimit: int := 10

  function EntryOf(row: Row): Entry {
    Entry(row.role, row.content)
  }

  /** The list comprehension that turns fetched rows into dictionaries. */
  function Entries(rows: seq<Row>): seq<Entry> {
    seq(|rows|, i requires 0 <= i < |rows| => EntryOf(rows[i]))
  }

  /** Python's `s[::-1]`. */
  function Reverse<T>(s: seq<T>): seq<T> {
    seq(|s|, i requires 0 <= i < |s| => s[|s| - 1 - i])
  }

  /** SQLite's `LIMIT n`: a negative bound means no bound at all. */
  function Take<T>(s: seq<T>, limit: int): seq<T> {
    if limit < 0 || |s| <= limit then s else s[..limit]
  }

  /** `entry` is the role and content of a stored row of the user. */
  ghost predicate StoredFor(rows: seq<Row>, userId: int, entry: Entry) {
    exists r :: r in rows && r.userId == userId && entry == EntryOf(r)
  }

  /** How many rows `LIMIT limit` keeps out of `n`. */
  function WindowSize(n: nat, limit: int): nat {
    if limit < 0 || n <= limit then n else limit
  }

  /** Rows are appended in clock order, so timestamps strictly increase along the table. */
  predicate Increasing(rows: seq<Row>) {
    forall i, j :: 0 <= i < j < |rows| ==> rows[i].timestamp < rows[j].timestamp
  }

  /** The composite primary key `(user_id, timestamp)` of the schema in db.py is already in use. */
  predicate KeyTaken(rows: seq<Row>, userId: int, timestamp: nat) {
    exists i :: 0 <= i < |rows| && rows[i].userId == userId && rows[i].timestamp == timestamp
  }

  /** `WHERE user_id = ?`, in table order. */
  function UserRows(rows: seq<Row>, userId: int): (mine: seq<Row>)
    ensures |mine| <= |rows|
    ensures forall i :: 0 <= i < |mine| ==> mine[i].userId == userId && mine[i] in rows
    ensures forall r :: r in rows && r.userId == userId ==> r in mine
  {
    if rows == [] then []
    else
      var init, last := rows[..|rows| - 1], rows[|rows| - 1];
      assert rows == init + [last];
      if last.userId == userId then UserRows(init, userId) + [last] else UserRows(init, userId)
  }

  /** `DELETE FROM messages WHERE user_id = ?`: what the table keeps. */
  function Without(rows: seq<Row>, userId: int): (kept: seq<Row>)
    ensures |kept| <= |rows|
    ensures forall i :: 0 <= i < |kept| ==> kept[i].userId != userId && kept[i] in rows
    ensures forall r :: r in rows && r.userId != userId ==> r in kept
  {
    if rows == [] then []
    else
      var init, last := rows[..|rows| - 1], rows[|rows| - 1];
      assert rows == init + [last];
      if last.userId != userId then Without(init, userId) + [last] else Without(init, userId)
  }

  /** The rows one call of save_message inserts: the messages in list order,
      tagged with `userId`, stamped with consecutive clock ticks from `from`. */
  function Stamped(userId: int, messages: seq<Entry>, from: nat): (inserted: seq<Row>)
    ensures Entries(inserted) == messages
    ensures forall i :: 0 <= i < |inserted| ==>
      inserted[i].userId == userId && from <= inserted[i].timestamp < from + |messages|
    ensures Increasing(inserted)
  {
    var inserted := seq(|messages|, i requires 0 <= i < |messages| =>
      Row(userId, messages[i].role, messages[i].content, from + i));
    assert forall i :: 0 <= i < |messages| ==> Entries(inserted)[i] == messages[i];
    inserted
  }

  /** `SELECT … WHERE user_id = ? ORDER BY timestamp DESC LIMIT ?` on a table whose
      timestamps increase along it (see NewestRowsIsQuery). */
  function NewestRows(rows: seq<Row>, userId: int, limit: int): (newest: seq<Row>)
    ensures var mine := UserRows(rows, userId);
      |newest| == WindowSize(|mine|, limit) &&
      forall i :: 0 <= i < |newest| ==> newest[i] == mine[|mine| - 1 - i]
  {
    TakeReverseAt(UserRows(rows, userId), limit);
    Take(Reverse(UserRows(rows, userId)), limit)
  }

  /** get_conversation_history: the fetched dictionaries, reversed into chronological order. */
  function Window(rows: seq<Row>, userId: int, limit: int): (history: seq<Entry>)
    ensures |history| == WindowSize(|UserRows(rows, userId)|, limit)
    ensures limit >= 0 ==> |history| <= limit
  {
    Reverse(Entries(NewestRows(rows, userId, limit)))
  }

  // ---------------------------------------------------------------------------
  // The history query

  /** The query returns the newest rows of the user, newest first: every row it
      returns belongs to the user, the timestamps strictly decrease, at most
      `limit` rows come back, and a row of the user left out is older than every
      row returned, which only happens when the limit was reached. */
  lemma NewestRowsIsQuery(rows: seq<Row>, userId: int, limit: int)
    requires Increasing(rows)
    ensures var r := NewestRows(rows, userId, limit);
      (forall i :: 0 <= i < |r| ==> r[i].userId == userId && r[i] in rows) &&
      (forall i, j :: 0 <= i < j < |r| ==> r[i].timestamp > r[j].timestamp) &&
      (limit >= 0 ==> |r| <= limit) &&
      (forall x :: x in rows && x.userId == userId && x !in r ==>
         |r| == limit && forall i :: 0 <= i < |r| ==> x.timestamp < r[i].timestamp)
  {
    var u := UserRows(rows, userId);
    UserRowsIncreasing(rows, userId);
    var r := NewestRows(rows, userId, limit);
    var k := WindowSize(|u|, limit);
    TakeReverseAt(u, limit);
    forall m | |u| - k <= m < |u| ensures u[m] in r {
      assert r[|u| - 1 - m] == u[m];
    }
    forall x | x in rows && x.userId == userId && x !in r
      ensures |r| == limit && forall i :: 0 <= i < |r| ==> x.timestamp < r[i].timestamp
    {
      var m :| 0 <= m < |u| && u[m] == x;
      if m >= |u| - k {
        assert false;
      }
    }
  }

  /** The window is exactly the newest `WindowSize` rows of the user, oldest first. */
  lemma WindowIsNewest(rows: seq<Row>, userId: int, limit: int)
    ensures var mine := UserRows(rows, userId);
      var k := WindowSize(|mine|, limit);
      Window(rows, userId, limit) == Entries(mine[|mine| - k..])
  {
    var mine := UserRows(rows, userId);
    ReverseEntries(NewestRows(rows, userId, limit));
    ReverseTakeReverse(mine, limit);
  }

  /** At most `limit` entries (when the limit is not negative), all of them the user's. */
  lemma WindowBounded(rows: seq<Row>, userId: int, limit: int)
    ensures var w := Window(rows, userId, limit);
      (limit >= 0 ==> |w| <= limit) &&
      forall i :: 0 <= i < |w| ==> StoredFor(rows, userId, w[i])
  {
    WindowIsNewest(rows, userId, limit);
    var mine := UserRows(rows, userId);
    var k := WindowSize(|mine|, limit);
    var w := Window(rows, userId, limit);
    var recent := mine[|mine| - k..];
    assert w == Entries(recent);
    forall i | 0 <= i < |w|
      ensures StoredFor(rows, userId, w[i])
    {
      var r := mine[|mine| - k + i];
      assert recent[i] == r;
      assert r in rows && r.userId == userId;
      assert w[i] == EntryOf(r);
    }
    assert limit >= 0 ==> |w| <= limit;
  }

  /** Rows just saved for the user end their window, in the order saved, when
      the limit leaves room for all of them. */
  lemma WindowEndsWith(rows: seq<Row>, saved: seq<Row>, userId: int, limit: int)
    requires forall i :: 0 <= i < |saved| ==> saved[i].userId == userId
    requires limit < 0 || |saved| <= limit
    ensures var w := Window(rows + saved, userId, limit);
      |saved| <= |w| && w[|w| - |saved|..] == Entries(saved)
  {
    var all := rows + saved;
    var mine := UserRows(all, userId);
    var k := WindowSize(|mine|, limit);
    assert mine == UserRows(rows, userId) + saved by {
      UserRowsAppend(rows, saved, userId);
      UserRowsAllMine(saved, userId);
    }
    WindowIsNewest(all, userId, limit);
    RecentEndsWith(mine, UserRows(rows, userId), saved, k);
  }

  /** A row just saved for the user is the last entry of their window, whatever
      the (non-zero) limit; with limit 1 it is the whole window. */
  lemma WindowEndsWithNewRow(rows: seq<Row>, row: Row, limit: int)
    requires limit != 0
    ensures var w := Window(rows + [row], row.userId, limit);
      |w| > 0 && w[|w| - 1] == EntryOf(row) && (limit == 1 ==> w == [EntryOf(row)])
  {
    WindowEndsWith(rows, [row], row.userId, limit);
    var w := Window(rows + [row], row.userId, limit);
    assert w[|w| - 1..] == [EntryOf(row)];
    if limit == 1 {
      WindowBounded(rows + [row], row.userId, limit);
    }
  }

  // ---------------------------------------------------------------------------
  // Save and clear

  /** After save_message, the user's rows are the old ones followed by the
      inserted rows in list order; every other user's rows are unchanged. */
  lemma SaveMessageEffect(rows: seq<Row>, userId: int, messages: seq<Entry>, from: nat, other: int)
    ensures UserRows(rows + Stamped(userId, messages, from), userId)
         == UserRows(rows, userId) + Stamped(userId, messages, from)
    ensures other != userId ==>
      UserRows(rows + Stamped(userId, messages, from), other) == UserRows(rows, other)
  {
    UserRowsAppend(rows, Stamped(userId, messages, from), userId);
    UserRowsAppend(rows, Stamped(userId, messages, from), other);
    StampedUserRows(userId, messages, from, userId);
    StampedUserRows(userId, messages, from, other);
  }

  /** With a clock above every stored timestamp, no INSERT of save_message meets a
      `(user_id, timestamp)` key already in the table, and the table stays increasing. */
  lemma StampedKeysFresh(rows: seq<Row>, userId: int, messages: seq<Entry>, from: nat)
    requires Increasing(rows)
    requires forall i :: 0 <= i < |rows| ==> rows[i].timestamp < from
    ensures Increasing(rows + Stamped(userId, messages, from))
    ensures forall j :: 0 <= j < |messages| ==>
      !KeyTaken(rows + Stamped(userId, messages[..j], from), userId, from + j)
  {
    forall j | 0 <= j < |messages|
      ensures !KeyTaken(rows + Stamped(userId, messages[..j], from), userId, from + j)
    {
      var before := rows + Stamped(userId, messages[..j], from);
      assert forall i :: 0 <= i < |before| ==> before[i].timestamp < from + j;
    }
  }

  /** Clearing one user leaves every other user's rows, in order. */
  lemma {:induction false} ClearKeepsOthers(rows: seq<Row>, userId: int, other: int)
    requires other != userId
    ensures UserRows(Without(rows, userId), other) == UserRows(rows, other)
  {
    if rows != [] {
      var init, last := rows[..|rows| - 1], rows[|rows| - 1];
      ClearKeepsOthers(init, userId, other);
      if last.userId != userId {
        var kept := Without(init, userId) + [last];
        assert kept[..|kept| - 1] == Without(init, userId);
      }
    }
  }

  /** Clearing removes every row of the user. */
  lemma ClearRemovesUser(rows: seq<Row>, userId: int)
    ensures UserRows(Without(rows, userId), userId) == []
  {
  }

  /** Clearing a user with no rows changes nothing. */
  lemma {:induction false} ClearNoop(rows: seq<Row>, userId: int)
    requires UserRows(rows, userId) == []
    ensures Without(rows, userId) == rows
  {
    if rows != [] {
      var init, last := rows[..|rows| - 1], rows[|rows| - 1];
      assert last in rows;
      ClearNoop(init, userId);
      assert rows == init + [last];
    }
  }

  /** Deleting rows keeps the table increasing. */
  lemma {:induction false} ClearIncreasing(rows: seq<Row>, userId: int)
    requires Increasing(rows)
    ensures Increasing(Without(rows, userId))
  {
    if rows != [] {
      var init, last := rows[..|rows| - 1], rows[|rows| - 1];
      ClearIncreasing(init, userId);
      var kept := Without(init, userId);
      forall x | x in kept ensures x.timestamp < last.timestamp {
        var k :| 0 <= k < |init| && init[k] == x;
      }
    }
  }

  // ---------------------------------------------------------------------------
  // Helpers

  lemma {:induction false} UserRowsIncreasing(rows: seq<Row>, userId: int)
    requires Increasing(rows)
    ensures Increasing(UserRows(rows, userId))
  {
    if rows != [] {
      var init, last := rows[..|rows| - 1], rows[|rows| - 1];
      UserRowsIncreasing(init, userId);
      var mine := UserRows(init, userId);
      forall x | x in mine ensures x.timestamp < last.timestamp {
        var k :| 0 <= k < |init| && init[k] == x;
      }
    }
  }

  lemma {:induction false} UserRowsAppend(a: seq<Row>, b: seq<Row>, userId: int)
    ensures UserRows(a + b, userId) == UserRows(a, userId) + UserRows(b, userId)
  {
    if b == [] {
      assert a + b == a;
    } else {
      var init := b[..|b| - 1];
      assert (a + b)[..|a + b| - 1] == a + init;
      assert (a + b)[|a + b| - 1] == b[|b| - 1];
      UserRowsAppend(a, init, userId);
    }
  }

  lemma {:induction false} StampedUserRows(userId: int, messages: seq<Entry>, from: nat, other: int)
    ensures UserRows(Stamped(userId, messages, from), other)
         == if other == userId then Stamped(userId, messages, from) else []
  {
    if messages != [] {
      var n := |messages|;
      var s := Stamped(userId, messages, from);
      assert s[..n - 1] == Stamped(userId, messages[..n - 1], from);
      assert s == s[..n - 1] + [s[n - 1]];
      StampedUserRows(userId, messages[..n - 1], from, other);
    }
  }

  lemma {:induction false} UserRowsAllMine(rows: seq<Row>, userId: int)
    requires forall i :: 0 <= i < |rows| ==> rows[i].userId == userId
    ensures UserRows(rows, userId) == rows
  {
    if rows != [] {
      UserRowsAllMine(rows[..|rows| - 1], userId);
      assert rows == rows[..|rows| - 1] + [rows[|rows| - 1]];
    }
  }

  lemma ReverseEntries(rows: seq<Row>)
    ensures Reverse(Entries(rows)) == Entries(Reverse(rows))
  {
  }

  lemma ReverseTakeReverse<T>(s: seq<T>, limit: int)
    ensures Reverse(Take(Reverse(s), limit)) == s[|s| - WindowSize(|s|, limit)..]
  {
    TakeReverseAt(s, limit);
  }

  lemma TakeReverseAt<T>(s: seq<T>, limit: int)
    ensures var t := Take(Reverse(s), limit);
      |t| == WindowSize(|s|, limit) && forall i :: 0 <= i < |t| ==> t[i] == s[|s| - 1 - i]
  {
  }

  /** The entries of the newest `k` rows of `front + saved` end with `saved`. */
  lemma RecentEndsWith(mine: seq<Row>, front: seq<Row>, saved: seq<Row>, k: nat)
    requires mine == front + saved && |saved| <= k <= |mine|
    ensures var es := Entries(mine[|mine| - k..]);
      |saved| <= |es| && es[|es| - |saved|..] == Entries(saved)
  {
    var recent := mine[|mine| - k..];
    SuffixOfSuffix(front, saved, k);
    EntriesSuffix(recent, saved);
  }

  lemma EntriesSuffix(rows: seq<Row>, tail: seq<Row>)
    requires |tail| <= |rows| && rows[|rows| - |tail|..] == tail
    ensures var es := Entries(rows); es[|es| - |tail|..] == Entries(tail)
  {
  }

  lemma SuffixOfSuffix<T>(front: seq<T>, back: seq<T>, k: nat)
    requires |back| <= k <= |front| + |back|
    ensures (front + back)[|front + back| - k..][k - |back|..] == back
  {
    var all := front + back;
    assert all[|all| - k..][k - |back|..] == all[|front|..];
  }
}
