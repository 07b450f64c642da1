/** TaskRepository: the typed access layer over the `tasks` table. The table is
    modelled as a map from primary key to row; every database call the repository
    makes takes a `fault` argument, `None` when the database answers and
    `Some(cause)` when the call is rejected with that cause (lost connection,
    timeout, ...). */
module Repository {
  import opened Wrappers
  import opened Model

  /** `findIncompleteTasks(limit = 5)`. */
  const DefaultLimit: int := 5

  /** What MySQL in strict mode answers when a value does not fit VARCHAR(255). */
  const TitleTooLong: string := "Data too long for column 'title' at row 1"

  /** What MySQL in strict mode answers when a value does not fit TEXT. */
  const DescriptionTooLong: string := "Data too long for column 'description' at row 1"

  /** The `id` column is INTEGER, a signed 32-bit INT: the largest key it holds. */
  const IdMax: int := 0x7FFF_FFFF

  /** What MySQL answers once AUTO_INCREMENT has handed out the largest INT: the
      next insert is given that key again. */
  const IdExhausted: string := "Duplicate entry '2147483647' for key 'tasks.PRIMARY'"

  /** The cause MySQL gives for values the columns reject: the first column, in
      table order, that overflows. */
  function Overflow(title: string, description: Option<string>): (cause: string)
    requires !Storable(title, description)
    ensures FitTitle(title).None? ==> cause == TitleTooLong
    ensures FitTitle(title).Some? ==>
      cause == DescriptionTooLong && description.Some? && FitText(description.value).None?
  {
    if FitTitle(title).None? then TitleTooLong else DescriptionTooLong
  }

  /** Why the database, answering, rejects inserting `title` and `description` when
      AUTO_INCREMENT stands at `nextId`; `None` when it accepts the insert. */
  function InsertRejection(nextId: int, title: string, description: Option<string>): (cause: Option<string>)
    ensures cause.None? <==> nextId <= IdMax && Storable(title, description)
    ensures !Storable(title, description) ==> cause == Some(Overflow(title, description))
    ensures Storable(title, description) && nextId > IdMax ==> cause == Some(IdExhausted)
  {
    if !Storable(title, description) then Some(Overflow(title, description))
    else if nextId > IdMax then Some(IdExhausted)
    else None
  }

  /** The rejection of a database call. */
  function StoreError(cause: string): (e: Error)
    ensures e.statusCode.None?
  {
    Error(cause, None)
  }

  /** Every row is stored under its own primary key. */
  predicate Keyed(rows: map<int, Task>) {
    forall k :: k in rows ==> rows[k].id == k
  }

  /** `ORDER BY created_at DESC`. */
  predicate NewestFirst(s: seq<Task>) {
    forall i, j :: 0 <= i < j < |s| ==> s[i].createdAt >= s[j].createdAt
  }

  /** No row occurs twice. */
  predicate Distinct(s: seq<Task>) {
    forall i, j :: 0 <= i < j < |s| ==> s[i] != s[j]
  }

  /** Every element of `s` is an incomplete row of `rows`, as stored. */
  predicate IncompleteRowsOf(rows: map<int, Task>, s: seq<Task>) {
    forall i :: 0 <= i < |s| ==> s[i].id in rows && rows[s[i].id] == s[i] && !s[i].completed
  }

  /** No two elements of `s` share an id. */
  predicate DistinctIds(s: seq<Task>) {
    forall i, j :: 0 <= i < j < |s| ==> s[i].id != s[j].id
  }

  /** Every incomplete row of `rows` is in `s`. */
  predicate HasAllIncomplete(rows: map<int, Task>, s: seq<Task>) {
    forall k :: k in rows && !rows[k].completed ==> rows[k] in s
  }

  /** No incomplete row left out of `s` is newer than a row in `s`. */
  predicate NoNewerLeftOut(rows: map<int, Task>, s: seq<Task>) {
    forall k, i :: k in rows && !rows[k].completed && rows[k] !in s && 0 <= i < |s| ==>
      rows[k].createdAt <= s[i].createdAt
  }

  /** What `Task.findAll({where: {completed: false}, order: [["created_at", "DESC"]],
      limit})` may answer on `rows`: incomplete rows of the table, each once, newest
      first, at most `limit` of them (none when `limit` is not positive), all of
      them when fewer than `limit` exist, and never an older row in place of a newer
      one. The order among rows created at the same instant is left open, as SQL
      leaves it. */
  predicate IsNewestIncomplete(rows: map<int, Task>, limit: int, tasks: seq<Task>) {
    && (tasks == [] || |tasks| <= limit)
    && IncompleteRowsOf(rows, tasks)
    && NewestFirst(tasks)
    && DistinctIds(tasks)
    && (|tasks| < limit ==> HasAllIncomplete(rows, tasks))
    && NoNewerLeftOut(rows, tasks)
  }

  /** The incomplete rows with a key in [lo, hi), highest key first. */
  function Pending(rows: map<int, Task>, lo: int, hi: int): (s: seq<Task>)
    requires Keyed(rows)
    decreases hi - lo
    ensures IncompleteRowsOf(rows, s)
    ensures forall i :: 0 <= i < |s| ==> lo <= s[i].id < hi
    ensures forall k :: lo <= k < hi && k in rows && !rows[k].completed ==> rows[k] in s
    ensures forall i, j :: 0 <= i < j < |s| ==> s[i].id > s[j].id
  {
    if hi <= lo then []
    else
      var rest := Pending(rows, lo, hi - 1);
      if hi - 1 in rows && !rows[hi - 1].completed then
        var s := [rows[hi - 1]] + rest;
        assert s[0].id == hi - 1 && rows[hi - 1] in s;
        assert forall i :: 0 < i < |s| ==> s[i] == rest[i - 1];
        s
      else rest
  }

  /** In a sequence of distinct rows the first does not occur again. */
  lemma HeadNotInTail(s: seq<Task>)
    requires s != [] && Distinct(s)
    ensures s[0] !in s[1..]
  {
    forall k | 0 <= k < |s[1..]| ensures s[1..][k] != s[0] {
      assert s[1..][k] == s[k + 1];
    }
  }

  /** Puts `t` into `s` ahead of the first row that is not newer than `t`. */
  function InsertNewest(t: Task, s: seq<Task>): (r: seq<Task>)
    ensures |r| == |s| + 1
    ensures multiset(r) == multiset(s) + multiset{t}
    ensures forall x :: x in r <==> x in s || x == t
  {
    if s == [] || t.createdAt >= s[0].createdAt then [t] + s
    else
      assert s == [s[0]] + s[1..];
      [s[0]] + InsertNewest(t, s[1..])
  }

  /** Inserting into a newest-first sequence keeps it newest first. */
  lemma {:induction false} InsertNewestSorted(t: Task, s: seq<Task>)
    requires NewestFirst(s)
    ensures NewestFirst(InsertNewest(t, s))
  {
    if s != [] && t.createdAt < s[0].createdAt {
      var rest := InsertNewest(t, s[1..]);
      InsertNewestSorted(t, s[1..]);
      forall x | x in rest ensures s[0].createdAt >= x.createdAt {
        if x in s[1..] {
          var k :| 0 <= k < |s[1..]| && s[1..][k] == x;
          assert s[k + 1] == x;
        }
      }
      var r := [s[0]] + rest;
      assert forall j :: 0 < j < |r| ==> r[j] == rest[j - 1] && r[j] in rest;
    }
  }

  /** Inserting a row that is not yet present keeps the rows distinct. */
  lemma {:induction false} InsertNewestDistinct(t: Task, s: seq<Task>)
    requires Distinct(s) && t !in s
    ensures Distinct(InsertNewest(t, s))
  {
    if s != [] && t.createdAt < s[0].createdAt {
      var rest := InsertNewest(t, s[1..]);
      assert t !in s[1..];
      InsertNewestDistinct(t, s[1..]);
      HeadNotInTail(s);
      var r := [s[0]] + rest;
      assert forall j :: 0 < j < |r| ==> r[j] == rest[j - 1] && r[j] in rest;
    }
  }

  /** `s` ordered newest first (insertion sort), a rearrangement of `s`. */
  function SortNewestFirst(s: seq<Task>): (r: seq<Task>)
    ensures NewestFirst(r)
    ensures |r| == |s|
    ensures multiset(r) == multiset(s)
  {
    if s == [] then []
    else
      assert s == [s[0]] + s[1..];
      var rest := SortNewestFirst(s[1..]);
      InsertNewestSorted(s[0], rest);
      InsertNewest(s[0], rest)
  }

  /** Sorting distinct rows gives distinct rows. */
  lemma {:induction false} SortNewestFirstDistinct(s: seq<Task>)
    requires Distinct(s)
    ensures Distinct(SortNewestFirst(s))
  {
    if s != [] {
      HeadNotInTail(s);
      assert Distinct(s[1..]) by {
        forall i, j | 0 <= i < j < |s[1..]| ensures s[1..][i] != s[1..][j] {
          assert s[1..][i] == s[i + 1] && s[1..][j] == s[j + 1];
        }
      }
      SortNewestFirstDistinct(s[1..]);
      assert s[0] !in multiset(s[1..]);
      assert s[0] !in multiset(SortNewestFirst(s[1..]));
      InsertNewestDistinct(s[0], SortNewestFirst(s[1..]));
    }
  }

  /** The first `limit` elements of `s`: `LIMIT limit`, empty for a limit that is not
      positive. */
  function Take(s: seq<Task>, limit: int): (r: seq<Task>)
    ensures r == [] || |r| <= limit
    ensures |r| <= |s|
    ensures |r| < limit ==> r == s
    ensures r == s[..|r|]
  {
    if limit <= 0 then [] else if limit < |s| then s[..limit] else s
  }

  /** A row left out of a prefix of a newest-first sequence is not newer than any
      row in the prefix. */
  lemma OutsidePrefixIsOlder(s: seq<Task>, n: nat, x: Task)
    requires NewestFirst(s) && n <= |s| && x in s && x !in s[..n]
    ensures forall i :: 0 <= i < n ==> x.createdAt <= s[i].createdAt
  {
    var j :| 0 <= j < |s| && s[j] == x;
    forall j' | 0 <= j' < n ensures s[j'] != x {
      assert s[..n][j'] == s[j'];
    }
  }

  /** The listing query, as `FindIncompleteTasks` computes it, answers what
      `IsNewestIncomplete` allows. */
  lemma ListingIsNewestIncomplete(rows: map<int, Task>, hi: int, limit: int)
    requires Keyed(rows)
    requires forall k :: k in rows ==> 1 <= k < hi
    ensures IsNewestIncomplete(rows, limit, Take(SortNewestFirst(Pending(rows, 1, hi)), limit))
  {
    var all := Pending(rows, 1, hi);
    var sorted := SortNewestFirst(all);
    assert Distinct(all) by {
      forall i, j | 0 <= i < j < |all| ensures all[i] != all[j] {
        assert all[i].id > all[j].id;
      }
    }
    SortNewestFirstDistinct(all);
    SortedRows(rows, all, sorted);
    NewestIncompleteFromSorted(rows, sorted, limit);
  }

  /** A rearrangement of the incomplete rows of `rows` holds exactly those rows. */
  lemma SortedRows(rows: map<int, Task>, all: seq<Task>, sorted: seq<Task>)
    requires IncompleteRowsOf(rows, all) && multiset(sorted) == multiset(all)
    requires forall k :: k in rows && !rows[k].completed ==> rows[k] in all
    ensures IncompleteRowsOf(rows, sorted) && HasAllIncomplete(rows, sorted)
  {
    forall i | 0 <= i < |sorted|
      ensures sorted[i].id in rows && rows[sorted[i].id] == sorted[i] && !sorted[i].completed
    {
      assert sorted[i] in multiset(all);
      var j :| 0 <= j < |all| && all[j] == sorted[i];
    }
    forall k | k in rows && !rows[k].completed ensures rows[k] in sorted {
      assert rows[k] in multiset(sorted);
    }
  }

  /** Cutting a newest-first sequence of all the incomplete rows, each once, to
      `limit` answers what `IsNewestIncomplete` allows. */
  lemma NewestIncompleteFromSorted(rows: map<int, Task>, sorted: seq<Task>, limit: int)
    requires IncompleteRowsOf(rows, sorted) && Distinct(sorted) && NewestFirst(sorted)
    requires HasAllIncomplete(rows, sorted)
    ensures IsNewestIncomplete(rows, limit, Take(sorted, limit))
  {
    var tasks := Take(sorted, limit);
    SelectedRows(rows, sorted, tasks);
    forall k | k in rows && !rows[k].completed && rows[k] !in tasks
      ensures forall i :: 0 <= i < |tasks| ==> rows[k].createdAt <= tasks[i].createdAt
    {
      OutsidePrefixIsOlder(sorted, |tasks|, rows[k]);
    }
  }

  /** A prefix of a newest-first sequence of distinct incomplete rows of `rows`
      consists of distinct incomplete rows of `rows`, newest first. */
  lemma SelectedRows(rows: map<int, Task>, sorted: seq<Task>, tasks: seq<Task>)
    requires IncompleteRowsOf(rows, sorted) && Distinct(sorted) && NewestFirst(sorted)
    requires |tasks| <= |sorted| && tasks == sorted[..|tasks|]
    ensures IncompleteRowsOf(rows, tasks) && DistinctIds(tasks) && NewestFirst(tasks)
  {
    forall i | 0 <= i < |tasks|
      ensures tasks[i].id in rows && rows[tasks[i].id] == tasks[i] && !tasks[i].completed
    {
      assert tasks[i] == sorted[i];
    }
  }

  /** Row `id` of `rows` with `completed` set to true; `rows` itself when there is no
      such row. */
  function MarkedRows(rows: map<int, Task>, id: int): map<int, Task> {
    if id in rows then rows[id := rows[id].(completed := true)] else rows
  }

  /** Marking is idempotent: an already completed row stays as it is. */
  lemma MarkIdempotent(rows: map<int, Task>, id: int)
    ensures MarkedRows(MarkedRows(rows, id), id) == MarkedRows(rows, id)
  {
  }

  /** Marking never deletes a row, never un-completes one and touches no row but
      `id`, of which it keeps every column but `completed`. */
  lemma MarkOnlyCompletes(rows: map<int, Task>, id: int)
    ensures MarkedRows(rows, id).Keys == rows.Keys
    ensures forall k :: k in rows && k != id ==> MarkedRows(rows, id)[k] == rows[k]
    ensures id in rows ==> MarkedRows(rows, id)[id] == rows[id].(completed := true)
    ensures forall k :: k in rows && rows[k].completed ==> MarkedRows(rows, id)[k].completed
  {
  }

  /** The repository and the table behind it. `nextId` is the table's AUTO_INCREMENT
      counter; `clock` is the time of the latest insert, which never goes back. */
  class TaskRepository {
    var rows: map<int, Task>
    var nextId: int
    var clock: int

    /** Keys are the rows' ids, all below the auto-increment counter, which never
        passes the INT range by more than one, and every row fits the table's
        columns. */
    ghost predicate Valid()
      reads this
    {
      && 1 <= nextId <= IdMax + 1
      && Keyed(rows)
      && (forall k :: k in rows ==> 1 <= k < nextId && FitsColumns(rows[k]))
    }

    /** An empty table whose auto-increment starts at 1. */
    constructor ()
      ensures Valid()
      ensures rows == map[] && nextId == 1 && clock == 0
    {
      rows := map[];
      nextId := 1;
      clock := 0;
    }

    /** `findIncompleteTasks(limit = 5)`: the newest incomplete rows; reading changes
        nothing. */
    function FindIncompleteTasks(fault: Option<string>, limit: int := DefaultLimit): (r: Result<seq<Task>>)
      reads this
      requires Valid()
      ensures fault.Some? ==> r == Err(StoreError(fault.value))
      ensures fault.None? ==> r.Ok? && IsNewestIncomplete(rows, limit, r.value)
    {
      if fault.Some? then Err(StoreError(fault.value))
      else
        var tasks := Take(SortNewestFirst(Pending(rows, 1, nextId)), limit);
        ListingIsNewestIncomplete(rows, nextId, limit);
        Ok(tasks)
    }

    /** `findById(id)`: the row with primary key `id`, `None` when there is none. */
    function FindById(id: int, fault: Option<string>): (r: Result<Option<Task>>)
      reads this
      ensures fault.Some? ==> r == Err(StoreError(fault.value))
      ensures fault.None? ==> r.Ok? && (r.value.Some? <==> id in rows)
      ensures fault.None? && id in rows ==> r.value.value == rows[id]
    {
      if fault.Some? then Err(StoreError(fault.value))
      else if id in rows then Ok(Some(rows[id]))
      else Ok(None)
    }

    /** `create(title, description)`: inserts a row with a fresh id, the default
        `completed` and the current time; an absent or empty description is stored
        as null. The table holds the row with excess trailing spaces cut off; the
        answer is the instance built from the values given, as Sequelize returns
        it. */
    method Create(title: string, description: Option<string>, elapsed: nat, fault: Option<string>)
      returns (r: Result<Task>)
      requires Valid()
      modifies this
      ensures Valid()
      ensures fault.Some? ==> r == Err(StoreError(fault.value)) && unchanged(this)
      ensures fault.None? && InsertRejection(old(nextId), title, StoredDescription(description)).Some? ==>
        && r == Err(StoreError(InsertRejection(old(nextId), title, StoredDescription(description)).value))
        && unchanged(this)
      ensures fault.None? && InsertRejection(old(nextId), title, StoredDescription(description)).None? ==>
        && r.Ok?
        && r.value == NewRow(old(nextId), title, StoredDescription(description), old(clock) + elapsed)
        && 1 <= r.value.id <= IdMax
        && r.value.id !in old(rows)
        && (forall k :: k in old(rows) ==> k < r.value.id)
        && rows == old(rows)[r.value.id := Stored(r.value)]
        && nextId == old(nextId) + 1
        && clock == r.value.createdAt >= old(clock)
    {
      if fault.Some? {
        return Err(StoreError(fault.value));
      }
      var rejection := InsertRejection(nextId, title, StoredDescription(description));
      if rejection.Some? {
        return Err(StoreError(rejection.value));
      }
      var now := clock + elapsed;
      var task := NewRow(nextId, title, StoredDescription(description), now);
      rows := rows[task.id := Stored(task)];
      nextId := nextId + 1;
      clock := now;
      r := Ok(task);
    }

    /** `update(task)`: overwrites the row keyed by `task.id` with `task`, excess
        trailing spaces cut off, and answers `task` as given; when there is no such
        row nothing is written. */
    method Update(task: Task, fault: Option<string>) returns (r: Result<Task>)
      requires Valid()
      modifies this`rows
      ensures Valid()
      ensures fault.Some? ==> r == Err(StoreError(fault.value)) && rows == old(rows)
      ensures fault.None? && task.id in old(rows) && !Storable(task.title, task.description) ==>
        r == Err(StoreError(Overflow(task.title, task.description))) && rows == old(rows)
      ensures fault.None? && task.id !in old(rows) ==> r == Ok(task) && rows == old(rows)
      ensures fault.None? && task.id in old(rows) && Storable(task.title, task.description) ==>
        r == Ok(task) && rows == old(rows)[task.id := Stored(task)]
    {
      if fault.Some? {
        return Err(StoreError(fault.value));
      }
      if task.id in rows {
        if !Storable(task.title, task.description) {
          return Err(StoreError(Overflow(task.title, task.description)));
        }
        rows := rows[task.id := Stored(task)];
      }
      r := Ok(task);
    }

    /** `markAsCompleted(id)`: reads row `id`, sets `completed` on the snapshot and
        writes it back. `readFault` and `writeFault` are the outcomes of the two
        database calls. */
    method MarkAsCompleted(id: int, readFault: Option<string>, writeFault: Option<string>)
      returns (r: Result<Option<Task>>)
      requires Valid()
      modifies this`rows
      ensures Valid()
      ensures readFault.Some? ==> r == Err(StoreError(readFault.value)) && rows == old(rows)
      ensures readFault.None? && id !in old(rows) ==> r == Ok(None) && rows == old(rows)
      ensures readFault.None? && id in old(rows) && writeFault.Some? ==>
        r == Err(StoreError(writeFault.value)) && rows == old(rows)
      ensures readFault.None? && id in old(rows) && writeFault.None? ==>
        && r == Ok(Some(old(rows)[id].(completed := true)))
        && rows == MarkedRows(old(rows), id)
    {
      var found := FindById(id, readFault);
      if found.Err? {
        return Err(found.error);
      }
      if found.value.None? {
        return Ok(None);
      }
      var toUpdate := found.value.value.(completed := true);
      var updated := Update(toUpdate, writeFault);
      if updated.Err? {
        return Err(updated.error);
      }
      r := Ok(Some(updated.value));
    }
  }

  /** `description || null`: an absent or empty description is stored as null, any
      other verbatim. */
  function StoredDescription(description: Option<string>): (d: Option<string>)
    ensures d.None? <==> description.None? || description.value == ""
    ensures d.Some? ==> d == description
  {
    if description.Some? && description.value != "" then description else None
  }
}
