/** The `time_slots` table of the hosted backend and the front end's service
    calls on it (frontend/src/services/api.ts): the four CRUD calls and the
    clean-up of past slots, which deletes every slot dated before today one
    row at a time and stops at the first failed delete. */
module SlotApi {
  import opened Outcomes
  import opened Text
  import opened Civil

  /** One hour of availability of one user on one date. */
  datatype TimeSlot = TimeSlot(
    id: string,
    userId: string,
    startTime: string,
    endTime: string,
    date: string,
    createdAt: string)

  /** What a caller passes to `createTimeSlot`: a slot without `id` and
      `created_at`, which the backend fills in. */
  datatype NewTimeSlot = NewTimeSlot(userId: string, startTime: string, endTime: string, date: string)

  /** A partial slot for `updateTimeSlot`: the fields to overwrite. */
  datatype SlotPatch = SlotPatch(
    userId: Option<string>,
    startTime: Option<string>,
    endTime: Option<string>,
    date: Option<string>,
    createdAt: Option<string>)

  /** The backend's error when `.single()` finds no row. */
  const NoRowError: string := "JSON object requested, multiple (or no) rows returned"

  // ---------------------------------------------------------------------
  // Row conditions and filtering
  // ---------------------------------------------------------------------

  /** The conditions slots are filtered by: in queries sent to the backend
      (`.eq('date', d)`, `.lt('date', t)`, `.eq('id', id)`) and in the
      components' `Array.filter` calls on loaded slots. */
  datatype Cond =
    | DateIs(date: string)
    | DateIsNot(date: string)
    | DateBefore(bound: string)
    | DateNotBefore(bound: string)
    | IdNotIn(ids: set<string>)
    | UserIs(user: string)
    | UserAndDate(user: string, date: string)
    | NotUserAndDate(user: string, date: string)
    | MarkIs(user: string, date: string, startTime: string)

  predicate Holds(c: Cond, s: TimeSlot) {
    match c
    case DateIs(d) => s.date == d
    case DateIsNot(d) => s.date != d
    case DateBefore(t) => LexLess(s.date, t)
    case DateNotBefore(t) => !LexLess(s.date, t)
    case IdNotIn(ids) => s.id !in ids
    case UserIs(u) => s.userId == u
    case UserAndDate(u, d) => s.userId == u && s.date == d
    case NotUserAndDate(u, d) => !(s.userId == u && s.date == d)
    case MarkIs(u, d, t) => s.userId == u && s.date == d && s.startTime == t
  }

  predicate DistinctIds(rows: seq<TimeSlot>) {
    forall i, j :: 0 <= i < j < |rows| ==> rows[i].id != rows[j].id
  }

  function Ids(rows: seq<TimeSlot>): set<string> {
    set s | s in rows :: s.id
  }

  /** The rows that satisfy `c`, in their original order. */
  function Where(rows: seq<TimeSlot>, c: Cond): (r: seq<TimeSlot>)
    ensures |r| <= |rows|
    ensures forall s :: s in r <==> s in rows && Holds(c, s)
    ensures DistinctIds(rows) ==> DistinctIds(r)
  {
    if |rows| == 0 then []
    else
      var rest := Where(rows[1..], c);
      if Holds(c, rows[0]) then
        DistinctIdsCons(rows, rest);
        [rows[0]] + rest
      else rest
  }

  /** Putting back the first row of a table in front of some of its other
      rows keeps ids distinct. */
  lemma DistinctIdsCons(rows: seq<TimeSlot>, rest: seq<TimeSlot>)
    requires |rows| > 0 && forall s :: s in rest ==> s in rows[1..]
    requires DistinctIds(rows) ==> DistinctIds(rest)
    ensures DistinctIds(rows) ==> DistinctIds([rows[0]] + rest)
  {
    if DistinctIds(rows) {
      forall s | s in rest
        ensures s.id != rows[0].id
      {
        var j :| 0 <= j < |rows[1..]| && rows[1..][j] == s;
        assert rows[j + 1] == s;
      }
      var r := [rows[0]] + rest;
      forall i, j | 0 <= i < j < |r|
        ensures r[i].id != r[j].id
      {
        if i == 0 {
          assert r[j] in rest;
        } else {
          assert r[i] == rest[i - 1] && r[j] == rest[j - 1];
        }
      }
    }
  }

  lemma {:induction false} WhereAppend(a: seq<TimeSlot>, b: seq<TimeSlot>, c: Cond)
    ensures Where(a + b, c) == Where(a, c) + Where(b, c)
  {
    if |a| > 0 {
      assert (a + b)[1..] == a[1..] + b;
      WhereAppend(a[1..], b, c);
    } else {
      assert a + b == b;
    }
  }

  /** Filtering by a condition every row meets keeps the sequence. */
  lemma {:induction false} WhereAll(rows: seq<TimeSlot>, c: Cond)
    requires forall s :: s in rows ==> Holds(c, s)
    ensures Where(rows, c) == rows
  {
    if |rows| > 0 {
      WhereAll(rows[1..], c);
    }
  }

  /** Filtering by a condition no row meets leaves nothing. */
  lemma {:induction false} WhereNone(rows: seq<TimeSlot>, c: Cond)
    requires forall s :: s in rows ==> !Holds(c, s)
    ensures Where(rows, c) == []
  {
    if |rows| > 0 {
      WhereNone(rows[1..], c);
    }
  }

  /** Conditions that agree on every row select the same rows. */
  lemma {:induction false} WhereSame(rows: seq<TimeSlot>, c: Cond, d: Cond)
    requires forall s :: s in rows ==> (Holds(c, s) <==> Holds(d, s))
    ensures Where(rows, c) == Where(rows, d)
  {
    if |rows| > 0 {
      WhereSame(rows[1..], c, d);
    }
  }

  /** Two filters can be applied in either order. */
  lemma {:induction false} WhereCommute(rows: seq<TimeSlot>, c: Cond, d: Cond)
    ensures Where(Where(rows, c), d) == Where(Where(rows, d), c)
  {
    if |rows| > 0 {
      WhereCommute(rows[1..], c, d);
    }
  }

  /** Removing two sets of ids one after the other removes their union. */
  lemma {:induction false} WhereIdNotInTwice(rows: seq<TimeSlot>, a: set<string>, b: set<string>)
    ensures Where(Where(rows, IdNotIn(a)), IdNotIn(b)) == Where(rows, IdNotIn(a + b))
  {
    if |rows| > 0 {
      WhereIdNotInTwice(rows[1..], a, b);
    }
  }

  /** In a table with distinct ids, an id names one row. */
  lemma SameIdSameRow(rows: seq<TimeSlot>, s: TimeSlot, t: TimeSlot)
    requires DistinctIds(rows) && s in rows && t in rows && s.id == t.id
    ensures s == t
  {
    var i :| 0 <= i < |rows| && rows[i] == s;
    var j :| 0 <= j < |rows| && rows[j] == t;
    assert !(i < j) && !(j < i);
  }

  /** The row a successful `createTimeSlot` stores under id number `n`. */
  function StoredRow(n: nat, slot: NewTimeSlot, now: string): TimeSlot {
    TimeSlot(NatToString(n), slot.userId, slot.startTime, slot.endTime, slot.date, now)
  }

  /** The id of a stored row is the decimal numeral of its id number, so ids
      of different numbers differ. */
  lemma StoredRowId(n: nat, slot: NewTimeSlot, now: string)
    ensures AllDigits(StoredRow(n, slot, now).id) && ParseNat(StoredRow(n, slot, now).id) == n
  {
    ParseNatToString(n);
  }

  /** A slot with the patch's fields written over it; the id stays. */
  function Patched(s: TimeSlot, p: SlotPatch): (r: TimeSlot)
    ensures r.id == s.id
  {
    TimeSlot(
      s.id,
      if p.userId.Some? then p.userId.value else s.userId,
      if p.startTime.Some? then p.startTime.value else s.startTime,
      if p.endTime.Some? then p.endTime.value else s.endTime,
      if p.date.Some? then p.date.value else s.date,
      if p.createdAt.Some? then p.createdAt.value else s.createdAt)
  }

  /** Position of the row with id `id`, or `|rows|` when there is none. */
  function IndexOfId(rows: seq<TimeSlot>, id: string): (k: nat)
    ensures k <= |rows|
    ensures k < |rows| ==> rows[k].id == id
    ensures forall j :: 0 <= j < k ==> rows[j].id != id
  {
    if |rows| == 0 || rows[0].id == id then 0 else 1 + IndexOfId(rows[1..], id)
  }

  // ---------------------------------------------------------------------
  // The table
  // ---------------------------------------------------------------------

  /** The `time_slots` table: its rows in table order, and the counter the
      backend draws fresh ids from. Queries return rows in table order. */
  class TimeSlotTable {
    var rows: seq<TimeSlot>
    var nextId: nat

    /** Ids are distinct decimal numbers below the counter, so the next one
        is fresh. */
    ghost predicate Valid()
      reads this
    {
      && DistinctIds(rows)
      && forall s :: s in rows ==> AllDigits(s.id) && ParseNat(s.id) < nextId
    }

    constructor ()
      ensures Valid() && rows == [] && nextId == 0
    {
      rows := [];
      nextId := 0;
    }

    /** `getTimeSlots(date)`: the rows dated `date` (`[]` when none), or the
        backend's error. */
    method GetTimeSlots(date: string, reply: Response) returns (r: Result<seq<TimeSlot>>)
      ensures reply.Err? ==> r == Failure(reply.message)
      ensures reply.Ok? ==> r == Success(Where(rows, DateIs(date)))
    {
      if reply.Err? {
        return Failure(reply.message);
      }
      r := Success(Where(rows, DateIs(date)));
    }

    /** The query `cleanupPastTimeSlots` sends: `.lt('date', todayStr)`. */
    method GetPastTimeSlots(todayStr: string, reply: Response) returns (r: Result<seq<TimeSlot>>)
      ensures reply.Err? ==> r == Failure(reply.message)
      ensures reply.Ok? ==> r == Success(Where(rows, DateBefore(todayStr)))
    {
      if reply.Err? {
        return Failure(reply.message);
      }
      r := Success(Where(rows, DateBefore(todayStr)));
    }

    /** `createTimeSlot(slot)`: appends exactly one row carrying the given
        fields, a fresh id and the creation time, and returns it. */
    method CreateTimeSlot(slot: NewTimeSlot, now: string, reply: Response) returns (r: Result<TimeSlot>)
      requires Valid()
      modifies this
      ensures Valid()
      ensures reply.Err? ==> r == Failure(reply.message) && rows == old(rows) && nextId == old(nextId)
      ensures reply.Ok? ==> r == Success(StoredRow(old(nextId), slot, now))
      ensures reply.Ok? ==> rows == old(rows) + [r.value] && nextId == old(nextId) + 1
      ensures reply.Ok? ==> r.value.id !in Ids(old(rows))
    {
      if reply.Err? {
        return Failure(reply.message);
      }
      var row := StoredRow(nextId, slot, now);
      StoredRowId(nextId, slot, now);
      assert row.id !in Ids(rows);
      rows := rows + [row];
      nextId := nextId + 1;
      r := Success(row);
    }

    /** `updateTimeSlot(id, patch)`: overwrites the patched fields of the row
        with that id and returns it; `.single()` fails when there is none. */
    method UpdateTimeSlot(id: string, patch: SlotPatch, reply: Response) returns (r: Result<TimeSlot>)
      requires Valid()
      modifies this
      ensures Valid() && nextId == old(nextId)
      ensures reply.Err? ==> r == Failure(reply.message) && rows == old(rows)
      ensures reply.Ok? && id !in Ids(old(rows)) ==> r == Failure(NoRowError) && rows == old(rows)
      ensures reply.Ok? && id in Ids(old(rows)) ==>
        var k := IndexOfId(old(rows), id);
        && rows == old(rows)[k := Patched(old(rows)[k], patch)]
        && r == Success(rows[k])
    {
      if reply.Err? {
        return Failure(reply.message);
      }
      var k := IndexOfId(rows, id);
      if k == |rows| {
        return Failure(NoRowError);
      }
      var row := Patched(rows[k], patch);
      rows := rows[k := row];
      r := Success(row);
    }

    /** `deleteTimeSlot(id)`: removes the row with that id, and only it;
        an id that matches nothing is not an error. */
    method DeleteTimeSlot(id: string, reply: Response) returns (r: Response)
      requires Valid()
      modifies this
      ensures Valid() && nextId == old(nextId)
      ensures r == reply
      ensures reply.Err? ==> rows == old(rows)
      ensures reply.Ok? ==> rows == Where(old(rows), IdNotIn({id}))
    {
      r := reply;
      if reply.Ok? {
        rows := Where(rows, IdNotIn({id}));
      }
    }

    /** `cleanupPastTimeSlots()` with today's date given as `todayStr`: one
        query for the slots dated before it, then one delete per slot in the
        order the query returned them, stopping at the first error. */
    method CleanupPastTimeSlots(todayStr: string, queryReply: Response, deleteReplies: seq<Response>)
      returns (r: Response)
      requires Valid()
      modifies this
      ensures Valid() && nextId == old(nextId)
      ensures (r, rows) == CleanupEffect(old(rows), todayStr, queryReply, deleteReplies)
    {
      var fetched := GetPastTimeSlots(todayStr, queryReply);
      if fetched.Failure? {
        return Err(fetched.error);
      }
      var pastSlots := fetched.value;
      r := DeleteInOrder(pastSlots, deleteReplies);
      CleanupEffectAt(old(rows), todayStr, queryReply, deleteReplies, FirstErr(deleteReplies, |pastSlots|));
    }

    /** The delete loop of `cleanupPastTimeSlots`: deletes the given slots by
        id in order, stopping at the first failed delete, whose error it
        returns. */
    method DeleteInOrder(slots: seq<TimeSlot>, replies: seq<Response>) returns (r: Response)
      requires Valid()
      modifies this
      ensures Valid() && nextId == old(nextId)
      ensures var k := FirstErr(replies, |slots|);
        && r == (if k < |slots| then ReplyAt(replies, k) else Ok)
        && rows == DeleteEach(old(rows), slots[..k])
    {
      for i := 0 to |slots|
        invariant Valid() && nextId == old(nextId)
        invariant FirstErr(replies, i) == i
        invariant rows == DeleteEach(old(rows), slots[..i])
      {
        var deleted := DeleteTimeSlot(slots[i].id, ReplyAt(replies, i));
        if deleted.Err? {
          FirstErrUnique(replies, |slots|, i);
          return deleted;
        }
        assert slots[..i + 1][..i] == slots[..i];
      }
      FirstErrUnique(replies, |slots|, |slots|);
      assert slots[..|slots|] == slots;
      r := Ok;
    }
  }

  // ---------------------------------------------------------------------
  // What clean-up does
  // ---------------------------------------------------------------------

  /** The outcome and the table after `cleanupPastTimeSlots`: a failed query
      changes nothing; otherwise the past slots are deleted in query order
      up to the first failed delete, whose error is the outcome. */
  function CleanupEffect(rows: seq<TimeSlot>, todayStr: string, queryReply: Response, deleteReplies: seq<Response>)
    : (Response, seq<TimeSlot>)
  {
    if queryReply.Err? then (Err(queryReply.message), rows)
    else
      var past := Where(rows, DateBefore(todayStr));
      var k := FirstErr(deleteReplies, |past|);
      (if k < |past| then ReplyAt(deleteReplies, k) else Ok, DeleteEach(rows, past[..k]))
  }

  /** The table after deleting the given slots by id, one after another, as
      `deleteTimeSlot` does. */
  function DeleteEach(rows: seq<TimeSlot>, slots: seq<TimeSlot>): seq<TimeSlot>
  {
    if |slots| == 0 then rows
    else Where(DeleteEach(rows, slots[..|slots| - 1]), IdNotIn({slots[|slots| - 1].id}))
  }

  /** Deleting slots one at a time removes exactly the rows with their ids. */
  lemma {:induction false} DeleteEachIsWhere(rows: seq<TimeSlot>, slots: seq<TimeSlot>)
    ensures DeleteEach(rows, slots) == Where(rows, IdNotIn(Ids(slots)))
  {
    IdsPrefixStep(slots, |slots|);
    if |slots| == 0 {
      WhereAll(rows, IdNotIn({}));
    } else {
      var n := |slots|;
      DeleteEachIsWhere(rows, slots[..n - 1]);
      WhereIdNotInTwice(rows, Ids(slots[..n - 1]), {slots[n - 1].id});
      IdsPrefixStep(slots, n);
    }
  }

  /** The ids of a prefix grow by one id per row. */
  lemma IdsPrefixStep(xs: seq<TimeSlot>, i: nat)
    requires i <= |xs|
    ensures i == 0 ==> Ids(xs[..i]) == {}
    ensures i > 0 ==> Ids(xs[..i]) == Ids(xs[..i - 1]) + {xs[i - 1].id}
    ensures i == |xs| ==> xs[..i] == xs
  {
    if i > 0 {
      assert xs[..i] == xs[..i - 1] + [xs[i - 1]];
    }
  }

  /** The effect of a clean-up whose deletes first fail at `k` (or never, when
      `k` is the number of past slots). */
  lemma CleanupEffectAt(rows: seq<TimeSlot>, todayStr: string, queryReply: Response, deleteReplies: seq<Response>, k: nat)
    requires queryReply.Ok?
    requires k <= |Where(rows, DateBefore(todayStr))|
    requires forall j :: 0 <= j < k ==> ReplyAt(deleteReplies, j).Ok?
    requires k < |Where(rows, DateBefore(todayStr))| ==> ReplyAt(deleteReplies, k).Err?
    ensures var past := Where(rows, DateBefore(todayStr));
      CleanupEffect(rows, todayStr, queryReply, deleteReplies)
        == (if k < |past| then ReplyAt(deleteReplies, k) else Ok, DeleteEach(rows, past[..k]))
  {
    FirstErrUnique(deleteReplies, |Where(rows, DateBefore(todayStr))|, k);
  }

  /** Clean-up never deletes a slot dated today or later, whatever fails. */
  lemma CleanupKeepsCurrentSlots(rows: seq<TimeSlot>, todayStr: string, queryReply: Response, deleteReplies: seq<Response>)
    requires DistinctIds(rows)
    ensures forall s :: s in rows && !LexLess(s.date, todayStr) ==>
      s in CleanupEffect(rows, todayStr, queryReply, deleteReplies).1
  {
    if queryReply.Ok? {
      var past := Where(rows, DateBefore(todayStr));
      var k := FirstErr(deleteReplies, |past|);
      DeleteEachIsWhere(rows, past[..k]);
      forall s | s in rows && !LexLess(s.date, todayStr)
        ensures s.id !in Ids(past[..k])
      {
        if s.id in Ids(past[..k]) {
          var p :| p in past[..k] && p.id == s.id;
          SameIdSameRow(rows, p, s);
        }
      }
    }
  }

  /** When clean-up succeeds, exactly the slots dated today or later remain. */
  lemma CleanupSuccessLeavesNoPastSlot(rows: seq<TimeSlot>, todayStr: string, queryReply: Response, deleteReplies: seq<Response>)
    requires DistinctIds(rows)
    requires CleanupEffect(rows, todayStr, queryReply, deleteReplies).0 == Ok
    ensures forall s ::
      s in CleanupEffect(rows, todayStr, queryReply, deleteReplies).1 <==> s in rows && !LexLess(s.date, todayStr)
  {
    CleanupKeepsCurrentSlots(rows, todayStr, queryReply, deleteReplies);
    var past := Where(rows, DateBefore(todayStr));
    assert past[..|past|] == past;
    DeleteEachIsWhere(rows, past);
    forall s | s in rows && LexLess(s.date, todayStr)
      ensures s.id in Ids(past)
    {
      assert s in past;
    }
  }

  /** A failed query makes clean-up throw that error with the table unchanged. */
  lemma CleanupQueryFailure(rows: seq<TimeSlot>, todayStr: string, queryReply: Response, deleteReplies: seq<Response>)
    requires queryReply.Err?
    ensures CleanupEffect(rows, todayStr, queryReply, deleteReplies) == (Err(queryReply.message), rows)
  {
  }

  /** A failed delete ends clean-up with that error: the past slots before
      it in query order are gone, it and every later one remain. */
  lemma CleanupStopsAtFirstError(rows: seq<TimeSlot>, todayStr: string, queryReply: Response, deleteReplies: seq<Response>)
    requires DistinctIds(rows) && queryReply.Ok?
    requires FirstErr(deleteReplies, |Where(rows, DateBefore(todayStr))|) < |Where(rows, DateBefore(todayStr))|
    ensures var past := Where(rows, DateBefore(todayStr));
      var k := FirstErr(deleteReplies, |past|);
      var (r, after) := CleanupEffect(rows, todayStr, queryReply, deleteReplies);
      && r == ReplyAt(deleteReplies, k) && r.Err?
      && (forall j :: 0 <= j < k ==> past[j] !in after)
      && (forall j :: k <= j < |past| ==> past[j] in after)
  {
    var past := Where(rows, DateBefore(todayStr));
    var k := FirstErr(deleteReplies, |past|);
    DeleteEachIsWhere(rows, past[..k]);
    forall j | k <= j < |past|
      ensures past[j].id !in Ids(past[..k])
    {
    }
    forall j | 0 <= j < k
      ensures past[j].id in Ids(past[..k])
    {
      assert past[..k][j] == past[j];
    }
  }

  /** With no past slots, clean-up succeeds and changes nothing. */
  lemma CleanupWithoutPastSlots(rows: seq<TimeSlot>, todayStr: string, deleteReplies: seq<Response>)
    requires forall s :: s in rows ==> !LexLess(s.date, todayStr)
    ensures CleanupEffect(rows, todayStr, Ok, deleteReplies) == (Ok, rows)
  {
    WhereNone(rows, DateBefore(todayStr));
  }

  /** Running clean-up again after a successful run, on the same day, finds
      nothing and changes nothing. */
  lemma CleanupIdempotent(rows: seq<TimeSlot>, todayStr: string, queryReply: Response, deleteReplies: seq<Response>,
                          replies2: seq<Response>)
    requires DistinctIds(rows)
    requires CleanupEffect(rows, todayStr, queryReply, deleteReplies).0 == Ok
    ensures var after := CleanupEffect(rows, todayStr, queryReply, deleteReplies).1;
      CleanupEffect(after, todayStr, Ok, replies2) == (Ok, after)
  {
    CleanupSuccessLeavesNoPastSlot(rows, todayStr, queryReply, deleteReplies);
    CleanupWithoutPastSlots(CleanupEffect(rows, todayStr, queryReply, deleteReplies).1, todayStr, replies2);
  }

  // ---------------------------------------------------------------------
  // Today's date string
  // ---------------------------------------------------------------------

  /** The `todayStr` expression: an `en-GB` date `DD/MM/YYYY` put through
      `.split('/').reverse().join('-')`. */
  function TodayString(localeDate: string): string {
    Join(Reverse(Split(localeDate, '/')), "-")
  }

  /** The reorder keeps each component and reverses their order. */
  lemma TodayStringReorders(dd: string, mm: string, yyyy: string)
    requires '/' !in dd && '/' !in mm && '/' !in yyyy
    ensures TodayString(dd + "/" + mm + "/" + yyyy) == yyyy + "-" + mm + "-" + dd
  {
    assert dd + "/" + mm + "/" + yyyy == dd + ['/'] + (mm + ['/'] + yyyy);
    SplitAtFirst(dd, mm + ['/'] + yyyy, '/');
    SplitAtFirst(mm, yyyy, '/');
    SplitNoSeparator(yyyy, '/');
    var parts := [dd, mm, yyyy];
    assert Split(dd + "/" + mm + "/" + yyyy, '/') == parts;
    assert Reverse(parts) == [yyyy, mm, dd];
    assert [yyyy, mm, dd][1..] == [mm, dd] && [mm, dd][1..] == [dd];
    assert Join([mm, dd], "-") == mm + "-" + dd;
    assert Join([yyyy, mm, dd], "-") == yyyy + "-" + (mm + "-" + dd);
  }

  /** For a four-digit year, the reordered `en-GB` rendering of a date is the
      same YYYY-MM-DD string the week grid uses for it. */
  lemma TodayStringOfDate(d: Date)
    requires ValidDate(d) && 1000 <= d.year <= 9999
    ensures TodayString(FixedDigits(d.day, 2) + "/" + FixedDigits(d.month, 2) + "/" + FixedDigits(d.year, 4))
      == FormatDate(d)
  {
    FormatDateShape(d);
    var dd, mm, yyyy := FixedDigits(d.day, 2), FixedDigits(d.month, 2), FixedDigits(d.year, 4);
    forall s | s in [dd, mm, yyyy] ensures '/' !in s {
      assert AllDigits(s);
    }
    TodayStringReorders(dd, mm, yyyy);
  }
}
