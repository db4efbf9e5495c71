/** The calendar page (frontend/src/pages/Calendar.tsx): the grid where the
    signed-in user marks the hours they are available. A click on a cell
    toggles one hour; a click on a date header selects or clears the whole
    day. Both handlers call the backend and then update the page's two local
    lists: the loaded slots and the same slots grouped by user. */
module CalendarPage {
  import opened Outcomes
  import opened Text
  import opened SlotApi
  import opened Overview

  // ---------------------------------------------------------------------
  // Roster and marks
  // ---------------------------------------------------------------------

  /** The five names `USER_COLORS` has a colour for. */
  const Roster: seq<string> := ["Reen", "Kris", "Neeko", "Zela", "Zuju"]

  /** One user's slots, as the page groups them. */
  datatype Availability = Availability(userId: string, userName: string, timeSlots: seq<TimeSlot>)

  /** What a selection in the grid is: a user, a date and a start hour label. */
  datatype Mark = Mark(user: string, date: string, startTime: string)

  function MarkOf(s: TimeSlot): Mark {
    Mark(s.userId, s.date, s.startTime)
  }

  /** The selections a list of slots shows. */
  function Marks(slots: seq<TimeSlot>): set<Mark> {
    set s | s in slots :: MarkOf(s)
  }

  /** No two slots of the list show the same selection. */
  predicate NoDuplicateMarks(slots: seq<TimeSlot>) {
    forall i, j :: 0 <= i < j < |slots| ==> MarkOf(slots[i]) != MarkOf(slots[j])
  }

  /** The slot `timeSlots.find` returns for a cell: the first one of that
      user, date and start time, or none. */
  function FindSlot(slots: seq<TimeSlot>, user: string, date: string, timeStr: string): Option<TimeSlot> {
    if |slots| == 0 then None
    else if Holds(MarkIs(user, date, timeStr), slots[0]) then Some(slots[0])
    else FindSlot(slots[1..], user, date, timeStr)
  }

  /** `find` finds nothing exactly when no slot shows the cell; otherwise
      it finds the first slot that does. */
  lemma {:induction false} FindSlotSpec(slots: seq<TimeSlot>, user: string, date: string, timeStr: string)
    ensures var r := FindSlot(slots, user, date, timeStr);
      && (r.None? <==> forall s :: s in slots ==> !Holds(MarkIs(user, date, timeStr), s))
      && (r.Some? ==> r.value in slots && MarkOf(r.value) == Mark(user, date, timeStr))
      && (r.Some? ==> r.value == Where(slots, MarkIs(user, date, timeStr))[0])
  {
    if |slots| > 0 {
      FindSlotSpec(slots[1..], user, date, timeStr);
      assert slots == [slots[0]] + slots[1..];
    }
  }

  /** `isTimeSlotAvailable(date, hour, userId)`: some loaded slot marks the
      cell for that user. */
  predicate IsTimeSlotAvailable(slots: seq<TimeSlot>, date: string, hour: nat, userId: string) {
    exists s :: s in slots && Holds(MarkIs(userId, date, TimeFormat(hour)), s)
  }

  /** The page's `isEveryoneAvailable(date, hour)`: something is grouped
      and every roster name has the cell. */
  predicate IsEveryoneAvailable(slots: seq<TimeSlot>, availabilities: seq<Availability>, date: string, hour: nat) {
    |availabilities| > 0 && forall u :: u in Roster ==> IsTimeSlotAvailable(slots, date, hour, u)
  }

  /** Whether everyone is available depends on the roster's slots alone:
      slots of users outside the roster never change it. */
  lemma EveryoneAvailableIgnoresOthers(slots: seq<TimeSlot>, extra: seq<TimeSlot>, availabilities: seq<Availability>,
                                       date: string, hour: nat)
    requires forall s :: s in extra ==> s.userId !in Roster
    ensures IsEveryoneAvailable(slots + extra, availabilities, date, hour) == IsEveryoneAvailable(slots, availabilities, date, hour)
  {
    forall u | u in Roster
      ensures IsTimeSlotAvailable(slots + extra, date, hour, u) == IsTimeSlotAvailable(slots, date, hour, u)
    {
      if IsTimeSlotAvailable(slots + extra, date, hour, u) {
        var s :| s in slots + extra && Holds(MarkIs(u, date, TimeFormat(hour)), s);
        assert s in slots;
      }
    }
  }

  /** The roster as a set: five different names. */
  lemma RosterNames()
    ensures (set u | u in Roster) == {"Reen", "Kris", "Neeko", "Zela", "Zuju"}
    ensures |set u | u in Roster| == 5
  {
    var names := {"Reen", "Kris", "Neeko", "Zela", "Zuju"};
    assert (set u | u in Roster) == names;
    assert |{"Reen", "Kris"}| == 2;
    assert |{"Reen", "Kris", "Neeko"}| == 3;
    assert |{"Reen", "Kris", "Neeko", "Zela"}| == 4;
  }

  /** A subset is no larger than its superset. */
  lemma {:induction false} SubsetSize<T>(a: set<T>, b: set<T>)
    requires a <= b
    ensures |a| <= |b|
    decreases |b|
  {
    if a != {} {
      var x :| x in a;
      SubsetSize(a - {x}, b - {x});
    }
  }

  /** When every loaded slot belongs to a roster user and something has been
      grouped, the page's roster rule and the overview's count rule agree. */
  lemma RosterRuleIsCountRule(slots: seq<TimeSlot>, availabilities: seq<Availability>, date: string, hour: nat)
    requires |availabilities| > 0
    requires forall s :: s in slots ==> s.userId in Roster
    ensures IsEveryoneAvailable(slots, availabilities, date, hour) <==> FiveAvailable(slots, date, hour)
  {
    var users := UsersAt(slots, date, hour);
    var roster := set u | u in Roster;
    RosterNames();
    assert users <= roster;
    if IsEveryoneAvailable(slots, availabilities, date, hour) {
      forall u | u in roster
        ensures u in users
      {
        var s :| s in slots && Holds(MarkIs(u, date, TimeFormat(hour)), s);
      }
      assert users == roster;
    } else {
      var u :| u in Roster && !IsTimeSlotAvailable(slots, date, hour, u);
      assert users <= roster - {u};
      SubsetSize(users, roster - {u});
    }
  }

  /** The rules differ once someone outside the roster joins a full cell:
      the roster rule still holds, the count rule sees six users. */
  lemma OutsiderBreaksCountRule(slots: seq<TimeSlot>, availabilities: seq<Availability>, date: string, hour: nat,
                                outsider: TimeSlot)
    requires IsEveryoneAvailable(slots, availabilities, date, hour)
    requires outsider in slots && outsider.userId !in Roster
    requires outsider.date == date && outsider.startTime == TimeFormat(hour)
    ensures !FiveAvailable(slots, date, hour)
  {
    var users := UsersAt(slots, date, hour);
    var roster := set u | u in Roster;
    RosterNames();
    forall u | u in roster + {outsider.userId}
      ensures u in users
    {
      if u in roster {
        var s :| s in slots && Holds(MarkIs(u, date, TimeFormat(hour)), s);
      }
    }
    SubsetSize(roster + {outsider.userId}, users);
  }

  // ---------------------------------------------------------------------
  // Grouping by user
  // ---------------------------------------------------------------------

  /** The slots listed under `user`: those of the first group with that
      key, or none. */
  function SlotsOf(groups: seq<Availability>, user: string): seq<TimeSlot> {
    if |groups| == 0 then []
    else if groups[0].userId == user then groups[0].timeSlots
    else SlotsOf(groups[1..], user)
  }

  function GroupKeys(groups: seq<Availability>): set<string> {
    set a | a in groups :: a.userId
  }

  function UserIds(slots: seq<TimeSlot>): set<string> {
    set s | s in slots :: s.userId
  }

  predicate DistinctKeys(groups: seq<Availability>) {
    forall i, j :: 0 <= i < j < |groups| ==> groups[i].userId != groups[j].userId
  }

  /** Every group is named by its key, as `userName: userId` does. */
  predicate NamedByKey(groups: seq<Availability>) {
    forall a :: a in groups ==> a.userName == a.userId
  }

  /** The names a plain object `{}` already answers for through
      `Object.prototype`. For these `acc[slot.user_id]` is an inherited
      function (or the prototype object itself), so the group-by's test
      for a missing group fails and its `push` throws a `TypeError`. */
  const ObjectPrototypeKeys: set<string> := {
    "constructor", "__proto__", "toString", "toLocaleString", "valueOf", "hasOwnProperty",
    "isPrototypeOf", "propertyIsEnumerable", "__defineGetter__", "__defineSetter__",
    "__lookupGetter__", "__lookupSetter__"
  }

  /** Some slot's user id is one of those names: grouping the slots throws. */
  predicate HasPrototypeKey(slots: seq<TimeSlot>) {
    exists s :: s in slots && s.userId in ObjectPrototypeKeys
  }

  /** One step of the `reduce`: the slot joins the end of its user's group,
      which is opened after the others when the user is new. */
  function AddToGroup(groups: seq<Availability>, s: TimeSlot): seq<Availability> {
    if |groups| == 0 then [Availability(s.userId, s.userId, [s])]
    else if groups[0].userId == s.userId then [groups[0].(timeSlots := groups[0].timeSlots + [s])] + groups[1..]
    else [groups[0]] + AddToGroup(groups[1..], s)
  }

  /** The `reduce` and `Object.entries(...).map` of `loadTimeSlots`: one
      group per user, in the order users first appear. */
  function GroupByUser(slots: seq<TimeSlot>): seq<Availability> {
    if |slots| == 0 then []
    else AddToGroup(GroupByUser(slots[..|slots| - 1]), slots[|slots| - 1])
  }

  /** A group-by step opens a group for the slot's user only when there is
      none, so keys stay distinct and every group stays named by its key. */
  lemma {:induction false} AddToGroupKeys(groups: seq<Availability>, s: TimeSlot)
    ensures GroupKeys(AddToGroup(groups, s)) == GroupKeys(groups) + {s.userId}
    ensures DistinctKeys(groups) ==> DistinctKeys(AddToGroup(groups, s))
    ensures NamedByKey(groups) ==> NamedByKey(AddToGroup(groups, s))
  {
    if |groups| > 0 {
      var r := AddToGroup(groups, s);
      GroupKeysCons(groups);
      GroupKeysCons(r);
      if groups[0].userId != s.userId {
        AddToGroupKeys(groups[1..], s);
        assert r == [groups[0]] + AddToGroup(groups[1..], s);
        if DistinctKeys(groups) {
          HeadKeyNotInTail(groups);
          DistinctKeysCons(groups[0], AddToGroup(groups[1..], s));
        }
      } else if DistinctKeys(groups) {
        AddToHeadGroupDistinct(groups, s);
      }
    }
  }

  /** Appending to the first group keeps the keys as they were. */
  lemma AddToHeadGroupDistinct(groups: seq<Availability>, s: TimeSlot)
    requires |groups| > 0 && groups[0].userId == s.userId && DistinctKeys(groups)
    ensures DistinctKeys(AddToGroup(groups, s))
  {
    var r := AddToGroup(groups, s);
    forall i, j | 0 <= i < j < |r|
      ensures r[i].userId != r[j].userId
    {
      assert r[j] == groups[j];
      if i > 0 {
        assert r[i] == groups[i];
      }
    }
  }

  /** A new first group whose key the rest does not have keeps keys distinct. */
  lemma DistinctKeysCons(a: Availability, rest: seq<Availability>)
    requires DistinctKeys(rest) && a.userId !in GroupKeys(rest)
    ensures DistinctKeys([a] + rest)
  {
    var r := [a] + rest;
    forall i, j | 0 <= i < j < |r|
      ensures r[i].userId != r[j].userId
    {
      assert r[j] == rest[j - 1];
      if i > 0 {
        assert r[i] == rest[i - 1];
      }
    }
  }

  /** Under distinct keys, the first group's key is not among the others. */
  lemma HeadKeyNotInTail(groups: seq<Availability>)
    requires |groups| > 0 && DistinctKeys(groups)
    ensures groups[0].userId !in GroupKeys(groups[1..])
  {
    forall a | a in groups[1..]
      ensures a.userId != groups[0].userId
    {
      var j :| 0 <= j < |groups[1..]| && groups[1..][j] == a;
      assert groups[j + 1] == a;
    }
  }

  /** A group-by step lists the slot last under its user and changes no
      other user's slots. */
  lemma {:induction false} AddToGroupSlots(groups: seq<Availability>, s: TimeSlot, u: string)
    ensures SlotsOf(AddToGroup(groups, s), u) == SlotsOf(groups, u) + (if u == s.userId then [s] else [])
  {
    if |groups| > 0 && groups[0].userId != s.userId {
      AddToGroupSlots(groups[1..], s, u);
    }
  }

  /** Under distinct keys, a group's slots are the ones listed under its key. */
  lemma {:induction false} SlotsOfMember(groups: seq<Availability>, a: Availability)
    requires DistinctKeys(groups) && a in groups
    ensures SlotsOf(groups, a.userId) == a.timeSlots
  {
    if groups[0] != a {
      var j :| 0 < j < |groups| && groups[j] == a;
      assert groups[0].userId != a.userId;
      assert groups[1..][j - 1] == a;
      SlotsOfMember(groups[1..], a);
    }
  }

  /** The grouped view of a slot list: distinct keys, every group named by
      its key, and the slots listed under each user exactly that user's
      slots in list order. */
  ghost predicate InStep(groups: seq<Availability>, slots: seq<TimeSlot>) {
    && DistinctKeys(groups)
    && NamedByKey(groups)
    && forall u :: SlotsOf(groups, u) == Where(slots, UserIs(u))
  }

  /** Grouping opens one group per user who has a slot, each named by its
      key. */
  lemma {:induction false} GroupByUserKeys(slots: seq<TimeSlot>)
    ensures DistinctKeys(GroupByUser(slots)) && NamedByKey(GroupByUser(slots))
    ensures GroupKeys(GroupByUser(slots)) == UserIds(slots)
  {
    if |slots| > 0 {
      var n := |slots|;
      GroupByUserKeys(slots[..n - 1]);
      AddToGroupKeys(GroupByUser(slots[..n - 1]), slots[n - 1]);
      assert slots == slots[..n - 1] + [slots[n - 1]];
      assert UserIds(slots) == UserIds(slots[..n - 1]) + {slots[n - 1].userId};
    }
  }

  /** The slots grouped under a user are that user's slots in list order. */
  lemma {:induction false} GroupByUserSlots(slots: seq<TimeSlot>, u: string)
    ensures SlotsOf(GroupByUser(slots), u) == Where(slots, UserIs(u))
  {
    if |slots| > 0 {
      var n := |slots|;
      GroupByUserSlots(slots[..n - 1], u);
      AddToGroupSlots(GroupByUser(slots[..n - 1]), slots[n - 1], u);
      WhereAppend(slots[..n - 1], [slots[n - 1]], UserIs(u));
      assert slots == slots[..n - 1] + [slots[n - 1]];
    }
  }

  /** Grouping puts every slot in the one group of its user, keeps each
      user's slots in list order, and opens a group only for users who have
      a slot. */
  lemma GroupByUserSpec(slots: seq<TimeSlot>)
    ensures InStep(GroupByUser(slots), slots)
    ensures GroupKeys(GroupByUser(slots)) == UserIds(slots)
    ensures forall a :: a in GroupByUser(slots) ==> a.timeSlots == Where(slots, UserIs(a.userId))
  {
    var g := GroupByUser(slots);
    GroupByUserKeys(slots);
    forall u
      ensures SlotsOf(g, u) == Where(slots, UserIs(u))
    {
      GroupByUserSlots(slots, u);
    }
    forall a | a in g
      ensures a.timeSlots == Where(slots, UserIs(a.userId))
    {
      SlotsOfMember(g, a);
    }
  }

  // ---------------------------------------------------------------------
  // Updating the grouped view
  // ---------------------------------------------------------------------

  /** The `availabilities.map` of a removal: the groups keyed `user` keep
      only their slots that meet `c`. */
  function FilterUserSlots(groups: seq<Availability>, user: string, c: Cond): seq<Availability> {
    if |groups| == 0 then []
    else
      var a := groups[0];
      [if a.userId == user then a.(timeSlots := Where(a.timeSlots, c)) else a] + FilterUserSlots(groups[1..], user, c)
  }

  /** The `availabilities.map` of an addition: the groups keyed `user` get
      the new slots at their end. */
  function AppendToUser(groups: seq<Availability>, user: string, newSlots: seq<TimeSlot>): seq<Availability> {
    if |groups| == 0 then []
    else
      var a := groups[0];
      [if a.userId == user then a.(timeSlots := a.timeSlots + newSlots) else a] + AppendToUser(groups[1..], user, newSlots)
  }

  /** An addition to the grouped view: appended to the user's group when
      `availabilities.find` finds one, otherwise a new group at the end. */
  function AddUserSlots(groups: seq<Availability>, user: string, newSlots: seq<TimeSlot>): seq<Availability> {
    if user in GroupKeys(groups) then AppendToUser(groups, user, newSlots)
    else groups + [Availability(user, user, newSlots)]
  }

  lemma {:induction false} GroupKeysCons(groups: seq<Availability>)
    requires |groups| > 0
    ensures GroupKeys(groups) == {groups[0].userId} + GroupKeys(groups[1..])
  {
    assert groups == [groups[0]] + groups[1..];
  }

  /** A removal filters the user's listed slots, keeps every other user's,
      and keeps the keys and names. */
  lemma {:induction false} FilterUserSlotsSpec(groups: seq<Availability>, user: string, c: Cond, u: string)
    ensures SlotsOf(FilterUserSlots(groups, user, c), u) == if u == user then Where(SlotsOf(groups, u), c) else SlotsOf(groups, u)
    ensures GroupKeys(FilterUserSlots(groups, user, c)) == GroupKeys(groups)
    ensures DistinctKeys(groups) ==> DistinctKeys(FilterUserSlots(groups, user, c))
    ensures NamedByKey(groups) ==> NamedByKey(FilterUserSlots(groups, user, c))
  {
    if |groups| > 0 {
      var r := FilterUserSlots(groups, user, c);
      FilterUserSlotsSpec(groups[1..], user, c, u);
      GroupKeysCons(groups);
      GroupKeysCons(r);
      assert r[1..] == FilterUserSlots(groups[1..], user, c);
      if DistinctKeys(groups) {
        HeadKeyNotInTail(groups);
        DistinctKeysCons(r[0], r[1..]);
        assert r == [r[0]] + r[1..];
      }
    }
  }

  /** Appending to a user's group lists the new slots last under that user
      and keeps every other user's slots, the keys and the names. */
  lemma {:induction false} AppendToUserSpec(groups: seq<Availability>, user: string, newSlots: seq<TimeSlot>, u: string)
    requires user in GroupKeys(groups)
    ensures SlotsOf(AppendToUser(groups, user, newSlots), u) == SlotsOf(groups, u) + (if u == user then newSlots else [])
    ensures GroupKeys(AppendToUser(groups, user, newSlots)) == GroupKeys(groups)
    ensures DistinctKeys(groups) ==> DistinctKeys(AppendToUser(groups, user, newSlots))
    ensures NamedByKey(groups) ==> NamedByKey(AppendToUser(groups, user, newSlots))
  {
    var r := AppendToUser(groups, user, newSlots);
    GroupKeysCons(groups);
    GroupKeysCons(r);
    assert r[1..] == AppendToUser(groups[1..], user, newSlots);
    if groups[0].userId != user {
      AppendToUserSpec(groups[1..], user, newSlots, u);
    } else {
      AppendToUserKeys(groups[1..], user, newSlots, u);
    }
    if DistinctKeys(groups) {
      HeadKeyNotInTail(groups);
      DistinctKeysCons(r[0], r[1..]);
      assert r == [r[0]] + r[1..];
    }
  }

  /** Appending keeps other users' slots and the keys and names of groups,
      whether the user has a group or not. */
  lemma {:induction false} AppendToUserKeys(groups: seq<Availability>, user: string, newSlots: seq<TimeSlot>, u: string)
    ensures u != user ==> SlotsOf(AppendToUser(groups, user, newSlots), u) == SlotsOf(groups, u)
    ensures GroupKeys(AppendToUser(groups, user, newSlots)) == GroupKeys(groups)
    ensures DistinctKeys(groups) ==> DistinctKeys(AppendToUser(groups, user, newSlots))
    ensures NamedByKey(groups) ==> NamedByKey(AppendToUser(groups, user, newSlots))
  {
    if |groups| > 0 {
      var r := AppendToUser(groups, user, newSlots);
      AppendToUserKeys(groups[1..], user, newSlots, u);
      GroupKeysCons(groups);
      GroupKeysCons(r);
      assert r[1..] == AppendToUser(groups[1..], user, newSlots);
      if DistinctKeys(groups) {
        HeadKeyNotInTail(groups);
        DistinctKeysCons(r[0], r[1..]);
        assert r == [r[0]] + r[1..];
      }
    }
  }

  /** Nothing is listed under a user without a group. */
  lemma {:induction false} SlotsOfMissing(groups: seq<Availability>, u: string)
    requires u !in GroupKeys(groups)
    ensures SlotsOf(groups, u) == []
  {
    if |groups| > 0 {
      GroupKeysCons(groups);
      SlotsOfMissing(groups[1..], u);
    }
  }

  /** A group added at the end is found only under its own key. */
  lemma {:induction false} SlotsOfAppend(groups: seq<Availability>, a: Availability, u: string)
    requires a.userId !in GroupKeys(groups)
    ensures SlotsOf(groups + [a], u) == if u == a.userId then a.timeSlots else SlotsOf(groups, u)
  {
    if |groups| > 0 {
      GroupKeysCons(groups);
      assert (groups + [a])[1..] == groups[1..] + [a];
      SlotsOfAppend(groups[1..], a, u);
    }
  }

  /** An addition lists the new slots last under the user, whether or not
      the user had a group, and changes no other user's slots. */
  lemma AddUserSlotsSpec(groups: seq<Availability>, user: string, newSlots: seq<TimeSlot>, u: string)
    ensures SlotsOf(AddUserSlots(groups, user, newSlots), u) == SlotsOf(groups, u) + (if u == user then newSlots else [])
    ensures GroupKeys(AddUserSlots(groups, user, newSlots)) == GroupKeys(groups) + {user}
    ensures DistinctKeys(groups) ==> DistinctKeys(AddUserSlots(groups, user, newSlots))
    ensures NamedByKey(groups) ==> NamedByKey(AddUserSlots(groups, user, newSlots))
  {
    if user in GroupKeys(groups) {
      AppendToUserSpec(groups, user, newSlots, u);
    } else {
      var a := Availability(user, user, newSlots);
      SlotsOfAppend(groups, a, u);
      SlotsOfMissing(groups, user);
      var r := groups + [a];
      assert GroupKeys(r) == GroupKeys(groups) + {user};
      if DistinctKeys(groups) {
        forall i, j | 0 <= i < j < |r|
          ensures r[i].userId != r[j].userId
        {
          if j == |groups| {
            assert r[i] in groups;
          } else {
            assert r[i] == groups[i] && r[j] == groups[j];
          }
        }
      }
    }
  }

  /** A user with slots listed has a group. */
  lemma {:induction false} SlotsOfFound(groups: seq<Availability>, u: string)
    ensures SlotsOf(groups, u) != [] ==> u in GroupKeys(groups)
  {
    if |groups| > 0 {
      GroupKeysCons(groups);
      SlotsOfFound(groups[1..], u);
    }
  }

  /** Removing one slot by id from both lists keeps the grouped view in step,
      when the slot is filtered out of its own user's group. */
  lemma RemoveSlotInStep(groups: seq<Availability>, slots: seq<TimeSlot>, found: TimeSlot)
    requires InStep(groups, slots) && DistinctIds(slots) && found in slots
    ensures found.userId in GroupKeys(groups)
    ensures InStep(FilterUserSlots(groups, found.userId, IdNotIn({found.id})), Where(slots, IdNotIn({found.id})))
  {
    var user := found.userId;
    var c := IdNotIn({found.id});
    assert found in Where(slots, UserIs(user));
    SlotsOfFound(groups, user);
    var g := FilterUserSlots(groups, user, c);
    forall u
      ensures SlotsOf(g, u) == Where(Where(slots, c), UserIs(u))
    {
      FilterUserSlotsSpec(groups, user, c, u);
      WhereCommute(slots, c, UserIs(u));
      if u != user {
        forall t | t in Where(slots, UserIs(u))
          ensures Holds(c, t)
        {
          if t.id == found.id {
            SameIdSameRow(slots, t, found);
          }
        }
        WhereAll(Where(slots, UserIs(u)), c);
      }
    }
    FilterUserSlotsSpec(groups, user, c, user);
  }

  /** Adding slots of one user to the end of the list and to the user's
      group keeps the grouped view in step. */
  lemma AddSlotsInStep(groups: seq<Availability>, slots: seq<TimeSlot>, user: string, newSlots: seq<TimeSlot>)
    requires InStep(groups, slots)
    requires forall s :: s in newSlots ==> s.userId == user
    ensures InStep(AddUserSlots(groups, user, newSlots), slots + newSlots)
  {
    var g := AddUserSlots(groups, user, newSlots);
    forall u
      ensures SlotsOf(g, u) == Where(slots + newSlots, UserIs(u))
    {
      AddUserSlotsSpec(groups, user, newSlots, u);
      WhereAppend(slots, newSlots, UserIs(u));
      if u == user {
        WhereAll(newSlots, UserIs(u));
      } else {
        WhereNone(newSlots, UserIs(u));
      }
    }
    AddUserSlotsSpec(groups, user, newSlots, user);
  }

  /** Clearing a user's day from the list and from the user's group keeps
      the grouped view in step. */
  lemma ClearDayInStep(groups: seq<Availability>, slots: seq<TimeSlot>, user: string, date: string)
    requires InStep(groups, slots)
    ensures InStep(FilterUserSlots(groups, user, DateIsNot(date)), Where(slots, NotUserAndDate(user, date)))
  {
    var g := FilterUserSlots(groups, user, DateIsNot(date));
    var c := NotUserAndDate(user, date);
    forall u
      ensures SlotsOf(g, u) == Where(Where(slots, c), UserIs(u))
    {
      FilterUserSlotsSpec(groups, user, DateIsNot(date), u);
      WhereCommute(slots, c, UserIs(u));
      if u == user {
        WhereSame(Where(slots, UserIs(u)), DateIsNot(date), c);
      } else {
        WhereAll(Where(slots, UserIs(u)), c);
      }
    }
    FilterUserSlotsSpec(groups, user, DateIsNot(date), user);
  }

  // ---------------------------------------------------------------------
  // Toggling one cell
  // ---------------------------------------------------------------------

  /** The slot `handleCellClick` asks the backend to create for an hour:
      it starts at the hour's label and ends at the next hour's. */
  function HourSlot(user: string, date: string, hour: nat): NewTimeSlot {
    NewTimeSlot(user, TimeFormat(hour), TimeFormat(hour + 1), date)
  }

  /** The loaded slots after a successful cell click: the cell's slot is
      filtered out by id when there is one, otherwise the created `row` is
      appended. */
  function ToggleSlots(slots: seq<TimeSlot>, user: string, date: string, hour: nat, row: TimeSlot): seq<TimeSlot> {
    var found := FindSlot(slots, user, date, TimeFormat(hour));
    FindSlotSpec(slots, user, date, TimeFormat(hour));
    if found.Some? then Where(slots, IdNotIn({found.value.id})) else slots + [row]
  }

  /** When the loaded list shows the clicked cell twice, a click deletes only
      the slot `find` returns first, so the cell stays selected: the toggle
      properties below need a list without repeated selections. */
  lemma DuplicateMarkSurvivesToggle(slots: seq<TimeSlot>, user: string, date: string, hour: nat, row: TimeSlot,
                                    s: TimeSlot, t: TimeSlot)
    requires s in slots && t in slots && s.id != t.id
    requires MarkOf(s) == Mark(user, date, TimeFormat(hour)) && MarkOf(t) == MarkOf(s)
    ensures Mark(user, date, TimeFormat(hour)) in Marks(ToggleSlots(slots, user, date, hour, row))
  {
    var found := FindSlot(slots, user, date, TimeFormat(hour));
    FindSlotSpec(slots, user, date, TimeFormat(hour));
    assert Holds(MarkIs(user, date, TimeFormat(hour)), s);
    var keep := if found.value.id == s.id then t else s;
    assert keep in Where(slots, IdNotIn({found.value.id}));
  }

  /** The grouped slots after a successful cell click. */
  function ToggleGroups(groups: seq<Availability>, slots: seq<TimeSlot>, user: string, date: string, hour: nat,
                        row: TimeSlot): seq<Availability> {
    var found := FindSlot(slots, user, date, TimeFormat(hour));
    FindSlotSpec(slots, user, date, TimeFormat(hour));
    if found.None? then AddUserSlots(groups, user, [row])
    else if user in GroupKeys(groups) then FilterUserSlots(groups, user, IdNotIn({found.value.id}))
    else groups
  }

  /** Two slots of a list showing the same selection are the same slot,
      when no selection is shown twice. */
  lemma SameMarkSameRow(slots: seq<TimeSlot>, s: TimeSlot, t: TimeSlot)
    requires NoDuplicateMarks(slots) && s in slots && t in slots && MarkOf(s) == MarkOf(t)
    ensures s == t
  {
    var i :| 0 <= i < |slots| && slots[i] == s;
    var j :| 0 <= j < |slots| && slots[j] == t;
    assert !(i < j) && !(j < i);
  }

  /** Filtering keeps selections shown at most once. */
  lemma {:induction false} WhereKeepsMarksDistinct(slots: seq<TimeSlot>, c: Cond)
    requires NoDuplicateMarks(slots)
    ensures NoDuplicateMarks(Where(slots, c))
  {
    if |slots| > 0 {
      assert NoDuplicateMarks(slots[1..]) by {
        forall i, j | 0 <= i < j < |slots[1..]|
          ensures MarkOf(slots[1..][i]) != MarkOf(slots[1..][j])
        {
          assert slots[1..][i] == slots[i + 1] && slots[1..][j] == slots[j + 1];
        }
      }
      WhereKeepsMarksDistinct(slots[1..], c);
      var rest := Where(slots[1..], c);
      if Holds(c, slots[0]) {
        var r := [slots[0]] + rest;
        forall i, j | 0 <= i < j < |r|
          ensures MarkOf(r[i]) != MarkOf(r[j])
        {
          if i == 0 {
            assert r[j] in slots[1..];
            var k :| 0 <= k < |slots[1..]| && slots[1..][k] == r[j];
            assert slots[k + 1] == r[j];
          } else {
            assert r[i] == rest[i - 1] && r[j] == rest[j - 1];
          }
        }
      }
    }
  }

  /** A cell click flips its cell's selection and leaves every other
      selection as it was. */
  lemma ToggleFlipsMark(slots: seq<TimeSlot>, user: string, date: string, hour: nat, row: TimeSlot)
    requires DistinctIds(slots) && NoDuplicateMarks(slots)
    requires MarkOf(row) == Mark(user, date, TimeFormat(hour))
    ensures var m := Mark(user, date, TimeFormat(hour));
      Marks(ToggleSlots(slots, user, date, hour, row)) == if m in Marks(slots) then Marks(slots) - {m} else Marks(slots) + {m}
  {
    var m := Mark(user, date, TimeFormat(hour));
    var found := FindSlot(slots, user, date, TimeFormat(hour));
    FindSlotSpec(slots, user, date, TimeFormat(hour));
    if m in Marks(slots) {
      var s :| s in slots && MarkOf(s) == m;
      assert Holds(MarkIs(user, date, TimeFormat(hour)), s);
      var f := found.value;
      var r := Where(slots, IdNotIn({f.id}));
      forall x | x in Marks(r)
        ensures x in Marks(slots) - {m}
      {
        var t :| t in r && MarkOf(t) == x;
        if x == m {
          SameMarkSameRow(slots, t, f);
        }
      }
      forall x | x in Marks(slots) - {m}
        ensures x in Marks(r)
      {
        var t :| t in slots && MarkOf(t) == x;
        if t.id == f.id {
          SameIdSameRow(slots, t, f);
        }
        assert t in r;
      }
    } else {
      assert found.None?;
      assert Marks(slots + [row]) == Marks(slots) + {m};
    }
  }

  /** A cell click keeps ids distinct and selections shown once, given a
      fresh id for a created slot. */
  lemma ToggleKeepsListWellFormed(slots: seq<TimeSlot>, user: string, date: string, hour: nat, row: TimeSlot)
    requires DistinctIds(slots) && NoDuplicateMarks(slots)
    requires MarkOf(row) == Mark(user, date, TimeFormat(hour)) && row.id !in Ids(slots)
    ensures DistinctIds(ToggleSlots(slots, user, date, hour, row))
    ensures NoDuplicateMarks(ToggleSlots(slots, user, date, hour, row))
  {
    var found := FindSlot(slots, user, date, TimeFormat(hour));
    FindSlotSpec(slots, user, date, TimeFormat(hour));
    if found.Some? {
      WhereKeepsMarksDistinct(slots, IdNotIn({found.value.id}));
    } else {
      var r := slots + [row];
      forall i, j | 0 <= i < j < |r|
        ensures r[i].id != r[j].id && MarkOf(r[i]) != MarkOf(r[j])
      {
        assert r[i] == slots[i];
        if j == |slots| {
          assert r[i] in slots;
          assert !Holds(MarkIs(user, date, TimeFormat(hour)), r[i]);
        } else {
          assert r[j] == slots[j];
        }
      }
    }
  }

  /** Clicking a cell twice, with every backend call succeeding, shows the
      same selections as before. */
  lemma ToggleTwice(slots: seq<TimeSlot>, user: string, date: string, hour: nat, row1: TimeSlot, row2: TimeSlot)
    requires DistinctIds(slots) && NoDuplicateMarks(slots)
    requires MarkOf(row1) == Mark(user, date, TimeFormat(hour)) && row1.id !in Ids(slots)
    requires MarkOf(row2) == Mark(user, date, TimeFormat(hour))
    requires row2.id !in Ids(ToggleSlots(slots, user, date, hour, row1))
    ensures Marks(ToggleSlots(ToggleSlots(slots, user, date, hour, row1), user, date, hour, row2)) == Marks(slots)
  {
    var once := ToggleSlots(slots, user, date, hour, row1);
    ToggleFlipsMark(slots, user, date, hour, row1);
    ToggleKeepsListWellFormed(slots, user, date, hour, row1);
    ToggleFlipsMark(once, user, date, hour, row2);
  }

  /** A cell click keeps the grouped view in step with the loaded slots. */
  lemma ToggleInStep(groups: seq<Availability>, slots: seq<TimeSlot>, user: string, date: string, hour: nat, row: TimeSlot)
    requires InStep(groups, slots) && DistinctIds(slots) && row.userId == user
    ensures InStep(ToggleGroups(groups, slots, user, date, hour, row), ToggleSlots(slots, user, date, hour, row))
  {
    var found := FindSlot(slots, user, date, TimeFormat(hour));
    FindSlotSpec(slots, user, date, TimeFormat(hour));
    if found.Some? {
      RemoveSlotInStep(groups, slots, found.value);
    } else {
      AddSlotsInStep(groups, slots, user, [row]);
    }
  }

  // ---------------------------------------------------------------------
  // Selecting or clearing a whole day
  // ---------------------------------------------------------------------

  /** `HOURS.every(hour => isTimeSlotAvailable(date, hour, username))`. */
  predicate AllHoursSelected(slots: seq<TimeSlot>, user: string, date: string) {
    forall h :: h in Hours ==> IsTimeSlotAvailable(slots, date, h, user)
  }

  /** The hours of `hours`, in order, whose cell has no slot of the user:
      the ones the fill loop creates a slot for. */
  function MissingHours(slots: seq<TimeSlot>, user: string, date: string, hours: seq<nat>): seq<nat> {
    if |hours| == 0 then []
    else if FindSlot(slots, user, date, TimeFormat(hours[|hours| - 1])).None? then
      MissingHours(slots, user, date, hours[..|hours| - 1]) + [hours[|hours| - 1]]
    else MissingHours(slots, user, date, hours[..|hours| - 1])
  }

  /** The rows the backend stores for the hours `hours` created one after
      another from id number `n` on. */
  function NewRows(n: nat, user: string, date: string, hours: seq<nat>, now: string): seq<TimeSlot> {
    if |hours| == 0 then []
    else
      NewRows(n, user, date, hours[..|hours| - 1], now)
        + [StoredRow(n + |hours| - 1, HourSlot(user, date, hours[|hours| - 1]), now)]
  }

  /** An hour is missing exactly when it is one of the hours and the user
      has no slot in its cell; missing hours keep the order and distinctness
      of the hours. */
  lemma {:induction false} MissingHoursSpec(slots: seq<TimeSlot>, user: string, date: string, hours: seq<nat>)
    ensures forall h :: h in MissingHours(slots, user, date, hours) <==> h in hours && !IsTimeSlotAvailable(slots, date, h, user)
    ensures (forall i, j :: 0 <= i < j < |hours| ==> hours[i] != hours[j]) ==>
      forall i, j :: 0 <= i < j < |MissingHours(slots, user, date, hours)| ==>
        MissingHours(slots, user, date, hours)[i] != MissingHours(slots, user, date, hours)[j]
  {
    if |hours| > 0 {
      var n := |hours|;
      var prefix := hours[..n - 1];
      MissingHoursSpec(slots, user, date, prefix);
      assert hours == prefix + [hours[n - 1]];
      var rest := MissingHours(slots, user, date, prefix);
      var r := MissingHours(slots, user, date, hours);
      forall h
        ensures h in r <==> h in hours && !IsTimeSlotAvailable(slots, date, h, user)
      {
        FindSlotSpec(slots, user, date, TimeFormat(h));
        if h == hours[n - 1] && !IsTimeSlotAvailable(slots, date, h, user) {
          assert FindSlot(slots, user, date, TimeFormat(h)).None?;
        }
      }
      if forall i, j :: 0 <= i < j < |hours| ==> hours[i] != hours[j] {
        assert forall i, j :: 0 <= i < j < |prefix| ==> prefix[i] != prefix[j];
        forall i, j | 0 <= i < j < |r|
          ensures r[i] != r[j]
        {
          if j == |rest| {
            assert r[i] in rest && r[j] == hours[n - 1];
            assert r[i] in prefix;
          } else {
            assert r[i] == rest[i] && r[j] == rest[j];
          }
        }
      }
    }
  }

  /** The `k`-th new row is created for the `k`-th hour with id number
      `n + k`. */
  lemma {:induction false} NewRowsAt(n: nat, user: string, date: string, hours: seq<nat>, now: string, k: nat)
    requires k < |hours|
    ensures |NewRows(n, user, date, hours, now)| == |hours|
    ensures NewRows(n, user, date, hours, now)[k] == StoredRow(n + k, HourSlot(user, date, hours[k]), now)
  {
    NewRowsLength(n, user, date, hours, now);
    if k < |hours| - 1 {
      NewRowsAt(n, user, date, hours[..|hours| - 1], now, k);
    }
  }

  lemma {:induction false} NewRowsLength(n: nat, user: string, date: string, hours: seq<nat>, now: string)
    ensures |NewRows(n, user, date, hours, now)| == |hours|
  {
    if |hours| > 0 {
      NewRowsLength(n, user, date, hours[..|hours| - 1], now);
    }
  }

  /** The hours missing among the first `i` are the first of those missing
      among all. */
  lemma {:induction false} MissingHoursPrefix(slots: seq<TimeSlot>, user: string, date: string, hours: seq<nat>, i: nat)
    requires i <= |hours|
    ensures var all := MissingHours(slots, user, date, hours);
      var some := MissingHours(slots, user, date, hours[..i]);
      |some| <= |all| && all[..|some|] == some
  {
    if i < |hours| {
      var n := |hours|;
      MissingHoursPrefix(slots, user, date, hours[..n - 1], i);
      assert hours[..n - 1][..i] == hours[..i];
    } else {
      assert hours[..i] == hours;
    }
  }

  /** After a successful fill every hour of the day is selected. */
  lemma FillSelectsEveryHour(slots: seq<TimeSlot>, user: string, date: string, n: nat, now: string)
    ensures AllHoursSelected(slots + NewRows(n, user, date, MissingHours(slots, user, date, Hours), now), user, date)
  {
    var missing := MissingHours(slots, user, date, Hours);
    var rows := NewRows(n, user, date, missing, now);
    MissingHoursSpec(slots, user, date, Hours);
    forall h | h in Hours
      ensures IsTimeSlotAvailable(slots + rows, date, h, user)
    {
      if IsTimeSlotAvailable(slots, date, h, user) {
        var s :| s in slots && Holds(MarkIs(user, date, TimeFormat(h)), s);
        assert s in slots + rows;
      } else {
        var k :| 0 <= k < |missing| && missing[k] == h;
        NewRowsAt(n, user, date, missing, now, k);
        assert rows[k] in slots + rows;
      }
    }
  }

  /** The `k`-th new row shows the selection of the `k`-th hour. */
  lemma NewRowMark(n: nat, user: string, date: string, hours: seq<nat>, now: string, k: nat)
    requires k < |hours|
    ensures |NewRows(n, user, date, hours, now)| == |hours|
    ensures MarkOf(NewRows(n, user, date, hours, now)[k]) == Mark(user, date, TimeFormat(hours[k]))
  {
    NewRowsAt(n, user, date, hours, now, k);
  }

  /** Creating slots for distinct hours below 100 whose cells are empty
      shows no selection twice, when the loaded slots did not. */
  lemma {:induction false} NewRowsKeepMarksDistinct(slots: seq<TimeSlot>, user: string, date: string, hours: seq<nat>,
                                                    n: nat, now: string)
    requires NoDuplicateMarks(slots)
    requires forall i, j :: 0 <= i < j < |hours| ==> hours[i] != hours[j]
    requires forall h :: h in hours ==> h < 100 && !IsTimeSlotAvailable(slots, date, h, user)
    ensures NoDuplicateMarks(slots + NewRows(n, user, date, hours, now))
  {
    var rows := NewRows(n, user, date, hours, now);
    var r := slots + rows;
    NewRowsLength(n, user, date, hours, now);
    forall i, j | 0 <= i < j < |r|
      ensures MarkOf(r[i]) != MarkOf(r[j])
    {
      if j >= |slots| {
        var hj := hours[j - |slots|];
        assert hj in hours;
        NewRowMark(n, user, date, hours, now, j - |slots|);
        assert r[j] == rows[j - |slots|];
        if i < |slots| {
          assert r[i] in slots;
          assert !Holds(MarkIs(user, date, TimeFormat(hj)), r[i]);
        } else {
          var hi := hours[i - |slots|];
          assert hi in hours;
          NewRowMark(n, user, date, hours, now, i - |slots|);
          assert r[i] == rows[i - |slots|];
          TimeFormatOrder(hi, hj);
        }
      } else {
        assert r[i] == slots[i] && r[j] == slots[j];
      }
    }
  }

  /** A successful fill shows no selection twice, when the loaded slots did
      not. */
  lemma FillKeepsMarksDistinct(slots: seq<TimeSlot>, user: string, date: string, n: nat, now: string)
    requires NoDuplicateMarks(slots)
    ensures NoDuplicateMarks(slots + NewRows(n, user, date, MissingHours(slots, user, date, Hours), now))
  {
    HoursRange();
    MissingHoursSpec(slots, user, date, Hours);
    NewRowsKeepMarksDistinct(slots, user, date, MissingHours(slots, user, date, Hours), n, now);
  }

  /** After a successful clear no hour of that day is selected for the user,
      and every slot of another user or another date is still loaded. */
  lemma ClearDeselectsDay(slots: seq<TimeSlot>, user: string, date: string)
    ensures forall h :: !IsTimeSlotAvailable(Where(slots, NotUserAndDate(user, date)), date, h, user)
    ensures forall s :: s in slots && (s.userId != user || s.date != date) ==> s in Where(slots, NotUserAndDate(user, date))
  {
    forall h, s | s in Where(slots, NotUserAndDate(user, date))
      ensures !Holds(MarkIs(user, date, TimeFormat(h)), s)
    {
    }
  }

  /** Deleting the user's loaded slots of a day from the backend removes
      those rows and no row of another user or another date. */
  lemma ClearDayStore(rows: seq<TimeSlot>, slots: seq<TimeSlot>, user: string, date: string)
    requires DistinctIds(rows) && forall s :: s in slots ==> s in rows
    ensures var after := DeleteEach(rows, Where(slots, UserAndDate(user, date)));
      && (forall s :: s in rows && (s.userId != user || s.date != date) ==> s in after)
      && (forall s :: s in slots && s.userId == user && s.date == date ==> s !in after)
      && (forall s :: s in after ==> s in rows)
  {
    var gone := Where(slots, UserAndDate(user, date));
    DeleteEachIsWhere(rows, gone);
    forall s | s in rows && (s.userId != user || s.date != date)
      ensures s.id !in Ids(gone)
    {
      forall g | g in gone
        ensures g.id != s.id
      {
        if g.id == s.id {
          SameIdSameRow(rows, g, s);
        }
      }
    }
    forall s | s in slots && s.userId == user && s.date == date
      ensures s.id in Ids(gone)
    {
      assert s in gone;
    }
  }

  // ---------------------------------------------------------------------
  // The component
  // ---------------------------------------------------------------------

  /** `localStorage.getItem('username')` gave nothing usable: no name, or
      the empty one. */
  predicate NoUsername(username: Option<string>) {
    username.None? || username.value == ""
  }

  /** The page's state: the backend it talks to, the loaded slots, the same
      slots grouped by user, and the error message on display. */
  class Calendar {
    const store: TimeSlotTable
    var timeSlots: seq<TimeSlot>
    var availabilities: seq<Availability>
    var error: string

    constructor (store: TimeSlotTable)
      ensures this.store == store && timeSlots == [] && availabilities == [] && error == ""
    {
      this.store := store;
      timeSlots := [];
      availabilities := [];
      error := "";
    }

    /** `loadTimeSlots(dates)`: on success the slots of all dates in date
        order replace the loaded ones and are grouped by user; on failure
        only the error changes. */
    method LoadTimeSlots(dates: seq<string>, replies: seq<Response>)
      modifies this
      ensures var k := FirstErr(replies, |dates|);
        && (k < |dates| ==>
              timeSlots == old(timeSlots) && availabilities == old(availabilities)
              && error == "Failed to load time slots")
        && (k == |dates| && HasPrototypeKey(SlotsOnDates(store.rows, dates)) ==>
              timeSlots == SlotsOnDates(store.rows, dates) && availabilities == old(availabilities)
              && error == "Failed to load time slots")
        && (k == |dates| && !HasPrototypeKey(SlotsOnDates(store.rows, dates)) ==>
              timeSlots == SlotsOnDates(store.rows, dates) && availabilities == GroupByUser(timeSlots)
              && error == old(error))
    {
      var fetched := FetchSlotsOnDates(store, dates, replies);
      if fetched.Failure? {
        error := "Failed to load time slots";
        return;
      }
      timeSlots := fetched.value;
      if HasPrototypeKey(fetched.value) {
        // the reduce throws after the slots were already set
        error := "Failed to load time slots";
        return;
      }
      availabilities := GroupByUser(fetched.value);
    }

    /** `handleCellClick(date, hour)`, with `isDateInPast(date)` given as
        `isPast` and the stored name as `username`: past dates and a missing
        name are refused with a message; otherwise the cell's slot is
        deleted when the user has one, or a slot for the hour is created,
        and both local lists follow. A failed call changes neither list. */
    method HandleCellClick(date: string, hour: nat, isPast: bool, username: Option<string>, now: string, reply: Response)
      requires store.Valid()
      modifies this, store
      ensures store.Valid()
      ensures isPast || NoUsername(username) ==>
        && error == (if isPast then "Cannot modify past dates" else "Please select your name first")
        && timeSlots == old(timeSlots) && availabilities == old(availabilities)
        && store.rows == old(store.rows) && store.nextId == old(store.nextId)
      ensures !isPast && !NoUsername(username) ==>
        var user := username.value;
        var found := FindSlot(old(timeSlots), user, date, TimeFormat(hour));
        var row := StoredRow(old(store.nextId), HourSlot(user, date, hour), now);
        && (reply.Err? ==>
              error == "Failed to update time slot"
              && timeSlots == old(timeSlots) && availabilities == old(availabilities)
              && store.rows == old(store.rows) && store.nextId == old(store.nextId))
        && (reply.Ok? && found.Some? ==>
              store.rows == Where(old(store.rows), IdNotIn({found.value.id})) && store.nextId == old(store.nextId))
        && (reply.Ok? && found.None? ==>
              store.rows == old(store.rows) + [row] && store.nextId == old(store.nextId) + 1)
        && (reply.Ok? ==>
              error == ""
              && timeSlots == ToggleSlots(old(timeSlots), user, date, hour, row)
              && availabilities == ToggleGroups(old(availabilities), old(timeSlots), user, date, hour, row))
    {
      if isPast {
        error := "Cannot modify past dates";
        return;
      }
      if username.None? || username.value == "" {
        error := "Please select your name first";
        return;
      }
      var user := username.value;
      var timeStr := TimeFormat(hour);
      var existingSlot := FindSlot(timeSlots, user, date, timeStr);
      if existingSlot.Some? {
        var deleted := store.DeleteTimeSlot(existingSlot.value.id, reply);
        if deleted.Err? {
          error := "Failed to update time slot";
          return;
        }
        timeSlots := Where(timeSlots, IdNotIn({existingSlot.value.id}));
        if user in GroupKeys(availabilities) {
          availabilities := FilterUserSlots(availabilities, user, IdNotIn({existingSlot.value.id}));
        }
      } else {
        var created := store.CreateTimeSlot(HourSlot(user, date, hour), now, reply);
        if created.Failure? {
          error := "Failed to update time slot";
          return;
        }
        timeSlots := timeSlots + [created.value];
        availabilities := AddUserSlots(availabilities, user, [created.value]);
      }
      error := "";
    }

    /** `handleDateClick(date)`, guarded as a cell click. When every hour of
        the day is selected, the user's loaded slots of that day are deleted
        one by one and leave both lists; otherwise a slot is created for each
        hour without one, in hour order, and the created slots join both
        lists. The first failed call ends the handler with a message and the
        lists unchanged, though the calls before it have taken effect. */
    method HandleDateClick(date: string, isPast: bool, username: Option<string>, now: string, replies: seq<Response>)
      requires store.Valid()
      modifies this, store
      ensures store.Valid()
      ensures isPast || NoUsername(username) ==>
        && error == (if isPast then "Cannot modify past dates" else "Please select your name first")
        && timeSlots == old(timeSlots) && availabilities == old(availabilities)
        && store.rows == old(store.rows) && store.nextId == old(store.nextId)
      ensures !isPast && !NoUsername(username) && AllHoursSelected(old(timeSlots), username.value, date) ==>
        var user := username.value;
        var gone := Where(old(timeSlots), UserAndDate(user, date));
        var k := FirstErr(replies, |gone|);
        && store.rows == DeleteEach(old(store.rows), gone[..k]) && store.nextId == old(store.nextId)
        && (k < |gone| ==>
              error == "Failed to update time slots"
              && timeSlots == old(timeSlots) && availabilities == old(availabilities))
        && (k == |gone| ==>
              error == ""
              && timeSlots == Where(old(timeSlots), NotUserAndDate(user, date))
              && availabilities == FilterUserSlots(old(availabilities), user, DateIsNot(date)))
      ensures !isPast && !NoUsername(username) && !AllHoursSelected(old(timeSlots), username.value, date) ==>
        var user := username.value;
        var missing := MissingHours(old(timeSlots), user, date, Hours);
        var k := FirstErr(replies, |missing|);
        var created := NewRows(old(store.nextId), user, date, missing[..k], now);
        && store.rows == old(store.rows) + created && store.nextId == old(store.nextId) + k
        && (k < |missing| ==>
              error == "Failed to update time slots"
              && timeSlots == old(timeSlots) && availabilities == old(availabilities))
        && (k == |missing| ==>
              error == ""
              && timeSlots == old(timeSlots) + created
              && availabilities == AddUserSlots(old(availabilities), user, created))
    {
      if isPast {
        error := "Cannot modify past dates";
        return;
      }
      if username.None? || username.value == "" {
        error := "Please select your name first";
        return;
      }
      var user := username.value;
      var allTimesSelected := AllHoursSelected(timeSlots, user, date);
      if allTimesSelected {
        var slotsToRemove := Where(timeSlots, UserAndDate(user, date));
        var deleted := store.DeleteInOrder(slotsToRemove, replies);
        if deleted.Err? {
          error := "Failed to update time slots";
          return;
        }
        timeSlots := Where(timeSlots, NotUserAndDate(user, date));
        availabilities := FilterUserSlots(availabilities, user, DateIsNot(date));
      } else {
        var newSlots := FillDay(store, timeSlots, user, date, Hours, now, replies);
        if newSlots.Failure? {
          error := "Failed to update time slots";
          return;
        }
        timeSlots := timeSlots + newSlots.value;
        availabilities := AddUserSlots(availabilities, user, newSlots.value);
      }
      error := "";
    }
  }

  /** The creation loop of `handleDateClick` over `hours`: for each hour
      in order whose cell has no slot of the user in `slots`, one
      `createTimeSlot`; the first failure ends the loop with its error. */
  method FillDay(store: TimeSlotTable, slots: seq<TimeSlot>, user: string, date: string, hours: seq<nat>, now: string,
                 replies: seq<Response>)
    returns (r: Result<seq<TimeSlot>>)
    requires store.Valid()
    modifies store
    ensures store.Valid()
    ensures var missing := MissingHours(slots, user, date, hours);
      var k := FirstErr(replies, |missing|);
      var created := NewRows(old(store.nextId), user, date, missing[..k], now);
      && store.rows == old(store.rows) + created && store.nextId == old(store.nextId) + k
      && (k < |missing| ==> r == Failure(ReplyAt(replies, k).message))
      && (k == |missing| ==> r == Success(created))
  {
    var newSlots: seq<TimeSlot> := [];
    ghost var n := store.nextId;
    ghost var done: seq<nat> := [];
    for i := 0 to |hours|
      invariant store.Valid()
      invariant done == MissingHours(slots, user, date, hours[..i])
      invariant newSlots == NewRows(n, user, date, done, now) && |newSlots| == |done|
      invariant store.rows == old(store.rows) + newSlots && store.nextId == n + |newSlots|
      invariant FirstErr(replies, |newSlots|) == |newSlots|
    {
      var hour := hours[i];
      var timeStr := TimeFormat(hour);
      var existingSlot := FindSlot(slots, user, date, timeStr);
      FillStep(slots, user, date, hours, i, n, now);
      if existingSlot.None? {
        ghost var id := store.nextId;
        var created := store.CreateTimeSlot(HourSlot(user, date, hour), now, ReplyAt(replies, |newSlots|));
        if created.Failure? {
          FillStopsAt(slots, user, date, hours, replies, i, |newSlots|);
          return Failure(created.error);
        }
        FillGrow(n, user, date, done, hour, now, newSlots, id, created.value);
        newSlots := newSlots + [created.value];
        done := done + [hour];
      }
    }
    FillDone(slots, user, date, hours, replies, |newSlots|);
    r := Success(newSlots);
  }

  /** One turn of the fill loop: hour `i` is added to the missing hours,
      and its row to the created ones, exactly when its cell is empty. */
  lemma FillStep(slots: seq<TimeSlot>, user: string, date: string, hours: seq<nat>, i: nat, n: nat, now: string)
    requires i < |hours|
    ensures var before := MissingHours(slots, user, date, hours[..i]);
      var after := MissingHours(slots, user, date, hours[..i + 1]);
      && (FindSlot(slots, user, date, TimeFormat(hours[i])).Some? ==> after == before)
      && (FindSlot(slots, user, date, TimeFormat(hours[i])).None? ==> after == before + [hours[i]])
  {
    assert hours[..i + 1][..i] == hours[..i];
  }

  /** The row created for one more missing hour extends the created rows. */
  lemma FillGrow(n: nat, user: string, date: string, done: seq<nat>, hour: nat, now: string,
                 newSlots: seq<TimeSlot>, id: nat, row: TimeSlot)
    requires newSlots == NewRows(n, user, date, done, now) && |newSlots| == |done|
    requires id == n + |done| && row == StoredRow(id, HourSlot(user, date, hour), now)
    ensures newSlots + [row] == NewRows(n, user, date, done + [hour], now)
    ensures |newSlots + [row]| == |done + [hour]|
  {
    assert (done + [hour])[..|done|] == done;
  }

  /** When the create for the `i`-th hour fails after `j` successful ones,
      that is the first failure among the creates for all missing hours. */
  lemma FillStopsAt(slots: seq<TimeSlot>, user: string, date: string, hours: seq<nat>, replies: seq<Response>, i: nat, j: nat)
    requires i < |hours|
    requires FindSlot(slots, user, date, TimeFormat(hours[i])).None?
    requires j == |MissingHours(slots, user, date, hours[..i])|
    requires FirstErr(replies, j) == j && ReplyAt(replies, j).Err?
    ensures var missing := MissingHours(slots, user, date, hours);
      && j < |missing| && FirstErr(replies, |missing|) == j
      && missing[..j] == MissingHours(slots, user, date, hours[..i])
  {
    var missing := MissingHours(slots, user, date, hours);
    assert hours[..i + 1][..i] == hours[..i];
    var next := MissingHours(slots, user, date, hours[..i + 1]);
    assert next == MissingHours(slots, user, date, hours[..i]) + [hours[i]];
    MissingHoursPrefix(slots, user, date, hours, i + 1);
    assert missing[..j] == next[..j];
    FirstErrUnique(replies, |missing|, j);
  }

  /** When the fill loop ends without a failure, every create succeeded. */
  lemma FillDone(slots: seq<TimeSlot>, user: string, date: string, hours: seq<nat>, replies: seq<Response>, j: nat)
    requires j == |MissingHours(slots, user, date, hours[..|hours|])|
    requires FirstErr(replies, j) == j
    ensures var missing := MissingHours(slots, user, date, hours);
      && j == |missing| && FirstErr(replies, j) == j && missing[..j] == missing
      && hours[..|hours|] == hours
  {
    assert hours[..|hours|] == hours;
  }
}
