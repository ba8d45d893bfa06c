/** The `scheduled_games` table and the CRUD operations over it.

    A row is one session of a catalogue game. Times are whole minutes: `datetime`
    counts minutes from an epoch, `date` is the day number and `time` the minute
    of the day. The comma-joined `player_ids` / `player_nicknames` columns and the
    `GameTree` column are text; the empty string stands for SQL NULL, which the
    source treats like an empty text everywhere it tests them. */
module ScheduledGames {
  import opened Wrappers
  import opened Text
  import Sorting

  const MinutesPerDay: int := 1440
  const MinutesPerWeek: int := 7 * 1440
  /** A room counts as taken by a session until nine hours after its start. */
  const RoomHold: int := 9 * 60
  /** Rooms are numbered 1..20. */
  const RoomCount: int := 20
  /** Weekly copies are only made for starts less than 21 days ahead. */
  const HorizonDays: int := 21

  datatype ScheduledGame = ScheduledGame(
    id: int,
    gameId: int,
    date: int,
    time: int,
    datetime: int,
    initiatorId: int,
    initiatorName: string,
    useSteam: bool,
    serverData: Option<string>,
    serverPassword: Option<string>,
    discordTelegramLink: Option<string>,
    playerIds: string,
    playerNicknames: string,
    room: Option<int>,
    repweekly: bool,
    pgid: Option<int>,
    gameTree: string,
    skipped: bool
  )

  // ---------------------------------------------------------------------------
  // Table invariant

  /** A row's id is positive and its date and time are the parts of its datetime. */
  predicate WellFormed(g: ScheduledGame)
  {
    g.id >= 1 && g.date == g.datetime / MinutesPerDay && g.time == g.datetime % MinutesPerDay
  }

  /** Rows are kept in insertion order, which is increasing id order. */
  predicate IdsIncreasing(rows: seq<ScheduledGame>)
  {
    forall i, j :: 0 <= i < j < |rows| ==> rows[i].id < rows[j].id
  }

  predicate TableInvariant(rows: seq<ScheduledGame>)
  {
    IdsIncreasing(rows) && forall i :: 0 <= i < |rows| ==> WellFormed(rows[i])
  }

  function MaxId(rows: seq<ScheduledGame>): (m: int)
    ensures m >= 0
    ensures forall i :: 0 <= i < |rows| ==> rows[i].id <= m
    ensures m == 0 || exists i :: 0 <= i < |rows| && rows[i].id == m
  {
    if rows == [] then 0
    else
      var m := MaxId(rows[..|rows| - 1]);
      var last := rows[|rows| - 1].id;
      if last > m then last else m
  }

  /** The id the database gives the next inserted row: one more than the
      largest id present, 1 in an empty table. */
  function NextId(rows: seq<ScheduledGame>): (id: int)
    ensures id >= 1
    ensures forall i :: 0 <= i < |rows| ==> rows[i].id < id
  {
    MaxId(rows) + 1
  }

  /** `a` and `b` agree on every column except GameTree. */
  predicate SameButTree(a: ScheduledGame, b: ScheduledGame)
  {
    a.(gameTree := "") == b.(gameTree := "")
  }

  /** `after` keeps every row of `before` in place, up to GameTree, and may have more rows. */
  predicate Extends(after: seq<ScheduledGame>, before: seq<ScheduledGame>)
  {
    |after| >= |before| && forall i :: 0 <= i < |before| ==> SameButTree(after[i], before[i])
  }

  lemma ExtendsTransitive(c: seq<ScheduledGame>, b: seq<ScheduledGame>, a: seq<ScheduledGame>)
    requires Extends(c, b) && Extends(b, a)
    ensures Extends(c, a)
  {
  }

  lemma SameButTreeFields(a: ScheduledGame, b: ScheduledGame)
    requires SameButTree(a, b)
    ensures a.id == b.id && a.datetime == b.datetime && a.date == b.date && a.time == b.time
    ensures a.room == b.room && a.pgid == b.pgid && a.skipped == b.skipped && a.repweekly == b.repweekly
  {
    assert a.(gameTree := "").id == b.(gameTree := "").id;
    assert a.(gameTree := "").datetime == b.(gameTree := "").datetime;
    assert a.(gameTree := "").date == b.(gameTree := "").date;
    assert a.(gameTree := "").time == b.(gameTree := "").time;
    assert a.(gameTree := "").room == b.(gameTree := "").room;
    assert a.(gameTree := "").pgid == b.(gameTree := "").pgid;
    assert a.(gameTree := "").skipped == b.(gameTree := "").skipped;
    assert a.(gameTree := "").repweekly == b.(gameTree := "").repweekly;
  }

  lemma SameButTreePgid(a: ScheduledGame, b: ScheduledGame)
    requires SameButTree(a, b)
    ensures a.pgid == b.pgid
  {
    assert a.(gameTree := "").pgid == b.(gameTree := "").pgid;
  }

  /** Rewriting GameTree columns in place keeps the table invariant. */
  lemma ExtendsSameLengthKeepsInvariant(after: seq<ScheduledGame>, before: seq<ScheduledGame>)
    requires TableInvariant(before) && Extends(after, before) && |after| == |before|
    ensures TableInvariant(after)
  {
    forall i | 0 <= i < |after| ensures after[i].id == before[i].id && WellFormed(after[i]) {
      SameButTreeFields(after[i], before[i]);
    }
  }

  /** Appending a well-formed row with a larger id keeps the table invariant
      and every earlier row. */
  lemma AppendKeepsInvariant(rows: seq<ScheduledGame>, g: ScheduledGame)
    requires TableInvariant(rows) && WellFormed(g)
    requires forall i :: 0 <= i < |rows| ==> rows[i].id < g.id
    ensures TableInvariant(rows + [g]) && Extends(rows + [g], rows)
  {
    var after := rows + [g];
    assert forall i :: 0 <= i < |rows| ==> after[i] == rows[i];
  }

  // ---------------------------------------------------------------------------
  // Lookups and filters

  /** Index of the first row with this id (`query.filter(id == ...).first()`). */
  function IndexOfId(rows: seq<ScheduledGame>, id: int): (r: Option<nat>)
    ensures r.Some? ==> r.value < |rows| && rows[r.value].id == id
    ensures r.Some? ==> forall k :: 0 <= k < r.value ==> rows[k].id != id
    ensures r.None? <==> forall k :: 0 <= k < |rows| ==> rows[k].id != id
  {
    if rows == [] then None
    else if rows[0].id == id then Some(0)
    else
      match IndexOfId(rows[1..], id)
      case None => None
      case Some(k) => Some(k + 1)
  }

  /** The rows satisfying p, in table order (`query.filter(...).all()`). */
  function Where(rows: seq<ScheduledGame>, p: ScheduledGame -> bool): (r: seq<ScheduledGame>)
    ensures forall g :: p(g) ==> multiset(r)[g] == multiset(rows)[g]
    ensures forall g :: !p(g) ==> multiset(r)[g] == 0
    ensures forall g :: g in r <==> g in rows && p(g)
    ensures |r| <= |rows|
  {
    if rows == [] then []
    else
      var front := rows[..|rows| - 1];
      var last := rows[|rows| - 1];
      assert rows == front + [last];
      if !p(last) then Where(front, p)
      else Where(front, p) + [last]
  }

  lemma {:induction false} WhereKeepsOrder(rows: seq<ScheduledGame>, p: ScheduledGame -> bool)
    requires IdsIncreasing(rows)
    ensures IdsIncreasing(Where(rows, p))
  {
    if rows != [] {
      var front := rows[..|rows| - 1];
      var last := rows[|rows| - 1];
      FrontKeepsOrder(rows);
      WhereKeepsOrder(front, p);
      if p(last) {
        WhereBelow(front, p, last.id);
        AppendAbove(Where(front, p), last);
      }
    }
  }

  /** Dropping the last row keeps the id order, and every remaining id is
      below the dropped one. */
  lemma FrontKeepsOrder(rows: seq<ScheduledGame>)
    requires IdsIncreasing(rows) && rows != []
    ensures IdsIncreasing(rows[..|rows| - 1])
    ensures forall x :: x in rows[..|rows| - 1] ==> x.id < rows[|rows| - 1].id
  {
    forall x | x in rows[..|rows| - 1] ensures x.id < rows[|rows| - 1].id {
      var k :| 0 <= k < |rows| - 1 && rows[k] == x;
    }
  }

  /** A bound on every id of the table bounds every id of a filtered view. */
  lemma WhereBelow(rows: seq<ScheduledGame>, p: ScheduledGame -> bool, bound: int)
    requires forall x :: x in rows ==> x.id < bound
    ensures forall x :: x in Where(rows, p) ==> x.id < bound
  {
  }

  lemma AppendAbove(head: seq<ScheduledGame>, last: ScheduledGame)
    requires IdsIncreasing(head)
    requires forall x :: x in head ==> x.id < last.id
    ensures IdsIncreasing(head + [last])
  {
    var r := head + [last];
    forall i, j | 0 <= i < j < |r| ensures r[i].id < r[j].id {
      assert r[i] == head[i];
      if j < |r| - 1 {
        assert r[j] == head[j];
      } else {
        assert head[i] in head;
      }
    }
  }

  /** `get_scheduled_game_by_id`: the row with this id, unless it is skipped. */
  function VisibleById(rows: seq<ScheduledGame>, id: int): (r: Option<ScheduledGame>)
    ensures r.Some? ==> r.value in rows && r.value.id == id && !r.value.skipped
    ensures r.None? <==> forall k :: 0 <= k < |rows| ==> rows[k].id != id || rows[k].skipped
  {
    var matches := Where(rows, (g: ScheduledGame) => g.id == id && !g.skipped);
    assert forall k :: 0 <= k < |rows| && rows[k].id == id && !rows[k].skipped ==> rows[k] in matches;
    if matches == [] then None else Some(matches[0])
  }

  /** `get_game_tree_by_id`: the GameTree of the row with this id, skipped or not
      (None when there is no such row). */
  function GameTreeById(rows: seq<ScheduledGame>, id: int): (r: Option<string>)
    ensures r.Some? <==> exists k :: 0 <= k < |rows| && rows[k].id == id
    ensures r.Some? ==> exists k :: 0 <= k < |rows| && rows[k].id == id && rows[k].gameTree == r.value
  {
    match IndexOfId(rows, id)
    case None => None
    case Some(k) => Some(rows[k].gameTree)
  }

  /** `get_game_initiator_and_tree`: the initiator of the row with this id,
      skipped or not (its GameTree is `GameTreeById`). */
  function InitiatorById(rows: seq<ScheduledGame>, id: int): (r: Option<int>)
    ensures r.Some? <==> exists k :: 0 <= k < |rows| && rows[k].id == id
    ensures r.Some? ==> exists k :: 0 <= k < |rows| && rows[k].id == id && rows[k].initiatorId == r.value
  {
    match IndexOfId(rows, id)
    case None => None
    case Some(k) => Some(rows[k].initiatorId)
  }

  /** Order of `ORDER BY date, time`. */
  function StartsNoLater(a: ScheduledGame, b: ScheduledGame): bool
  {
    a.date < b.date || (a.date == b.date && a.time <= b.time)
  }

  lemma StartsNoLaterIsTotalPreorder()
    ensures Sorting.TotalPreorder(StartsNoLater)
  {
  }

  /** `get_scheduled_games`: the sessions that are not skipped and fall on
      `today` or later, ordered by date and time. */
  function UpcomingGames(rows: seq<ScheduledGame>, today: int): (r: seq<ScheduledGame>)
    ensures forall g :: g in r <==> g in rows && !g.skipped && g.date >= today
    ensures Sorting.SortedBy(r, StartsNoLater)
    ensures forall g: ScheduledGame :: !g.skipped && g.date >= today ==> multiset(r)[g] == multiset(rows)[g]
  {
    StartsNoLaterIsTotalPreorder();
    var r := Sorting.SortBy(Where(rows, (g: ScheduledGame) => !g.skipped && g.date >= today), StartsNoLater);
    assert forall g :: g in r <==> g in multiset(r);
    r
  }

  /** `get_enrolled_games_by_user`: the sessions that are not skipped and whose
      `player_ids` text contains the user id as a substring (SQL `LIKE '%id%'`). */
  function EnrolledGamesByUser(rows: seq<ScheduledGame>, userId: int): (r: seq<ScheduledGame>)
    ensures forall g :: g in r <==> g in rows && !g.skipped && IsSubstring(IntToString(userId), g.playerIds)
  {
    Where(rows, (g: ScheduledGame) => !g.skipped && IsSubstring(IntToString(userId), g.playerIds))
  }

  /** Every user listed in a session is found by the substring match. */
  lemma EnrolledUserIsFound(rows: seq<ScheduledGame>, userId: int, g: ScheduledGame)
    requires g in rows && !g.skipped && IntToString(userId) in SplitOrEmpty(g.playerIds)
    ensures g in EnrolledGamesByUser(rows, userId)
  {
    var pieces := SplitOrEmpty(g.playerIds);
    var i :| 0 <= i < |pieces| && pieces[i] == IntToString(userId);
    JoinSplit(g.playerIds);
    PieceInJoin(pieces, i);
  }

  /** The match is on text, not on list members: user 1 is found in a session
      whose only player is user 12. */
  lemma SubstringMatchIsNotMembership()
    ensures var g := ScheduledGame(1, 1, 0, 0, 0, 12, "host", false, None, None, None,
                                   "12", "host", Some(1), false, None, "", false);
            && g in EnrolledGamesByUser([g], 1)
            && IntToString(1) !in SplitOrEmpty(g.playerIds)
            && g !in EnrolledGamesByUserExact([g], 1)
  {
    var g := ScheduledGame(1, 1, 0, 0, 0, 12, "host", false, None, None, None,
                           "12", "host", Some(1), false, None, "", false);
    assert IntToString(12) == "12";
    assert IsSubstring("1", "12") by { assert StartsWith("12", "1"); }
    SplitNoComma("12");
  }

  /** `get_enrolled_games_by_user` as evidently intended: the sessions that are
      not skipped and whose player list holds the user id as one of its items. */
  function EnrolledGamesByUserExact(rows: seq<ScheduledGame>, userId: int): (r: seq<ScheduledGame>)
    ensures forall g :: g in r <==> g in rows && !g.skipped && IntToString(userId) in SplitOrEmpty(g.playerIds)
  {
    Where(rows, (g: ScheduledGame) => !g.skipped && IntToString(userId) in SplitOrEmpty(g.playerIds))
  }

  /** The exact listing only drops sessions: every session it lists, the
      substring match lists too. */
  lemma ExactEnrolmentIsNarrower(rows: seq<ScheduledGame>, userId: int)
    ensures forall g :: g in EnrolledGamesByUserExact(rows, userId) ==> g in EnrolledGamesByUser(rows, userId)
  {
    forall g | g in EnrolledGamesByUserExact(rows, userId) ensures g in EnrolledGamesByUser(rows, userId) {
      EnrolledUserIsFound(rows, userId, g);
    }
  }

  /** `get_hosted_games_by_user`: the sessions that are not skipped and were started by this user. */
  function HostedGamesByUser(rows: seq<ScheduledGame>, userId: int): (r: seq<ScheduledGame>)
    ensures forall g :: g in r <==> g in rows && !g.skipped && g.initiatorId == userId
  {
    Where(rows, (g: ScheduledGame) => !g.skipped && g.initiatorId == userId)
  }

  /** `get_enrolled_players`: the plain splits of the two player columns of the
      session with this id, unless it is skipped or missing. */
  function EnrolledPlayers(rows: seq<ScheduledGame>, id: int): (r: Option<(seq<string>, seq<string>)>)
    ensures r.Some? <==> VisibleById(rows, id).Some?
    ensures r.Some? ==> Join(r.value.0) == VisibleById(rows, id).value.playerIds
                        && Join(r.value.1) == VisibleById(rows, id).value.playerNicknames
    ensures r.Some? ==> |r.value.0| >= 1 && |r.value.1| >= 1
  {
    match VisibleById(rows, id)
    case None => None
    case Some(g) =>
      JoinSplit(g.playerIds);
      JoinSplit(g.playerNicknames);
      Some((Split(g.playerIds), Split(g.playerNicknames)))
  }

  // ---------------------------------------------------------------------------
  // Rooms

  /** Some row holds `room` and started later than nine hours before t. */
  predicate RoomTaken(rows: seq<ScheduledGame>, room: int, t: int)
  {
    exists i :: 0 <= i < |rows| && rows[i].room == Some(room) && rows[i].datetime + RoomHold > t
  }

  predicate AllRoomsTaken(rows: seq<ScheduledGame>, t: int)
  {
    forall room :: 1 <= room <= RoomCount ==> RoomTaken(rows, room, t)
  }

  /** The lowest room from `from` up to 20 that no row holds past t. */
  function FirstFreeFrom(rows: seq<ScheduledGame>, t: int, from: int): (r: Option<int>)
    requires 1 <= from
    ensures r.Some? ==> from <= r.value <= RoomCount && !RoomTaken(rows, r.value, t)
    ensures r.Some? ==> forall q :: from <= q < r.value ==> RoomTaken(rows, q, t)
    ensures r.None? <==> forall q :: from <= q <= RoomCount ==> RoomTaken(rows, q, t)
    decreases RoomCount + 1 - from
  {
    if from > RoomCount then None
    else if !RoomTaken(rows, from, t) then Some(from)
    else FirstFreeFrom(rows, t, from + 1)
  }

  /** The room a session starting at t is given: the lowest one in 1..20 that
      no row holds past t, or none when all twenty are held. */
  function LowestFreeRoom(rows: seq<ScheduledGame>, t: int): (r: Option<int>)
    ensures r.Some? ==> 1 <= r.value <= RoomCount && !RoomTaken(rows, r.value, t)
    ensures r.Some? ==> forall q :: 1 <= q < r.value ==> RoomTaken(rows, q, t)
    ensures r.None? <==> AllRoomsTaken(rows, t)
  {
    FirstFreeFrom(rows, t, 1)
  }

  /** `[game.room for game in all rows if game.datetime + 9h > t]`, skipped rows included. */
  function TakenRooms(rows: seq<ScheduledGame>, t: int): seq<Option<int>>
  {
    if rows == [] then []
    else
      var last := rows[|rows| - 1];
      TakenRooms(rows[..|rows| - 1], t) + (if last.datetime + RoomHold > t then [last.room] else [])
  }

  /** A room is in the list exactly when some row holds it past t. */
  lemma {:induction false} TakenRoomsMeaning(rows: seq<ScheduledGame>, t: int)
    ensures forall room :: Some(room) in TakenRooms(rows, t) <==> RoomTaken(rows, room, t)
  {
    if rows != [] {
      var front := rows[..|rows| - 1];
      TakenRoomsMeaning(front, t);
      forall room ensures Some(room) in TakenRooms(rows, t) <==> RoomTaken(rows, room, t) {
        if RoomTaken(rows, room, t) {
          var i :| 0 <= i < |rows| && rows[i].room == Some(room) && rows[i].datetime + RoomHold > t;
          if i < |front| {
            assert front[i] == rows[i];
            assert RoomTaken(front, room, t);
          }
        }
        if RoomTaken(front, room, t) {
          var i :| 0 <= i < |front| && front[i].room == Some(room) && front[i].datetime + RoomHold > t;
          assert rows[i] == front[i];
        }
      }
    }
  }

  /** Rooms stay taken when rows are added or their GameTree changes. */
  lemma RoomTakenPersists(after: seq<ScheduledGame>, before: seq<ScheduledGame>, room: int, t: int)
    requires Extends(after, before) && RoomTaken(before, room, t)
    ensures RoomTaken(after, room, t)
  {
    var i :| 0 <= i < |before| && before[i].room == Some(room) && before[i].datetime + RoomHold > t;
    SameButTreeFields(after[i], before[i]);
  }

  lemma AllRoomsTakenPersists(after: seq<ScheduledGame>, before: seq<ScheduledGame>, t: int)
    requires Extends(after, before) && AllRoomsTaken(before, t)
    ensures AllRoomsTaken(after, t)
  {
    forall room | 1 <= room <= RoomCount ensures RoomTaken(after, room, t) {
      RoomTakenPersists(after, before, room, t);
    }
  }

  /** Two sessions that share a room do not overlap, each holding its room
      for nine hours from its start. The database does not enforce this; the
      operations below keep it when the room comes from the free-room scan. */
  predicate NoRoomClash(rows: seq<ScheduledGame>)
  {
    forall a, b :: a in rows && b in rows && a.id != b.id && a.room.Some? && a.room == b.room ==>
      a.datetime + RoomHold <= b.datetime || b.datetime + RoomHold <= a.datetime
  }

  /** Inserting a session with a new id into a room that is free at its start
      keeps rooms from clashing. */
  lemma InsertFreeRoomKeepsNoClash(rows: seq<ScheduledGame>, g: ScheduledGame)
    requires NoRoomClash(rows)
    requires forall i :: 0 <= i < |rows| ==> rows[i].id != g.id
    requires g.room.Some? ==> !RoomTaken(rows, g.room.value, g.datetime)
    ensures NoRoomClash(rows + [g])
  {
    var after := rows + [g];
    forall a, b | a in after && b in after && a.id != b.id && a.room.Some? && a.room == b.room
      ensures a.datetime + RoomHold <= b.datetime || b.datetime + RoomHold <= a.datetime
    {
      if a == g {
        var j :| 0 <= j < |rows| && rows[j] == b;
        assert !(rows[j].room == Some(g.room.value) && rows[j].datetime + RoomHold > g.datetime);
      } else if b == g {
        var j :| 0 <= j < |rows| && rows[j] == a;
        assert !(rows[j].room == Some(g.room.value) && rows[j].datetime + RoomHold > g.datetime);
      }
    }
  }

  /** Rows taken from a table without clashes do not clash. */
  lemma NoClashSubset(after: seq<ScheduledGame>, before: seq<ScheduledGame>)
    requires NoRoomClash(before) && forall g :: g in after ==> g in before
    ensures NoRoomClash(after)
  {
  }

  /** Rewriting GameTree columns keeps rooms from clashing. */
  lemma NoClashSameButTree(after: seq<ScheduledGame>, before: seq<ScheduledGame>)
    requires NoRoomClash(before) && Extends(after, before) && |after| == |before|
    ensures NoRoomClash(after)
  {
    forall a, b | a in after && b in after && a.id != b.id && a.room.Some? && a.room == b.room
      ensures a.datetime + RoomHold <= b.datetime || b.datetime + RoomHold <= a.datetime
    {
      var i :| 0 <= i < |after| && after[i] == a;
      var j :| 0 <= j < |after| && after[j] == b;
      SameButTreeFields(after[i], before[i]);
      SameButTreeFields(after[j], before[j]);
      assert before[i] in before && before[j] in before;
    }
  }

  // ---------------------------------------------------------------------------
  // Deletions

  /** `delete_games_by_ids`: drop the rows whose id is listed (the list holds ids as text). */
  function DeleteByIds(rows: seq<ScheduledGame>, ids: seq<string>): (r: seq<ScheduledGame>)
    ensures forall g :: g in r <==> g in rows && IntToString(g.id) !in ids
  {
    Where(rows, (g: ScheduledGame) => IntToString(g.id) !in ids)
  }

  /** `delete_past_games`: drop the rows that started before the cutoff. */
  function DeleteBefore(rows: seq<ScheduledGame>, cutoff: int): (r: seq<ScheduledGame>)
    ensures forall g :: g in r <==> g in rows && g.datetime >= cutoff
  {
    Where(rows, (g: ScheduledGame) => !(g.datetime < cutoff))
  }

  lemma WhereKeepsInvariant(rows: seq<ScheduledGame>, p: ScheduledGame -> bool)
    requires TableInvariant(rows)
    ensures TableInvariant(Where(rows, p))
  {
    var r := Where(rows, p);
    WhereKeepsOrder(rows, p);
    forall i | 0 <= i < |r| ensures WellFormed(r[i]) {
      assert r[i] in rows;
    }
  }

  // ---------------------------------------------------------------------------
  // GameTree

  /** The ids `update_gametree` collects: the parent's tree, the new id when it
      is given and not 0, and the parent id. */
  function TreeList(parentTree: string, parentId: int, newId: Option<int>): seq<string>
  {
    SplitOrEmpty(parentTree)
    + (if newId.Some? && newId.value != 0 then [IntToString(newId.value)] else [])
    + [IntToString(parentId)]
  }

  /** `','.join(sorted(set(ids)))`. */
  function TreeText(ids: seq<string>): string
  {
    Join(SortedUnique(ids))
  }

  /** Rows whose id text is listed get GameTree `text`; the others are kept. */
  function WriteTree(rows: seq<ScheduledGame>, ids: seq<string>, text: string): (r: seq<ScheduledGame>)
    ensures |r| == |rows|
    ensures forall i :: 0 <= i < |rows| ==>
              r[i] == (if IntToString(rows[i].id) in ids then rows[i].(gameTree := text) else rows[i])
  {
    seq(|rows|, i requires 0 <= i < |rows| =>
      if IntToString(rows[i].id) in ids then rows[i].(gameTree := text) else rows[i])
  }

  /** `update_gametree`: when the parent exists, write the sorted, duplicate-free
      tree to every row whose id is in the collected list. */
  function ApplyGametree(rows: seq<ScheduledGame>, parentId: int, newId: Option<int>): (r: seq<ScheduledGame>)
    ensures Extends(r, rows) && |r| == |rows|
    ensures IndexOfId(rows, parentId).None? ==> r == rows
  {
    match IndexOfId(rows, parentId)
    case None => rows
    case Some(k) =>
      var ids := TreeList(rows[k].gameTree, parentId, newId);
      WriteTree(rows, ids, TreeText(ids))
  }

  /** The first-match lookup only looks at ids. */
  lemma {:induction false} IndexOfIdSameIds(a: seq<ScheduledGame>, b: seq<ScheduledGame>, id: int)
    requires |a| == |b| && forall i :: 0 <= i < |a| ==> a[i].id == b[i].id
    ensures IndexOfId(a, id) == IndexOfId(b, id)
  {
    if a != [] {
      IndexOfIdSameIds(a[1..], b[1..], id);
    }
  }

  /** Writing the same text twice, with lists of the same members, writes it once. */
  lemma WriteTreeTwice(rows: seq<ScheduledGame>, ids: seq<string>, ids2: seq<string>, text: string)
    requires forall y :: y in ids2 <==> y in ids
    ensures WriteTree(WriteTree(rows, ids, text), ids2, text) == WriteTree(rows, ids, text)
  {
    var once := WriteTree(rows, ids, text);
    var twice := WriteTree(once, ids2, text);
    forall i | 0 <= i < |rows| ensures twice[i] == once[i] {
      assert once[i].id == rows[i].id;
    }
  }

  lemma TreeListShape(parentTree: string, parentId: int, newId: Option<int>)
    ensures NoCommas(TreeList(parentTree, parentId, newId))
    ensures IntToString(parentId) in TreeList(parentTree, parentId, newId)
  {
  }

  /** Reading back the written tree gives the sorted, duplicate-free list. */
  lemma TreeTextReadBack(ids: seq<string>, parentId: int)
    requires NoCommas(ids) && IntToString(parentId) in ids
    ensures SplitOrEmpty(TreeText(ids)) == SortedUnique(ids)
  {
    var s := SortedUnique(ids);
    assert NoCommas(s) by {
      forall i | 0 <= i < |s| ensures Comma !in s[i] {
        assert s[i] in ids;
      }
    }
    assert IntToString(parentId) in s;
    SplitOrEmptyJoin(s);
  }

  /** The tree `update_gametree` writes is the union of the parent's old tree,
      the new id and the parent id, strictly sorted as text, and it lands on the
      parent and on every listed row, and on no other row. */
  lemma GametreeIsSortedUnion(rows: seq<ScheduledGame>, parentId: int, newId: Option<int>, k: nat)
    requires k < |rows| && rows[k].id == parentId && forall j :: 0 <= j < k ==> rows[j].id != parentId
    ensures var old_ := SplitOrEmpty(rows[k].gameTree);
            var tree := SplitOrEmpty(ApplyGametree(rows, parentId, newId)[k].gameTree);
            && StrictlySorted(tree)
            && (forall y :: y in tree <==>
                  (y in old_ || y == IntToString(parentId)
                   || (newId.Some? && newId.value != 0 && y == IntToString(newId.value))))
    ensures forall i :: 0 <= i < |rows| ==>
              ApplyGametree(rows, parentId, newId)[i].gameTree ==
                (if IntToString(rows[i].id) in TreeList(rows[k].gameTree, parentId, newId)
                 then TreeText(TreeList(rows[k].gameTree, parentId, newId)) else rows[i].gameTree)
  {
    var ids := TreeList(rows[k].gameTree, parentId, newId);
    TreeListShape(rows[k].gameTree, parentId, newId);
    TreeTextReadBack(ids, parentId);
    assert IndexOfId(rows, parentId) == Some(k);
  }

  /** Re-reading the written tree collects the same ids again. */
  lemma TreeListOfWritten(tree: string, parentId: int, newId: Option<int>)
    ensures var ids := TreeList(tree, parentId, newId);
            forall y :: y in TreeList(TreeText(ids), parentId, newId) <==> y in ids
  {
    var ids := TreeList(tree, parentId, newId);
    TreeListShape(tree, parentId, newId);
    TreeTextReadBack(ids, parentId);
  }

  /** Running `update_gametree` twice with the same ids changes nothing more. */
  lemma GametreeIdempotent(rows: seq<ScheduledGame>, parentId: int, newId: Option<int>)
    ensures ApplyGametree(ApplyGametree(rows, parentId, newId), parentId, newId)
            == ApplyGametree(rows, parentId, newId)
  {
    var once := ApplyGametree(rows, parentId, newId);
    match IndexOfId(rows, parentId)
    case None =>
    case Some(k) =>
      var ids := TreeList(rows[k].gameTree, parentId, newId);
      var text := TreeText(ids);
      assert once == WriteTree(rows, ids, text);
      forall i | 0 <= i < |rows| ensures once[i].id == rows[i].id {
      }
      IndexOfIdSameIds(once, rows, parentId);
      TreeListShape(rows[k].gameTree, parentId, newId);
      assert once[k].gameTree == text;
      var ids2 := TreeList(text, parentId, newId);
      TreeListOfWritten(rows[k].gameTree, parentId, newId);
      StrictlySortedUnique(SortedUnique(ids2), SortedUnique(ids));
      assert TreeText(ids2) == text;
      assert ApplyGametree(once, parentId, newId) == WriteTree(once, ids2, text);
      WriteTreeTwice(rows, ids, ids2, text);
  }

  // ---------------------------------------------------------------------------
  // Weekly recurrence

  /** The start one week after p, computed from its date and time columns. */
  function NextWeek(p: ScheduledGame): int
  {
    p.date * MinutesPerDay + p.time + MinutesPerWeek
  }

  predicate InHorizon(t: int, now: int)
  {
    now <= t < now + HorizonDays * MinutesPerDay
  }

  /** The rows `prolong` works through: those flagged repeat-weekly. */
  function Repeating(rows: seq<ScheduledGame>): (r: seq<ScheduledGame>)
    ensures forall g :: g in r <==> g in rows && g.repweekly
  {
    Where(rows, (g: ScheduledGame) => g.repweekly)
  }

  /** The row `prolong` inserts for parent p with the given id and room. */
  function WeeklyCopy(p: ScheduledGame, id: int, room: int): ScheduledGame
  {
    var t := NextWeek(p);
    ScheduledGame(id, p.gameId, t / MinutesPerDay, t % MinutesPerDay, t,
                  p.initiatorId, p.initiatorName, p.useSteam, p.serverData, p.serverPassword,
                  p.discordTelegramLink, p.playerIds, p.playerNicknames, Some(room),
                  p.repweekly, Some(p.id), p.gameTree, false)
  }

  /** c is a copy of p that `prolong` may insert at time now: p's start plus a
      week lies in the horizon, c has a room in 1..20, its parent id is p's id,
      it is not skipped, and every other column but id and GameTree is p's. */
  predicate IsWeeklyCopy(c: ScheduledGame, p: ScheduledGame, now: int)
  {
    && InHorizon(NextWeek(p), now)
    && c.room.Some? && 1 <= c.room.value <= RoomCount
    && c.(id := 0, gameTree := "") == WeeklyCopy(p, 0, c.room.value).(gameTree := "")
  }

  lemma WeeklyCopyStable(c2: ScheduledGame, c: ScheduledGame, p: ScheduledGame, now: int)
    requires IsWeeklyCopy(c, p, now) && SameButTree(c2, c)
    ensures IsWeeklyCopy(c2, p, now)
  {
    SameButTreeFields(c2, c);
    assert c2.(id := 0, gameTree := "") == c2.(gameTree := "").(id := 0);
    assert c.(id := 0, gameTree := "") == c.(gameTree := "").(id := 0);
  }

  /** A row at index `from` or later names `parentId` as its parent. */
  predicate HasCopy(rows: seq<ScheduledGame>, from: int, parentId: int)
  {
    exists j :: from <= j < |rows| && 0 <= j && rows[j].pgid == Some(parentId)
  }

  lemma HasCopyPersists(after: seq<ScheduledGame>, before: seq<ScheduledGame>, from: int, parentId: int)
    requires Extends(after, before) && HasCopy(before, from, parentId)
    ensures HasCopy(after, from, parentId)
  {
    var j :| from <= j < |before| && 0 <= j && before[j].pgid == Some(parentId);
    SameButTreeFields(after[j], before[j]);
  }

  // ---------------------------------------------------------------------------
  // The table

  class GameTable {
    var rows: seq<ScheduledGame>

    ghost predicate Valid()
      reads this
    {
      TableInvariant(rows)
    }

    constructor ()
      ensures Valid() && rows == []
    {
      rows := [];
    }

    /** `schedule_game`: insert one session with the initiator as its only player. */
    method ScheduleGame(gameId: int, scheduledDatetime: int, initiatorId: int, nickname: string,
                        useSteam: bool, serverPassword: Option<string>, serverData: Option<string>,
                        discordTelegramLink: Option<string>, room: Option<int>, repeatWeekly: bool)
      returns (g: ScheduledGame)
      requires Valid()
      modifies this
      ensures Valid()
      ensures rows == old(rows) + [g]
      ensures g.id == NextId(old(rows)) && forall i :: 0 <= i < |old(rows)| ==> old(rows)[i].id < g.id
      ensures SplitOrEmpty(g.playerIds) == [IntToString(initiatorId)]
      ensures g.playerNicknames == nickname && g.initiatorName == nickname
      ensures g.datetime == scheduledDatetime && g.date * MinutesPerDay + g.time == scheduledDatetime
      ensures 0 <= g.time < MinutesPerDay
      ensures g.gameId == gameId && g.initiatorId == initiatorId && g.room == room
      ensures g.useSteam == useSteam && g.serverPassword == serverPassword && g.serverData == serverData
      ensures g.discordTelegramLink == discordTelegramLink
      ensures g.repweekly == repeatWeekly && g.pgid.None? && g.gameTree == "" && !g.skipped
      ensures NoRoomClash(old(rows)) && (room.Some? ==> !RoomTaken(old(rows), room.value, scheduledDatetime))
              ==> NoRoomClash(rows)
    {
      g := ScheduledGame(NextId(rows), gameId, scheduledDatetime / MinutesPerDay,
                         scheduledDatetime % MinutesPerDay, scheduledDatetime, initiatorId, nickname,
                         useSteam, serverData, serverPassword, discordTelegramLink,
                         IntToString(initiatorId), nickname, room, repeatWeekly, None, "", false);
      SplitNoComma(IntToString(initiatorId));
      if NoRoomClash(rows) && (room.Some? ==> !RoomTaken(rows, room.value, scheduledDatetime)) {
        InsertFreeRoomKeepsNoClash(rows, g);
      }
      rows := rows + [g];
    }

    /** `add_player_to_game`: append the user id and the nickname to the two
        lists of the session, with no duplicate check; an unknown id is a failure. */
    method AddPlayerToGame(userId: int, scheduledGameId: int, libGameId: int, userNickname: string)
      returns (r: Result<ScheduledGame, string>)
      requires Valid()
      modifies this
      ensures Valid()
      ensures IndexOfId(old(rows), scheduledGameId).None? ==>
                r == Failure("Игра не найдена.") && rows == old(rows)
      ensures IndexOfId(old(rows), scheduledGameId).Some? ==>
                var k := IndexOfId(old(rows), scheduledGameId).value;
                var g := old(rows)[k];
                var updated := g.(playerIds := AppendItem(g.playerIds, IntToString(userId)),
                                  playerNicknames := AppendItem(g.playerNicknames, userNickname));
                && rows == old(rows)[k := updated]
                && r == Success(updated)
                && SplitOrEmpty(updated.playerIds) == SplitOrEmpty(g.playerIds) + [IntToString(userId)]
    {
      match IndexOfId(rows, scheduledGameId)
      case None =>
        r := Failure("Игра не найдена.");
      case Some(k) =>
        var g := rows[k];
        var updated := g.(playerIds := AppendItem(g.playerIds, IntToString(userId)),
                          playerNicknames := AppendItem(g.playerNicknames, userNickname));
        AppendItemReadBack(g.playerIds, IntToString(userId));
        rows := rows[k := updated];
        r := Success(updated);
    }

    /** `update_scheduled_game_players`: overwrite the two player columns of one row. */
    method UpdateScheduledGamePlayers(id: int, playerIds: string, playerNicknames: string)
      returns (r: Option<ScheduledGame>)
      requires Valid()
      modifies this
      ensures Valid()
      ensures IndexOfId(old(rows), id).None? ==> r.None? && rows == old(rows)
      ensures IndexOfId(old(rows), id).Some? ==>
                var k := IndexOfId(old(rows), id).value;
                var updated := old(rows)[k].(playerIds := playerIds, playerNicknames := playerNicknames);
                rows == old(rows)[k := updated] && r == Some(updated)
    {
      match IndexOfId(rows, id)
      case None =>
        r := None;
      case Some(k) =>
        var updated := rows[k].(playerIds := playerIds, playerNicknames := playerNicknames);
        rows := rows[k := updated];
        r := Some(updated);
    }

    /** `update_game_skipped_status`: set the skipped flag of one row. */
    method UpdateGameSkippedStatus(id: int, skipped: bool) returns (r: Option<ScheduledGame>)
      requires Valid()
      modifies this
      ensures Valid()
      ensures IndexOfId(old(rows), id).None? ==> r.None? && rows == old(rows)
      ensures IndexOfId(old(rows), id).Some? ==>
                var k := IndexOfId(old(rows), id).value;
                rows == old(rows)[k := old(rows)[k].(skipped := skipped)]
                && r == Some(old(rows)[k].(skipped := skipped))
    {
      match IndexOfId(rows, id)
      case None =>
        r := None;
      case Some(k) =>
        var updated := rows[k].(skipped := skipped);
        rows := rows[k := updated];
        r := Some(updated);
    }

    /** `delete_games_by_ids`. */
    method DeleteGamesByIds(ids: seq<string>)
      requires Valid()
      modifies this
      ensures Valid()
      ensures rows == DeleteByIds(old(rows), ids)
      ensures NoRoomClash(old(rows)) ==> NoRoomClash(rows)
    {
      WhereKeepsInvariant(rows, (g: ScheduledGame) => IntToString(g.id) !in ids);
      rows := DeleteByIds(rows, ids);
    }

    /** `delete_past_games`. */
    method DeletePastGames(cutoff: int)
      requires Valid()
      modifies this
      ensures Valid()
      ensures rows == DeleteBefore(old(rows), cutoff)
      ensures NoRoomClash(old(rows)) ==> NoRoomClash(rows)
    {
      WhereKeepsInvariant(rows, (g: ScheduledGame) => !(g.datetime < cutoff));
      rows := DeleteBefore(rows, cutoff);
    }

    /** `get_available_room`: the lowest room in 1..20 that no row (skipped
        rows included) holds within nine hours before `selected` or any time
        after it; None when all twenty are taken. */
    method GetAvailableRoom(selected: int) returns (room: Option<int>)
      ensures room.Some? ==> 1 <= room.value <= RoomCount && !RoomTaken(rows, room.value, selected)
      ensures room.Some? ==> forall q :: 1 <= q < room.value ==> RoomTaken(rows, q, selected)
      ensures room.None? <==> AllRoomsTaken(rows, selected)
      ensures room == LowestFreeRoom(rows, selected)
    {
      var taken := TakenRooms(rows, selected);
      TakenRoomsMeaning(rows, selected);
      var r := 1;
      while r <= RoomCount
        invariant 1 <= r <= RoomCount + 1
        invariant forall q :: 1 <= q < r ==> RoomTaken(rows, q, selected)
        invariant FirstFreeFrom(rows, selected, r) == LowestFreeRoom(rows, selected)
      {
        if Some(r) !in taken {
          return Some(r);
        }
        r := r + 1;
      }
      return None;
    }

    /** `update_gametree`. */
    method UpdateGametree(parentGameId: int, newGameId: Option<int>)
      requires Valid()
      modifies this
      ensures Valid()
      ensures rows == ApplyGametree(old(rows), parentGameId, newGameId)
      ensures NoRoomClash(old(rows)) ==> NoRoomClash(rows)
    {
      var after := ApplyGametree(rows, parentGameId, newGameId);
      ExtendsSameLengthKeepsInvariant(after, rows);
      if NoRoomClash(rows) {
        NoClashSameButTree(after, rows);
      }
      rows := after;
    }

    /** The body of `prolong` for one parent that is due and found a room:
        insert its copy one week later, then merge the ids into the series tree. */
    method AddWeeklyCopy(p: ScheduledGame, room: int)
      requires Valid() && !RoomTaken(rows, room, NextWeek(p))
      modifies this
      ensures Valid()
      ensures NoRoomClash(old(rows)) ==> NoRoomClash(rows)
      ensures |rows| == |old(rows)| + 1 && Extends(rows, old(rows))
      ensures rows[|old(rows)|].room == Some(room)
      ensures SameButTree(rows[|old(rows)|], WeeklyCopy(p, rows[|old(rows)|].id, room))
      ensures rows == ApplyGametree(old(rows) + [WeeklyCopy(p, NextId(old(rows)), room)], p.id, Some(NextId(old(rows))))
    {
      ghost var before := rows;
      var id := NextId(rows);
      var copy := WeeklyCopy(p, id, room);
      AppendKeepsInvariant(rows, copy);
      if NoRoomClash(rows) {
        InsertFreeRoomKeepsNoClash(rows, copy);
      }
      rows := rows + [copy];
      ghost var appended := rows;
      assert appended[|before|] == copy;
      UpdateGametree(p.id, Some(id));
      ExtendsTransitive(rows, appended, before);
      SameButTreeFields(rows[|before|], copy);
    }

    /** One turn of the loop of `prolong`, for the n-th repeat-weekly row. */
    method ProlongStep(parents: seq<ScheduledGame>, n: nat, now: int, ghost start: seq<ScheduledGame>)
      requires n < |parents| && IdsIncreasing(parents)
      requires Valid() && Extends(rows, start) && |rows| <= |start| + n
      requires CopiesSoFar(rows, start, parents, n, now)
      modifies this
      ensures Valid() && Extends(rows, start) && |rows| <= |start| + n + 1
      ensures CopiesSoFar(rows, start, parents, n + 1, now)
      ensures NoRoomClash(old(rows)) ==> NoRoomClash(rows)
      ensures rows == CopyStepRows(old(rows), parents[n], now)
      ensures !InHorizon(NextWeek(parents[n]), now) || AllRoomsTaken(old(rows), NextWeek(parents[n])) ==>
                rows == old(rows)
      ensures |rows| > |old(rows)| ==> IsWeeklyCopy(rows[|old(rows)|], parents[n], now)
    {
      var p := parents[n];
      var next := NextWeek(p);
      if now <= next < now + HorizonDays * MinutesPerDay {
        var room := GetAvailableRoom(next);
        if room.Some? {
          ghost var before := rows;
          AddWeeklyCopy(p, room.value);
          ExtendsTransitive(rows, before, start);
          CopyStep(rows, before, start, parents, n, now);
          CopyStepMeaning(before, p, now);
        } else {
          SkipStep(rows, start, parents, n, now);
        }
      } else {
        SkipStep(rows, start, parents, n, now);
      }
    }

    /** `prolong`: for each repeat-weekly row present at the start, insert a
        copy one week later when that start lies in [now, now + 21 days) and a
        room is free, then merge the two ids into the series tree. */
    method Prolong(now: int)
      requires Valid()
      modifies this
      ensures Valid()
      ensures ProlongOutcome(old(rows), rows, now)
      ensures NoRoomClash(old(rows)) ==> NoRoomClash(rows)
      ensures rows == ProlongRows(old(rows), Repeating(old(rows)), now)
    {
      var parents := Repeating(rows);
      WhereKeepsOrder(rows, (g: ScheduledGame) => g.repweekly);
      ghost var start := rows;
      VisitParents(parents, now, start);
      ProlongDone(rows, start, parents, now);
    }

    /** The loop of `prolong` over the repeat-weekly rows taken at the start. */
    method VisitParents(parents: seq<ScheduledGame>, now: int, ghost start: seq<ScheduledGame>)
      requires Valid() && rows == start && IdsIncreasing(parents)
      modifies this
      ensures Valid() && Extends(rows, start) && |rows| <= |start| + |parents|
      ensures CopiesSoFar(rows, start, parents, |parents|, now)
      ensures NoRoomClash(start) ==> NoRoomClash(rows)
      ensures rows == ProlongRows(start, parents, now)
    {
      var n := 0;
      NothingCopiedYet(rows, parents, now);
      assert parents[n..] == parents;
      while n < |parents|
        invariant 0 <= n <= |parents|
        invariant Valid() && Extends(rows, start) && |rows| <= |start| + n
        invariant CopiesSoFar(rows, start, parents, n, now)
        invariant NoRoomClash(start) ==> NoRoomClash(rows)
        invariant ProlongRows(rows, parents[n..], now) == ProlongRows(start, parents, now)
      {
        ghost var before := rows;
        ProlongStep(parents, n, now, start);
        ProlongRowsUnfold(before, parents, n, now);
        n := n + 1;
      }
      assert parents[n..] == [];
    }
  }

  /** The table after `prolong` has visited parent p: unchanged when p's start
      plus a week is outside the horizon or every room is held then; otherwise
      p's copy is appended with the next id and the lowest free room, and the
      two ids are merged into the series tree. */
  function CopyStepRows(rows: seq<ScheduledGame>, p: ScheduledGame, now: int): (r: seq<ScheduledGame>)
  {
    if !InHorizon(NextWeek(p), now) then rows
    else match LowestFreeRoom(rows, NextWeek(p))
      case None => rows
      case Some(room) =>
        var id := NextId(rows);
        ApplyGametree(rows + [WeeklyCopy(p, id, room)], p.id, Some(id))
  }

  /** The table after `prolong` has visited every parent, in order. */
  function ProlongRows(rows: seq<ScheduledGame>, parents: seq<ScheduledGame>, now: int): seq<ScheduledGame>
    decreases |parents|
  {
    if parents == [] then rows else ProlongRows(CopyStepRows(rows, parents[0], now), parents[1..], now)
  }

  lemma ProlongRowsUnfold(rows: seq<ScheduledGame>, parents: seq<ScheduledGame>, n: nat, now: int)
    requires n < |parents|
    ensures ProlongRows(rows, parents[n..], now)
            == ProlongRows(CopyStepRows(rows, parents[n], now), parents[n + 1..], now)
  {
    assert parents[n..][1..] == parents[n + 1..];
  }

  /** A visit either leaves the table as it was, exactly when p is not due or
      finds every room held, or appends one row that is a copy of p with the
      next id, the lowest free room and p as its parent, keeping every earlier
      row up to its GameTree. */
  lemma CopyStepMeaning(rows: seq<ScheduledGame>, p: ScheduledGame, now: int)
    ensures var r := CopyStepRows(rows, p, now);
            !InHorizon(NextWeek(p), now) || AllRoomsTaken(rows, NextWeek(p)) ==> r == rows
    ensures var r := CopyStepRows(rows, p, now);
            InHorizon(NextWeek(p), now) && !AllRoomsTaken(rows, NextWeek(p)) ==>
              && |r| == |rows| + 1 && Extends(r, rows)
              && IsWeeklyCopy(r[|rows|], p, now)
              && r[|rows|].id == NextId(rows) && r[|rows|].pgid == Some(p.id)
              && r[|rows|].room == LowestFreeRoom(rows, NextWeek(p))
  {
    var t := NextWeek(p);
    if InHorizon(t, now) && !AllRoomsTaken(rows, t) {
      var room := LowestFreeRoom(rows, t).value;
      var id := NextId(rows);
      var c := WeeklyCopy(p, id, room);
      var appended := rows + [c];
      var r := ApplyGametree(appended, p.id, Some(id));
      assert r == CopyStepRows(rows, p, now);
      assert Extends(appended, rows) by {
        assert forall i :: 0 <= i < |rows| ==> appended[i] == rows[i];
      }
      ExtendsTransitive(r, appended, rows);
      assert SameButTree(r[|rows|], c);
      SameButTreeFields(r[|rows|], c);
      assert c.(id := 0, gameTree := "") == WeeklyCopy(p, 0, room).(gameTree := "");
      assert IsWeeklyCopy(c, p, now);
      WeeklyCopyStable(r[|rows|], c, p, now);
    }
  }

  /** When the parent is in the table, its copy joins its series: afterwards
      the parent and the copy carry the same GameTree, and that tree lists both
      the parent's id and the copy's id. */
  lemma CopyJoinsParentTree(rows: seq<ScheduledGame>, p: ScheduledGame, now: int)
    requires IndexOfId(rows, p.id).Some?
    requires InHorizon(NextWeek(p), now) && !AllRoomsTaken(rows, NextWeek(p))
    ensures var r := CopyStepRows(rows, p, now);
            var k := IndexOfId(rows, p.id).value;
            && |r| == |rows| + 1
            && r[|rows|].gameTree == r[k].gameTree
            && IntToString(p.id) in SplitOrEmpty(r[k].gameTree)
            && IntToString(NextId(rows)) in SplitOrEmpty(r[k].gameTree)
  {
    var t := NextWeek(p);
    var k := IndexOfId(rows, p.id).value;
    var room := LowestFreeRoom(rows, t).value;
    var id := NextId(rows);
    var appended := rows + [WeeklyCopy(p, id, room)];
    assert forall j :: 0 <= j < |rows| ==> appended[j] == rows[j];
    GametreeIsSortedUnion(appended, p.id, Some(id), k);
    var ids := TreeList(appended[k].gameTree, p.id, Some(id));
    assert IntToString(id) in ids && IntToString(p.id) in ids;
    assert appended[|rows|].id == id;
  }

  /** What `prolong` has done after visiting the first n parents: every added
      row is a copy of one of them, no two added rows share a parent, and each
      visited parent due within the horizon got a copy or found every room taken. */
  ghost predicate CopiesSoFar(rows: seq<ScheduledGame>, start: seq<ScheduledGame>,
                              parents: seq<ScheduledGame>, n: nat, now: int)
    requires n <= |parents|
  {
    && (forall j :: |start| <= j < |rows| ==> CopyOfEarlier(rows[j], parents, n, now))
    && (forall j, k :: |start| <= j < k < |rows| ==> rows[j].pgid != rows[k].pgid)
    && (forall q :: 0 <= q < n && InHorizon(NextWeek(parents[q]), now) ==>
          HasCopy(rows, |start|, parents[q].id) || AllRoomsTaken(rows, NextWeek(parents[q])))
  }

  /** c is a copy of one of the first n parents and names it as its parent. */
  ghost predicate CopyOfEarlier(c: ScheduledGame, parents: seq<ScheduledGame>, n: nat, now: int)
    requires n <= |parents|
  {
    exists q :: 0 <= q < n && IsWeeklyCopy(c, parents[q], now) && c.pgid == Some(parents[q].id)
  }

  lemma NothingCopiedYet(start: seq<ScheduledGame>, parents: seq<ScheduledGame>, now: int)
    ensures CopiesSoFar(start, start, parents, 0, now)
  {
  }

  /** A parent that is out of the horizon, or finds every room taken, adds nothing. */
  lemma SkipStep(rows: seq<ScheduledGame>, start: seq<ScheduledGame>,
                 parents: seq<ScheduledGame>, n: nat, now: int)
    requires n < |parents| && CopiesSoFar(rows, start, parents, n, now)
    requires !InHorizon(NextWeek(parents[n]), now) || AllRoomsTaken(rows, NextWeek(parents[n]))
    ensures CopiesSoFar(rows, start, parents, n + 1, now)
  {
    forall j | |start| <= j < |rows|
      ensures exists q :: 0 <= q < n + 1 && IsWeeklyCopy(rows[j], parents[q], now)
                          && rows[j].pgid == Some(parents[q].id)
    {
      var q :| 0 <= q < n && IsWeeklyCopy(rows[j], parents[q], now) && rows[j].pgid == Some(parents[q].id);
    }
  }

  /** A parent whose copy was appended (and the trees then rewritten) keeps
      the record of what `prolong` has done. */
  lemma CopyStep(rows: seq<ScheduledGame>, before: seq<ScheduledGame>, start: seq<ScheduledGame>,
                 parents: seq<ScheduledGame>, n: nat, now: int)
    requires n < |parents| && IdsIncreasing(parents)
    requires CopiesSoFar(before, start, parents, n, now)
    requires |rows| == |before| + 1 && Extends(rows, before) && Extends(before, start)
    requires rows[|before|].room.Some?
    requires SameButTree(rows[|before|], WeeklyCopy(parents[n], rows[|before|].id, rows[|before|].room.value))
    requires InHorizon(NextWeek(parents[n]), now) && 1 <= rows[|before|].room.value <= RoomCount
    ensures CopiesSoFar(rows, start, parents, n + 1, now)
  {
    var c := WeeklyCopy(parents[n], rows[|before|].id, rows[|before|].room.value);
    assert IsWeeklyCopy(c, parents[n], now);
    CopiesStable(rows, before, start, parents, n, now);
    forall q | 0 <= q <= n && InHorizon(NextWeek(parents[q]), now)
      ensures HasCopy(rows, |start|, parents[q].id) || AllRoomsTaken(rows, NextWeek(parents[q]))
    {
      if q == n {
        SameButTreeFields(rows[|before|], c);
        assert rows[|before|].pgid == Some(parents[n].id);
      } else if HasCopy(before, |start|, parents[q].id) {
        HasCopyPersists(rows, before, |start|, parents[q].id);
      } else {
        AllRoomsTakenPersists(rows, before, NextWeek(parents[q]));
      }
    }
  }

  /** After the last parent, the record of `prolong` speaks of the repeat-weekly rows. */
  /** What `prolong` leaves behind, given the table it started from: every
      earlier row kept up to its GameTree; at most one new row per repeat-weekly
      row, each a copy of one of them; no two new rows with the same parent; and
      every repeat-weekly row due within the horizon either has a new copy or
      found all twenty rooms held. */
  ghost predicate ProlongOutcome(before: seq<ScheduledGame>, after: seq<ScheduledGame>, now: int)
  {
    && Extends(after, before)
    && |after| <= |before| + |Repeating(before)|
    && (forall j :: |before| <= j < |after| ==>
          exists p :: p in Repeating(before) && IsWeeklyCopy(after[j], p, now))
    && (forall j, k :: |before| <= j < k < |after| ==> after[j].pgid != after[k].pgid)
    && (forall p :: p in Repeating(before) && InHorizon(NextWeek(p), now) ==>
          HasCopy(after, |before|, p.id) || AllRoomsTaken(after, NextWeek(p)))
  }

  lemma ProlongDone(rows: seq<ScheduledGame>, start: seq<ScheduledGame>,
                    parents: seq<ScheduledGame>, now: int)
    requires parents == Repeating(start) && CopiesSoFar(rows, start, parents, |parents|, now)
    requires Extends(rows, start) && |rows| <= |start| + |parents|
    ensures ProlongOutcome(start, rows, now)
  {
    forall j | |start| <= j < |rows|
      ensures exists p :: p in Repeating(start) && IsWeeklyCopy(rows[j], p, now)
    {
      assert CopyOfEarlier(rows[j], parents, |parents|, now);
      var q :| 0 <= q < |parents| && IsWeeklyCopy(rows[j], parents[q], now)
               && rows[j].pgid == Some(parents[q].id);
      assert parents[q] in Repeating(start);
    }
    forall p | p in Repeating(start) && InHorizon(NextWeek(p), now)
      ensures HasCopy(rows, |start|, p.id) || AllRoomsTaken(rows, NextWeek(p))
    {
      var q :| 0 <= q < |parents| && parents[q] == p;
    }
  }


  /** One step of `prolong`: the copies made so far stay copies of distinct
      parents after a new copy is appended and the trees are rewritten. */
  lemma CopiesStable(rows: seq<ScheduledGame>, before: seq<ScheduledGame>, start: seq<ScheduledGame>,
                     parents: seq<ScheduledGame>, n: nat, now: int)
    requires n < |parents| && IdsIncreasing(parents)
    requires |rows| == |before| + 1 && Extends(rows, before) && Extends(before, start)
    requires rows[|before|].room.Some?
    requires SameButTree(rows[|before|], WeeklyCopy(parents[n], rows[|before|].id, rows[|before|].room.value))
    requires IsWeeklyCopy(WeeklyCopy(parents[n], rows[|before|].id, rows[|before|].room.value), parents[n], now)
    requires CopiesSoFar(before, start, parents, n, now)
    ensures forall j :: |start| <= j < |rows| ==>
              exists q :: 0 <= q < n + 1 && IsWeeklyCopy(rows[j], parents[q], now)
                          && rows[j].pgid == Some(parents[q].id)
    ensures forall j, k :: |start| <= j < k < |rows| ==> rows[j].pgid != rows[k].pgid
  {
    CopiesStillCopies(rows, before, start, parents, n, now);
    var c := WeeklyCopy(parents[n], rows[|before|].id, rows[|before|].room.value);
    SameButTreePgid(rows[|before|], c);
    forall j | |start| <= j < |before| ensures before[j].pgid.Some? && before[j].pgid.value < parents[n].id {
      CopyParentBelow(before, start, parents, n, now, j);
    }
    CopiesStillDistinct(rows, before, |start|, parents, n);
  }

  /** A copy made before parent n was visited names an earlier parent, whose
      id is smaller. */
  lemma CopyParentBelow(before: seq<ScheduledGame>, start: seq<ScheduledGame>,
                        parents: seq<ScheduledGame>, n: nat, now: int, j: int)
    requires n < |parents| && IdsIncreasing(parents)
    requires CopiesSoFar(before, start, parents, n, now) && |start| <= j < |before|
    ensures before[j].pgid.Some? && before[j].pgid.value < parents[n].id
  {
    assert CopyOfEarlier(before[j], parents, n, now);
    var q :| 0 <= q < n && IsWeeklyCopy(before[j], parents[q], now) && before[j].pgid == Some(parents[q].id);
    assert parents[q].id < parents[n].id;
  }

  lemma CopiesStillCopies(rows: seq<ScheduledGame>, before: seq<ScheduledGame>, start: seq<ScheduledGame>,
                          parents: seq<ScheduledGame>, n: nat, now: int)
    requires n < |parents| && IdsIncreasing(parents)
    requires |rows| == |before| + 1 && Extends(rows, before) && Extends(before, start)
    requires rows[|before|].room.Some?
    requires SameButTree(rows[|before|], WeeklyCopy(parents[n], rows[|before|].id, rows[|before|].room.value))
    requires IsWeeklyCopy(WeeklyCopy(parents[n], rows[|before|].id, rows[|before|].room.value), parents[n], now)
    requires CopiesSoFar(before, start, parents, n, now)
    ensures forall j :: |start| <= j < |rows| ==>
              exists q :: 0 <= q < n + 1 && IsWeeklyCopy(rows[j], parents[q], now)
                          && rows[j].pgid == Some(parents[q].id)
  {
    var last := |before|;
    var c := WeeklyCopy(parents[n], rows[last].id, rows[last].room.value);
    SameButTreeFields(rows[last], c);
    WeeklyCopyStable(rows[last], c, parents[n], now);
    forall j | |start| <= j < |rows|
      ensures exists q :: 0 <= q < n + 1 && IsWeeklyCopy(rows[j], parents[q], now)
                          && rows[j].pgid == Some(parents[q].id)
    {
      if j < last {
        var q :| 0 <= q < n && IsWeeklyCopy(before[j], parents[q], now) && before[j].pgid == Some(parents[q].id);
        WeeklyCopyStable(rows[j], before[j], parents[q], now);
        SameButTreeFields(rows[j], before[j]);
      } else {
        assert rows[j].pgid == Some(parents[n].id);
      }
    }
  }

  /** The new copy names a parent that no earlier copy names, so parents stay distinct. */
  lemma CopiesStillDistinct(rows: seq<ScheduledGame>, before: seq<ScheduledGame>, from: nat,
                            parents: seq<ScheduledGame>, n: nat)
    requires n < |parents|
    requires |rows| == |before| + 1 && Extends(rows, before)
    requires rows[|before|].pgid == Some(parents[n].id)
    requires forall j :: from <= j < |before| ==> before[j].pgid.Some? && before[j].pgid.value < parents[n].id
    requires forall j, k :: from <= j < k < |before| ==> before[j].pgid != before[k].pgid
    ensures forall j, k :: from <= j < k < |rows| ==> rows[j].pgid != rows[k].pgid
  {
    forall j, k | from <= j < k < |rows| ensures rows[j].pgid != rows[k].pgid {
      SameButTreePgid(rows[j], before[j]);
      if k < |before| {
        SameButTreePgid(rows[k], before[k]);
      }
    }
  }
}
