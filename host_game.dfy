/** The host-game flow: the game library shown to a host, the 21-day date
    grid, and the session state the callbacks fill in (game, date, time, room,
    repeat) up to the insertion of the scheduled session. */
module HostGame {
  import opened Wrappers
  import opened Text
  import opened Paging
  import opened ScheduledGames
  import opened Library
  import Summary
  import JoinGame

  /** Days offered by the date grid. */
  const GridDays: nat := 21
  /** Minutes a chosen start may lie in the past at the time and steam steps. */
  const Grace: int := 30

  // ---------------------------------------------------------------------------
  // Date grid

  /** `generate_date_matrix`: today and the following twenty days. */
  method GenerateDateMatrix(today: int) returns (dates: seq<int>)
    ensures |dates| == GridDays
    ensures forall i :: 0 <= i < GridDays ==> dates[i] == today + i
  {
    dates := [];
    var i := 0;
    while i < GridDays
      invariant 0 <= i <= GridDays && |dates| == i
      invariant forall j :: 0 <= j < i ==> dates[j] == today + j
    {
      dates := dates + [today + i];
      i := i + 1;
    }
  }

  /** A date button carries its day; its label and callback are that day formatted. */
  datatype DateButton = DateButton(day: int)

  /** `create_date_buttons`: the grid's days as buttons in rows of seven. */
  function DateButtonRows(today: int): seq<seq<DateButton>>
  {
    Chunk(seq(GridDays, i requires 0 <= i < GridDays => DateButton(today + i)), 7)
  }

  /** The grid is three full weeks: row r, column c offers day today + 7r + c,
      so every day of the next three weeks is offered exactly once. */
  lemma DateGridShape(today: int)
    ensures |DateButtonRows(today)| == 3
    ensures forall r, c :: 0 <= r < 3 && 0 <= c < 7 ==>
              |DateButtonRows(today)[r]| == 7 && DateButtonRows(today)[r][c] == DateButton(today + 7 * r + c)
  {
    var buttons := seq(GridDays, i requires 0 <= i < GridDays => DateButton(today + i));
    ChunkFull(buttons, 7, 3);
    forall r, c | 0 <= r < 3 && 0 <= c < 7
      ensures DateButtonRows(today)[r][c] == DateButton(today + 7 * r + c)
    {
      assert DateButtonRows(today)[r] == buttons[r * 7 .. r * 7 + 7];
      assert DateButtonRows(today)[r][c] == buttons[r * 7 + c];
    }
  }

  // ---------------------------------------------------------------------------
  // The host's game library

  /** `send_game_library` on `get_all_games()`: nothing but a notice for an
      empty library; otherwise the page `games[page*11 : (page+1)*11]`,
      "previous" when page > 0 and "next" when page < total_pages - 1, without
      the one-page guard of the library listings. */
  function HostLibraryListing(games: seq<Game>, page: int): (r: Listing)
    ensures r.EmptyNotice? <==> games == []
  {
    if games == [] then EmptyNotice
    else
      var total := PageCount(|games|, GamesPerPage);
      Keyboard(Page(games, page, GamesPerPage),
               (if page > 0 then [PrevPage(page - 1)] else [])
               + (if page < total - 1 then [NextPage(page + 1)] else []))
  }

  /** "previous" appears exactly when page > 0 and "next" exactly when a later
      page exists; every game of the library is on page i / 11. */
  lemma HostLibraryNavigation(games: seq<Game>, page: int, i: nat)
    requires games != [] && i < |games|
    ensures var nav := HostLibraryListing(games, page).nav;
            && (PrevPage(page - 1) in nav <==> page > 0)
            && (NextPage(page + 1) in nav <==> page < PageCount(|games|, GamesPerPage) - 1)
    ensures games[i] in HostLibraryListing(games, i / GamesPerPage).games
  {
    ItemOnItsPage(games, i, GamesPerPage);
  }

  /** On every page the navigation can reach, the host's listing and the
      library listings show the same games and the same buttons: the missing
      one-page guard only matters for pages outside the range. */
  lemma HostLibraryAgreesWithLibrary(games: seq<Game>, page: int)
    requires 0 <= page < PageCount(|games|, GamesPerPage)
    ensures HostLibraryListing(games, page) == LibraryListing(games, page)
  {
  }

  // ---------------------------------------------------------------------------
  // The initiator's name

  /** The parts of the chat the repeat step reads. */
  datatype Chat = Chat(id: int, username: Option<string>, firstName: string, lastName: Option<string>)

  /** The username when the chat has one (flag set); otherwise first and last
      name joined by a space, or the first name alone (flag cleared). */
  function InitiatorName(chat: Chat): (r: (string, bool))
    ensures r.1 <==> chat.username.Some?
    ensures chat.username.Some? ==> r.0 == chat.username.value
    ensures chat.username.None? && chat.lastName.Some? ==> r.0 == chat.firstName + " " + chat.lastName.value
    ensures chat.username.None? && chat.lastName.None? ==> r.0 == chat.firstName
  {
    match chat.username
    case Some(u) => (u, true)
    case None =>
      match chat.lastName
      case Some(l) => (chat.firstName + " " + l, false)
      case None => (chat.firstName, false)
  }

  /** The session `Repeat` stores lists only its initiator in "my games": its
      one nickname is the initiator's name, so no line is written under the
      session and the count is one. A name containing a comma would be read
      back as several nicknames. */
  lemma HostedSessionListing(chat: Chat)
    requires InitiatorName(chat).0 != "" && Comma !in InitiatorName(chat).0
    ensures var name := InitiatorName(chat).0;
      && JoinGame.EnrolledLines([IntToString(chat.id)], SplitOrEmpty(name), name) == Some([])
      && JoinGame.PlayerCount([IntToString(chat.id)], SplitOrEmpty(name)) == Some(1)
  {
    var name := InitiatorName(chat).0;
    SplitNoComma(name);
    assert JoinGame.EnrolledUsers([IntToString(chat.id)], [name]) == [name];
    JoinGame.LinesOfOne(name, name);
  }

  /** `bool(server_password)`. */
  function UsesSteam(serverPassword: Option<string>): (r: bool)
    ensures r <==> serverPassword.Some? && serverPassword.value != ""
  {
    serverPassword.Some? && serverPassword.value != ""
  }

  /** `room_to_link.get(str(room))`: the Discord link configured for the
      room, looked up by the room's text ("None" when no room is held). */
  function RoomLink(roomLinks: map<string, string>, room: Option<int>): (r: Option<string>)
    ensures r.Some? <==> Summary.RoomText(room) in roomLinks
    ensures r.Some? ==> r.value == roomLinks[Summary.RoomText(room)]
  {
    var key := Summary.RoomText(room);
    if key in roomLinks then Some(roomLinks[key]) else None
  }

  // ---------------------------------------------------------------------------
  // The session being hosted

  datatype TimeOutcome = TimeRejected | AskSteam | TimeHalted

  datatype SteamOutcome =
    | SteamTimeRejected
    | AskServer
    | AskRepeat
    | SteamIgnored
    | AllRoomsBusy
    | SteamHalted

  datatype RepeatOutcome =
    | RepeatTimeRejected
    | RepeatHalted
    | Scheduled(game: ScheduledGame, text: string)

  const GameInfoNotFound: string := "Информация об игре не найдена."

  /** The host flow's state: the module global `selected_game_id` and the
      `game_state` fields the callbacks write. Dates are day numbers and times
      minutes of the day. The server and password are only written by the two
      handlers that fail on the undefined module-level `game_state`, so they
      stay unset. */
  class HostSession {
    var selectedGameId: Option<int>
    var selectedDate: Option<int>
    var selectedTime: Option<int>
    var room: Option<int>
    var serverPassword: Option<string>
    var selectedServer: Option<string>
    var repeatGame: Option<bool>

    ghost predicate Valid()
      reads this
    {
      serverPassword.None? && selectedServer.None?
    }

    /** The start the chosen date and time name, if both are chosen. */
    function Start(): (r: Option<int>)
      reads this
      ensures r.Some? <==> selectedDate.Some? && selectedTime.Some?
      ensures r.Some? ==> r.value == selectedDate.value * MinutesPerDay + selectedTime.value
    {
      if selectedDate.Some? && selectedTime.Some? then
        Some(selectedDate.value * MinutesPerDay + selectedTime.value)
      else None
    }

    constructor ()
      ensures Valid()
      ensures selectedGameId.None? && selectedDate.None? && selectedTime.None?
      ensures room.None? && repeatGame.None?
    {
      selectedGameId := None;
      selectedDate := None;
      selectedTime := None;
      room := None;
      serverPassword := None;
      selectedServer := None;
      repeatGame := None;
    }

    /** `handle_game_selection`: remember the game when the catalogue has it. */
    method SelectGame(catalogue: seq<Game>, gameId: int) returns (found: bool)
      requires Valid()
      modifies this
      ensures Valid()
      ensures found <==> GameDetails(catalogue, gameId).Some?
      ensures selectedGameId == (if found then Some(gameId) else old(selectedGameId))
      ensures selectedDate == old(selectedDate) && selectedTime == old(selectedTime)
      ensures room == old(room) && repeatGame == old(repeatGame)
    {
      found := GameDetails(catalogue, gameId).Some?;
      if found {
        selectedGameId := Some(gameId);
      }
    }

    /** `handle_date_selection`. */
    method SelectDate(day: int)
      requires Valid()
      modifies this
      ensures Valid()
      ensures selectedDate == Some(day)
      ensures selectedGameId == old(selectedGameId) && selectedTime == old(selectedTime)
      ensures room == old(room) && repeatGame == old(repeatGame)
    {
      selectedDate := Some(day);
    }

    /** `handle_time_selection`: store the time, then refuse a start more than
      thirty minutes in the past. Without a chosen date the handler raises. */
    method SelectTime(minuteOfDay: int, now: int) returns (outcome: TimeOutcome)
      requires Valid()
      modifies this
      ensures Valid()
      ensures selectedTime == Some(minuteOfDay)
      ensures selectedGameId == old(selectedGameId) && selectedDate == old(selectedDate)
      ensures room == old(room) && repeatGame == old(repeatGame)
      ensures outcome == TimeHalted <==> selectedDate.None?
      ensures selectedDate.Some? ==> (outcome == AskSteam <==> Start().value >= now - Grace)
    {
      selectedTime := Some(minuteOfDay);
      if selectedDate.None? {
        return TimeHalted;
      }
      var start := selectedDate.value * MinutesPerDay + minuteOfDay;
      if start < now - Grace {
        outcome := TimeRejected;
      } else {
        outcome := AskSteam;
      }
    }

    /** `handle_steam_selection`: check the start again, then take the lowest
      free room for it. With a room, "steam_yes" asks for a server and
      "steam_no" goes on to the repeat question; without one the host is told
      that every room is busy and nothing is stored. */
    method SelectSteam(data: string, now: int, table: GameTable) returns (outcome: SteamOutcome)
      requires Valid()
      modifies this
      ensures Valid()
      ensures selectedGameId == old(selectedGameId) && selectedDate == old(selectedDate)
      ensures selectedTime == old(selectedTime) && repeatGame == old(repeatGame)
      ensures outcome == SteamHalted <==> Start().None?
      ensures outcome == SteamTimeRejected <==> Start().Some? && Start().value < now - Grace
      ensures outcome == AllRoomsBusy <==>
                Start().Some? && Start().value >= now - Grace && AllRoomsTaken(table.rows, Start().value)
      ensures outcome in {AskServer, AskRepeat, SteamIgnored} ==>
                && room.Some? && 1 <= room.value <= RoomCount
                && !RoomTaken(table.rows, room.value, Start().value)
                && (forall q :: 1 <= q < room.value ==> RoomTaken(table.rows, q, Start().value))
                && (outcome == AskServer <==> data == "steam_yes")
                && (outcome == AskRepeat <==> data == "steam_no")
      ensures !(outcome in {AskServer, AskRepeat, SteamIgnored}) ==> room == old(room)
    {
      var start := Start();
      if start.None? {
        return SteamHalted;
      }
      if start.value < now - Grace {
        return SteamTimeRejected;
      }
      var free := table.GetAvailableRoom(start.value);
      if free.None? {
        return AllRoomsBusy;
      }
      room := free;
      if data == "steam_yes" {
        outcome := AskServer;
      } else if data == "steam_no" {
        outcome := AskRepeat;
      } else {
        outcome := SteamIgnored;
      }
    }

    /** `handle_repeat_response`: store whether the session repeats weekly,
      refuse a start in the past, then insert the session with the chat as
      initiator (pre-enrolled under its name) and answer with the summary and
      the game card. The handler raises when no date, time or game was chosen. */
    method Repeat(data: string, now: int, table: GameTable, catalogue: seq<Game>, chat: Chat,
                  roomLinks: map<string, string>, dateText: string)
      returns (outcome: RepeatOutcome)
      requires Valid() && table.Valid()
      modifies this, table
      ensures Valid() && table.Valid()
      ensures repeatGame == Some(data == "repeat_yes")
      ensures selectedGameId == old(selectedGameId) && selectedDate == old(selectedDate)
      ensures selectedTime == old(selectedTime) && room == old(room)
      ensures outcome == RepeatTimeRejected <==> Start().Some? && Start().value < now
      ensures outcome.Scheduled? <==> Start().Some? && Start().value >= now && selectedGameId.Some?
      ensures !outcome.Scheduled? ==> table.rows == old(table.rows)
      ensures outcome.Scheduled? ==>
                var g := outcome.game;
                && table.rows == old(table.rows) + [g]
                && g.gameId == selectedGameId.value && g.datetime == Start().value
                && g.initiatorId == chat.id && g.initiatorName == InitiatorName(chat).0
                && SplitOrEmpty(g.playerIds) == [IntToString(chat.id)]
                && g.playerNicknames == InitiatorName(chat).0
                && g.room == room && g.repweekly == (data == "repeat_yes")
                && !g.useSteam && g.serverPassword.None? && g.serverData.None?
                && g.discordTelegramLink.None? && g.pgid.None? && !g.skipped
      ensures outcome.Scheduled? ==>
                outcome.text == Summary.GenerateSummary(catalogue, selectedGameId.value, Start().value, dateText,
                                                        None, None, false, InitiatorName(chat).0,
                                                        RoomLink(roomLinks, room), room, InitiatorName(chat).1,
                                                        data == "repeat_yes")
                                + "\n " + GameInfoMessage(catalogue, selectedGameId.value, GameInfoNotFound)
      ensures outcome.Scheduled? && NoRoomClash(old(table.rows))
              && (room.Some? ==> !RoomTaken(old(table.rows), room.value, Start().value))
              ==> NoRoomClash(table.rows)
    {
      repeatGame := Some(data == "repeat_yes");
      var start := Start();
      if start.None? {
        return RepeatHalted;
      }
      if start.value < now {
        return RepeatTimeRejected;
      }
      var (name, flag) := InitiatorName(chat);
      if selectedGameId.None? {
        return RepeatHalted;
      }
      var gameId := selectedGameId.value;
      var link := RoomLink(roomLinks, room);
      var useSteam := UsesSteam(serverPassword);
      var g := table.ScheduleGame(gameId, start.value, chat.id, name, useSteam, serverPassword, selectedServer,
                                  None, room, data == "repeat_yes");
      var summary := Summary.GenerateSummary(catalogue, gameId, start.value, dateText, selectedServer,
                                             serverPassword, useSteam, name, link, room, flag, data == "repeat_yes");
      outcome := Scheduled(g, summary + "\n " + GameInfoMessage(catalogue, gameId, GameInfoNotFound));
    }
  }
}
