/** `generate_summary`: the confirmation text sent after a session is
    scheduled. The date is passed in already formatted as day.month.year; the
    clock time is derived from the session's start in minutes. */
module Summary {
  import opened Wrappers
  import opened Text
  import opened Library
  import ScheduledGames

  const NotFoundText: string := "Ошибка: Игра не найдена."
  const Header: string := "<b>Игра успешно создана!</b>\n\n"
  const DatePrefix: string := "Дата проведения: "
  const WeeklyPrefix: string := "Дата проведения: Еженедельно с "
  const HostPrefix: string := "Ведущий: "

  /** `strftime('%H:%M')` of a start given in minutes. */
  function Clock(datetime: int): (r: string)
    ensures |r| == 5 && r[2] == ':' && AllDigits(r[..2]) && AllDigits(r[3..])
  {
    var t := datetime % ScheduledGames.MinutesPerDay;
    var r := Pad2(t / 60) + ":" + Pad2(t % 60);
    assert r[..2] == Pad2(t / 60) && r[3..] == Pad2(t % 60);
    r
  }

  /** The clock text reads back as the minute of the day the session starts:
      hours below 24, minutes below 60. */
  lemma ClockReadBack(datetime: int)
    ensures var r := Clock(datetime);
            && DigitsValue(r[..2]) < 24 && DigitsValue(r[3..]) < 60
            && DigitsValue(r[..2]) * 60 + DigitsValue(r[3..]) == datetime % ScheduledGames.MinutesPerDay
  {
    var t := datetime % ScheduledGames.MinutesPerDay;
    var r := Clock(datetime);
    assert r[..2] == Pad2(t / 60) && r[3..] == Pad2(t % 60);
  }

  /** `x if x else 'N/A'` for a nullable text. */
  function OrNA(x: Option<string>): (r: string)
    ensures x.None? || x == Some("") ==> r == "N/A"
    ensures x.Some? && x.value != "" ==> r == x.value
  {
    if x.Some? && x.value != "" then x.value else "N/A"
  }

  /** `f"{room}"` for a nullable room number. */
  function RoomText(room: Option<int>): string
  {
    match room
    case None => "None"
    case Some(n) => IntToString(n)
  }

  function DateLine(dateText: string, repeat: bool): string
  {
    if repeat then WeeklyPrefix + dateText + " \n" else DatePrefix + dateText + "\n"
  }

  function TimeLine(datetime: int): string
  {
    "Время: " + Clock(datetime) + " (UTC+3 MSK)\n\n"
  }

  function RoomLine(link: Option<string>, room: Option<int>): string
  {
    "<a href = '" + PyStr(link) + "'>Ссылка на комнату #" + RoomText(room) + " в Discord</a>\n\n"
  }

  function SteamBlock(serverData: Option<string>, serverPassword: Option<string>): string
  {
    "Сервер в Tabletop Simulator: " + OrNA(serverData) + "\nПароль от сервера: " + OrNA(serverPassword) + "\n\n"
  }

  function HostLine(initiator: string, flag: bool): string
  {
    HostPrefix + (if flag then "@" else "") + initiator + "\n\n"
  }

  /** The sections every summary of an existing game has before the optional
      steam block: header, date, time and room link. */
  function Opening(dateText: string, datetime: int, link: Option<string>, room: Option<int>, repeat: bool): string
  {
    Header + DateLine(dateText, repeat) + TimeLine(datetime) + RoomLine(link, room)
  }

  /** `generate_summary`. A game missing from the catalogue gives only the
      error text. Otherwise the text opens with the header and the date line
      (weekly when `repeat`), always holds the time and room-link lines, holds
      the steam block only when `useSteam`, and ends with the host line, which
      mentions the host with "@" when `flag` is set. */
  function GenerateSummary(catalogue: seq<Game>, gameId: int, datetime: int, dateText: string,
                           serverData: Option<string>, serverPassword: Option<string>, useSteam: bool,
                           initiator: string, link: Option<string>, room: Option<int>,
                           flag: bool, repeat: bool): (r: string)
    ensures GameDetails(catalogue, gameId).None? ==> r == NotFoundText
    ensures GameDetails(catalogue, gameId).Some? ==>
              && StartsWith(r, Header + DateLine(dateText, repeat))
              && IsSubstring(TimeLine(datetime), r)
              && IsSubstring(RoomLine(link, room), r)
              && (useSteam ==> IsSubstring(SteamBlock(serverData, serverPassword), r))
              && r == Opening(dateText, datetime, link, room, repeat)
                      + (if useSteam then SteamBlock(serverData, serverPassword) else "")
                      + HostLine(initiator, flag)
  {
    if GameDetails(catalogue, gameId).None? then NotFoundText
    else
      var d := DateLine(dateText, repeat);
      var t := TimeLine(datetime);
      var l := RoomLine(link, room);
      var s := if useSteam then SteamBlock(serverData, serverPassword) else "";
      var h := HostLine(initiator, flag);
      Sections(Header, d, t, l, s, h);
      Header + d + t + l + s + h
  }

  /** Where the parts of a six-part text sit. */
  lemma Sections(a: string, b: string, c: string, d: string, e: string, f: string)
    ensures var r := a + b + c + d + e + f;
            && StartsWith(r, a + b)
            && IsSubstring(c, r) && IsSubstring(d, r) && IsSubstring(e, r)
  {
    var r := a + b + c + d + e + f;
    assert r == (a + b) + c + (d + e + f);
    InfixIsSubstring(a + b, c, d + e + f);
    assert r == (a + b + c) + d + (e + f);
    InfixIsSubstring(a + b + c, d, e + f);
    assert r == (a + b + c + d) + e + f;
    InfixIsSubstring(a + b + c + d, e, f);
  }

  /** The date line says "weekly from" exactly when the session repeats, as
      long as the date text itself does not start with those words. */
  lemma DateLineMeaning(dateText: string, repeat: bool)
    requires !StartsWith(dateText, "Еженедельно с ")
    ensures StartsWith(DateLine(dateText, repeat), WeeklyPrefix) <==> repeat
    ensures StartsWith(DateLine(dateText, repeat), DatePrefix)
  {
    var line := DateLine(dateText, repeat);
    var weekly := "Еженедельно с ";
    assert WeeklyPrefix == DatePrefix + weekly;
    if repeat {
      ConcatSlices(WeeklyPrefix, dateText, " \n");
      assert line[..|DatePrefix|] == WeeklyPrefix[..|DatePrefix|];
    } else {
      if StartsWith(line, WeeklyPrefix) {
        assert line == DatePrefix + (dateText + "\n");
        StartsWithCancel(DatePrefix, dateText + "\n", weekly);
        NewlineCancel(dateText, weekly);
      }
    }
  }

  lemma NewlineCancel(x: string, w: string)
    requires StartsWith(x + "\n", w) && |w| > 0 && w[|w| - 1] != '\n'
    ensures StartsWith(x, w)
  {
    var y := x + "\n";
    assert w[|w| - 1] == y[|w| - 1];
    assert y[|x|] == '\n';
    assert |w| - 1 != |x|;
    assert x[..|w|] == y[..|w|];
  }

  lemma StartsWithCancel(p: string, x: string, w: string)
    requires StartsWith(p + x, p + w)
    ensures StartsWith(x, w)
  {
    assert (p + x)[|p|..|p| + |w|] == x[..|w|];
    assert (p + w)[|p|..] == w;
  }

  /** The summary ends with the host line: "Ведущий: @name" when the name is
      a Telegram username, the plain name otherwise. */
  lemma HostMention(initiator: string, flag: bool, before: string)
    ensures var r := before + HostLine(initiator, flag);
            var tail := (if flag then "@" else "") + initiator + "\n\n";
            && |r| >= |tail|
            && r[|r| - |tail|..] == tail
            && r[|r| - |tail| - |HostPrefix|..|r| - |tail|] == HostPrefix
  {
    var tail := (if flag then "@" else "") + initiator + "\n\n";
    ConcatSlices(before, HostPrefix, tail);
    assert before + HostLine(initiator, flag) == before + HostPrefix + tail;
  }

  /** Switching `useSteam` on inserts exactly the steam block, with "N/A" in
      place of a missing server or password, between the room line and the
      host line, and changes nothing else. */
  lemma SteamBlockOnlyWithSteam(catalogue: seq<Game>, gameId: int, datetime: int, dateText: string,
                                serverData: Option<string>, serverPassword: Option<string>,
                                initiator: string, link: Option<string>, room: Option<int>,
                                flag: bool, repeat: bool)
    requires GameDetails(catalogue, gameId).Some?
    ensures var on := GenerateSummary(catalogue, gameId, datetime, dateText, serverData, serverPassword, true,
                                      initiator, link, room, flag, repeat);
            var off := GenerateSummary(catalogue, gameId, datetime, dateText, serverData, serverPassword, false,
                                       initiator, link, room, flag, repeat);
            var o := Opening(dateText, datetime, link, room, repeat);
            && off[..|o|] == on[..|o|]
            && on[|o|..|o| + |SteamBlock(serverData, serverPassword)|] == SteamBlock(serverData, serverPassword)
            && on[|o| + |SteamBlock(serverData, serverPassword)|..] == off[|o|..]
  {
    var o := Opening(dateText, datetime, link, room, repeat);
    var s := SteamBlock(serverData, serverPassword);
    var h := HostLine(initiator, flag);
    ConcatSlices(o, s, h);
    ConcatSlices(o, [], h);
    assert o + "" + h == o + h;
  }
}
