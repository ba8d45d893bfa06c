/** The rules of the join-game handlers: the schedule listing and enrolment
    pages, the time keyboard, the create-game dialog, and the decisions taken on
    enrol, unsubscribe and delete. */
module JoinGame {
  import opened Wrappers
  import opened Text
  import opened Paging
  import opened ScheduledGames
  import Sorting

  /** `max_days` of `get_nearest_days_with_games`; every caller uses the default. */
  const MaxDays: nat := 8
  const GamesPerPage: nat := 10

  // ---------------------------------------------------------------------------
  // Nearest days with games

  function Dates(games: seq<ScheduledGame>): (r: seq<int>)
    ensures |r| == |games| && forall i :: 0 <= i < |games| ==> r[i] == games[i].date
  {
    seq(|games|, i requires 0 <= i < |games| => games[i].date)
  }

  /** The distinct values of xs in order of first appearance. */
  function Distinct(xs: seq<int>): seq<int>
  {
    if xs == [] then []
    else
      var d := Distinct(xs[..|xs| - 1]);
      if xs[|xs| - 1] in d then d else d + [xs[|xs| - 1]]
  }

  predicate NoDuplicates(xs: seq<int>)
  {
    forall i, j :: 0 <= i < j < |xs| ==> xs[i] != xs[j]
  }

  /** Distinct keeps exactly the values of xs, once each. */
  lemma {:induction false} DistinctMeaning(xs: seq<int>)
    ensures NoDuplicates(Distinct(xs))
    ensures forall x :: x in Distinct(xs) <==> x in xs
  {
    if xs != [] {
      var front := xs[..|xs| - 1];
      DistinctMeaning(front);
      assert xs == front + [xs[|xs| - 1]];
    }
  }

  /** Looking at more of the list only adds values at the end. */
  lemma {:induction false} DistinctPrefix(xs: seq<int>, i: nat, j: nat)
    requires i <= j <= |xs|
    ensures |Distinct(xs[..i])| <= |Distinct(xs[..j])|
    ensures Distinct(xs[..i]) == Distinct(xs[..j])[..|Distinct(xs[..i])|]
    decreases j - i
  {
    if i < j {
      DistinctPrefix(xs, i, j - 1);
      assert xs[..j][..j - 1] == xs[..j - 1];
    }
  }

  /** The first `MaxDays` distinct dates, in order of first appearance. */
  function NearestDays(games: seq<ScheduledGame>): (r: seq<int>)
  {
    var d := Distinct(Dates(games));
    if |d| <= MaxDays then d else d[..MaxDays]
  }

  /** The nearest days are distinct dates of the given games, at most eight of
      them, and when fewer than eight distinct dates exist, all of them. */
  lemma NearestDaysMeaning(games: seq<ScheduledGame>)
    ensures |NearestDays(games)| <= MaxDays
    ensures NoDuplicates(NearestDays(games))
    ensures forall d :: d in NearestDays(games) ==> exists i :: 0 <= i < |games| && games[i].date == d
    ensures |NearestDays(games)| < MaxDays ==>
              forall i :: 0 <= i < |games| ==> games[i].date in NearestDays(games)
  {
    var all := Distinct(Dates(games));
    DistinctMeaning(Dates(games));
    forall d | d in NearestDays(games) ensures exists i :: 0 <= i < |games| && games[i].date == d {
      assert d in all;
      assert d in Dates(games);
      var i :| 0 <= i < |games| && Dates(games)[i] == d;
    }
    forall i | 0 <= i < |games| && |NearestDays(games)| < MaxDays ensures games[i].date in NearestDays(games) {
      assert Dates(games)[i] in Dates(games);
    }
  }

  /** `get_nearest_days_with_games`: walk the games, collecting each date not
      seen before, and stop once eight dates are collected. */
  method NearestDaysWithGames(games: seq<ScheduledGame>) returns (nearest: seq<int>)
    ensures nearest == NearestDays(games)
  {
    ghost var dates := Dates(games);
    nearest := [];
    var displayed: set<int> := {};
    var count := 0;
    var i := 0;
    while i < |games|
      invariant 0 <= i <= |games|
      invariant nearest == Distinct(dates[..i]) && count == |nearest| < MaxDays
      invariant displayed == set d | d in nearest
    {
      assert dates[..i + 1] == dates[..i] + [games[i].date];
      if games[i].date !in displayed {
        displayed := displayed + {games[i].date};
        nearest := nearest + [games[i].date];
        count := count + 1;
      }
      i := i + 1;
      if count >= MaxDays {
        DistinctPrefix(dates, i, |dates|);
        assert dates[..|dates|] == dates;
        return;
      }
    }
    assert dates[..i] == dates;
  }

  // ---------------------------------------------------------------------------
  // Time keyboard (also built, identically, by the host flow)

  /** Slot k of `[(h, m) for h in range(10, 24) for m in range(0, 60, 30)]`. */
  function TimeSlot(k: nat): (int, int)
  {
    (10 + k / 2, (k % 2) * 30)
  }

  const SlotCount: nat := 28

  function TimeSlots(): (r: seq<(int, int)>)
    ensures |r| == SlotCount
    ensures forall k :: 0 <= k < SlotCount ==> 10 <= r[k].0 <= 23 && 0 <= r[k].1 <= 30
  {
    seq(SlotCount, k requires 0 <= k < SlotCount => TimeSlot(k))
  }

  /** The slots are every half hour from 10:00 to 23:30, in ascending order. */
  lemma TimeSlotsMeaning()
    ensures TimeSlots()[0] == (10, 0) && TimeSlots()[SlotCount - 1] == (23, 30)
    ensures forall k :: 0 <= k < SlotCount ==>
              10 <= TimeSlots()[k].0 <= 23 && TimeSlots()[k].1 in {0, 30}
              && TimeSlots()[k].0 * 60 + TimeSlots()[k].1 == 600 + 30 * k
  {
  }

  datatype Button = Button(text: string, callback: string)

  /** `f"{hour:02d}:{minute:02d}"`. */
  function TimeLabel(slot: (int, int)): (r: string)
    requires 0 <= slot.0 < 100 && 0 <= slot.1 < 100
    ensures |r| == 5 && r[2] == ':' && AllDigits(r[..2]) && AllDigits(r[3..])
    ensures DigitsValue(r[..2]) == slot.0 && DigitsValue(r[3..]) == slot.1
  {
    var h := Pad2(slot.0);
    var m := Pad2(slot.1);
    assert (h + ":" + m)[..2] == h && (h + ":" + m)[3..] == m;
    h + ":" + m
  }

  function TimeButton(slot: (int, int)): Button
    requires 0 <= slot.0 < 100 && 0 <= slot.1 < 100
  {
    Button(TimeLabel(slot), "time_" + TimeLabel(slot))
  }

  /** `create_time_buttons`: the slots as buttons in rows of seven. */
  function TimeButtonRows(): seq<seq<Button>>
  {
    Chunk(seq(SlotCount, k requires 0 <= k < SlotCount => TimeButton(TimeSlot(k))), 7)
  }

  /** The keyboard has four full rows of seven; the button in row r, column c
      carries slot 7r + c, and its label reads back as that slot's hour and minute. */
  lemma TimeButtonRowsShape()
    ensures |TimeButtonRows()| == 4
    ensures forall r, c :: 0 <= r < 4 && 0 <= c < 7 ==>
              |TimeButtonRows()[r]| == 7
              && TimeButtonRows()[r][c] == TimeButton(TimeSlots()[7 * r + c])
              && TimeButtonRows()[r][c].callback == "time_" + TimeButtonRows()[r][c].text
              && DigitsValue(TimeButtonRows()[r][c].text[..2]) == TimeSlots()[7 * r + c].0
              && DigitsValue(TimeButtonRows()[r][c].text[3..]) == TimeSlots()[7 * r + c].1
  {
    var buttons := seq(SlotCount, k requires 0 <= k < SlotCount => TimeButton(TimeSlot(k)));
    ChunkFull(buttons, 7, 4);
    forall r, c | 0 <= r < 4 && 0 <= c < 7
      ensures TimeButtonRows()[r][c] == TimeButton(TimeSlots()[7 * r + c])
    {
      assert TimeButtonRows()[r] == buttons[r * 7 .. r * 7 + 7];
      assert TimeButtonRows()[r][c] == buttons[r * 7 + c];
    }
  }

  // ---------------------------------------------------------------------------
  // Enrolment pages

  datatype EnrolButton = EnrolGame(id: int) | PrevPage(page: int) | NextPage(page: int) | BackToMain

  /** `handle_enroll_page`: the games of page `page` (counted from 1, ten per
      page) whose date is one of the nearest days, then "back" when page > 1,
      "forward" when page < total_pages, and always "back to main". */
  function EnrolPage(games: seq<ScheduledGame>, page: int): (r: seq<EnrolButton>)
  {
    var total := PageCount(|games|, GamesPerPage);
    var start := (page - 1) * GamesPerPage;
    var pageGames := PySlice(games, start, start + GamesPerPage);
    var nearest := NearestDays(games);
    GameButtons(pageGames, nearest)
    + (if page > 1 then [PrevPage(page - 1)] else [])
    + (if page < total then [NextPage(page + 1)] else [])
    + [BackToMain]
  }

  function GameButtons(games: seq<ScheduledGame>, days: seq<int>): (r: seq<EnrolButton>)
    ensures forall b :: b in r ==> b.EnrolGame?
    ensures forall g :: g in games && g.date in days ==> EnrolGame(g.id) in r
    ensures forall id :: EnrolGame(id) in r ==> exists g :: g in games && g.date in days && g.id == id
    ensures |r| <= |games|
  {
    if games == [] then []
    else
      var rest := GameButtons(games[1..], days);
      assert games == [games[0]] + games[1..];
      if games[0].date in days then [EnrolGame(games[0].id)] + rest else rest
  }

  /** The navigation buttons of an enrolment page: "back" exactly when the page
      is after the first, "forward" exactly when a later page exists, and the
      last button always leads to the main menu. */
  lemma EnrolPageNavigation(games: seq<ScheduledGame>, page: int)
    ensures PrevPage(page - 1) in EnrolPage(games, page) <==> page > 1
    ensures NextPage(page + 1) in EnrolPage(games, page) <==> page < PageCount(|games|, GamesPerPage)
    ensures EnrolPage(games, page)[|EnrolPage(games, page)| - 1] == BackToMain
  {
    var start := (page - 1) * GamesPerPage;
    var buttons := GameButtons(PySlice(games, start, start + GamesPerPage), NearestDays(games));
    NavigationAfter(buttons, page, PageCount(|games|, GamesPerPage));
  }

  /** The navigation part appended to game buttons. */
  lemma NavigationAfter(buttons: seq<EnrolButton>, page: int, total: int)
    requires forall b :: b in buttons ==> b.EnrolGame?
    ensures var all := buttons + (if page > 1 then [PrevPage(page - 1)] else [])
                       + (if page < total then [NextPage(page + 1)] else []) + [BackToMain];
      && (PrevPage(page - 1) in all <==> page > 1)
      && (NextPage(page + 1) in all <==> page < total)
      && all[|all| - 1] == BackToMain
  {
    var prev: seq<EnrolButton> := if page > 1 then [PrevPage(page - 1)] else [];
    var next: seq<EnrolButton> := if page < total then [NextPage(page + 1)] else [];
    var all := buttons + prev + next + [BackToMain];
    assert PrevPage(page - 1) !in buttons && NextPage(page + 1) !in buttons;
    assert PrevPage(page - 1) !in next && NextPage(page + 1) !in prev;
    assert PrevPage(page - 1) in all <==> PrevPage(page - 1) in prev;
    assert NextPage(page + 1) in all <==> NextPage(page + 1) in next;
  }

  /** Every game on one of the nearest days gets its button on exactly the page
      its position names: page i / 10 + 1 for the game at index i. */
  lemma EnrolPageFindsGame(games: seq<ScheduledGame>, i: nat)
    requires i < |games| && games[i].date in NearestDays(games)
    ensures EnrolGame(games[i].id) in EnrolPage(games, i / GamesPerPage + 1)
    ensures i / GamesPerPage + 1 <= PageCount(|games|, GamesPerPage)
  {
    var p := i / GamesPerPage;
    ItemOnItsPage(games, i, GamesPerPage);
    assert Page(games, p, GamesPerPage) == PySlice(games, (p + 1 - 1) * GamesPerPage, (p + 1 - 1) * GamesPerPage + GamesPerPage);
    assert games[i] in Page(games, p, GamesPerPage);
  }

  /** A button only offers a game of the listing. */
  lemma EnrolPageOnlyListedGames(games: seq<ScheduledGame>, page: int, id: int)
    requires EnrolGame(id) in EnrolPage(games, page)
    ensures exists g :: g in games && g.id == id && g.date in NearestDays(games)
  {
    var start := (page - 1) * GamesPerPage;
    var pageGames := PySlice(games, start, start + GamesPerPage);
    PySliceIsSublist(games, start, start + GamesPerPage);
    var buttons := GameButtons(pageGames, NearestDays(games));
    assert EnrolGame(id) in buttons;
  }

  // ---------------------------------------------------------------------------
  // The create-game dialog

  /** The handler the bot will call with the next message of the chat. */
  datatype DialogStep = Idle | AwaitName | AwaitMin | AwaitMax | AwaitDescription | AwaitLink | AwaitOnline

  /** What the bot answers to one message of the dialog. */
  datatype DialogReply =
    | AskMin | AskMax | AskDescription | AskLink | AskOnline
    | RetryMin | RetryMaxNotPositive | RetryMaxBelowMin(min: int) | RetryLink | RetryOnline
    | Created(draft: GameDraft)
    | Halted
    | Ignored

  /** The catalogue record `process_online` stores with `add_game`. */
  datatype GameDraft = GameDraft(name: Option<string>, minPlayers: int, maxPlayers: int,
                                 description: Option<string>, link: string, online: int)

  datatype DialogState = DialogState(step: DialogStep, name: Option<string>, minPlayers: Option<int>,
                                     maxPlayers: Option<int>, description: Option<string>,
                                     link: Option<string>, online: Option<int>)

  const AllowedSources: seq<string> :=
    ["tesera.ru", "boardgamegeek.com", "https://t.me/+HCf2_QuXVy5hMWRi", "https://t.me/c/2051862565/"]

  /** The link contains one of the allowed sources. */
  predicate LinkAllowed(link: string)
  {
    exists i :: 0 <= i < |AllowedSources| && IsSubstring(AllowedSources[i], link)
  }

  /** The loop of `process_link` over the allowed sources, stopping at the first match. */
  method IsValidSource(link: string) returns (valid: bool)
    ensures valid <==> LinkAllowed(link)
  {
    valid := false;
    var i := 0;
    while i < |AllowedSources|
      invariant 0 <= i <= |AllowedSources|
      invariant forall j :: 0 <= j < i ==> !IsSubstring(AllowedSources[j], link)
    {
      if IsSubstring(AllowedSources[i], link) {
        valid := true;
        return;
      }
      i := i + 1;
    }
  }

  /** `process_online`: 1 for "да"/"yes", 0 for "нет"/"no", in any case; None otherwise. */
  function OnlineAnswer(text: string): (r: Option<int>)
  {
    var t := Lower(text);
    if t in ["да", "yes"] then Some(1)
    else if t in ["нет", "no"] then Some(0)
    else None
  }

  /** The answer ignores letter case, and only the four words are understood. */
  lemma OnlineAnswerMeaning(text: string)
    ensures OnlineAnswer(Lower(text)) == OnlineAnswer(text)
    ensures OnlineAnswer(text).Some? ==> OnlineAnswer(text).value in {0, 1}
    ensures OnlineAnswer(text) == Some(1) <==> Lower(text) == "да" || Lower(text) == "yes"
    ensures OnlineAnswer(text) == Some(0) <==> Lower(text) == "нет" || Lower(text) == "no"
  {
    LowerIdempotent(text);
  }

  lemma OnlineAnswerExamples()
    ensures OnlineAnswer("Да") == Some(1) && OnlineAnswer("YES") == Some(1)
    ensures OnlineAnswer("Нет") == Some(0) && OnlineAnswer("No") == Some(0)
    ensures OnlineAnswer("maybe") == None
  {
    assert Lower("Да") == "да";
    assert Lower("YES") == "yes";
    assert Lower("Нет") == "нет";
    assert Lower("No") == "no";
    assert Lower("maybe") == "maybe";
  }

  /** What the dialog has established at each step: a positive minimum once
      past the minimum step, a maximum not below it once past the maximum step,
      and an allowed link once past the link step. */
  predicate DialogInvariant(s: DialogState)
  {
    && (s.step in {AwaitMax, AwaitDescription, AwaitLink, AwaitOnline} ==>
          s.minPlayers.Some? && s.minPlayers.value > 0)
    && (s.step in {AwaitDescription, AwaitLink, AwaitOnline} ==>
          s.maxPlayers.Some? && s.maxPlayers.value >= s.minPlayers.value)
    && (s.step == AwaitOnline ==> s.link.Some? && LinkAllowed(s.link.value))
  }

  /** One message of the dialog: the new state and the reply. `text` is None
      for a message without text; the steps that call a string method or
      `int` on it then raise, no handler stays registered and the dialog stops. */
  function Dialog(s: DialogState, text: Option<string>): (r: (DialogState, DialogReply))
    requires DialogInvariant(s)
    ensures DialogInvariant(r.0)
    ensures r.1.Created? ==> 0 < r.1.draft.minPlayers <= r.1.draft.maxPlayers
                             && LinkAllowed(r.1.draft.link) && r.1.draft.online in {0, 1}
    ensures (r.1.RetryMin? || r.1.RetryMaxNotPositive? || r.1.RetryMaxBelowMin? || r.1.RetryLink? || r.1.RetryOnline?)
              ==> r.0 == s
    ensures (r.1.Halted? || r.1.Ignored?) ==> r.0 == s.(step := Idle)
  {
    match s.step
    case Idle => (s, Ignored)
    case AwaitName => (s.(step := AwaitMin, name := text), AskMin)
    case AwaitMin => if text.None? then (s.(step := Idle), Halted) else MinStep(s, text.value)
    case AwaitMax => if text.None? then (s.(step := Idle), Halted) else MaxStep(s, text.value)
    case AwaitDescription => (s.(step := AwaitLink, description := text), AskLink)
    case AwaitLink => if text.None? then (s.(step := Idle), Halted) else LinkStep(s, text.value)
    case AwaitOnline => if text.None? then (s.(step := Idle), Halted) else OnlineStep(s, text.value)
  }

  /** `process_min_players`: a positive integer is stored and the maximum asked
      for; anything else repeats the question. */
  function MinStep(s: DialogState, text: string): (r: (DialogState, DialogReply))
    requires s.step == AwaitMin
    ensures r.1 == AskMax <==> ParseInt(text).Some? && ParseInt(text).value > 0
    ensures r.1 == AskMax ==> r.0 == s.(step := AwaitMax, minPlayers := ParseInt(text))
    ensures r.1 != AskMax ==> r == (s, RetryMin)
  {
    var n := ParseInt(text);
    if n.Some? && n.value > 0 then (s.(step := AwaitMax, minPlayers := n), AskMax) else (s, RetryMin)
  }

  /** `process_max_players`: a positive integer not below the minimum is stored
      and the description asked for; a smaller positive one is refused with the
      minimum quoted; anything else repeats the question. */
  function MaxStep(s: DialogState, text: string): (r: (DialogState, DialogReply))
    requires s.step == AwaitMax && DialogInvariant(s)
    ensures r.1 == AskDescription <==>
              ParseInt(text).Some? && ParseInt(text).value > 0 && ParseInt(text).value >= s.minPlayers.value
    ensures r.1 == AskDescription ==> r.0 == s.(step := AwaitDescription, maxPlayers := ParseInt(text))
    ensures r.1 != AskDescription ==> r.0 == s
    ensures r.1.RetryMaxBelowMin? <==>
              ParseInt(text).Some? && 0 < ParseInt(text).value < s.minPlayers.value
  {
    var n := ParseInt(text);
    if n.None? || n.value <= 0 then (s, RetryMaxNotPositive)
    else if n.value >= s.minPlayers.value then (s.(step := AwaitDescription, maxPlayers := n), AskDescription)
    else (s, RetryMaxBelowMin(s.minPlayers.value))
  }

  /** `process_link`: the stripped text is stored exactly when it names an
      allowed source; otherwise the question is repeated. */
  function LinkStep(s: DialogState, text: string): (r: (DialogState, DialogReply))
    requires s.step == AwaitLink
    ensures r.1 == AskOnline <==> LinkAllowed(Strip(text))
    ensures r.1 == AskOnline ==> r.0 == s.(step := AwaitOnline, link := Some(Strip(text)))
    ensures r.1 != AskOnline ==> r == (s, RetryLink)
  {
    var link := Strip(text);
    if LinkAllowed(link) then (s.(step := AwaitOnline, link := Some(link)), AskOnline) else (s, RetryLink)
  }

  /** `process_online`: a yes or no answer completes the record that
      `add_game` stores; anything else repeats the question. */
  function OnlineStep(s: DialogState, text: string): (r: (DialogState, DialogReply))
    requires s.step == AwaitOnline && DialogInvariant(s)
    ensures r.1.Created? <==> OnlineAnswer(text).Some?
    ensures r.1.Created? ==>
              && r.0 == s.(step := Idle, online := OnlineAnswer(text))
              && r.1.draft == GameDraft(s.name, s.minPlayers.value, s.maxPlayers.value, s.description,
                                        s.link.value, OnlineAnswer(text).value)
    ensures !r.1.Created? ==> r == (s, RetryOnline)
    ensures r.1.Created? ==> r.1.draft.online in {0, 1}
  {
    match OnlineAnswer(text)
    case None => (s, RetryOnline)
    case Some(v) =>
      OnlineAnswerMeaning(text);
      (s.(step := Idle, online := Some(v)),
       Created(GameDraft(s.name, s.minPlayers.value, s.maxPlayers.value, s.description, s.link.value, v)))
  }

  /** The module-level `game_state` the dialog fills in, with the step standing
      for the handler registered for the chat's next message. */
  class CreateGameDialog {
    var step: DialogStep
    var name: Option<string>
    var minPlayers: Option<int>
    var maxPlayers: Option<int>
    var description: Option<string>
    var link: Option<string>
    var online: Option<int>

    function State(): DialogState
      reads this
    {
      DialogState(step, name, minPlayers, maxPlayers, description, link, online)
    }

    ghost predicate Valid()
      reads this
    {
      DialogInvariant(State())
    }

    /** `GameState()`: every field unset, no handler registered. */
    constructor ()
      ensures Valid() && State() == DialogState(Idle, None, None, None, None, None, None)
    {
      step := Idle;
      name := None;
      minPlayers := None;
      maxPlayers := None;
      description := None;
      link := None;
      online := None;
    }

    /** `/create_game`: wait for the name, keeping whatever earlier answers hold.
        While a `process_*` handler is registered, the bot hands the next
        message to it, so the command is only seen when no step is pending. */
    method Start()
      requires Valid() && step == Idle
      modifies this
      ensures Valid() && State() == old(State()).(step := AwaitName)
    {
      step := AwaitName;
    }

    /** The registered `process_*` handler, run on one message. */
    method Receive(text: Option<string>) returns (reply: DialogReply)
      requires Valid()
      modifies this
      ensures Valid()
      ensures (State(), reply) == Dialog(old(State()), text)
    {
      if step == Idle {
        reply := Ignored;
      } else if step == AwaitName {
        name := text;
        step := AwaitMin;
        reply := AskMin;
      } else if step == AwaitDescription {
        description := text;
        step := AwaitLink;
        reply := AskLink;
      } else if text.None? {
        step := Idle;
        reply := Halted;
      } else if step == AwaitMin {
        reply := ReceiveMin(text.value);
      } else if step == AwaitMax {
        reply := ReceiveMax(text.value);
      } else if step == AwaitLink {
        reply := ReceiveLink(text.value);
      } else {
        reply := ReceiveOnline(text.value);
      }
    }

    /** `process_min_players`, in place. */
    method ReceiveMin(text: string) returns (reply: DialogReply)
      requires Valid() && step == AwaitMin
      modifies this
      ensures Valid()
      ensures (State(), reply) == MinStep(old(State()), text)
    {
      var n := ParseInt(text);
      if n.Some? && n.value > 0 {
        minPlayers := n;
        step := AwaitMax;
        reply := AskMax;
      } else {
        reply := RetryMin;
      }
    }

    /** `process_max_players`, in place. */
    method ReceiveMax(text: string) returns (reply: DialogReply)
      requires Valid() && step == AwaitMax
      modifies this
      ensures Valid()
      ensures (State(), reply) == MaxStep(old(State()), text)
    {
      var n := ParseInt(text);
      if n.None? || n.value <= 0 {
        reply := RetryMaxNotPositive;
      } else if n.value >= minPlayers.value {
        maxPlayers := n;
        step := AwaitDescription;
        reply := AskDescription;
      } else {
        reply := RetryMaxBelowMin(minPlayers.value);
      }
    }

    /** `process_link`, in place, with the loop over the allowed sources. */
    method ReceiveLink(text: string) returns (reply: DialogReply)
      requires Valid() && step == AwaitLink
      modifies this
      ensures Valid()
      ensures (State(), reply) == LinkStep(old(State()), text)
    {
      var candidate := Strip(text);
      var valid := IsValidSource(candidate);
      if valid {
        link := Some(candidate);
        step := AwaitOnline;
        reply := AskOnline;
      } else {
        reply := RetryLink;
      }
    }

    /** `process_online`, in place. */
    method ReceiveOnline(text: string) returns (reply: DialogReply)
      requires Valid() && step == AwaitOnline
      modifies this
      ensures Valid()
      ensures (State(), reply) == OnlineStep(old(State()), text)
    {
      var answer := OnlineAnswer(text);
      if answer.None? {
        reply := RetryOnline;
      } else {
        online := answer;
        step := Idle;
        reply := Created(GameDraft(name, minPlayers.value, maxPlayers.value, description, link.value, answer.value));
      }
    }
  }

  // ---------------------------------------------------------------------------
  // Unsubscribe

  /** Index of the first occurrence of x. */
  function IndexOf(xs: seq<string>, x: string): (r: Option<nat>)
    ensures r.Some? ==> r.value < |xs| && xs[r.value] == x && forall k :: 0 <= k < r.value ==> xs[k] != x
    ensures r.None? <==> x !in xs
  {
    if xs == [] then None
    else if xs[0] == x then Some(0)
    else
      match IndexOf(xs[1..], x)
      case None => None
      case Some(k) => Some(k + 1)
  }

  /** `xs.pop(k)`. */
  function RemoveAt<T>(xs: seq<T>, k: nat): (r: seq<T>)
    requires k < |xs|
    ensures |r| == |xs| - 1
    ensures forall j :: 0 <= j < k ==> r[j] == xs[j]
    ensures forall j :: k <= j < |r| ==> r[j] == xs[j + 1]
  {
    xs[..k] + xs[k + 1..]
  }

  function Zip(ids: seq<string>, nicks: seq<string>): (r: seq<(string, string)>)
    requires |ids| == |nicks|
    ensures |r| == |ids|
  {
    seq(|ids|, i requires 0 <= i < |ids| => (ids[i], nicks[i]))
  }

  /** Popping the same index from the id list and the nickname list pops one
      (id, nickname) pair: every remaining id keeps its nickname. */
  lemma RemoveAtKeepsPairs(ids: seq<string>, nicks: seq<string>, k: nat)
    requires |ids| == |nicks| && k < |ids|
    ensures Zip(RemoveAt(ids, k), RemoveAt(nicks, k)) == RemoveAt(Zip(ids, nicks), k)
  {
  }

  /** Removing the first occurrence takes exactly one copy of the value away. */
  lemma RemoveFirstOccurrence(xs: seq<string>, x: string)
    requires x in xs
    ensures multiset(RemoveAt(xs, IndexOf(xs, x).value)) == multiset(xs) - multiset{x}
  {
    var k := IndexOf(xs, x).value;
    RemoveAtMultiset(xs, k);
  }

  lemma RemoveAtMultiset<T>(xs: seq<T>, k: nat)
    requires k < |xs|
    ensures multiset(RemoveAt(xs, k)) == multiset(xs) - multiset{xs[k]}
  {
    var before, after := xs[..k], xs[k + 1..];
    assert xs == before + [xs[k]] + after;
    assert RemoveAt(xs, k) == before + after;
  }

  datatype UnsubscribeOutcome =
    | UnsubscribeNotFound
    | InitiatorCannotLeave
    | NotEnrolled
    | NicknameMissing
    | Unsubscribed(playerIds: string, playerNicknames: string)

  /** The decision of `handle_unsubscribe_game` for the visible session found
      (or not) under the id. */
  function UnsubscribeDecision(game: Option<ScheduledGame>, userId: int): (r: UnsubscribeOutcome)
  {
    if game.None? then UnsubscribeNotFound
    else
      var g := game.value;
      if IntToString(userId) == IntToString(g.initiatorId) then InitiatorCannotLeave
      else
        var ids := SplitOrEmpty(g.playerIds);
        var nicks := SplitOrEmpty(g.playerNicknames);
        match IndexOf(ids, IntToString(userId))
        case None => NotEnrolled
        case Some(k) =>
          if k >= |nicks| then NicknameMissing
          else Unsubscribed(Join(RemoveAt(ids, k)), Join(RemoveAt(nicks, k)))
  }

  /** The initiator is refused, and only the initiator. */
  lemma UnsubscribeInitiator(g: ScheduledGame, userId: int)
    ensures UnsubscribeDecision(Some(g), userId) == InitiatorCannotLeave <==> userId == g.initiatorId
  {
    IntToStringInjective(userId, g.initiatorId);
  }

  /** Anyone else who is not listed is told so, and nothing is written. */
  lemma UnsubscribeNotListed(g: ScheduledGame, userId: int)
    requires userId != g.initiatorId
    ensures UnsubscribeDecision(Some(g), userId) == NotEnrolled <==> IntToString(userId) !in SplitOrEmpty(g.playerIds)
  {
    IntToStringInjective(userId, g.initiatorId);
  }

  /** A user who leaves loses exactly the first occurrence of their id, and the
      nickname at the same index goes with it: the lists read back from the
      written columns are the old ones with that index popped. */
  lemma UnsubscribeReadBack(g: ScheduledGame, userId: int)
    requires UnsubscribeDecision(Some(g), userId).Unsubscribed?
    ensures var ids := SplitOrEmpty(g.playerIds);
            var nicks := SplitOrEmpty(g.playerNicknames);
            var k := IndexOf(ids, IntToString(userId)).value;
            var r := UnsubscribeDecision(Some(g), userId);
            && k < |ids| && k < |nicks|
            && multiset(RemoveAt(ids, k)) == multiset(ids) - multiset{IntToString(userId)}
            && (RemoveAt(ids, k) != [""] ==> SplitOrEmpty(r.playerIds) == RemoveAt(ids, k))
            && (RemoveAt(nicks, k) != [""] ==> SplitOrEmpty(r.playerNicknames) == RemoveAt(nicks, k))
  {
    var ids := SplitOrEmpty(g.playerIds);
    var nicks := SplitOrEmpty(g.playerNicknames);
    var k := IndexOf(ids, IntToString(userId)).value;
    RemoveFirstOccurrence(ids, IntToString(userId));
    NoCommasRemoveAt(ids, k);
    NoCommasRemoveAt(nicks, k);
    if RemoveAt(ids, k) != [""] {
      SplitOrEmptyJoin(RemoveAt(ids, k));
    }
    if RemoveAt(nicks, k) != [""] {
      SplitOrEmptyJoin(RemoveAt(nicks, k));
    }
  }

  lemma NoCommasRemoveAt(xs: seq<string>, k: nat)
    requires NoCommas(xs) && k < |xs|
    ensures NoCommas(RemoveAt(xs, k))
  {
    var r := RemoveAt(xs, k);
    forall j | 0 <= j < |r| ensures Comma !in r[j] {
      assert r[j] == xs[if j < k then j else j + 1];
    }
  }

  /** `handle_unsubscribe_game`: look the session up, decide, and on success
      write the shortened lists back. */
  method HandleUnsubscribe(table: GameTable, gameId: int, userId: int) returns (outcome: UnsubscribeOutcome)
    requires table.Valid()
    modifies table
    ensures table.Valid()
    ensures outcome == UnsubscribeDecision(VisibleById(old(table.rows), gameId), userId)
    ensures !outcome.Unsubscribed? ==> table.rows == old(table.rows)
    ensures outcome.Unsubscribed? ==>
              var k := IndexOfId(old(table.rows), gameId).value;
              table.rows == old(table.rows)[k := old(table.rows)[k].(playerIds := outcome.playerIds,
                                                                    playerNicknames := outcome.playerNicknames)]
  {
    var game := VisibleById(table.rows, gameId);
    outcome := UnsubscribeDecision(game, userId);
    if outcome.Unsubscribed? {
      VisibleIsFirstWithId(table.rows, gameId);
      var _ := table.UpdateScheduledGamePlayers(gameId, outcome.playerIds, outcome.playerNicknames);
    }
  }

  /** In a table with distinct ids, a visible session is the row the id lookup finds. */
  lemma VisibleIsFirstWithId(rows: seq<ScheduledGame>, id: int)
    requires IdsIncreasing(rows) && VisibleById(rows, id).Some?
    ensures IndexOfId(rows, id).Some? && rows[IndexOfId(rows, id).value] == VisibleById(rows, id).value
  {
    var g := VisibleById(rows, id).value;
    var j :| 0 <= j < |rows| && rows[j] == g;
    var k := IndexOfId(rows, id).value;
    assert rows[j].id == rows[k].id;
    assert j == k;
  }

  // ---------------------------------------------------------------------------
  // Enrol

  datatype EnrolOutcome = EnrolFailed | AlreadyEnrolled | Enrolled(game: ScheduledGame)

  /** The `enroll_game_<id>` branch of `handle_callback`: a missing or skipped
      session is an error, a listed user is told so, anyone else is appended. */
  method HandleEnroll(table: GameTable, gameId: int, userId: int, nickname: string) returns (outcome: EnrolOutcome)
    requires table.Valid()
    modifies table
    ensures table.Valid()
    ensures VisibleById(old(table.rows), gameId).None? ==> outcome == EnrolFailed && table.rows == old(table.rows)
    ensures VisibleById(old(table.rows), gameId).Some? ==>
              var g := VisibleById(old(table.rows), gameId).value;
              if IntToString(userId) in SplitOrEmpty(g.playerIds) then
                outcome == AlreadyEnrolled && table.rows == old(table.rows)
              else
                && outcome.Enrolled?
                && SplitOrEmpty(outcome.game.playerIds) == SplitOrEmpty(g.playerIds) + [IntToString(userId)]
                && outcome.game == g.(playerIds := outcome.game.playerIds,
                                      playerNicknames := AppendItem(g.playerNicknames, nickname))
                && table.rows == old(table.rows)[IndexOfId(old(table.rows), gameId).value := outcome.game]
  {
    var game := VisibleById(table.rows, gameId);
    if game.None? {
      return EnrolFailed;
    }
    var ids := SplitOrEmpty(game.value.playerIds);
    if IntToString(userId) in ids {
      return AlreadyEnrolled;
    }
    VisibleIsFirstWithId(table.rows, gameId);
    var r := table.AddPlayerToGame(userId, gameId, game.value.gameId, nickname);
    outcome := Enrolled(r.value);
  }

  /** After a successful enrolment the user is listed, so enrolling again is refused. */
  lemma EnrolTwiceIsRefused(g: ScheduledGame, userId: int)
    ensures IntToString(userId) in SplitOrEmpty(AppendItem(g.playerIds, IntToString(userId)))
  {
    AppendItemReadBack(g.playerIds, IntToString(userId));
  }

  // ---------------------------------------------------------------------------
  // Delete

  /** `initiator_id and str(user_id) == str(initiator_id)`: the session exists,
      its initiator id is not 0, and the user is that initiator. */
  function MayDelete(initiator: Option<int>, userId: int): (r: bool)
  {
    initiator.Some? && initiator.value != 0 && IntToString(userId) == IntToString(initiator.value)
  }

  lemma MayDeleteMeaning(initiator: Option<int>, userId: int)
    ensures MayDelete(initiator, userId) <==> initiator == Some(userId) && userId != 0
  {
    if initiator.Some? {
      IntToStringInjective(userId, initiator.value);
    }
  }

  /** `handle_delete_confirmation`: the initiator marks the one session skipped;
      anyone else changes nothing. */
  method HandleDeleteSingle(table: GameTable, gameId: int, userId: int) returns (deleted: bool)
    requires table.Valid()
    modifies table
    ensures table.Valid()
    ensures deleted == MayDelete(InitiatorById(old(table.rows), gameId), userId)
    ensures !deleted ==> table.rows == old(table.rows)
    ensures deleted ==>
              var k := IndexOfId(old(table.rows), gameId).value;
              table.rows == old(table.rows)[k := old(table.rows)[k].(skipped := true)]
  {
    var initiator := InitiatorById(table.rows, gameId);
    deleted := MayDelete(initiator, userId);
    if deleted {
      var _ := table.UpdateGameSkippedStatus(gameId, true);
    }
  }

  /** The ids `handle_delete_series` removes: the tree's pieces, plus the game's
      own id when the tree does not list it; nothing when the tree is empty. */
  function SeriesIds(tree: Option<string>, gameId: int): (r: seq<string>)
    ensures tree.None? || tree.value == "" ==> r == []
    ensures tree.Some? && tree.value != "" ==>
              IntToString(gameId) in r && forall x :: x in r <==> x in Split(tree.value) || x == IntToString(gameId)
  {
    if tree.None? || tree.value == "" then []
    else
      var ids := Split(tree.value);
      if IntToString(gameId) !in ids then ids + [IntToString(gameId)] else ids
  }

  /** `handle_delete_series`, which does not check who asks: when the session
      has a series tree, every row of the series and the session itself go. */
  method HandleDeleteSeries(table: GameTable, gameId: int) returns (deleted: bool)
    requires table.Valid()
    modifies table
    ensures table.Valid()
    ensures var tree := GameTreeById(old(table.rows), gameId);
            deleted <==> tree.Some? && tree.value != ""
    ensures deleted ==> table.rows == DeleteByIds(old(table.rows), SeriesIds(GameTreeById(old(table.rows), gameId), gameId))
    ensures !deleted ==> table.rows == old(table.rows)
  {
    var tree := GameTreeById(table.rows, gameId);
    deleted := tree.Some? && tree.value != "";
    if deleted {
      table.DeleteGamesByIds(SeriesIds(tree, gameId));
    }
  }

  /** A series delete removes the session and every listed member of its tree. */
  lemma SeriesDeleteRemovesSeries(rows: seq<ScheduledGame>, gameId: int, g: ScheduledGame)
    requires GameTreeById(rows, gameId).Some? && GameTreeById(rows, gameId).value != ""
    requires g in rows && (g.id == gameId || IntToString(g.id) in Split(GameTreeById(rows, gameId).value))
    ensures g !in DeleteByIds(rows, SeriesIds(GameTreeById(rows, gameId), gameId))
  {
  }

  // ---------------------------------------------------------------------------
  // The "my games" listing

  /** `enrolled_users`: the nickname at the index of each listed id, "Гость"
      for an empty one. */
  function EnrolledUsers(ids: seq<string>, nicks: seq<string>): (r: seq<string>)
    requires |nicks| >= |ids|
    ensures |r| == |ids|
    ensures forall i :: 0 <= i < |ids| ==> r[i] == (if nicks[i] != "" then nicks[i] else "Гость")
  {
    seq(|ids|, i requires 0 <= i < |ids| => if nicks[i] != "" then nicks[i] else "Гость")
  }

  /** The line written for an enrolled user. */
  function Line(u: string): string
  {
    if u == "Гость" then "Гость" else "@" + u
  }

  /** The lines `format_enrolled_games` writes under a session, without the
      initiator's name. None when the nickname list is shorter than the id
      list (an IndexError). */
  function EnrolledLines(ids: seq<string>, nicks: seq<string>, initiator: string): (r: Option<seq<string>>)
  {
    if |nicks| < |ids| then None
    else Some(LinesFrom(EnrolledUsers(ids, nicks), initiator))
  }

  /** One line per user other than the initiator, in list order. */
  function LinesFrom(users: seq<string>, initiator: string): (r: seq<string>)
    ensures |r| == |users| - multiset(users)[initiator]
    ensures forall l :: l in r ==> l == "Гость" || exists u :: u in users && u != initiator && u != "Гость" && l == "@" + u
    ensures forall u :: u in users && u != initiator ==> Line(u) in r
  {
    if users == [] then []
    else
      var rest := LinesFrom(users[1..], initiator);
      assert users == [users[0]] + users[1..];
      assert multiset(users) == multiset{users[0]} + multiset(users[1..]);
      if users[0] == initiator then rest
      else [Line(users[0])] + rest
  }

  /** Lines of a concatenation are the lines of each part, in order; with
      LinesOfOne this fixes the order of the lines completely. */
  lemma {:induction false} LinesFromAppend(a: seq<string>, b: seq<string>, initiator: string)
    ensures LinesFrom(a + b, initiator) == LinesFrom(a, initiator) + LinesFrom(b, initiator)
  {
    if a == [] {
      assert a + b == b;
    } else {
      assert (a + b)[1..] == a[1..] + b;
      LinesFromAppend(a[1..], b, initiator);
    }
  }

  /** A single user gives its line, or nothing when it is the initiator. */
  lemma LinesOfOne(u: string, initiator: string)
    ensures LinesFrom([u], initiator) == if u == initiator then [] else [Line(u)]
  {
    assert [u][1..] == [];
  }

  /** Two guests give two "Гость" lines. */
  lemma TwoGuestsTwoLines()
    ensures LinesFrom(["Гость", "Гость"], "alice") == ["Гость", "Гость"]
  {
    assert ["Гость", "Гость"][1..] == ["Гость"];
    LinesOfOne("Гость", "alice");
  }

  /** `num_players`: the length of `enrolled_users`, taken before the initiator is removed. */
  function PlayerCount(ids: seq<string>, nicks: seq<string>): (r: Option<nat>)
  {
    if |nicks| < |ids| then None else Some(|EnrolledUsers(ids, nicks)|)
  }

  /** The count is there exactly when the lines are, and it is the number of
      lines plus the entries carrying the initiator's name. */
  lemma PlayerCountMeaning(ids: seq<string>, nicks: seq<string>, initiator: string)
    ensures PlayerCount(ids, nicks).Some? <==> EnrolledLines(ids, nicks, initiator).Some?
    ensures PlayerCount(ids, nicks).Some? ==>
      PlayerCount(ids, nicks).value
        == |EnrolledLines(ids, nicks, initiator).value| + multiset(EnrolledUsers(ids, nicks))[initiator]
    ensures PlayerCount(ids, nicks).Some? ==> PlayerCount(ids, nicks).value == |ids|
  {
  }

  /** Order of `sorted(enrolled_games, key=datetime)`. */
  function StartsAtOrBefore(a: ScheduledGame, b: ScheduledGame): bool
  {
    a.datetime <= b.datetime
  }

  /** The sessions of the listing in start order; sessions starting at the
      same minute keep their order, as Python's `sorted` is stable. */
  function MyGamesOrder(games: seq<ScheduledGame>): (r: seq<ScheduledGame>)
    ensures Sorting.SortedBy(r, StartsAtOrBefore) && multiset(r) == multiset(games)
    ensures forall y :: Sorting.Level(r, y, StartsAtOrBefore) == Sorting.Level(games, y, StartsAtOrBefore)
  {
    assert Sorting.TotalPreorder(StartsAtOrBefore);
    var r := Sorting.SortBy(games, StartsAtOrBefore);
    forall y ensures Sorting.Level(r, y, StartsAtOrBefore) == Sorting.Level(games, y, StartsAtOrBefore) {
      Sorting.SortByStable(games, StartsAtOrBefore, y);
    }
    r
  }

  // ---------------------------------------------------------------------------
  // /start

  /** `handle_start`: drop sessions that started more than 30 minutes ago, run
      the weekly recurrence, then list the upcoming sessions. */
  method HandleStart(table: GameTable, now: int, today: int) returns (listing: seq<ScheduledGame>)
    requires table.Valid()
    modifies table
    ensures table.Valid()
    ensures var kept := DeleteBefore(old(table.rows), now - 30);
            table.rows == ProlongRows(kept, Repeating(kept), now)
    ensures listing == UpcomingGames(table.rows, today)
    ensures forall i :: 0 <= i < |table.rows| ==> table.rows[i].datetime >= now - 30
    ensures NoRoomClash(old(table.rows)) ==> NoRoomClash(table.rows)
  {
    table.DeletePastGames(now - 30);
    ghost var kept := table.rows;
    table.Prolong(now);
    ProlongedNotPast(table.rows, kept, now, now - 30);
    listing := UpcomingGames(table.rows, today);
  }

  /** Rows kept from before the recurrence are not past the cutoff, and the
      copies it appends start inside the horizon, so no row is. */
  lemma ProlongedNotPast(rows: seq<ScheduledGame>, kept: seq<ScheduledGame>, now: int, cutoff: int)
    requires cutoff <= now && ProlongOutcome(kept, rows, now)
    requires forall x :: x in kept ==> x.datetime >= cutoff
    ensures forall i :: 0 <= i < |rows| ==> rows[i].datetime >= cutoff
  {
    forall i | 0 <= i < |rows| ensures rows[i].datetime >= cutoff {
      if i < |kept| {
        SameButTreeFields(rows[i], kept[i]);
        assert kept[i] in kept;
      } else {
        assert exists p :: p in Repeating(kept) && IsWeeklyCopy(rows[i], p, now);
        var p :| p in Repeating(kept) && IsWeeklyCopy(rows[i], p, now);
        CopyStartsAtNextWeek(rows[i], p, now);
      }
    }
  }

  /** A weekly copy starts one week after its parent, inside the horizon. */
  lemma CopyStartsAtNextWeek(c: ScheduledGame, p: ScheduledGame, now: int)
    requires IsWeeklyCopy(c, p, now)
    ensures c.datetime == NextWeek(p) && c.datetime >= now
  {
    assert c.(id := 0, gameTree := "").datetime == WeeklyCopy(p, 0, c.room.value).(gameTree := "").datetime;
  }
}
