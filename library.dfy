/** The game catalogue (the `games` table) as the library listings read it:
    lookups, the online and offline lists ordered by name, the paged listing
    with its navigation buttons, the callback data of the buttons, and the
    information card of one game. */
module Library {
  import opened Wrappers
  import opened Text
  import opened Paging
  import Sorting

  /** Games per page of every library listing. */
  const GamesPerPage: nat := 11

  /** A catalogue row. The nullable text columns are Options; `online` is the
      Boolean column. */
  datatype Game = Game(id: int, name: Option<string>, online: bool, minPlayers: int, maxPlayers: int,
                       description: Option<string>, link: Option<string>)

  /** `get_game_details`: the first game with this id. */
  function GameDetails(catalogue: seq<Game>, id: int): (r: Option<Game>)
    ensures r.Some? ==> r.value in catalogue && r.value.id == id
    ensures r.None? <==> forall g :: g in catalogue ==> g.id != id
  {
    if catalogue == [] then None
    else if catalogue[0].id == id then Some(catalogue[0])
    else
      var r := GameDetails(catalogue[1..], id);
      assert forall g :: g in catalogue ==> g == catalogue[0] || g in catalogue[1..];
      r
  }

  // ---------------------------------------------------------------------------
  // Listings ordered by name

  /** `ORDER BY name`: NULL names first, then code-point order of the text. */
  predicate NameLe(a: Game, b: Game)
  {
    a.name.None? || (b.name.Some? && !StrLt(b.name.value, a.name.value))
  }

  lemma NameLeIsTotalPreorder()
    ensures Sorting.TotalPreorder(NameLe)
  {
    forall a: Game, b: Game ensures NameLe(a, b) || NameLe(b, a) {
      if a.name.Some? && b.name.Some? && StrLt(b.name.value, a.name.value) {
        StrLtAsymmetric(b.name.value, a.name.value);
      }
    }
    forall a: Game, b: Game, c: Game | NameLe(a, b) && NameLe(b, c) ensures NameLe(a, c) {
      if a.name.Some? {
        var x, y, z := a.name.value, b.name.value, c.name.value;
        if StrLt(z, x) {
          if x != y { StrLtTotal(x, y); }
          if y != z { StrLtTotal(y, z); }
          if x != y && y != z { StrLtTransitive(x, y, z); }
          StrLtAsymmetric(z, x);
        }
      }
    }
  }

  /** The games whose `online` column equals `online`, in catalogue order. */
  function WithOnline(catalogue: seq<Game>, online: bool): (r: seq<Game>)
    ensures forall g :: g in r <==> g in catalogue && g.online == online
    ensures forall g: Game :: g.online == online ==> multiset(r)[g] == multiset(catalogue)[g]
    ensures forall g: Game :: g.online != online ==> multiset(r)[g] == 0
  {
    if catalogue == [] then []
    else
      var rest := WithOnline(catalogue[1..], online);
      assert catalogue == [catalogue[0]] + catalogue[1..];
      if catalogue[0].online == online then [catalogue[0]] + rest else rest
  }

  /** The games of a listing query, ordered by name. */
  function ByName(games: seq<Game>): (r: seq<Game>)
    ensures Sorting.SortedBy(r, NameLe) && multiset(r) == multiset(games)
  {
    NameLeIsTotalPreorder();
    Sorting.SortBy(games, NameLe)
  }

  /** `get_all_games`: the whole catalogue, ordered by name. */
  function AllGames(catalogue: seq<Game>): (r: seq<Game>)
    ensures Sorting.SortedBy(r, NameLe) && multiset(r) == multiset(catalogue)
  {
    ByName(catalogue)
  }

  /** `get_offline_games` (`online == 0`) or `get_online_games` (`online == 1`):
      exactly the games with that flag, each as often as in the catalogue,
      ordered by name. */
  function GamesWithOnline(catalogue: seq<Game>, online: bool): (r: seq<Game>)
    ensures forall g :: g in r <==> g in catalogue && g.online == online
    ensures forall g: Game :: g.online == online ==> multiset(r)[g] == multiset(catalogue)[g]
    ensures Sorting.SortedBy(r, NameLe)
  {
    var r := ByName(WithOnline(catalogue, online));
    assert forall g :: g in r <==> g in multiset(r);
    r
  }

  // ---------------------------------------------------------------------------
  // The paged listing

  datatype Nav = PrevPage(page: int) | NextPage(page: int)

  /** What a listing shows: for an empty list only a notice and no keyboard;
      otherwise one button per game of the page and the navigation row. */
  datatype Listing = EmptyNotice | Keyboard(games: seq<Game>, nav: seq<Nav>)

  /** `game_library` / `online_library` on the list the query returned: the
      page `games[page*11 : (page+1)*11]`, and, only when there is more than one
      page, "previous" when page > 0 and "next" when page < total_pages - 1. */
  function LibraryListing(games: seq<Game>, page: int): (r: Listing)
    ensures r.EmptyNotice? <==> games == []
  {
    if games == [] then EmptyNotice
    else
      var total := PageCount(|games|, GamesPerPage);
      Keyboard(Page(games, page, GamesPerPage),
               if total > 1 then
                 (if page > 0 then [PrevPage(page - 1)] else [])
                 + (if page < total - 1 then [NextPage(page + 1)] else [])
               else [])
  }

  /** The navigation row of a listing: "previous" exactly when there are
      several pages and this is not the first, "next" exactly when there are
      several pages and this is not the last; a list that fits on one page has
      no navigation at all. */
  lemma LibraryNavigation(games: seq<Game>, page: int)
    requires games != []
    ensures var total := PageCount(|games|, GamesPerPage);
            var nav := LibraryListing(games, page).nav;
            && (PrevPage(page - 1) in nav <==> total > 1 && page > 0)
            && (NextPage(page + 1) in nav <==> total > 1 && page < total - 1)
            && (|games| <= GamesPerPage ==> nav == [])
  {
    PageCountIsCeiling(|games|, GamesPerPage);
  }

  /** Every game of the list is shown on page i / 11, and the pages the
      navigation can reach (0 .. total_pages - 1) are never empty. */
  lemma LibraryShowsEveryGame(games: seq<Game>, i: nat)
    requires i < |games|
    ensures var p := i / GamesPerPage;
            && p < PageCount(|games|, GamesPerPage)
            && games[i] in LibraryListing(games, p).games
  {
    ItemOnItsPage(games, i, GamesPerPage);
  }

  /** The navigation stays on pages that hold games: from a page with games,
      "previous" and "next" lead to pages with games. */
  lemma LibraryNavigationStaysInRange(games: seq<Game>, page: nat, target: Nav)
    requires games != [] && page < PageCount(|games|, GamesPerPage)
    requires target in LibraryListing(games, page).nav
    ensures target.PrevPage? ==> target.page >= 0 && LibraryListing(games, target.page).games != []
    ensures target.NextPage? ==> LibraryListing(games, target.page).games != []
  {
    if target.PrevPage? {
      PageNonEmptyIffInRange(games, page - 1, GamesPerPage);
    } else {
      PageNonEmptyIffInRange(games, page + 1, GamesPerPage);
    }
  }

  // ---------------------------------------------------------------------------
  // Callback data

  /** `data.split('_')[-1]`: the text after the last underscore. */
  function LastField(data: string): (r: string)
    ensures '_' !in r && |r| <= |data|
  {
    if data == [] then []
    else if data[|data| - 1] == '_' then []
    else LastField(data[..|data| - 1]) + [data[|data| - 1]]
  }

  /** A field without underscores appended to any prefix ending in one is read back. */
  lemma {:induction false} LastFieldOfAppended(prefix: string, field: string)
    requires |prefix| > 0 && prefix[|prefix| - 1] == '_' && '_' !in field
    ensures LastField(prefix + field) == field
    decreases |field|
  {
    if field == [] {
      assert prefix + field == prefix;
    } else {
      var front := field[..|field| - 1];
      assert (prefix + field)[..|prefix + field| - 1] == prefix + front;
      LastFieldOfAppended(prefix, front);
      assert field == front + [field[|field| - 1]];
    }
  }

  lemma NoUnderscoreInInt(n: int)
    ensures '_' !in IntToString(n)
  {
    var s := IntToString(n);
    if n < 0 {
      assert s == "-" + NatToString(-n);
      assert forall i :: 1 <= i < |s| ==> IsDigit(s[i]) by {
        forall i | 1 <= i < |s| ensures IsDigit(s[i]) {
          assert s[i] == NatToString(-n)[i - 1];
        }
      }
    }
  }

  /** The callback data of a game button in a library listing. */
  function GameInfoCallback(id: int): string
  {
    "game_info_" + IntToString(id)
  }

  /** The callback data of a navigation button of the offline (`library`) or
      online listing. */
  function NavCallback(nav: Nav, online: bool): string
  {
    (if nav.PrevPage? then "prev_page_" else "next_page_")
    + (if online then "online_" else "library_")
    + IntToString(nav.page)
  }

  /** `int(call.data.split('_')[-1])` gives back the id a game button carries
      and the page a navigation button carries. */
  lemma CallbackRoundTrip(id: int, nav: Nav, online: bool)
    ensures ParseInt(LastField(GameInfoCallback(id))) == Some(id)
    ensures ParseInt(LastField(NavCallback(nav, online))) == Some(nav.page)
  {
    NoUnderscoreInInt(id);
    NoUnderscoreInInt(nav.page);
    LastFieldOfAppended("game_info_", IntToString(id));
    var prefix := (if nav.PrevPage? then "prev_page_" else "next_page_") + (if online then "online_" else "library_");
    assert NavCallback(nav, online) == prefix + IntToString(nav.page);
    LastFieldOfAppended(prefix, IntToString(nav.page));
    ParseIntToString(id);
    ParseIntToString(nav.page);
  }

  // ---------------------------------------------------------------------------
  // The information card

  /** Python's `f"{x}"` for a nullable text column. */
  function PyStr(x: Option<string>): string
  {
    match x
    case None => "None"
    case Some(s) => s
  }

  const PlayersPrefix: string := "Число игроков: "

  function PlayersLine(g: Game): string
  {
    PlayersPrefix + IntToString(g.minPlayers) + "-" + IntToString(g.maxPlayers)
  }

  /** The first line of a card: the game's name linked to its page. */
  function LinkLine(g: Game): string
  {
    "<b><a href='" + PyStr(g.link) + "'>" + PyStr(g.name) + "</a></b>\n"
  }

  function CardTail(g: Game): string
  {
    "</code>\n \n<code>" + PyStr(g.description) + " </code>\n"
  }

  /** The card of a game: the linked name, then the players line and the
      description in code blocks. */
  function Card(g: Game): string
  {
    LinkLine(g) + "<code>" + PlayersLine(g) + CardTail(g)
  }

  /** A card opens with the linked name and contains the players line. */
  lemma CardShape(g: Game)
    ensures StartsWith(Card(g), LinkLine(g)) && IsSubstring(PlayersLine(g), Card(g))
  {
    var open := LinkLine(g) + "<code>";
    InfixIsSubstring(open, PlayersLine(g), CardTail(g));
    assert Card(g) == open + PlayersLine(g) + CardTail(g);
    assert Card(g)[..|LinkLine(g)|] == open[..|LinkLine(g)|];
    assert open[..|LinkLine(g)|] == LinkLine(g);
  }

  /** `get_game_info_message`: the card of the game with this id, or the
      not-found text (a configuration string) when there is none. The card
      opens with the linked name and shows the players line. */
  function GameInfoMessage(catalogue: seq<Game>, id: int, notFound: string): (r: string)
    ensures GameDetails(catalogue, id).None? ==> r == notFound
    ensures GameDetails(catalogue, id).Some? ==>
              var g := GameDetails(catalogue, id).value;
              StartsWith(r, LinkLine(g)) && IsSubstring(PlayersLine(g), r)
  {
    match GameDetails(catalogue, id)
    case None => notFound
    case Some(g) =>
      CardShape(g);
      Card(g)
  }

  /** The players line of a card reads back as the game's minimum and maximum. */
  lemma PlayersLineReadBack(g: Game)
    ensures var line := PlayersLine(g);
            var minText := IntToString(g.minPlayers);
            var n := |PlayersPrefix|;
            && line[..n] == PlayersPrefix
            && ParseInt(line[n..n + |minText|]) == Some(g.minPlayers)
            && line[n + |minText|] == '-'
            && ParseInt(line[n + |minText| + 1..]) == Some(g.maxPlayers)
  {
    var minText := IntToString(g.minPlayers);
    var maxText := IntToString(g.maxPlayers);
    ConcatSlices(PlayersPrefix, minText, "-" + maxText);
    assert PlayersLine(g) == PlayersPrefix + minText + ("-" + maxText);
    assert ("-" + maxText)[1..] == maxText;
    ParseIntToString(g.minPlayers);
    ParseIntToString(g.maxPlayers);
  }
}
