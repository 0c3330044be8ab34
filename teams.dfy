/** The team side of the statistics client: per-team win/loss tallies for a
    season, built from the season's game records and the list of teams. */
module Teams {

  /** A team as the statistics service describes it. */
  datatype Team = Team(
    id: int,
    abbr: string,
    city: string,
    conference: string,
    division: string,
    fullName: string,
    name: string)

  /** One regular-season game: the two teams by id and the final score. */
  datatype Game = Game(homeId: int, visitorId: int, homeScore: int, visitorScore: int)

  /** The record reported for one team: its display name and four counters. */
  datatype Tally = Tally(
    teamName: string,
    wonHome: nat,
    wonVisitor: nat,
    lostHome: nat,
    lostVisitor: nat)

  /** Which counter of a team's tally one game adds to, if any. */
  datatype Counter = HomeWin | HomeLoss | VisitorWin | VisitorLoss | Ignored

  // ---------------------------------------------------------------------------
  // Ordering the teams by id

  predicate SortedById(ts: seq<Team>) {
    forall i, j :: 0 <= i < j < |ts| ==> ts[i].id <= ts[j].id
  }

  /** Puts `t` in front of the first team whose id is not smaller. */
  function InsertById(t: Team, s: seq<Team>): (r: seq<Team>)
    requires SortedById(s)
    ensures SortedById(r)
    ensures |r| == |s| + 1
    ensures forall x :: x in r ==> x == t || x in s
    ensures multiset(r) == multiset(s) + multiset{t}
  {
    if s == [] || t.id <= s[0].id then
      [t] + s
    else
      var rest := InsertById(t, s[1..]);
      var r := [s[0]] + rest;
      assert s == [s[0]] + s[1..];
      assert SortedById(r) by {
        forall i, j | 0 <= i < j < |r| ensures r[i].id <= r[j].id {
          assert r[j] == rest[j - 1];
          if i == 0 {
            assert rest[j - 1] in rest;
          } else {
            assert r[i] == rest[i - 1];
          }
        }
      }
      r
  }

  /** The team list ordered by ascending id (the `sort` by `id_` before the
      tallies are built): ordered, and the same teams as before. */
  function SortById(ts: seq<Team>): (r: seq<Team>)
    ensures SortedById(r)
    ensures |r| == |ts|
    ensures forall x :: x in r ==> x in ts
    ensures multiset(r) == multiset(ts)
  {
    if ts == [] then []
    else
      assert ts == [ts[0]] + ts[1..];
      InsertById(ts[0], SortById(ts[1..]))
  }

  /** No two teams of the list share an id. */
  predicate DistinctIds(ts: seq<Team>) {
    forall i, j :: 0 <= i < j < |ts| ==> ts[i].id != ts[j].id
  }

  predicate HasId(ts: seq<Team>, id: int) {
    exists i :: 0 <= i < |ts| && ts[i].id == id
  }

  lemma {:induction false} InsertKeepsDistinct(t: Team, s: seq<Team>)
    requires SortedById(s) && DistinctIds(s)
    requires !HasId(s, t.id)
    ensures DistinctIds(InsertById(t, s))
    decreases |s|
  {
    if s != [] && t.id > s[0].id {
      var tail := s[1..];
      var rest := InsertById(t, tail);
      assert forall i :: 0 <= i < |tail| ==> tail[i] == s[i + 1];
      InsertKeepsDistinct(t, tail);
      forall k | 0 <= k < |rest| ensures rest[k].id != s[0].id {
        var x := rest[k];
        if x != t {
          assert x in tail;
          var m :| 0 <= m < |tail| && tail[m] == x;
          assert s[m + 1] == x;
        }
      }
      var r := [s[0]] + rest;
      assert r == InsertById(t, s);
      forall i, j | 0 <= i < j < |r| ensures r[i].id != r[j].id {
        assert r[j] == rest[j - 1];
        if i > 0 {
          assert r[i] == rest[i - 1];
        }
      }
    }
  }

  /** Sorting keeps the ids distinct. */
  lemma {:induction false} SortKeepsDistinct(ts: seq<Team>)
    requires DistinctIds(ts)
    ensures DistinctIds(SortById(ts))
    decreases |ts|
  {
    if ts != [] {
      var tail := ts[1..];
      assert forall i :: 0 <= i < |tail| ==> tail[i] == ts[i + 1];
      SortKeepsDistinct(tail);
      var sortedTail := SortById(tail);
      forall k | 0 <= k < |sortedTail| ensures sortedTail[k].id != ts[0].id {
        assert sortedTail[k] in tail;
      }
      InsertKeepsDistinct(ts[0], sortedTail);
    }
  }

  /** Sorting keeps every id present. */
  lemma SortKeepsIds(ts: seq<Team>, id: int)
    requires HasId(ts, id)
    ensures HasId(SortById(ts), id)
  {
    var r := SortById(ts);
    var i :| 0 <= i < |ts| && ts[i].id == id;
    assert ts[i] in multiset(ts);
    assert ts[i] in multiset(r);
    var k :| 0 <= k < |r| && r[k] == ts[i];
  }

  // ---------------------------------------------------------------------------
  // Classifying games and counting them

  /** The display name: city, team name and the abbreviation in parentheses. */
  function TeamName(t: Team): (r: string)
    ensures |r| == |t.city| + |t.name| + |t.abbr| + 4
    ensures r[..|t.city| + 1] == t.city + " "
    ensures r[|t.city| + 1..|t.city| + 1 + |t.name|] == t.name
    ensures r[|t.city| + 1 + |t.name|] == ' '
    ensures r[|r| - |t.abbr| - 2..] == "(" + t.abbr + ")"
  {
    t.city + " " + t.name + " " + "(" + t.abbr + ")"
  }

  /** The `if`/`elif` chain run for one team on one game. A tied game and a
      game without the team count for nothing; the home branches come first,
      so the visitor branches only fire when the team is not also the home
      side. */
  function Classify(g: Game, id: int): (o: Counter)
    ensures g.homeScore == g.visitorScore ==> o == Ignored
    ensures o != Ignored <==> (g.homeId == id || g.visitorId == id) && g.homeScore != g.visitorScore
    ensures o == HomeWin <==> g.homeId == id && g.homeScore > g.visitorScore
    ensures o == HomeLoss <==> g.homeId == id && g.homeScore < g.visitorScore
    ensures o == VisitorWin <==> g.visitorId == id && g.homeId != id && g.visitorScore > g.homeScore
    ensures o == VisitorLoss <==> g.visitorId == id && g.homeId != id && g.visitorScore < g.homeScore
  {
    if g.homeId == id && g.homeScore > g.visitorScore then HomeWin
    else if g.homeId == id && g.homeScore < g.visitorScore then HomeLoss
    else if g.visitorId == id && g.homeScore < g.visitorScore then VisitorWin
    else if g.visitorId == id && g.homeScore > g.visitorScore then VisitorLoss
    else Ignored
  }

  /** How many of `games` add to counter `o` of the team with this id. */
  function Count(games: seq<Game>, id: int, o: Counter): nat {
    if games == [] then 0
    else
      var last := games[|games| - 1];
      Count(games[..|games| - 1], id, o) + if Classify(last, id) == o then 1 else 0
  }

  /** How many of `games` involve the team and did not end level. */
  function Decided(games: seq<Game>, id: int): nat {
    if games == [] then 0
    else
      var last := games[|games| - 1];
      var involved := last.homeId == id || last.visitorId == id;
      Decided(games[..|games| - 1], id) + if involved && last.homeScore != last.visitorScore then 1 else 0
  }

  /** The record built for one team from all the season's games. */
  function TallyFor(t: Team, games: seq<Game>): Tally {
    Tally(TeamName(t),
      Count(games, t.id, HomeWin), Count(games, t.id, VisitorWin),
      Count(games, t.id, HomeLoss), Count(games, t.id, VisitorLoss))
  }

  /** Each game adds to at most one of a team's four counters, and only when
      the team played in it and it was not tied; so the counters together
      are the team's decided games, never more than all games. */
  lemma {:induction false} TallyCountsDecidedGames(t: Team, games: seq<Game>)
    ensures var r := TallyFor(t, games);
      r.wonHome + r.wonVisitor + r.lostHome + r.lostVisitor == Decided(games, t.id) <= |games|
    decreases |games|
  {
    if games != [] {
      TallyCountsDecidedGames(t, games[..|games| - 1]);
    }
  }

  /** One record per team, in the order of `ts`. */
  function Tallies(ts: seq<Team>, games: seq<Game>): (r: seq<Tally>)
    ensures |r| == |ts|
    ensures forall i :: 0 <= i < |ts| ==> r[i] == TallyFor(ts[i], games)
  {
    if ts == [] then []
    else Tallies(ts[..|ts| - 1], games) + [TallyFor(ts[|ts| - 1], games)]
  }

  /** The body of the per-team loop of `get_team_stats`: four counters start
      at zero and every game runs through the `elif` chain once. The record
      it returns is that team's tally over all the games. */
  method TallyTeam(team: Team, games: seq<Game>) returns (teamStats: Tally)
    ensures teamStats == TallyFor(team, games)
  {
    var wonHome: nat, wonVisitor: nat, lostHome: nat, lostVisitor: nat := 0, 0, 0, 0;
    for j := 0 to |games|
      invariant wonHome == Count(games[..j], team.id, HomeWin)
      invariant lostHome == Count(games[..j], team.id, HomeLoss)
      invariant wonVisitor == Count(games[..j], team.id, VisitorWin)
      invariant lostVisitor == Count(games[..j], team.id, VisitorLoss)
    {
      var entry := games[j];
      assert games[..j + 1][..j] == games[..j];
      if entry.homeId == team.id && entry.homeScore > entry.visitorScore {
        wonHome := wonHome + 1;
      } else if entry.homeId == team.id && entry.homeScore < entry.visitorScore {
        lostHome := lostHome + 1;
      } else if entry.visitorId == team.id && entry.homeScore < entry.visitorScore {
        wonVisitor := wonVisitor + 1;
      } else if entry.visitorId == team.id && entry.homeScore > entry.visitorScore {
        lostVisitor := lostVisitor + 1;
      }
    }
    assert games[..|games|] == games;
    teamStats := Tally(TeamName(team), wonHome, wonVisitor, lostHome, lostVisitor);
  }

  /** `get_team_stats` without the fetching and the printing: the teams are
      ordered by id, then each team's tally is appended as a fresh record.
      The result holds one record per team, in ascending id order, each
      that team's tally. */
  method GetTeamStats(teams: seq<Team>, games: seq<Game>) returns (seasonGames: seq<Tally>)
    ensures seasonGames == Tallies(SortById(teams), games)
    ensures |seasonGames| == |teams|
    ensures forall i :: 0 <= i < |seasonGames| ==> seasonGames[i] == TallyFor(SortById(teams)[i], games)
    ensures forall i, j :: 0 <= i < j < |seasonGames| ==> SortById(teams)[i].id <= SortById(teams)[j].id
  {
    var teamList := SortById(teams);
    seasonGames := [];
    for i := 0 to |teamList|
      invariant seasonGames == Tallies(teamList[..i], games)
    {
      var teamStats := TallyTeam(teamList[i], games);
      assert teamList[..i + 1][..i] == teamList[..i];
      seasonGames := seasonGames + [teamStats];
    }
    assert teamList[..|teamList|] == teamList;
  }

  // ---------------------------------------------------------------------------
  // Wins and losses balance

  function Won(r: Tally): nat { r.wonHome + r.wonVisitor }
  function Lost(r: Tally): nat { r.lostHome + r.lostVisitor }

  function TotalWon(rs: seq<Tally>): nat {
    if rs == [] then 0 else TotalWon(rs[..|rs| - 1]) + Won(rs[|rs| - 1])
  }

  function TotalLost(rs: seq<Tally>): nat {
    if rs == [] then 0 else TotalLost(rs[..|rs| - 1]) + Lost(rs[|rs| - 1])
  }

  /** How many teams of `ts` the game `g` credits with a win (or, when
      `wins` is false, charges with a loss). */
  function Credited(ts: seq<Team>, g: Game, wins: bool): nat {
    if ts == [] then 0
    else
      var o := Classify(g, ts[|ts| - 1].id);
      var hit := if wins then o == HomeWin || o == VisitorWin else o == HomeLoss || o == VisitorLoss;
      Credited(ts[..|ts| - 1], g, wins) + if hit then 1 else 0
  }

  /** A well-formed game: two different teams, both in the list. */
  predicate Between(ts: seq<Team>, g: Game) {
    g.homeId != g.visitorId && HasId(ts, g.homeId) && HasId(ts, g.visitorId)
  }

  /** How many of `games` did not end level. */
  function NotTied(games: seq<Game>): nat {
    if games == [] then 0
    else NotTied(games[..|games| - 1]) + if games[|games| - 1].homeScore != games[|games| - 1].visitorScore then 1 else 0
  }

  lemma {:induction false} TotalsWithoutGames(ts: seq<Team>)
    ensures TotalWon(Tallies(ts, [])) == 0 && TotalLost(Tallies(ts, [])) == 0
    decreases |ts|
  {
    if ts != [] {
      TotalsWithoutGames(ts[..|ts| - 1]);
      assert Tallies(ts, [])[..|ts| - 1] == Tallies(ts[..|ts| - 1], []);
    }
  }

  /** One more game raises the summed wins and losses by the number of
      teams it credits and charges. */
  lemma {:induction false} TotalsStep(ts: seq<Team>, games: seq<Game>, g: Game)
    ensures TotalWon(Tallies(ts, games + [g])) == TotalWon(Tallies(ts, games)) + Credited(ts, g, true)
    ensures TotalLost(Tallies(ts, games + [g])) == TotalLost(Tallies(ts, games)) + Credited(ts, g, false)
    decreases |ts|
  {
    if ts != [] {
      var init := ts[..|ts| - 1];
      TotalsStep(init, games, g);
      assert Tallies(ts, games + [g])[..|ts| - 1] == Tallies(init, games + [g]);
      assert Tallies(ts, games)[..|ts| - 1] == Tallies(init, games);
      assert (games + [g])[..|games|] == games;
    }
  }

  /** A game whose winner (or loser) id is missing from the list credits
      (or charges) nobody in it. */
  lemma {:induction false} CreditedAbsent(ts: seq<Team>, g: Game, wins: bool)
    requires g.homeId != g.visitorId && g.homeScore != g.visitorScore
    requires !HasId(ts, if wins == (g.homeScore > g.visitorScore) then g.homeId else g.visitorId)
    ensures Credited(ts, g, wins) == 0
    decreases |ts|
  {
    if ts != [] {
      var init := ts[..|ts| - 1];
      assert forall i :: 0 <= i < |init| ==> init[i] == ts[i];
      CreditedAbsent(init, g, wins);
    }
  }

  /** With distinct ids, a decided game between two listed teams credits
      exactly one team with a win and charges exactly one with a loss; a
      tied game neither. */
  lemma {:induction false} CreditedOnce(ts: seq<Team>, g: Game, wins: bool)
    requires DistinctIds(ts) && Between(ts, g)
    ensures Credited(ts, g, wins) == if g.homeScore != g.visitorScore then 1 else 0
    decreases |ts|
  {
    var init := ts[..|ts| - 1];
    assert forall i :: 0 <= i < |init| ==> init[i] == ts[i];
    var target := if wins == (g.homeScore > g.visitorScore) then g.homeId else g.visitorId;
    if g.homeScore == g.visitorScore {
      CreditedTied(ts, g, wins);
    } else if ts[|ts| - 1].id == target {
      CreditedAbsent(init, g, wins);
    } else {
      var k :| 0 <= k < |ts| && ts[k].id == target;
      assert k < |init| && init[k].id == target;
      var other := if target == g.homeId then g.visitorId else g.homeId;
      var m :| 0 <= m < |ts| && ts[m].id == other;
      if m == |ts| - 1 {
        CreditedAbsentOther(init, g, wins, target);
      } else {
        assert init[m].id == other;
        CreditedOnce(init, g, wins);
      }
    }
  }

  /** A tied game credits and charges nobody. */
  lemma {:induction false} CreditedTied(ts: seq<Team>, g: Game, wins: bool)
    requires g.homeScore == g.visitorScore
    ensures Credited(ts, g, wins) == 0
    decreases |ts|
  {
    if ts != [] {
      CreditedTied(ts[..|ts| - 1], g, wins);
    }
  }

  /** When the other side of the game is not in the list, the count is the
      number of teams carrying the credited id. */
  lemma {:induction false} CreditedAbsentOther(ts: seq<Team>, g: Game, wins: bool, target: int)
    requires DistinctIds(ts)
    requires g.homeId != g.visitorId && g.homeScore != g.visitorScore
    requires target == if wins == (g.homeScore > g.visitorScore) then g.homeId else g.visitorId
    requires HasId(ts, target)
    ensures Credited(ts, g, wins) == 1
    decreases |ts|
  {
    var init := ts[..|ts| - 1];
    assert forall i :: 0 <= i < |init| ==> init[i] == ts[i];
    if ts[|ts| - 1].id == target {
      CreditedAbsent(init, g, wins);
    } else {
      var k :| 0 <= k < |ts| && ts[k].id == target;
      assert init[k].id == target;
      CreditedAbsentOther(init, g, wins, target);
    }
  }

  /** Over a list of teams with distinct ids and games played between two of
      them, the wins summed over all tallies equal the losses summed over
      all tallies: both are the number of games that did not end level. */
  lemma {:induction false} WinsBalanceLosses(ts: seq<Team>, games: seq<Game>)
    requires DistinctIds(ts)
    requires forall g :: g in games ==> Between(ts, g)
    ensures TotalWon(Tallies(ts, games)) == NotTied(games)
    ensures TotalLost(Tallies(ts, games)) == NotTied(games)
    decreases |games|
  {
    if games == [] {
      TotalsWithoutGames(ts);
    } else {
      var init, g := games[..|games| - 1], games[|games| - 1];
      assert init + [g] == games;
      assert forall x :: x in init ==> x in games;
      assert Between(ts, g) by { assert g in games; }
      WinsBalanceLosses(ts, init);
      TotalsStep(ts, init, g);
      CreditedOnce(ts, g, true);
      CreditedOnce(ts, g, false);
      assert NotTied(games) == NotTied(init) + if g.homeScore != g.visitorScore then 1 else 0;
    }
  }

  /** The same balance for the records `get_team_stats` returns, whatever
      the order the teams arrive in. */
  lemma SeasonWinsBalanceLosses(teams: seq<Team>, games: seq<Game>)
    requires DistinctIds(teams)
    requires forall g :: g in games ==> Between(teams, g)
    ensures TotalWon(Tallies(SortById(teams), games)) == TotalLost(Tallies(SortById(teams), games))
  {
    var sorted := SortById(teams);
    SortKeepsDistinct(teams);
    forall g | g in games ensures Between(sorted, g) {
      SortKeepsIds(teams, g.homeId);
      SortKeepsIds(teams, g.visitorId);
    }
    WinsBalanceLosses(sorted, games);
  }
}
