# Basketball statistics client: verified model of its core

The program is a command-line client for a public basketball statistics
service. It has two commands with real logic in them:

- **team-stats**: for one regular season, every team gets a record with its
  display name ("City Name (ABR)") and four counters: games won and lost at
  home, and games won and lost as the visitor. The teams are sorted by id.
  Each team is checked against every game of the season with an
  `if`/`elif` chain of strict score comparisons.
- **player-stats**: the name search of the service returns candidates. The
  client removes apostrophes from the query and keeps only the candidates
  whose first name equals the query, or whose last name contains it, ignoring
  case. It then reports the tallest and the heaviest of them.

Both commands first check their input. A season must lie between 1979 and
the current year. A name must not be a number, must contain no digit, and
must contain at least one latin letter or period.

The Dafny modules follow that structure:

| module | file | models |
|---|---|---|
| `Teams` | teams.dfy | the team, game and tally records; sorting the teams by id; `get_team_stats` |
| `Players` | players.dfy | the player record; `Player.height` and `Player.weight`; `find_tallest` and `find_heaviest` |
| `Matcher` | matcher.dfy | the apostrophe strip and the pruning filter of `get_player` |
| `Validators` | validators.dfy | `validate_season_year` and `validate_player_name` |
| `Ascii`, `Sequences` | ascii.dfy, sequences.dfy | ASCII lower-casing and character classes; order-preserving subsequences |

Modelling decisions:

- The counting loops (`get_team_stats` and its per-team body, the pruning
  loop of `get_player`, and the filter loops of `find_tallest` and
  `find_heaviest`) are methods with loops. Each is proved equal to a pure
  specification function, and the properties are lemmas about those
  functions.
- Height and weight are ranked as integers: total inches and pounds. The
  metric values shown to the user are modelled as integer hundredths with
  half-up rounding (`Centimetres`, `HundredthsOfKilogram`). Both are proved
  strictly increasing. So ranking by the integers gives the same order as
  ranking by the metric values. Two heights that differ by one inch are
  2.54 cm apart, so rounding to whole centimetres never ties them.
- The checks return either `True` or an error message, never `False`. The
  model keeps that shape (`Validators.Outcome = Flag(bool) |
  Message(string)`), so "never returns `False`" can be stated and proved.
- A `TypeError` in the program is modelled as an outcome, not excluded by a
  precondition. Heights raise one when exactly one of feet and inches is
  empty. Heaviest search raises one in the cases described below.
- `find_heaviest` as written sorts by `height()`. That sort raises when some
  key is a `TypeError`. It also raises when there are at least two players
  and the keys mix the "Not found" string with numbers: any comparison sort
  must compare the two elements that end up next to each other at the
  string/number boundary. When every key is "Not found", the strings are
  equal and the stable sort keeps the first player in front.
  `HeadOfSort` models all of this.
- Python's `sorted(..., reverse=True)` is stable. So its first element is
  the first player, in input order, with the largest value (`FirstMax`).
- A height of 6 ft 6 in is 78 × 0.0254 = 1.9812 m, which `{:.2f}` shows as
  1.98.
- The name check asks for at least one latin letter or period, not for only
  such characters.

## Model

| member | source | states |
|---|---|---|
| `Validators.ValidateSeasonYear` | validators.py:5-18 | `True` exactly when 1979 <= season <= current year; never `False`; otherwise the range message, which quotes the current year without leading zeros so that it reads back as that year |
| `Validators.DecimalRoundTrip` | validators.py:11 | the year written into the range message reads back as the same number |
| `Validators.ValidatePlayerName` | validators.py:20-44 | "cannot be a number" iff `int()` accepts the name; "cannot contain numbers" iff it does not but the name has a digit; `True` iff no digit and at least one latin letter or period; "non-allowed characters" iff neither (the empty string included); never `False` |
| `Validators.IntLiteralHasDigit` | validators.py:23-35 | every string `int()` accepts contains a digit, so the digit check never sees a number |
| `Validators.LowerKeepsClasses` | validators.py:28-32 | lower-casing the name changes neither "has a digit" nor "has a latin letter or period" |
| `Teams.SortById` | script.py:143 | the team list sorted by id is ordered by id, has the same length and is a permutation of the input |
| `Teams.SortKeepsDistinct` | script.py:143 | sorting keeps the team ids distinct |
| `Teams.SortKeepsIds` | script.py:143 | sorting loses no team id |
| `Teams.TeamName` | script.py:155 | the display name starts with the city and a space and ends with the abbreviation in parentheses; the team's name and a space stand between them; its length is the parts' lengths plus four |
| `Teams.Classify` | script.py:158-165 | a game counts as a home win (loss) iff the team is home and scored more (less); as a visitor win (loss) iff the team is the visitor, not also home, and scored more (less); a tie or a game without the team counts for nothing |
| `Teams.TallyCountsDecidedGames` | script.py:157-165 | each game adds to at most one of a team's counters, so their sum is the team's games that were not tied, never more than the number of games |
| `Teams.Tallies` | script.py:147-168 | one record per team, in the order of the team list, each being that team's tally |
| `Teams.TallyTeam` | script.py:148-168 | the per-team loop leaves exactly that team's four counts and display name |
| `Teams.GetTeamStats` | script.py:139-171 | one record per team, as many as there are teams, in ascending id order, record i being the tally of the i-th team by id |
| `Teams.WinsBalanceLosses` | script.py:157-165 | with distinct team ids and every game between two different listed teams, the wins summed over all tallies and the losses summed over all tallies both equal the number of games not tied |
| `Teams.SeasonWinsBalanceLosses` | script.py:143-168 | the same balance for the records `get_team_stats` returns, whatever the input order of the teams |
| `Players.HeightOf` | script.py:190-197 | height is "Not found" iff feet and inches are both empty; raises iff exactly one is empty; otherwise it is feet * 12 + inches |
| `Players.WeightOf` | script.py:200-207 | weight is "Not found" iff pounds is empty, never raises, and otherwise is the pounds |
| `Players.CentimetresStrictlyIncreasing` | script.py:196 | the rounded metric height is strictly increasing in total inches: rounding merges no two heights |
| `Players.HundredthsOfKilogramStrictlyIncreasing` | script.py:206 | the rounded metric weight is strictly increasing in pounds |
| `Players.HavingFilters` | script.py:267-272 | the filtered list is an order-preserving subsequence of the input and holds exactly the players that have the attribute, each as many times as the input holds it |
| `Players.HavingHead` | script.py:267-272 | the filtered list starts with the first player of the input that has the attribute |
| `Players.FirstMax` | script.py:277 | the head of the stable descending sort is the first element with the largest value: none larger, all earlier ones strictly smaller |
| `Players.HeadOfSort` | script.py:277-278 | the sort's head is one of the sorted players; when every key is a number it is the first one of largest value |
| `Players.HavingFirstMax` | script.py:267-278 | taking the first maximum after filtering selects, in the unfiltered input, the first player whose value is the largest among those with the attribute |
| `Players.ExtremalSelectsFirstMax` | script.py:265-278 | the tallest search gives "Not found" iff every player's height is "Not found"; raises iff some height raises; otherwise the player is the first of the input with the greatest height |
| `Players.KeepMeasured` | script.py:267-272 | the filter loop raises iff asking some player raises, and otherwise yields exactly the players that have the attribute, in order |
| `Players.FindTallest` | script.py:265-278 | the method gives the specified tallest-player outcome |
| `Players.FindHeaviest` | script.py:281-293 | the method gives the outcome of the heaviest search as written: weighed players, ranked by height (characterized by the three `HeaviestAsWritten…` lemmas and `HeaviestAsWrittenIsTallestWeighed`) |
| `Players.HeaviestAsWrittenIsTallestWeighed` | script.py:284-292 | when every weighed player has a height, the heaviest search as written returns the tallest weighed player |
| `Players.HeaviestAsWrittenMissesHeaviest` | script.py:292 | for a tall 200 lb player followed by a shorter 250 lb one, the search as written returns the lighter player, while the corrected search returns the heavier one |
| `Players.HeaviestAsWrittenNobody` | script.py:284-290 | the search as written reports "Not found" exactly when no player has a weight |
| `Players.HeaviestAsWrittenRaises` | script.py:284-293 | the search as written raises exactly when some weighed player's height raises, or when one weighed player has a height and another has none |
| `Players.HeaviestAsWrittenUnmeasured` | script.py:284-293 | when no weighed player has a height, every key is "Not found" and the search as written returns the first weighed player |
| `Players.HeaviestNeverRaises` | script.py:281-290 | the corrected heaviest search never raises, and reports "Not found" iff no player has a weight |
| `Matcher.StripApostrophes` | script.py:224 | the stripped query has no apostrophe, is a subsequence of the name, and keeps every other character as often as before |
| `Matcher.StripApostrophesKeepsClean` | script.py:224 | a name without apostrophes is unchanged, so stripping is idempotent |
| `Matcher.ContainsOccurs` | script.py:243 | the substring test holds iff the query occurs at some position of the last name |
| `Matcher.PrunedFilters` | script.py:241-244 | the pruned list is an order-preserving subsequence of the candidates and holds exactly those whose first name equals the query, or whose last name contains it, ignoring case, each as many times as the candidates hold it |
| `Matcher.GetPlayer` | script.py:217-262 | strips the apostrophes, then keeps exactly the matching candidates, repeats included, in their original order |

## Findings

| source | as written | input that shows it | evidently intended | confidence | as-written member | corrected member |
|---|---|---|---|---|---|---|
| script.py:292 | `find_heaviest` sorts the weighed players by `height()` | a 6 ft 10 in, 200 lb player followed by a 6 ft 0 in, 250 lb player: the 200 lb player is reported as heaviest | sort by `weight()`, as the docstring at line 282 says | high (not executed) | `Players.HeaviestAsWrittenMissesHeaviest` | `Players.Heaviest` |

`Players.FindHeaviest` and `Players.HeaviestAsWritten` reproduce the program
as written. The corrected search is `Players.Heaviest`, which filters and
ranks by weight. `Players.ExtremalSelectsFirstMax` proves that it returns
the first heaviest player. `Players.HeaviestNeverRaises` proves that it never
raises and reports "Not found" only when nobody has a weight.

## Left out

- Fetching from the service: the team list, the paged game list and the
  paged player search, with the cursor loops (script.py:37-60, 76-93,
  225-238). These are network I/O. The model takes the joined record lists
  as inputs.
- Sorting the team list by division in `get_teams` (script.py:57). The
  statistics are sorted again by id.
- `grouped_teams`, `printer`, `player_stats`, the argument handling under
  `__main__` and all of sqlite.py. These are output, file and database I/O
  and dispatch. The searches return the selected player instead of printing
  the name and metric value.
- Building `Player` objects from the raw records (script.py:248-260). This
  copies fields one to one, and the model's candidates are already players.
- `datetime.now()` in `validate_season_year`: the current year is a
  parameter.
- Floating point. Heights and weights are ranked as integers. The displayed
  metric values are integer hundredths rounded half up. Python formats the
  binary float and rounds half to even, so a value can differ by one
  hundredth. Negative field values are not considered.
- Unicode. Lower-casing and `casefold()` are ASCII-only. The `int()` test
  strips the ASCII whitespace characters (space, tab, line feed, carriage
  return, vertical tab, form feed and the separators 0x1C to 0x1F) but no
  other Unicode whitespace, and accepts ASCII digits only, with an optional
  sign and single underscores between digits.
- The fresh copy of each tally dictionary (script.py:167). Dafny records are
  values, so no two tallies can share state.
- Teams.SortById: does not state that the sort is stable. Order matters only
  between teams with equal ids, and the balance lemmas assume distinct ids.
