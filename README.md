# baseballstats scraper core, in Dafny

This project models the logic of two scrapers from the baseballstats
repository. It covers what happens to a page after it has been fetched and
its cells selected, and what the database session then holds.

- `players.py` is the basketball scraper:
  - the game-log parser, both as the `Player.get_player_stats` method (one
    fresh dictionary per game) and as the module-level `get_player_stats`
    (one dictionary shared by all rows, one record added per game);
  - the per-cell coercion: empty text gives 0.0, clock text `mm:ss` gives
    `float("mm.ss")`, other text gives float() or is skipped;
  - the players listing with its existence-checked insert;
  - the once-only team seeding;
  - the game-log address built with `rstrip('.html')`.
- `baseball/baseball_players.py` is the baseball scraper:
  - `get_teams`: abbreviation and display name per linked team cell;
  - the roster walk that reads cells two at a time and inserts unseen
    players;
  - the career totals read from a table footer, with `2B`/`3B` renamed;
  - the once-only seeding of the teams table.

Files:

- `runtime.dfy` (module `Runtime`): what the Python runtime contributes.
  - `Option`;
  - the exceptions the code can raise;
  - `Outcome`, which is either `Done(state)` or `Raised(state, error)`, with
    the state as it was when the exception escaped;
  - symbolic numbers (`Zero`, or `FloatOf(literal)` for the value float()
    gives);
  - abstract `int()`/`float()` parsers;
  - insertion-ordered dictionaries (`Assign`, `Lookup`).
- `pytext.dfy` (module `PyText`): the `str` methods the code uses (`split`,
  `replace`, `strip`/`rstrip`/`lstrip`, `lower`) and their properties.
- `html.dfy` (module `Html`): a table cell (`Td`) as its text, its attributes
  and the first link in it.
- `players.dfy` (module `Players`) and `baseball_players.dfy` (module
  `BaseballPlayers`): one module per source file.
  - Each module has a `Session` class whose sequence fields are the tables.
  - The source's loops are methods with loop invariants. Each is proved
    equal to a fold function over the cells or rows.
  - The properties are proved as lemmas about those fold functions.

Behaviour of the code worth stating:

- An odd number of roster cells does not misalign silently. The walk
  always raises (`BaseballPlayers.OddCellCountRaises`). When every pair is
  well formed, the last iteration indexes past the end and raises
  IndexError (`BaseballPlayers.OddRosterRaisesIndexError`).
- The game-log cell loop visits every right-aligned cell of a row,
  including the game-number cell it has just read. It does not start at the
  following cell.
- A clock value that float() rejects is fatal. The colon branch has no
  `try`.

## Model

| member | source | states |
|---|---|---|
| Runtime.Assign | baseball/baseball_players.py:113 | `d[k] = v`: k then maps to v and every other key keeps its value |
| Runtime.AssignOrder | baseball/baseball_players.py:113 | `d[k] = v` appends a new key after every existing item; for an existing key every item keeps its position |
| Runtime.AssignKeys | baseball/baseball_players.py:113 | after `d[k] = v` the key set is the old one plus k, distinct keys stay distinct, and the dictionary grows by one item only for a new key |
| PyText.Replace | baseball/baseball_players.py:113-117 | `s.replace(pat, rep)`: occurrences of pat are found left to right without overlap and each is replaced by rep; the replaced text is not searched again |
| PyText.Strip | baseball/baseball_players.py:113-115 | `s.strip(chars)`: rstrip then lstrip, dropping trailing and leading characters of chars |
| PyText.Lower | baseball/baseball_players.py:115-117 | `s.lower()`: same length, every ASCII upper-case letter mapped to its lower-case letter and other characters kept |
| PyText.Split | players.py:68 | `split(sep)` gives at least one piece, more than one exactly when sep occurs, and no piece holds sep |
| PyText.JoinSplit | players.py:68 | joining the pieces of a split with the separator gives the text back |
| PyText.RStripShape | players.py:48 | `rstrip(chars)` keeps a prefix, drops only characters from chars, and what it keeps does not end in one of them |
| PyText.RStripUnique | players.py:48 | a prefix not ending in chars followed by a tail made only of chars is rstripped exactly to that prefix |
| Players.Player.constructor | players.py:36-43 | the player holds the given identity, link, name, position, age and team, and `stats` is None |
| Players.Player.GetPlayerStats | players.py:45-77 | `stats` ends as the game log of the rows (a fresh dictionary per game number) and the error is the first exception the rows raise |
| Players.Session.Exists | players.py:147 | true exactly when a stored player has the identity |
| Players.DetailUrl | players.py:48 | the game-log address: the site root, the link after `rstrip('.html')`, then "/gamelog/2019" |
| Players.Session.AddPlayer | players.py:148-150 | the player is appended and nothing else changes |
| Players.CoerceCell | players.py:63-77 | one right-aligned cell: KeyError without a data-stat; an unrecognised stat leaves the dictionary alone; an empty cell gets 0.0; a clock `a:b` gets float("a.b") or raises ValueError; other text gets float(text) when that parses and is otherwise skipped |
| Players.CoerceEntries | players.py:63-77 | the loop over a row's cells gives the dictionary and the exception of the cell-by-cell fold |
| Players.ColonFreeCell | players.py:65-75 | a recognised colon-free cell gets float(text) when that parses, 0.0 when empty, and is otherwise left unchanged without raising |
| Players.ClockCell | players.py:67-69 | a recognised cell `a:b[:...]` gets float("a.b"), ignoring anything after a second colon, and raises ValueError when that does not parse |
| Players.ClockExample | players.py:67-69 | "34:12" is stored as float("34.12") |
| Players.CoerceCellsFrame | players.py:63-77 | coercing cells never removes a key, adds only recognised stats the cells name, and keeps the value of every key that is not a recognised stat named by some cell |
| Players.UnrecognisedCellsIgnored | players.py:64-77 | removing the cells whose data-stat is not a recognised stat changes neither the dictionary nor the error |
| Players.LogRow | players.py:53-62 | a row without right-aligned cells raises IndexError, a row whose first cell is not an integer is skipped, and otherwise its game number gets a fresh dictionary built from all of its cells |
| Players.LogRowsFreshPerGame | players.py:53-62 | every game's dictionary comes from one row whose first cell is that game number and holds only stats that row names |
| Players.StatRow | players.py:160-186 | as LogRow, but "game" and "br_name" are set in the one shared dictionary, the cells update it, and a record of it is added |
| Players.GetPlayerStats | players.py:153-186 | the session gains exactly the records of the shared-dictionary run, and the error is its first exception |
| Players.OneRecordPerDataRow | players.py:160-186 | a completed run adds one record per row whose first cell is an integer, after the records already there |
| Players.RecordKeysPersist | players.py:154-186 | keys set by an earlier row remain in every later record: record key sets only grow |
| Players.RecordValuesCarryOver | players.py:154-186 | the j-th record comes from the j-th game row and keeps the previous record's value for every stat that row does not set (other than "game" and "br_name"), so an earlier game's values carry into later records |
| Players.NonGameRowsIgnored | players.py:53-60 | in both versions, dropping every row whose first cell is not an integer changes neither the result nor the exception |
| Players.ListingRow | players.py:146-150 | one listing row: the identity is read first, a known one is skipped, a new one is appended with its link, `csk` name and the next three cells' texts; a missing cell, attribute or link raises |
| Players.PopulatePlayersTable | players.py:140-150 | the stored players become the listing fold of the rows (known identities skipped, new ones appended) and the existing rows are untouched |
| Players.ListingKeepsIdsDistinct | players.py:146-150 | the listing only appends identities the store lacked, so distinct identities stay distinct |
| Players.ListingCoversRows | players.py:145-150 | after a completed run every row's identity is in the store |
| Players.ListingIdempotent | players.py:147 | running the listing again over the same rows adds nothing and raises nothing |
| Players.PopulateTeamsTable | players.py:133-137 | an empty teams table receives `Team(team_name=k, abbr=v)` per item in order; a non-empty one is unchanged |
| Players.DetailUrlStem | players.py:48 | the address keeps exactly the longest prefix of the link that does not end in '.', 'h', 't', 'm' or 'l' |
| Players.DetailUrlOfPage | players.py:156 | for a page name ending in any other character the address is the link without ".html" |
| Players.DetailUrlOverstrips | players.py:48 | "/players/x/hall.html" loses its "ll" as well as ".html" |
| Players.IntendedDetailUrl | players.py:48 | the address of `stem + ".html"` is `stem` with the site root and game-log path |
| Players.DetailUrlAgrees | players.py:156 | the written and the intended address agree on every page name not ending in a stripped character |
| BaseballPlayers.Session.Exists | baseball/baseball_players.py:138 | true exactly when a stored player has the identity |
| BaseballPlayers.TeamDisplayName | baseball/baseball_players.py:112-117 | with a comma the piece after the first comma goes through SegmentName; without one the whole text has spaces turned into '-' and is lower-cased |
| BaseballPlayers.SegmentName | baseball/baseball_players.py:113-115 | every "see " removed, outer spaces stripped, spaces turned into '-', lower-cased |
| BaseballPlayers.DisplayNameShape | baseball/baseball_players.py:112-117 | a display name holds no space and no upper-case letter |
| BaseballPlayers.DisplayNameWithoutComma | baseball/baseball_players.py:116-117 | without a comma the name is the text char by char, spaces to '-' and lower-cased, not stripped |
| BaseballPlayers.DisplayNameWithComma | baseball/baseball_players.py:112-115 | with a comma the name depends only on the piece between the first and second comma |
| BaseballPlayers.DisplayNameSeeMarker | baseball/baseball_players.py:112-115 | "X, see Name" gives Name with spaces turned into '-' and lower-cased |
| BaseballPlayers.DisplayNamePlain | baseball/baseball_players.py:117 | "Houston Astros" gives "houston-astros" |
| BaseballPlayers.DisplayNameRedirect | baseball/baseball_players.py:112-115 | "Angels, see California Angels" gives "california-angels" |
| BaseballPlayers.Abbreviation | baseball/baseball_players.py:113 | the third '/'-piece of the link, or None where `split('/')[2]` raises IndexError |
| BaseballPlayers.TeamEntry | baseball/baseball_players.py:111-117 | a cell without a link is skipped; a link without href raises AttributeError and one with fewer than three pieces IndexError; otherwise the abbreviation is assigned the display name |
| BaseballPlayers.GetTeams | baseball/baseball_players.py:103-118 | a missing page gives None without error; otherwise the dictionary, or the error, of the entry fold |
| BaseballPlayers.TeamEntriesKeys | baseball/baseball_players.py:111-117 | the keys are exactly the third '/'-piece of each linked entry's href, each once |
| BaseballPlayers.LastEntryWins | baseball/baseball_players.py:113-117 | each abbreviation maps to the display name of the last entry that has it |
| BaseballPlayers.UnlinkedEntriesIgnored | baseball/baseball_players.py:111 | removing the cells without a link changes neither the dictionary nor the error |
| BaseballPlayers.RosterPairs | baseball/baseball_players.py:134-141 | the cells two at a time: a lone last cell raises IndexError, a missing identity KeyError; a known identity is skipped; a new one is appended with the pair's position and the team, or raises for a missing link or href |
| BaseballPlayers.PopulatePlayersTable | baseball/baseball_players.py:121-141 | the stored players become the pair-walk fold of the cells; a missing page raises AttributeError |
| BaseballPlayers.OddCellCountRaises | baseball/baseball_players.py:132-138 | an odd number of cells always ends in an exception |
| BaseballPlayers.OddRosterRaisesIndexError | baseball/baseball_players.py:134-138 | an odd roster whose pairs are all well formed raises IndexError, at the lone last cell |
| BaseballPlayers.RosterAppendsPairs | baseball/baseball_players.py:134-141 | the walk only appends and keeps identities distinct; every new row carries the team passed in and its position and identity come from one even/odd pair |
| BaseballPlayers.RosterAddsEveryNewPair | baseball/baseball_players.py:134-141 | N well-formed pairs with N new, distinct identities complete and add exactly N players |
| BaseballPlayers.RosterCoversPairs | baseball/baseball_players.py:138-140 | after a completed walk the cell count is even and every pair's identity is stored |
| BaseballPlayers.RosterIdempotent | baseball/baseball_players.py:138 | walking the same roster again adds nothing and raises nothing |
| BaseballPlayers.CareerKey | baseball/baseball_players.py:160-164 | "2B" is stored as "doubles", "3B" as "triples", every other data-stat under its own name |
| BaseballPlayers.FooterCell | baseball/baseball_players.py:158-164 | an empty cell is skipped; otherwise a missing data-stat raises KeyError and text float() rejects raises ValueError, else float(text) is stored under the renamed key |
| BaseballPlayers.CareerRecord | baseball/baseball_players.py:152-165 | the player's name, br_name and position updated by the footer cells; a missing footer raises AttributeError and a key that is not a CareerStats column TypeError |
| BaseballPlayers.GetBatterCareerStats | baseball/baseball_players.py:144-165 | the session gains the career record exactly when it is built without an exception; the error is that exception |
| BaseballPlayers.FooterCellsFrame | baseball/baseball_players.py:157-164 | the footer adds exactly the renamed keys of its non-empty cells (never "2B" or "3B") and leaves every other key alone |
| BaseballPlayers.FooterLastCellWins | baseball/baseball_players.py:158-164 | a key holds float() of the last non-empty cell whose renamed data-stat it is |
| BaseballPlayers.CareerRecordAccepts | baseball/baseball_players.py:157-165 | a record is stored exactly when every cell converts and every renamed data-stat is a CareerStats column |
| BaseballPlayers.CareerRecordFields | baseball/baseball_players.py:152-164 | a stored record holds name, br_name and position, taken from the player unless a footer column of that name replaced them |
| BaseballPlayers.SeedTeams | baseball/baseball_players.py:185-187 | `Team(team_name=v, abbr=k)` for each item of get_teams in order; a missing page raises AttributeError and an exception of get_teams is passed on |
| BaseballPlayers.PopulateTeamsTable | baseball/baseball_players.py:180-187 | an empty teams table receives `Team(team_name=v, abbr=k)` per item of get_teams in order; a non-empty one is unchanged and nothing is fetched |
| BaseballPlayers.SeededTeamsOnePerAbbreviation | baseball/baseball_players.py:185-187 | seeding inserts one team per distinct abbreviation on the index page, with distinct abbreviations |

## Left out

- Fetching pages is not modelled: `fetch_html`, `requests`, `UserAgent` and
  the non-200 messages are network I/O. A page that could not be fetched is
  `None`.
- BeautifulSoup selection (`find`, `find_all`, class and id filters) is a
  foreign library. The operations receive the selected cells in document
  order. A fetched page that lacks the selected element also becomes `None`.
- BaseballPlayers.GetTeams: `None` stands for a missing page. A fetched page
  without the teams table, which makes `get_teams` raise AttributeError,
  is not represented.
- The SQLAlchemy engine, schema, `setup_sql_session`, commit and close are
  not modelled. The session is a class of sequences, and queries see staged
  rows. Integrity errors raised at flush are not modelled. These include a
  second CareerStats row for the same br_name.
- Generated keys are not modelled: team ids (autoincrement) and the UUIDs of
  PlayerStats.
- Players.GetPlayerStats: the TypeError that `PlayerStats(**game_stats)`
  raises for a key that is not a column is not modelled. STATS is not
  defined in the source, so the model takes its names as columns.
- BaseballPlayers.CareerRecord: the accepted keywords of `CareerStats(**stats)`
  are taken to be its mapped columns. SQLAlchemy's constructor also accepts
  any other attribute of the class, such as `metadata`. No footer data-stat
  is expected to name one of those.
- STATS (players.py:64, 172) and TEAMS (players.py:136) are used but never
  defined in players.py. They are parameters here.
- Real number parsing and floating point are abstract. `NumberSyntax.intOf`
  and `floatAccepts` say what `int()` and `float()` accept, and `int('')` and
  `float('')` always fail. Stored numbers are symbolic.
- The age column is declared Integer but is given cell text. It is kept as
  text, and any conversion at flush is not modelled.
- `print` diagnostics are output only. The skipped cell itself is modelled.
- PyText.Lower lower-cases ASCII letters only. Python's full Unicode case
  mapping is not modelled.
- `v.text is not ''` (baseball/baseball_players.py:158) is modelled as
  `!=`, since CPython has a single empty string.
- `PlayerStatsWorker`, the queue and the threads (players.py:109-122) are
  concurrency, and the `__main__` blocks are scripts. Neither is modelled.
- baseball/starting_lineups.py, baseball/fangraph_ids.py,
  baseball/fg_stats.py and baseball/database_helpers.py are not part of
  this model. They are network crawling, printing scripts and ORM
  declarations.

## Findings

| source | as written | input that shows it | evidently intended | confidence | as-written member | corrected member |
|---|---|---|---|---|---|---|
| players.py:48 | `href.rstrip('.html')` strips any trailing '.', 'h', 't', 'm', 'l' characters | the link "/players/x/hall.html" gives ".../players/x/ha/gamelog/2019" | remove the ".html" suffix only | low, not executed; the site's player links end in digits, where both agree | Players.DetailUrlOverstrips | Players.IntendedDetailUrl |
