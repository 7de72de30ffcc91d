/** The basketball scraper of players.py: the game-log parser (as the
    Player method and as the module-level function), the players listing
    with its existence-checked insert, the once-only team seeding and the
    game-log URL. Pages are given as the cells the scraper selects from
    them; the database session is the Session class below. */
module Players {
  import opened Runtime
  import opened Html
  import opened PyText

  /* ---------------- entities ---------------- */

  datatype Team = Team(teamName: string, abbr: string)

  /** The columns a Player row is built from (players.py:36-42). `age` is the
      cell text the listing passes in. */
  datatype PlayerInfo = PlayerInfo(brName: string, href: string, name: string,
                                   position: string, age: string, team: string)

  /** A player object. Its identity columns never change after
      construction; `stats` is what get_player_stats fills in (None before). */
  class Player {
    const brName: string
    const href: string
    const name: string
    const position: string
    const age: string
    const team: string
    var stats: Option<map<int, Dict>>

    constructor (brName: string, href: string, name: string, position: string, age: string, team: string)
      ensures Info() == PlayerInfo(brName, href, name, position, age, team)
      ensures stats == None
    {
      this.brName := brName;
      this.href := href;
      this.name := name;
      this.position := position;
      this.age := age;
      this.team := team;
      this.stats := None;
    }

    function Info(): PlayerInfo
    {
      PlayerInfo(brName, href, name, position, age, team)
    }

    /** `Player.get_player_stats`: `body` is the game-log table's rows, each
        row its right-aligned cells (None when the page has no tbody). The
        stats become a fresh dictionary per game number; the method stops at
        the first exception, leaving what it had filled in. */
    method GetPlayerStats(body: Option<seq<seq<Td>>>, statNames: set<string>, sx: NumberSyntax)
      returns (err: Option<PyError>)
      modifies this
      ensures var o := GameLog(statNames, sx, body);
        stats == Some(o.state) && err == o.Error()
    {
      var log: map<int, Dict> := map[];
      stats := Some(log);
      if body.None? {
        return Some(AttributeError);
      }
      var rows := body.value;
      var i := 0;
      while i < |rows|
        invariant 0 <= i <= |rows|
        invariant stats == Some(log)
        invariant LogRows(statNames, sx, map[], rows) == LogRows(statNames, sx, log, rows[i..])
      {
        assert rows[i..][0] == rows[i] && rows[i..][1..] == rows[i + 1..];
        var game := rows[i];
        if game == [] {
          return Some(IndexError);
        }
        var current := ParseInt(sx, game[0].text);
        if current.Some? {
          var d, e := CoerceEntries(statNames, sx, map[], game);
          log := log[current.value := d];
          stats := Some(log);
          if e.Some? {
            return e;
          }
        }
        i := i + 1;
      }
      return None;
    }
  }

  /** The session: the staged and stored rows of each table. Queries see
      staged rows (the session flushes before querying). */
  class Session {
    var teams: seq<Team>
    var players: seq<Player>
    var gameStats: seq<Dict>

    constructor ()
      ensures teams == [] && players == [] && gameStats == []
    {
      teams, players, gameStats := [], [], [];
    }

    /** `s.query(s.query(Player).filter_by(br_name=id).exists()).scalar()` */
    method Exists(brName: string) returns (found: bool)
      ensures found <==> HasId(Infos(players), brName)
    {
      found := false;
      var i := 0;
      while i < |players|
        invariant 0 <= i <= |players|
        invariant found <==> exists j :: 0 <= j < i && players[j].brName == brName
      {
        if players[i].brName == brName {
          found := true;
        }
        i := i + 1;
      }
      assert forall j :: 0 <= j < |players| ==> Infos(players)[j].brName == players[j].brName;
    }

    method AddTeam(t: Team)
      modifies this
      ensures teams == old(teams) + [t]
      ensures players == old(players) && gameStats == old(gameStats)
    {
      teams := teams + [t];
    }

    method AddPlayer(p: Player)
      modifies this
      ensures players == old(players) + [p]
      ensures Infos(players) == Infos(old(players)) + [p.Info()]
      ensures teams == old(teams) && gameStats == old(gameStats)
    {
      players := players + [p];
    }

    method AddGameStats(d: Dict)
      modifies this
      ensures gameStats == old(gameStats) + [d]
      ensures teams == old(teams) && players == old(players)
    {
      gameStats := gameStats + [d];
    }
  }

  function Infos(ps: seq<Player>): seq<PlayerInfo>
  {
    seq(|ps|, i requires 0 <= i < |ps| => ps[i].Info())
  }

  predicate HasId(ps: seq<PlayerInfo>, id: string)
  {
    exists i :: 0 <= i < |ps| && ps[i].brName == id
  }

  predicate DistinctIds(ps: seq<PlayerInfo>)
  {
    forall i, j :: 0 <= i < j < |ps| ==> ps[i].brName != ps[j].brName
  }

  /* ---------------- game-log cells ---------------- */

  /** One right-aligned cell of a game row applied to the row's dictionary
      (players.py:63-77, 171-185). An empty cell is set to 0.0 and then also
      goes through the float() branch, which fails on '' and so keeps the
      0.0. A clock value is rewritten `part0.part1` outside any try, so a
      failing float() there raises. Other text that float() rejects is
      skipped. Keys outside `statNames` are not touched. */
  function CoerceCell(statNames: set<string>, sx: NumberSyntax, d: Dict, cell: Td): Outcome<Dict>
  {
    match DataStat(cell)
    case None => Raised(d, KeyError("data-stat"))
    case Some(key) =>
      if key !in statNames then Done(d)
      else
        var d1 := if cell.text == "" then d[key := Number(Zero)] else d;
        if ':' in cell.text then
          var joined := Split(cell.text, ':');
          var literal := joined[0] + "." + joined[1];
          if ParsesAsFloat(sx, literal) then Done(d1[key := Number(FloatOf(literal))])
          else Raised(d1, ValueError(literal))
        else if ParsesAsFloat(sx, cell.text) then Done(d1[key := Number(FloatOf(cell.text))])
        else Done(d1)
  }

  /** The cells of a row, in order, until one raises. */
  function CoerceCells(statNames: set<string>, sx: NumberSyntax, d: Dict, cells: seq<Td>): Outcome<Dict>
    decreases |cells|
  {
    if cells == [] then Done(d)
    else match CoerceCell(statNames, sx, d, cells[0])
      case Raised(d', e) => Raised(d', e)
      case Done(d') => CoerceCells(statNames, sx, d', cells[1..])
  }

  /** The inner loop over a row's right-aligned cells, shared by both
      versions of get_player_stats. */
  method CoerceEntries(statNames: set<string>, sx: NumberSyntax, d0: Dict, cells: seq<Td>)
    returns (d: Dict, err: Option<PyError>)
    ensures var o := CoerceCells(statNames, sx, d0, cells); d == o.state && err == o.Error()
  {
    d := d0;
    var j := 0;
    while j < |cells|
      invariant 0 <= j <= |cells|
      invariant CoerceCells(statNames, sx, d0, cells) == CoerceCells(statNames, sx, d, cells[j..])
    {
      assert cells[j..][0] == cells[j] && cells[j..][1..] == cells[j + 1..];
      var entry := cells[j];
      if "data-stat" !in entry.attrs {
        return d, Some(KeyError("data-stat"));
      }
      var key := entry.attrs["data-stat"];
      if key in statNames {
        if entry.text == "" {
          d := d[key := Number(Zero)];
        }
        if ':' in entry.text {
          var joined := Split(entry.text, ':');
          var literal := joined[0] + "." + joined[1];
          if !ParsesAsFloat(sx, literal) {
            return d, Some(ValueError(literal));
          }
          d := d[key := Number(FloatOf(literal))];
        } else if ParsesAsFloat(sx, entry.text) {
          d := d[key := Number(FloatOf(entry.text))];
        }
      }
      j := j + 1;
    }
    err := None;
  }

  /** A recognised cell without a colon: float(text) when that parses,
      0.0 for the empty cell (the failing float('') keeps it), and nothing
      for any other text, which does not raise. */
  lemma ColonFreeCell(statNames: set<string>, sx: NumberSyntax, d: Dict, cell: Td, key: string)
    requires DataStat(cell) == Some(key) && key in statNames
    requires ':' !in cell.text
    ensures CoerceCell(statNames, sx, d, cell) ==
      Done(if ParsesAsFloat(sx, cell.text) then d[key := Number(FloatOf(cell.text))]
           else if cell.text == "" then d[key := Number(Zero)]
           else d)
    ensures cell.text == "" ==> CoerceCell(statNames, sx, d, cell) == Done(d[key := Number(Zero)])
  {
  }

  /** A recognised clock cell `a:b` (anything after a second colon is
      ignored) gets float("a.b"); if that does not parse the cell raises. */
  lemma ClockCell(statNames: set<string>, sx: NumberSyntax, d: Dict, cell: Td, key: string,
                  a: string, b: string, rest: string)
    requires DataStat(cell) == Some(key) && key in statNames
    requires cell.text == a + ":" + b + rest
    requires ':' !in a && ':' !in b && (rest == [] || rest[0] == ':')
    ensures CoerceCell(statNames, sx, d, cell) ==
      if ParsesAsFloat(sx, a + "." + b) then Done(d[key := Number(FloatOf(a + "." + b))])
      else Raised(d, ValueError(a + "." + b))
  {
    var text := cell.text;
    assert text != "" && ':' in text by {
      assert text[|a|] == ':';
    }
    var joined := Split(text, ':');
    if rest == [] {
      assert text == a + [':'] + b;
      SplitAfter(a, b, ':');
      SplitWhole(b, ':');
    } else {
      var tail := rest[1..];
      assert rest == [':'] + tail;
      assert text == a + [':'] + (b + [':'] + tail);
      SplitAfter(a, b + [':'] + tail, ':');
      SplitAfter(b, tail, ':');
    }
    assert joined[0] == a && joined[1] == b;
  }

  /** "34:12" is read as 34.12. */
  lemma ClockExample(statNames: set<string>, sx: NumberSyntax, d: Dict, cell: Td)
    requires DataStat(cell) == Some("mp") && "mp" in statNames
    requires cell.text == "34:12" && ParsesAsFloat(sx, "34.12")
    ensures CoerceCell(statNames, sx, d, cell) == Done(d["mp" := Number(FloatOf("34.12"))])
  {
    assert cell.text == "34" + ":" + "12" + "";
    assert ':' !in "34" && ':' !in "12";
    assert "34" + "." + "12" == "34.12";
    ClockCell(statNames, sx, d, cell, "mp", "34", "12", "");
  }

  /** The data-stat values of a row's cells. */
  function DataStats(cells: seq<Td>): set<string>
  {
    set i | 0 <= i < |cells| && DataStat(cells[i]).Some? :: DataStat(cells[i]).value
  }

  /** A run over cells never removes a key, only adds recognised stats named
      by the cells, and leaves the value of every key that is not a
      recognised stat named by some cell as it was. */
  lemma {:induction false} CoerceCellsFrame(statNames: set<string>, sx: NumberSyntax, d: Dict, cells: seq<Td>)
    ensures var r := CoerceCells(statNames, sx, d, cells).state;
      d.Keys <= r.Keys &&
      r.Keys <= d.Keys + (statNames * DataStats(cells)) &&
      forall k :: k in d && k !in statNames * DataStats(cells) ==> r[k] == d[k]
    decreases |cells|
  {
    if cells != [] {
      var o := CoerceCell(statNames, sx, d, cells[0]);
      assert DataStats(cells) == (if DataStat(cells[0]).Some? then {DataStat(cells[0]).value} else {}) + DataStats(cells[1..]) by {
        forall x | x in DataStats(cells[1..]) ensures x in DataStats(cells) {
          var i :| 0 <= i < |cells[1..]| && DataStat(cells[1..][i]).Some? && DataStat(cells[1..][i]).value == x;
          assert cells[i + 1] == cells[1..][i];
        }
        forall x | x in DataStats(cells) ensures x in (if DataStat(cells[0]).Some? then {DataStat(cells[0]).value} else {}) + DataStats(cells[1..]) {
          var i :| 0 <= i < |cells| && DataStat(cells[i]).Some? && DataStat(cells[i]).value == x;
          if i > 0 { assert cells[1..][i - 1] == cells[i]; }
        }
      }
      if o.Done? {
        CoerceCellsFrame(statNames, sx, o.state, cells[1..]);
      }
    }
  }

  /** The cells left once those whose data-stat is present but not a
      recognised stat are dropped (a cell without a data-stat stays: it
      raises). */
  function RecognisedCells(statNames: set<string>, cells: seq<Td>): seq<Td>
  {
    if cells == [] then []
    else if DataStat(cells[0]).Some? && DataStat(cells[0]).value !in statNames then RecognisedCells(statNames, cells[1..])
    else [cells[0]] + RecognisedCells(statNames, cells[1..])
  }

  /** Cells whose data-stat is not a recognised stat never change the
      dictionary: dropping them changes neither the result nor the error. */
  lemma {:induction false} UnrecognisedCellsIgnored(statNames: set<string>, sx: NumberSyntax, d: Dict, cells: seq<Td>)
    ensures CoerceCells(statNames, sx, d, cells) == CoerceCells(statNames, sx, d, RecognisedCells(statNames, cells))
    decreases |cells|
  {
    if cells != [] {
      var kept := RecognisedCells(statNames, cells[1..]);
      if DataStat(cells[0]).Some? && DataStat(cells[0]).value !in statNames {
        UnrecognisedCellsIgnored(statNames, sx, d, cells[1..]);
      } else {
        assert ([cells[0]] + kept)[0] == cells[0] && ([cells[0]] + kept)[1..] == kept;
        var o := CoerceCell(statNames, sx, d, cells[0]);
        if o.Done? {
          UnrecognisedCellsIgnored(statNames, sx, o.state, cells[1..]);
        }
      }
    }
  }

  /* ---------------- Player.get_player_stats: one dictionary per game ---------------- */

  /** One row (players.py:53-77): a row without right-aligned cells raises
      IndexError; a row whose first cell is not an integer is skipped;
      otherwise the game number gets a fresh dictionary filled from all of
      the row's cells. */
  function LogRow(statNames: set<string>, sx: NumberSyntax, log: map<int, Dict>, row: seq<Td>): Outcome<map<int, Dict>>
  {
    if row == [] then Raised(log, IndexError)
    else match ParseInt(sx, row[0].text)
      case None => Done(log)
      case Some(g) =>
        match CoerceCells(statNames, sx, map[], row)
        case Done(d) => Done(log[g := d])
        case Raised(d, e) => Raised(log[g := d], e)
  }

  function LogRows(statNames: set<string>, sx: NumberSyntax, log: map<int, Dict>, rows: seq<seq<Td>>): Outcome<map<int, Dict>>
    decreases |rows|
  {
    if rows == [] then Done(log)
    else match LogRow(statNames, sx, log, rows[0])
      case Raised(l, e) => Raised(l, e)
      case Done(l) => LogRows(statNames, sx, l, rows[1..])
  }

  /** What `self.stats` ends as. */
  function GameLog(statNames: set<string>, sx: NumberSyntax, body: Option<seq<seq<Td>>>): Outcome<map<int, Dict>>
  {
    match body
    case None => Raised(map[], AttributeError)
    case Some(rows) => LogRows(statNames, sx, map[], rows)
  }

  /** The dictionary `d` of game `g` was built from row `i` alone. */
  predicate BuiltFromRow(statNames: set<string>, sx: NumberSyntax, rows: seq<seq<Td>>, g: int, d: Dict, i: int)
  {
    0 <= i < |rows| && rows[i] != [] && ParseInt(sx, rows[i][0].text) == Some(g) &&
    d.Keys <= statNames * DataStats(rows[i])
  }

  /** In the method version every game's dictionary comes from one row whose
      first cell is that game number, and holds only recognised stats named
      by that row: nothing carries over between games. */
  lemma {:induction false} LogRowsFreshPerGame(statNames: set<string>, sx: NumberSyntax, log: map<int, Dict>, rows: seq<seq<Td>>)
    ensures var r := LogRows(statNames, sx, log, rows).state;
      log.Keys <= r.Keys &&
      forall g :: g in r ==> (g in log && r[g] == log[g]) ||
                             exists i :: BuiltFromRow(statNames, sx, rows, g, r[g], i)
    decreases |rows|
  {
    if rows != [] {
      var row := rows[0];
      var o := LogRow(statNames, sx, log, row);
      var r := LogRows(statNames, sx, log, rows).state;
      if row != [] && ParseInt(sx, row[0].text).Some? {
        var g0 := ParseInt(sx, row[0].text).value;
        CoerceCellsFrame(statNames, sx, map[], row);
        assert BuiltFromRow(statNames, sx, rows, g0, o.state[g0], 0);
      }
      if o.Done? {
        LogRowsFreshPerGame(statNames, sx, o.state, rows[1..]);
        forall g | g in r && !(g in log && r[g] == log[g])
          ensures exists i :: BuiltFromRow(statNames, sx, rows, g, r[g], i)
        {
          if g in o.state && r[g] == o.state[g] {
            assert BuiltFromRow(statNames, sx, rows, g, r[g], 0);
          } else {
            var i :| BuiltFromRow(statNames, sx, rows[1..], g, r[g], i);
            assert rows[1..][i] == rows[i + 1];
            assert BuiltFromRow(statNames, sx, rows, g, r[g], i + 1);
          }
        }
      } else {
        forall g | g in r && !(g in log && r[g] == log[g])
          ensures exists i :: BuiltFromRow(statNames, sx, rows, g, r[g], i)
        {
          assert BuiltFromRow(statNames, sx, rows, g, r[g], 0);
        }
      }
    }
  }

  /* ---------------- get_player_stats: one shared dictionary ---------------- */

  /** The shared `game_stats` dictionary and the records added so far. */
  datatype Scrape = Scrape(gameStats: Dict, added: seq<Dict>)

  /** One row (players.py:160-186): as LogRow, except that the dictionary
      is the one kept from earlier rows; `game` and `br_name` are set in it
      before the cells, and after the cells a record of it is added. */
  function StatRow(statNames: set<string>, sx: NumberSyntax, owner: string, acc: Scrape, row: seq<Td>): Outcome<Scrape>
  {
    if row == [] then Raised(acc, IndexError)
    else match ParseInt(sx, row[0].text)
      case None => Done(acc)
      case Some(g) =>
        var d := acc.gameStats["game" := GameNo(g)]["br_name" := PlayerKey(owner)];
        match CoerceCells(statNames, sx, d, row)
        case Done(d') => Done(Scrape(d', acc.added + [d']))
        case Raised(d', e) => Raised(Scrape(d', acc.added), e)
  }

  function StatRows(statNames: set<string>, sx: NumberSyntax, owner: string, acc: Scrape, rows: seq<seq<Td>>): Outcome<Scrape>
    decreases |rows|
  {
    if rows == [] then Done(acc)
    else match StatRow(statNames, sx, owner, acc, rows[0])
      case Raised(a, e) => Raised(a, e)
      case Done(a) => StatRows(statNames, sx, owner, a, rows[1..])
  }

  function GameStatRecords(statNames: set<string>, sx: NumberSyntax, owner: string, body: Option<seq<seq<Td>>>): Outcome<Scrape>
  {
    match body
    case None => Raised(Scrape(map[], []), AttributeError)
    case Some(rows) => StatRows(statNames, sx, owner, Scrape(map[], []), rows)
  }

  /** `get_player_stats(player, s)`: adds one stats record per game row to
      the session, stopping at the first exception. */
  method GetPlayerStats(player: Player, s: Session, body: Option<seq<seq<Td>>>, statNames: set<string>, sx: NumberSyntax)
    returns (err: Option<PyError>)
    modifies s
    ensures var o := GameStatRecords(statNames, sx, player.brName, body);
      s.gameStats == old(s.gameStats) + o.state.added && err == o.Error()
    ensures s.teams == old(s.teams) && s.players == old(s.players)
  {
    var gameStats: Dict := map[];
    ghost var added: seq<Dict> := [];
    if body.None? {
      return Some(AttributeError);
    }
    var rows := body.value;
    var i := 0;
    while i < |rows|
      invariant 0 <= i <= |rows|
      invariant s.gameStats == old(s.gameStats) + added
      invariant s.teams == old(s.teams) && s.players == old(s.players)
      invariant StatRows(statNames, sx, player.brName, Scrape(map[], []), rows) ==
                StatRows(statNames, sx, player.brName, Scrape(gameStats, added), rows[i..])
    {
      assert rows[i..][0] == rows[i] && rows[i..][1..] == rows[i + 1..];
      var game := rows[i];
      if game == [] {
        return Some(IndexError);
      }
      var current := ParseInt(sx, game[0].text);
      if current.Some? {
        gameStats := gameStats["game" := GameNo(current.value)]["br_name" := PlayerKey(player.brName)];
        var e;
        gameStats, e := CoerceEntries(statNames, sx, gameStats, game);
        if e.Some? {
          return e;
        }
        s.AddGameStats(gameStats);
        added := added + [gameStats];
      }
      i := i + 1;
    }
    return None;
  }

  /** Rows whose first cell is an integer game number. */
  function DataRowCount(sx: NumberSyntax, rows: seq<seq<Td>>): nat
  {
    if rows == [] then 0
    else (if rows[0] != [] && ParseInt(sx, rows[0][0].text).Some? then 1 else 0) + DataRowCount(sx, rows[1..])
  }

  /** A completed run adds exactly one record per data row, after the
      records already there. */
  lemma {:induction false} OneRecordPerDataRow(statNames: set<string>, sx: NumberSyntax, owner: string, acc: Scrape, rows: seq<seq<Td>>)
    requires StatRows(statNames, sx, owner, acc, rows).Done?
    ensures var r := StatRows(statNames, sx, owner, acc, rows).state;
      |r.added| == |acc.added| + DataRowCount(sx, rows) && r.added[..|acc.added|] == acc.added
    decreases |rows|
  {
    if rows != [] {
      var a := StatRow(statNames, sx, owner, acc, rows[0]).state;
      OneRecordPerDataRow(statNames, sx, owner, a, rows[1..]);
      var r := StatRows(statNames, sx, owner, acc, rows).state;
      assert r.added[..|acc.added|] == r.added[..|a.added|][..|acc.added|];
    }
  }

  /** Keys set by an earlier row stay in every later record: the key sets of
      the records added by one run only grow, and all contain the keys the
      shared dictionary had before the run. */
  predicate KeysPersist(acc: Scrape, r: Scrape)
  {
    acc.gameStats.Keys <= r.gameStats.Keys &&
    |acc.added| <= |r.added| && r.added[..|acc.added|] == acc.added &&
    (forall i :: |acc.added| <= i < |r.added| ==>
       acc.gameStats.Keys <= r.added[i].Keys <= r.gameStats.Keys) &&
    (forall i, j :: |acc.added| <= i < j < |r.added| ==> r.added[i].Keys <= r.added[j].Keys)
  }

  lemma {:induction false} RecordKeysPersist(statNames: set<string>, sx: NumberSyntax, owner: string, acc: Scrape, rows: seq<seq<Td>>)
    ensures KeysPersist(acc, StatRows(statNames, sx, owner, acc, rows).state)
    decreases |rows|
  {
    if rows != [] {
      var row := rows[0];
      var o := StatRow(statNames, sx, owner, acc, row);
      if row != [] && ParseInt(sx, row[0].text).Some? {
        var g := ParseInt(sx, row[0].text).value;
        var d := acc.gameStats["game" := GameNo(g)]["br_name" := PlayerKey(owner)];
        CoerceCellsFrame(statNames, sx, d, row);
      }
      assert KeysPersist(acc, o.state);
      if o.Done? {
        var a := o.state;
        RecordKeysPersist(statNames, sx, owner, a, rows[1..]);
        var r := StatRows(statNames, sx, owner, acc, rows).state;
        assert r.added[..|acc.added|] == r.added[..|a.added|][..|acc.added|];
        forall i, j | |acc.added| <= i < j < |r.added| ensures r.added[i].Keys <= r.added[j].Keys {
          if i < |a.added| {
            assert r.added[i] == a.added[i];
          }
        }
        forall i | |acc.added| <= i < |r.added| ensures acc.gameStats.Keys <= r.added[i].Keys <= r.gameStats.Keys {
          if i < |a.added| {
            assert r.added[i] == a.added[i];
          }
        }
      }
    }
  }

  /** The game rows: non-empty, first cell an integer. */
  function DataRows(sx: NumberSyntax, rows: seq<seq<Td>>): seq<seq<Td>>
  {
    if rows == [] then []
    else if rows[0] != [] && ParseInt(sx, rows[0][0].text).Some? then [rows[0]] + DataRows(sx, rows[1..])
    else DataRows(sx, rows[1..])
  }

  /** Record `rec`, built from `row`, holds the value `prev` had for every
      key other than "game" and "br_name" that the row does not set. */
  predicate CarriedOver(statNames: set<string>, prev: Dict, row: seq<Td>, rec: Dict)
  {
    forall k :: k in prev && k !in statNames * DataStats(row) && k != "game" && k != "br_name" ==>
      k in rec && rec[k] == prev[k]
  }

  /** A completed game row adds the new shared dictionary as its record,
      and that record carries over what the row does not set. */
  lemma GameRowCarriesOver(statNames: set<string>, sx: NumberSyntax, owner: string, acc: Scrape, row: seq<Td>)
    requires row != [] && ParseInt(sx, row[0].text).Some?
    requires StatRow(statNames, sx, owner, acc, row).Done?
    ensures var a := StatRow(statNames, sx, owner, acc, row).state;
      a.added == acc.added + [a.gameStats] && CarriedOver(statNames, acc.gameStats, row, a.gameStats)
  {
    var g := ParseInt(sx, row[0].text).value;
    var d := acc.gameStats["game" := GameNo(g)]["br_name" := PlayerKey(owner)];
    CoerceCellsFrame(statNames, sx, d, row);
  }

  /** Because one dictionary serves every row, the records of a run come
      from the game rows in order, and each keeps, for every stat its row
      does not set, the value of the record before it (for the first
      record, of the dictionary the run started from). */
  lemma {:induction false} RecordValuesCarryOver(statNames: set<string>, sx: NumberSyntax, owner: string, acc: Scrape, rows: seq<seq<Td>>)
    ensures var r := StatRows(statNames, sx, owner, acc, rows).state;
      var n := |acc.added|;
      var games := DataRows(sx, rows);
      n <= |r.added| <= n + |games| && r.added[..n] == acc.added &&
      (n < |r.added| ==> CarriedOver(statNames, acc.gameStats, games[0], r.added[n])) &&
      forall i :: n < i < |r.added| ==> CarriedOver(statNames, r.added[i - 1], games[i - n], r.added[i])
    decreases |rows|
  {
    if rows != [] {
      var row := rows[0];
      var o := StatRow(statNames, sx, owner, acc, row);
      if row != [] && ParseInt(sx, row[0].text).Some? {
        var games := DataRows(sx, rows);
        var later := DataRows(sx, rows[1..]);
        assert games == [row] + later;
        if o.Done? {
          var n := |acc.added|;
          var a := o.state;
          GameRowCarriesOver(statNames, sx, owner, acc, row);
          RecordValuesCarryOver(statNames, sx, owner, a, rows[1..]);
          var r := StatRows(statNames, sx, owner, a, rows[1..]).state;
          assert StatRows(statNames, sx, owner, acc, rows).state == r;
          assert r.added[..n] == r.added[..n + 1][..n];
          assert r.added[n] == a.gameStats by {
            assert r.added[..n + 1][n] == a.added[n];
          }
          forall i | n < i < |r.added|
            ensures CarriedOver(statNames, r.added[i - 1], games[i - n], r.added[i])
          {
            assert games[i - n] == later[i - (n + 1)];
          }
        }
      } else if row != [] {
        RecordValuesCarryOver(statNames, sx, owner, acc, rows[1..]);
      }
    }
  }

  /** Rows that are not game rows (non-empty, first cell not an integer). */
  function DropNonGameRows(sx: NumberSyntax, rows: seq<seq<Td>>): seq<seq<Td>>
  {
    if rows == [] then []
    else if rows[0] != [] && ParseInt(sx, rows[0][0].text).None? then DropNonGameRows(sx, rows[1..])
    else [rows[0]] + DropNonGameRows(sx, rows[1..])
  }

  /** A row whose first cell is not an integer contributes nothing in either
      version: removing all such rows changes neither outcome. */
  lemma {:induction false} NonGameRowsIgnored(statNames: set<string>, sx: NumberSyntax, owner: string,
                                              log: map<int, Dict>, acc: Scrape, rows: seq<seq<Td>>)
    ensures LogRows(statNames, sx, log, rows) == LogRows(statNames, sx, log, DropNonGameRows(sx, rows))
    ensures StatRows(statNames, sx, owner, acc, rows) == StatRows(statNames, sx, owner, acc, DropNonGameRows(sx, rows))
    decreases |rows|
  {
    if rows != [] {
      var kept := DropNonGameRows(sx, rows[1..]);
      if !(rows[0] != [] && ParseInt(sx, rows[0][0].text).None?) {
        assert ([rows[0]] + kept)[0] == rows[0] && ([rows[0]] + kept)[1..] == kept;
        var l := LogRow(statNames, sx, log, rows[0]);
        var a := StatRow(statNames, sx, owner, acc, rows[0]);
        NonGameRowsIgnored(statNames, sx, owner, l.state, a.state, rows[1..]);
      } else {
        NonGameRowsIgnored(statNames, sx, owner, log, acc, rows[1..]);
      }
    }
  }

  /* ---------------- populate_players_table ---------------- */

  /** The identity of a listing row: its first cell's data-append-csv. */
  function RowId(row: seq<Td>): Option<string>
  {
    if row != [] && "data-append-csv" in row[0].attrs then Some(row[0].attrs["data-append-csv"]) else None
  }

  /** One `full_table` row of the listing (players.py:146-150): its identity
      is read first; a known identity is skipped without reading anything
      else; a new one is added with the link, `csk` name and the texts of
      the next three cells as position, age and team. */
  function ListingRow(ps: seq<PlayerInfo>, row: seq<Td>): Outcome<seq<PlayerInfo>>
  {
    if row == [] then Raised(ps, IndexError)
    else if "data-append-csv" !in row[0].attrs then Raised(ps, KeyError("data-append-csv"))
    else
      var id := row[0].attrs["data-append-csv"];
      if HasId(ps, id) then Done(ps)
      else match row[0].link
        case None => Raised(ps, TypeError)
        case Some(a) =>
          if "href" !in a.attrs then Raised(ps, KeyError("href"))
          else if "csk" !in row[0].attrs then Raised(ps, KeyError("csk"))
          else if |row| < 4 then Raised(ps, IndexError)
          else Done(ps + [PlayerInfo(id, a.attrs["href"], row[0].attrs["csk"], row[1].text, row[2].text, row[3].text)])
  }

  function ListingRows(ps: seq<PlayerInfo>, rows: seq<seq<Td>>): Outcome<seq<PlayerInfo>>
    decreases |rows|
  {
    if rows == [] then Done(ps)
    else match ListingRow(ps, rows[0])
      case Raised(p, e) => Raised(p, e)
      case Done(p) => ListingRows(p, rows[1..])
  }

  /** `populate_players_table(s)` over the listing's `full_table` rows. */
  method PopulatePlayersTable(s: Session, rows: seq<seq<Td>>) returns (err: Option<PyError>)
    modifies s
    ensures var o := ListingRows(Infos(old(s.players)), rows);
      Infos(s.players) == o.state && err == o.Error()
    ensures |old(s.players)| <= |s.players| && s.players[..|old(s.players)|] == old(s.players)
    ensures s.teams == old(s.teams) && s.gameStats == old(s.gameStats)
  {
    var i := 0;
    while i < |rows|
      invariant 0 <= i <= |rows|
      invariant ListingRows(Infos(old(s.players)), rows) == ListingRows(Infos(s.players), rows[i..])
      invariant |old(s.players)| <= |s.players| && s.players[..|old(s.players)|] == old(s.players)
      invariant s.teams == old(s.teams) && s.gameStats == old(s.gameStats)
    {
      assert rows[i..][0] == rows[i] && rows[i..][1..] == rows[i + 1..];
      var x := rows[i];
      if x == [] {
        return Some(IndexError);
      }
      if "data-append-csv" !in x[0].attrs {
        return Some(KeyError("data-append-csv"));
      }
      var brName := x[0].attrs["data-append-csv"];
      var found := s.Exists(brName);
      if !found {
        if x[0].link.None? {
          return Some(TypeError);
        }
        var a := x[0].link.value;
        if "href" !in a.attrs {
          return Some(KeyError("href"));
        }
        if "csk" !in x[0].attrs {
          return Some(KeyError("csk"));
        }
        if |x| < 4 {
          return Some(IndexError);
        }
        var p := new Player(brName, a.attrs["href"], x[0].attrs["csk"], x[1].text, x[2].text, x[3].text);
        ghost var before := s.players;
        s.AddPlayer(p);
        assert s.players[..|old(s.players)|] == before[..|old(s.players)|];
      }
      i := i + 1;
    }
    return None;
  }

  /** Every player a run adds has an identity the store did not hold yet:
      the rows already there stay as they were, and distinct identities stay
      distinct. */
  lemma {:induction false} ListingKeepsIdsDistinct(ps: seq<PlayerInfo>, rows: seq<seq<Td>>)
    requires DistinctIds(ps)
    ensures var r := ListingRows(ps, rows).state;
      |ps| <= |r| && r[..|ps|] == ps && DistinctIds(r)
    decreases |rows|
  {
    if rows != [] {
      var p := ListingRow(ps, rows[0]).state;
      assert DistinctIds(p) && |ps| <= |p| && p[..|ps|] == ps;
      ListingKeepsIdsDistinct(p, rows[1..]);
      var r := ListingRows(ps, rows).state;
      assert r[..|ps|] == r[..|p|][..|ps|];
    }
  }

  /** After a completed run every row's identity is in the store. */
  lemma {:induction false} ListingCoversRows(ps: seq<PlayerInfo>, rows: seq<seq<Td>>)
    requires ListingRows(ps, rows).Done?
    ensures var r := ListingRows(ps, rows).state;
      forall i :: 0 <= i < |rows| ==> RowId(rows[i]).Some? && HasId(r, RowId(rows[i]).value)
    decreases |rows|
  {
    if rows != [] {
      var p := ListingRow(ps, rows[0]).state;
      var r := ListingRows(ps, rows).state;
      ListingCoversRows(p, rows[1..]);
      ListingGrows(p, rows[1..]);
      var id := RowId(rows[0]).value;
      var k :| 0 <= k < |p| && p[k].brName == id;
      assert r[k] == p[k];
      forall i | 1 <= i < |rows| ensures RowId(rows[i]).Some? && HasId(r, RowId(rows[i]).value) {
        assert rows[1..][i - 1] == rows[i];
      }
    }
  }

  /** A run only appends. */
  lemma {:induction false} ListingGrows(ps: seq<PlayerInfo>, rows: seq<seq<Td>>)
    ensures var r := ListingRows(ps, rows).state; |ps| <= |r| && r[..|ps|] == ps
    decreases |rows|
  {
    if rows != [] {
      var p := ListingRow(ps, rows[0]).state;
      ListingGrows(p, rows[1..]);
      var r := ListingRows(ps, rows).state;
      assert r[..|ps|] == r[..|p|][..|ps|];
    }
  }

  /** Rows whose identities are all known add nothing and raise nothing. */
  lemma {:induction false} ListingOfKnownRows(ps: seq<PlayerInfo>, rows: seq<seq<Td>>)
    requires forall i :: 0 <= i < |rows| ==> RowId(rows[i]).Some? && HasId(ps, RowId(rows[i]).value)
    ensures ListingRows(ps, rows) == Done(ps)
    decreases |rows|
  {
    if rows != [] {
      assert RowId(rows[0]).Some?;
      forall i | 0 <= i < |rows[1..]| ensures RowId(rows[1..][i]).Some? && HasId(ps, RowId(rows[1..][i]).value) {
        assert rows[1..][i] == rows[i + 1];
      }
      ListingOfKnownRows(ps, rows[1..]);
    }
  }

  /** Running the listing a second time over the same rows adds no player. */
  lemma ListingIdempotent(ps: seq<PlayerInfo>, rows: seq<seq<Td>>)
    requires ListingRows(ps, rows).Done?
    ensures var r := ListingRows(ps, rows).state; ListingRows(r, rows) == Done(r)
  {
    ListingCoversRows(ps, rows);
    ListingOfKnownRows(ListingRows(ps, rows).state, rows);
  }

  /* ---------------- populate_teams_table ---------------- */

  /** `Team(team_name=k, abbr=v)` for each item of the TEAMS table. */
  function TeamRows(teamTable: seq<(string, string)>): seq<Team>
  {
    seq(|teamTable|, i requires 0 <= i < |teamTable| => Team(teamTable[i].0, teamTable[i].1))
  }

  /** `populate_teams_table(s)`: seeds the teams only into an empty table.
      `teamTable` is the TEAMS dictionary's items, which the module uses but
      does not define. */
  method PopulateTeamsTable(s: Session, teamTable: seq<(string, string)>)
    modifies s
    ensures s.teams == if |old(s.teams)| == 0 then TeamRows(teamTable) else old(s.teams)
    ensures s.players == old(s.players) && s.gameStats == old(s.gameStats)
  {
    if |s.teams| == 0 {
      for i := 0 to |teamTable|
        invariant s.teams == TeamRows(teamTable[..i])
        invariant s.players == old(s.players) && s.gameStats == old(s.gameStats)
      {
        s.AddTeam(Team(teamTable[i].0, teamTable[i].1));
        assert TeamRows(teamTable[..i + 1]) == TeamRows(teamTable[..i]) + [Team(teamTable[i].0, teamTable[i].1)];
      }
      assert teamTable[..|teamTable|] == teamTable;
    }
  }

  /* ---------------- the game-log address ---------------- */

  const SiteRoot := "https://www.basketball-reference.com"
  const GameLogPath := "/gamelog/2019"

  /** `'https://www.basketball-reference.com' + href.rstrip('.html') +
      '/gamelog/2019'` (players.py:48, 156). rstrip removes trailing
      characters from the set {'.', 'h', 't', 'm', 'l'}, not the suffix. */
  function DetailUrl(href: string): string
  {
    SiteRoot + RStrip(href, CharSet(".html")) + GameLogPath
  }

  /** The characters `rstrip('.html')` removes. */
  const StrippedChars: set<char> := {'.', 'h', 't', 'm', 'l'}

  lemma StrippedCharsOfHtml()
    ensures CharSet(".html") == StrippedChars
  {
    var h := ".html";
    assert h[0] == '.' && h[1] == 'h' && h[2] == 't' && h[3] == 'm' && h[4] == 'l';
  }

  /** The address keeps exactly the longest prefix of the link that does
      not end in one of '.', 'h', 't', 'm', 'l'. */
  lemma DetailUrlStem(href: string, stem: string, dropped: string)
    requires href == stem + dropped
    requires forall i :: 0 <= i < |dropped| ==> dropped[i] in StrippedChars
    requires stem == [] || stem[|stem| - 1] !in StrippedChars
    ensures DetailUrl(href) == SiteRoot + stem + GameLogPath
  {
    StrippedCharsOfHtml();
    RStripUnique(stem, dropped, CharSet(".html"));
  }

  /** For a page name ending in any other character (the site's names end
      in digits) this is the link without ".html". */
  lemma DetailUrlOfPage(stem: string)
    requires stem == [] || stem[|stem| - 1] !in StrippedChars
    ensures DetailUrl(stem + ".html") == SiteRoot + stem + GameLogPath
  {
    DetailUrlStem(stem + ".html", stem, ".html");
  }

  /** As written, a page name ending in one of those letters loses them too. */
  lemma DetailUrlOverstrips()
    ensures DetailUrl("/players/x/hall.html") == SiteRoot + "/players/x/ha" + GameLogPath
  {
    assert "/players/x/hall.html" == "/players/x/ha" + "ll.html";
    DetailUrlStem("/players/x/hall.html", "/players/x/ha", "ll.html");
  }

  lemma EndsInHtml(stem: string)
    ensures |stem + ".html"| >= 5 && (stem + ".html")[|stem| ..] == ".html"
  {
  }

  /** The evidently intended address: the link without a trailing ".html". */
  function IntendedDetailUrl(href: string): (url: string)
    ensures forall stem :: href == stem + ".html" ==> url == SiteRoot + stem + GameLogPath
  {
    if |href| >= 5 && href[|href| - 5..] == ".html" then
      assert forall stem :: href == stem + ".html" ==> stem == href[..|href| - 5];
      SiteRoot + href[..|href| - 5] + GameLogPath
    else
      assert forall stem :: href != stem + ".html" by {
        forall stem ensures href != stem + ".html" {
          EndsInHtml(stem);
        }
      }
      SiteRoot + href + GameLogPath
  }

  /** The two agree on every page name that ends in a digit or any other
      character outside the stripped set. */
  lemma DetailUrlAgrees(stem: string)
    requires stem == [] || stem[|stem| - 1] !in StrippedChars
    ensures DetailUrl(stem + ".html") == IntendedDetailUrl(stem + ".html")
  {
    DetailUrlOfPage(stem);
  }
}
