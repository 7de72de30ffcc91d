/** The baseball scraper of baseball/baseball_players.py: the teams index
    (abbreviation and display name per team), the roster walk that reads
    cells two at a time and inserts unseen players, the career totals read
    from a table footer, and the once-only seeding of the teams table.
    Fetching is left to the caller: a page that could not be fetched, or a
    missing table part, is None. */
module BaseballPlayers {
  import opened Runtime
  import opened Html
  import opened PyText

  /* ---------------- entities and the session ---------------- */

  datatype Team = Team(teamName: string, abbr: string)

  /** The columns a Player row is built from (baseball_players.py:40-55). */
  datatype PlayerRow = PlayerRow(brName: string, href: string, name: string, position: string, team: string)

  predicate HasId(ps: seq<PlayerRow>, id: string)
  {
    exists i :: 0 <= i < |ps| && ps[i].brName == id
  }

  predicate DistinctIds(ps: seq<PlayerRow>)
  {
    forall i, j :: 0 <= i < j < |ps| ==> ps[i].brName != ps[j].brName
  }

  /** The session: the staged and stored rows of each table. Queries see
      staged rows (the session flushes before querying). */
  class Session {
    var teams: seq<Team>
    var players: seq<PlayerRow>
    var careerStats: seq<Dict>

    constructor ()
      ensures teams == [] && players == [] && careerStats == []
    {
      teams, players, careerStats := [], [], [];
    }

    /** `s.query(s.query(Player).filter_by(br_name=id).exists()).scalar()` */
    method Exists(brName: string) returns (found: bool)
      ensures found <==> HasId(players, brName)
    {
      found := false;
      var i := 0;
      while i < |players|
        invariant 0 <= i <= |players|
        invariant found <==> exists j :: 0 <= j < i && players[j].brName == brName
      {
        if players[i].brName == brName {
          found := true;
        }
        i := i + 1;
      }
    }

    method AddTeam(t: Team)
      modifies this
      ensures teams == old(teams) + [t]
      ensures players == old(players) && careerStats == old(careerStats)
    {
      teams := teams + [t];
    }

    method AddPlayer(p: PlayerRow)
      modifies this
      ensures players == old(players) + [p]
      ensures teams == old(teams) && careerStats == old(careerStats)
    {
      players := players + [p];
    }

    method AddCareerStats(d: Dict)
      modifies this
      ensures careerStats == old(careerStats) + [d]
      ensures teams == old(teams) && players == old(players)
    {
      careerStats := careerStats + [d];
    }
  }

  /* ---------------- get_teams ---------------- */

  /** The display name of a team entry (baseball_players.py:112-117). With a
      comma: the piece after the first comma, given to SegmentName. Without:
      the whole text, spaces turned into '-', lower-cased, not stripped. */
  function TeamDisplayName(text: string): string
  {
    var parts := Split(text, ',');
    if |parts| > 1 then SegmentName(parts[1])
    else Lower(Replace(text, " ", "-"))
  }

  /** The name read from the piece after the comma: every "see " removed,
      outer spaces stripped, spaces turned into '-', lower-cased. */
  function SegmentName(segment: string): string
  {
    Lower(Replace(Strip(Replace(segment, "see ", ""), {' '}), " ", "-"))
  }

  /** A display name never holds a space or an upper-case letter. */
  lemma DisplayNameShape(text: string)
    ensures var r := TeamDisplayName(text);
      forall i :: 0 <= i < |r| ==> r[i] != ' ' && !IsUpper(r[i])
  {
    var parts := Split(text, ',');
    var spaced := if |parts| > 1 then Strip(Replace(parts[1], "see ", ""), {' '}) else text;
    ReplaceOneChar(spaced, ' ', '-');
    assert " " == [' '] && "-" == ['-'];
    LowerShape(Replace(spaced, " ", "-"));
  }

  /** Without a comma the name is the text character by character: spaces
      become '-', letters are lower-cased, nothing is stripped. */
  lemma DisplayNameWithoutComma(text: string)
    requires ',' !in text
    ensures var r := TeamDisplayName(text);
      |r| == |text| &&
      forall i :: 0 <= i < |text| ==> r[i] == LowerChar(if text[i] == ' ' then '-' else text[i])
  {
    SplitWhole(text, ',');
    assert " " == [' '] && "-" == ['-'];
    ReplaceOneChar(text, ' ', '-');
  }

  /** With a comma, only the piece between the first and the second comma
      is used: what precedes it and what follows the second comma do not
      matter. */
  lemma DisplayNameWithComma(a: string, b: string, rest: string)
    requires ',' !in a && ',' !in b && (rest == [] || rest[0] == ',')
    ensures TeamDisplayName(a + [','] + b + rest) == SegmentName(b)
  {
    var text := a + [','] + b + rest;
    assert text == a + [','] + (b + rest);
    SplitAfter(a, b + rest, ',');
    var tail := Split(b + rest, ',');
    if rest == [] {
      assert b + rest == b;
      SplitWhole(b, ',');
    } else {
      assert b + rest == b + [','] + rest[1..];
      SplitAfter(b, rest[1..], ',');
    }
    assert tail[0] == b;
    assert Split(text, ',') == [a] + tail;
    assert Split(text, ',')[1] == b;
  }

  /** A leading " see " is dropped by the "see " removal, but for its first
      space. */
  lemma ReplaceSeeLead(name: string)
    requires forall i :: !OccursAt(name, "see ", i)
    ensures Replace(" see " + name, "see ", "") == " " + name
  {
    var b := " see " + name;
    assert b[..4] == [' ', 's', 'e', 'e'];
    assert b[..4] != "see " by {
      assert b[..4][0] != "see "[0];
    }
    assert b[1..] == "see " + name;
    assert b[1..][..4] == "see " && b[1..][4..] == name;
    ReplaceAbsent(name, "see ", "");
    assert Replace(b[1..], "see ", "") == "" + name;
  }

  /** Stripping spaces from " " + name gives name when name neither starts
      nor ends with a space. */
  lemma StripLeadingSpace(name: string)
    requires name == [] || (name[0] != ' ' && name[|name| - 1] != ' ')
    ensures Strip(" " + name, {' '}) == name
  {
    var s := " " + name;
    if name == [] {
      assert RStrip(s, {' '}) == RStrip(s[..0], {' '}) == [];
    } else {
      assert s[|s| - 1] == name[|name| - 1];
      assert RStrip(s, {' '}) == s;
      assert s[0] == ' ' && s[1..] == name;
      assert LStrip(s, {' '}) == LStrip(name, {' '}) == name;
    }
  }

  /** The piece after ", see " is the whole rest of the text. */
  lemma SeeSegment(a: string, name: string)
    requires ',' !in a && ',' !in name
    ensures TeamDisplayName(a + ", see " + name) == SegmentName(" see " + name)
  {
    var b := " see " + name;
    var text := a + ", see " + name;
    assert text == a + [','] + b + [] by {
      assert ", see " == [','] + " see ";
    }
    assert ',' !in b by {
      assert ',' !in " see ";
    }
    DisplayNameWithComma(a, b, []);
  }

  /** The segment " see Other Name" names Other Name. */
  lemma SeeSegmentName(name: string)
    requires forall i :: !OccursAt(name, "see ", i)
    requires name == [] || (name[0] != ' ' && name[|name| - 1] != ' ')
    ensures SegmentName(" see " + name) == Lower(Replace(name, " ", "-"))
  {
    ReplaceSeeLead(name);
    StripLeadingSpace(name);
  }

  /** "Team, see Other Name": the disambiguation marker is removed and the
      name after it is used, spaces turned into '-' and lower-cased. */
  lemma DisplayNameSeeMarker(a: string, name: string)
    requires ',' !in a && ',' !in name
    requires forall i :: !OccursAt(name, "see ", i)
    requires name == [] || (name[0] != ' ' && name[|name| - 1] != ' ')
    ensures TeamDisplayName(a + ", see " + name) == Lower(Replace(name, " ", "-"))
  {
    SeeSegment(a, name);
    SeeSegmentName(name);
  }

  /** The abbreviation of a link: `href.split('/')[2]`, None where that
      raises IndexError. */
  function Abbreviation(href: string): Option<string>
  {
    var parts := Split(href, '/');
    if |parts| < 3 then None else Some(parts[2])
  }

  /** One `td` of the teams table (baseball_players.py:111-117): a cell
      without a link is skipped; a link without href raises (None.split), a
      link with fewer than three '/'-pieces raises IndexError; otherwise the
      abbreviation maps to the display name, replacing an earlier value. */
  function TeamEntry(teams: seq<(string, string)>, entry: Td): Outcome<seq<(string, string)>>
  {
    match entry.link
    case None => Done(teams)
    case Some(a) =>
      if "href" !in a.attrs then Raised(teams, AttributeError)
      else match Abbreviation(a.attrs["href"])
        case None => Raised(teams, IndexError)
        case Some(abbr) => Done(Assign(teams, abbr, TeamDisplayName(entry.text)))
  }

  function TeamEntries(teams: seq<(string, string)>, entries: seq<Td>): Outcome<seq<(string, string)>>
    decreases |entries|
  {
    if entries == [] then Done(teams)
    else match TeamEntry(teams, entries[0])
      case Raised(t, e) => Raised(t, e)
      case Done(t) => TeamEntries(t, entries[1..])
  }

  /** `get_teams(html)`: None for a missing page, otherwise the
      abbreviation-to-name dictionary in insertion order. */
  method GetTeams(html: Option<seq<Td>>) returns (teams: Option<seq<(string, string)>>, err: Option<PyError>)
    ensures html.None? ==> teams == None && err == None
    ensures html.Some? ==> var o := TeamEntries([], html.value);
      err == o.Error() && teams == (if o.Done? then Some(o.state) else None)
  {
    if html.None? {
      return None, None;
    }
    var entries := html.value;
    var d: seq<(string, string)> := [];
    var i := 0;
    while i < |entries|
      invariant 0 <= i <= |entries|
      invariant TeamEntries([], entries) == TeamEntries(d, entries[i..])
    {
      assert entries[i..][0] == entries[i] && entries[i..][1..] == entries[i + 1..];
      var entry := entries[i];
      if entry.link.Some? {
        var a := entry.link.value;
        if "href" !in a.attrs {
          return None, Some(AttributeError);
        }
        var parts := Split(a.attrs["href"], '/');
        if |parts| < 3 {
          return None, Some(IndexError);
        }
        d := Assign(d, parts[2], TeamDisplayName(entry.text));
      }
      i := i + 1;
    }
    return Some(d), None;
  }

  /** The abbreviation of an entry that has a usable link. */
  function EntryAbbr(entry: Td): Option<string>
  {
    if entry.link.Some? && "href" in entry.link.value.attrs then Abbreviation(entry.link.value.attrs["href"])
    else None
  }

  function EntryAbbrs(entries: seq<Td>): set<string>
  {
    set i | 0 <= i < |entries| && EntryAbbr(entries[i]).Some? :: EntryAbbr(entries[i]).value
  }

  /** A completed run has exactly one key per abbreviation of a linked
      entry, keys distinct. */
  lemma {:induction false} TeamEntriesKeys(teams: seq<(string, string)>, entries: seq<Td>)
    requires KeysDistinct(teams)
    requires TeamEntries(teams, entries).Done?
    ensures var r := TeamEntries(teams, entries).state;
      KeysDistinct(r) && KeysOf(r) == KeysOf(teams) + EntryAbbrs(entries)
    decreases |entries|
  {
    if entries != [] {
      var t := TeamEntry(teams, entries[0]).state;
      if EntryAbbr(entries[0]).Some? {
        AssignKeys(teams, EntryAbbr(entries[0]).value, TeamDisplayName(entries[0].text));
      }
      TeamEntriesKeys(t, entries[1..]);
      assert EntryAbbrs(entries) == (if EntryAbbr(entries[0]).Some? then {EntryAbbr(entries[0]).value} else {}) + EntryAbbrs(entries[1..]) by {
        forall x | x in EntryAbbrs(entries[1..]) ensures x in EntryAbbrs(entries) {
          var i :| 0 <= i < |entries[1..]| && EntryAbbr(entries[1..][i]).Some? && EntryAbbr(entries[1..][i]).value == x;
          assert entries[i + 1] == entries[1..][i];
        }
        forall x | x in EntryAbbrs(entries)
          ensures x in (if EntryAbbr(entries[0]).Some? then {EntryAbbr(entries[0]).value} else {}) + EntryAbbrs(entries[1..])
        {
          var i :| 0 <= i < |entries| && EntryAbbr(entries[i]).Some? && EntryAbbr(entries[i]).value == x;
          if i > 0 { assert entries[1..][i - 1] == entries[i]; }
        }
      }
    }
  }

  /** Entries whose abbreviation is not `k` do not change what `k` maps to. */
  lemma {:induction false} TeamEntriesOtherKey(teams: seq<(string, string)>, entries: seq<Td>, k: string)
    requires forall i :: 0 <= i < |entries| ==> EntryAbbr(entries[i]) != Some(k)
    ensures Lookup(TeamEntries(teams, entries).state, k) == Lookup(teams, k)
    decreases |entries|
  {
    if entries != [] {
      var t := TeamEntry(teams, entries[0]).state;
      assert EntryAbbr(entries[0]) != Some(k);
      forall i | 0 <= i < |entries[1..]| ensures EntryAbbr(entries[1..][i]) != Some(k) {
        assert entries[1..][i] == entries[i + 1];
      }
      TeamEntriesOtherKey(t, entries[1..], k);
    }
  }

  /** A later entry with the same abbreviation overwrites an earlier one:
      after a completed run each abbreviation names the text of the last
      entry that has it. */
  lemma {:induction false} LastEntryWins(teams: seq<(string, string)>, entries: seq<Td>, i: int)
    requires TeamEntries(teams, entries).Done?
    requires 0 <= i < |entries| && EntryAbbr(entries[i]).Some?
    requires forall j :: i < j < |entries| ==> EntryAbbr(entries[j]) != EntryAbbr(entries[i])
    ensures Lookup(TeamEntries(teams, entries).state, EntryAbbr(entries[i]).value) ==
            Some(TeamDisplayName(entries[i].text))
    decreases |entries|
  {
    var t := TeamEntry(teams, entries[0]).state;
    var k := EntryAbbr(entries[i]).value;
    if i == 0 {
      forall j | 0 <= j < |entries[1..]| ensures EntryAbbr(entries[1..][j]) != Some(k) {
        assert entries[1..][j] == entries[j + 1];
      }
      TeamEntriesOtherKey(t, entries[1..], k);
    } else {
      assert entries[1..][i - 1] == entries[i];
      forall j | i - 1 < j < |entries[1..]| ensures EntryAbbr(entries[1..][j]) != EntryAbbr(entries[1..][i - 1]) {
        assert entries[1..][j] == entries[j + 1];
      }
      LastEntryWins(t, entries[1..], i - 1);
    }
  }

  /** The entries that have a link. */
  function Linked(entries: seq<Td>): seq<Td>
  {
    if entries == [] then []
    else if entries[0].link.None? then Linked(entries[1..])
    else [entries[0]] + Linked(entries[1..])
  }

  /** Cells without a link contribute nothing: dropping them changes neither
      the dictionary nor whether the run raises. */
  lemma {:induction false} UnlinkedEntriesIgnored(teams: seq<(string, string)>, entries: seq<Td>)
    ensures TeamEntries(teams, entries) == TeamEntries(teams, Linked(entries))
    decreases |entries|
  {
    if entries != [] {
      if entries[0].link.None? {
        UnlinkedEntriesIgnored(teams, entries[1..]);
      } else {
        var rest := Linked(entries[1..]);
        assert ([entries[0]] + rest)[0] == entries[0] && ([entries[0]] + rest)[1..] == rest;
        UnlinkedEntriesIgnored(TeamEntry(teams, entries[0]).state, entries[1..]);
      }
    }
  }

  /* ---------------- populate_players_table: the roster walk ---------------- */

  /** The roster's left-aligned cells, two at a time (baseball_players.py:
      134-141): the first of a pair is the position; the second carries the
      identity and the link. A lone last cell makes the walk index past the
      end. A known identity is skipped; a new one is added with the given
      team. */
  function RosterPairs(ps: seq<PlayerRow>, cells: seq<Td>, team: string): Outcome<seq<PlayerRow>>
    decreases |cells|
  {
    if cells == [] then Done(ps)
    else if |cells| == 1 then Raised(ps, IndexError)
    else
      var position := cells[0].text;
      var c := cells[1];
      if "data-append-csv" !in c.attrs then Raised(ps, KeyError("data-append-csv"))
      else
        var id := c.attrs["data-append-csv"];
        if HasId(ps, id) then RosterPairs(ps, cells[2..], team)
        else match c.link
          case None => Raised(ps, TypeError)
          case Some(a) =>
            if "href" !in a.attrs then Raised(ps, KeyError("href"))
            else RosterPairs(ps + [PlayerRow(id, a.attrs["href"], a.text, position, team)], cells[2..], team)
  }

  function Roster(ps: seq<PlayerRow>, html: Option<seq<Td>>, team: string): Outcome<seq<PlayerRow>>
  {
    match html
    case None => Raised(ps, AttributeError)
    case Some(cells) => RosterPairs(ps, cells, team)
  }

  /** `populate_players_table(s, html, team)`. */
  method PopulatePlayersTable(s: Session, html: Option<seq<Td>>, team: string) returns (err: Option<PyError>)
    modifies s
    ensures var o := Roster(old(s.players), html, team); s.players == o.state && err == o.Error()
    ensures s.teams == old(s.teams) && s.careerStats == old(s.careerStats)
  {
    if html.None? {
      return Some(AttributeError);
    }
    var players := html.value;
    var count := 0;
    while count < |players|
      invariant 0 <= count <= |players|
      invariant RosterPairs(old(s.players), players, team) == RosterPairs(s.players, players[count..], team)
      invariant s.teams == old(s.teams) && s.careerStats == old(s.careerStats)
    {
      var position := players[count].text;
      count := count + 1;
      if count == |players| {
        return Some(IndexError);
      }
      var c := players[count];
      assert players[count - 1..][1] == c && players[count - 1..][2..] == players[count + 1..];
      if "data-append-csv" !in c.attrs {
        return Some(KeyError("data-append-csv"));
      }
      var found := s.Exists(c.attrs["data-append-csv"]);
      if !found {
        if c.link.None? {
          return Some(TypeError);
        }
        var a := c.link.value;
        if "href" !in a.attrs {
          return Some(KeyError("href"));
        }
        s.AddPlayer(PlayerRow(c.attrs["data-append-csv"], a.attrs["href"], a.text, position, team));
      }
      count := count + 1;
    }
    return None;
  }

  /** An odd number of cells never completes: the walk either raises on a
      malformed pair or indexes past the end at the lone last cell. */
  lemma {:induction false} OddCellCountRaises(ps: seq<PlayerRow>, cells: seq<Td>, team: string)
    requires |cells| % 2 == 1
    ensures RosterPairs(ps, cells, team).Raised?
    decreases |cells|
  {
    if |cells| > 1 {
      var c := cells[1];
      if "data-append-csv" in c.attrs {
        var id := c.attrs["data-append-csv"];
        if HasId(ps, id) {
          OddCellCountRaises(ps, cells[2..], team);
        } else if c.link.Some? && "href" in c.link.value.attrs {
          var a := c.link.value;
          OddCellCountRaises(ps + [PlayerRow(id, a.attrs["href"], a.text, cells[0].text, team)], cells[2..], team);
        }
      }
    }
  }

  /** When every pair is well formed, an odd roster walks all the pairs and
      then raises IndexError reading the identity of the lone last cell. */
  lemma {:induction false} OddRosterRaisesIndexError(ps: seq<PlayerRow>, cells: seq<Td>, team: string)
    requires |cells| % 2 == 1
    requires forall k :: 0 <= k < |cells| / 2 ==> WellFormedPair(cells, k)
    ensures RosterPairs(ps, cells, team) == Raised(RosterPairs(ps, cells, team).state, IndexError)
    decreases |cells|
  {
    if |cells| > 1 {
      assert WellFormedPair(cells, 0);
      var c := cells[1];
      var id := c.attrs["data-append-csv"];
      var rest := cells[2..];
      forall k | 0 <= k < |rest| / 2 ensures WellFormedPair(rest, k) {
        assert WellFormedPair(cells, k + 1);
        assert rest[2 * k + 1] == cells[2 * (k + 1) + 1];
      }
      if HasId(ps, id) {
        OddRosterRaisesIndexError(ps, rest, team);
      } else {
        var a := c.link.value;
        OddRosterRaisesIndexError(ps + [PlayerRow(id, a.attrs["href"], a.text, cells[0].text, team)], rest, team);
      }
    }
  }

  /** Player `p` was read from the pair at cells 2k and 2k+1. */
  predicate FromPair(cells: seq<Td>, p: PlayerRow, k: int)
  {
    0 <= k && 2 * k + 1 < |cells| &&
    p.position == cells[2 * k].text &&
    "data-append-csv" in cells[2 * k + 1].attrs && p.brName == cells[2 * k + 1].attrs["data-append-csv"]
  }

  /** Every row of `r` after the first |ps| carries `team` and was read from
      one pair of `cells`. */
  ghost predicate NewRowsFromPairs(ps: seq<PlayerRow>, r: seq<PlayerRow>, cells: seq<Td>, team: string)
  {
    |ps| <= |r| &&
    forall i :: |ps| <= i < |r| ==> r[i].team == team && exists k :: FromPair(cells, r[i], k)
  }

  /** Rows read from the pairs after the first pair were read from pairs of
      the whole cell sequence too. */
  lemma NewRowsShift(ps: seq<PlayerRow>, next: seq<PlayerRow>, r: seq<PlayerRow>, cells: seq<Td>, team: string)
    requires |cells| >= 2
    requires |ps| <= |next| <= |ps| + 1 && |next| <= |r| && r[..|next|] == next
    requires |next| == |ps| + 1 ==> next[|ps|].team == team && FromPair(cells, next[|ps|], 0)
    requires NewRowsFromPairs(next, r, cells[2..], team)
    ensures NewRowsFromPairs(ps, r, cells, team)
  {
    forall i | |ps| <= i < |r| ensures r[i].team == team && exists k :: FromPair(cells, r[i], k) {
      if i < |next| {
        assert r[i] == r[..|next|][i] == next[|ps|];
        assert FromPair(cells, r[i], 0);
      } else {
        var k :| FromPair(cells[2..], r[i], k);
        assert cells[2..][2 * k] == cells[2 * (k + 1)] && cells[2..][2 * k + 1] == cells[2 * (k + 1) + 1];
        assert FromPair(cells, r[i], k + 1);
      }
    }
  }

  /** The walk keeps the rows already stored, adds only identities it did
      not hold (so identities stay distinct), gives every new row the team
      passed in, and reads each new row's position and identity from one
      pair of cells. */
  lemma {:induction false} RosterAppendsPairs(ps: seq<PlayerRow>, cells: seq<Td>, team: string)
    requires DistinctIds(ps)
    ensures var r := RosterPairs(ps, cells, team).state;
      |ps| <= |r| && r[..|ps|] == ps && DistinctIds(r) && NewRowsFromPairs(ps, r, cells, team)
    decreases |cells|
  {
    var r := RosterPairs(ps, cells, team).state;
    if |cells| > 1 && "data-append-csv" in cells[1].attrs {
      var c := cells[1];
      var id := c.attrs["data-append-csv"];
      if HasId(ps, id) {
        assert r == RosterPairs(ps, cells[2..], team).state;
        RosterAppendsPairs(ps, cells[2..], team);
        NewRowsShift(ps, ps, r, cells, team);
      } else if c.link.Some? && "href" in c.link.value.attrs {
        var next := ps + [PlayerRow(id, c.link.value.attrs["href"], c.link.value.text, cells[0].text, team)];
        assert next[..|ps|] == ps;
        assert FromPair(cells, next[|ps|], 0);
        assert r == RosterPairs(next, cells[2..], team).state;
        RosterAppendsPairs(next, cells[2..], team);
        assert r[..|ps|] == r[..|next|][..|ps|];
        NewRowsShift(ps, next, r, cells, team);
      } else {
        assert r == ps;
      }
    } else {
      assert r == ps;
    }
  }

  /** A pair whose identity cell has a usable link. */
  predicate WellFormedPair(cells: seq<Td>, k: int)
  {
    0 <= k && 2 * k + 1 < |cells| &&
    "data-append-csv" in cells[2 * k + 1].attrs &&
    cells[2 * k + 1].link.Some? && "href" in cells[2 * k + 1].link.value.attrs
  }

  function PairId(cells: seq<Td>, k: int): string
    requires WellFormedPair(cells, k)
  {
    cells[2 * k + 1].attrs["data-append-csv"]
  }

  /** A roster of N well-formed pairs with N new, distinct identities adds
      exactly N players. */
  lemma {:induction false} RosterAddsEveryNewPair(ps: seq<PlayerRow>, cells: seq<Td>, team: string)
    requires |cells| % 2 == 0
    requires forall k :: 0 <= k < |cells| / 2 ==> WellFormedPair(cells, k) && !HasId(ps, PairId(cells, k))
    requires forall k, l :: 0 <= k < l < |cells| / 2 ==> PairId(cells, k) != PairId(cells, l)
    ensures RosterPairs(ps, cells, team).Done?
    ensures |RosterPairs(ps, cells, team).state| == |ps| + |cells| / 2
    decreases |cells|
  {
    if cells != [] {
      assert WellFormedPair(cells, 0);
      var c := cells[1];
      var id := c.attrs["data-append-csv"];
      var next := ps + [PlayerRow(id, c.link.value.attrs["href"], c.link.value.text, cells[0].text, team)];
      var rest := cells[2..];
      forall k | 0 <= k < |rest| / 2 ensures WellFormedPair(rest, k) && !HasId(next, PairId(rest, k)) {
        assert rest[2 * k + 1] == cells[2 * (k + 1) + 1];
        assert WellFormedPair(cells, k + 1);
        assert PairId(rest, k) == PairId(cells, k + 1) != PairId(cells, 0);
      }
      forall k, l | 0 <= k < l < |rest| / 2 ensures PairId(rest, k) != PairId(rest, l) {
        assert WellFormedPair(cells, k + 1) && WellFormedPair(cells, l + 1);
        assert rest[2 * k + 1] == cells[2 * (k + 1) + 1] && rest[2 * l + 1] == cells[2 * (l + 1) + 1];
      }
      RosterAddsEveryNewPair(next, rest, team);
    }
  }

  /** The pair at cells 2k and 2k+1 carries an identity `ps` already holds. */
  predicate KnownPair(ps: seq<PlayerRow>, cells: seq<Td>, k: int)
  {
    0 <= k && 2 * k + 1 < |cells| &&
    "data-append-csv" in cells[2 * k + 1].attrs && HasId(ps, cells[2 * k + 1].attrs["data-append-csv"])
  }

  /** A walk only appends. */
  lemma {:induction false} RosterGrows(ps: seq<PlayerRow>, cells: seq<Td>, team: string)
    ensures var r := RosterPairs(ps, cells, team).state; |ps| <= |r| && r[..|ps|] == ps
    decreases |cells|
  {
    if |cells| > 1 && "data-append-csv" in cells[1].attrs {
      var c := cells[1];
      var id := c.attrs["data-append-csv"];
      if HasId(ps, id) {
        RosterGrows(ps, cells[2..], team);
      } else if c.link.Some? && "href" in c.link.value.attrs {
        var next := ps + [PlayerRow(id, c.link.value.attrs["href"], c.link.value.text, cells[0].text, team)];
        RosterGrows(next, cells[2..], team);
        var r := RosterPairs(ps, cells, team).state;
        assert r[..|ps|] == r[..|next|][..|ps|];
      }
    }
  }

  /** Identities a walk starts from are still there at its end. */
  lemma KnownStaysKnown(ps: seq<PlayerRow>, cells: seq<Td>, team: string, id: string)
    requires HasId(ps, id)
    ensures HasId(RosterPairs(ps, cells, team).state, id)
  {
    RosterGrows(ps, cells, team);
    var r := RosterPairs(ps, cells, team).state;
    var j :| 0 <= j < |ps| && ps[j].brName == id;
    assert r[..|ps|][j] == r[j];
  }

  /** After a completed walk every pair's identity is in the store. */
  lemma {:induction false} RosterCoversPairs(ps: seq<PlayerRow>, cells: seq<Td>, team: string)
    requires RosterPairs(ps, cells, team).Done?
    ensures var r := RosterPairs(ps, cells, team).state;
      |cells| % 2 == 0 && forall k :: 0 <= k < |cells| / 2 ==> KnownPair(r, cells, k)
    decreases |cells|
  {
    if cells != [] {
      var c := cells[1];
      var id := c.attrs["data-append-csv"];
      var next := if HasId(ps, id) then ps
                  else ps + [PlayerRow(id, c.link.value.attrs["href"], c.link.value.text, cells[0].text, team)];
      assert HasId(next, id) by {
        if !HasId(ps, id) { assert next[|ps|].brName == id; }
      }
      assert RosterPairs(ps, cells, team) == RosterPairs(next, cells[2..], team);
      RosterCoversPairs(next, cells[2..], team);
      KnownStaysKnown(next, cells[2..], team, id);
      var r := RosterPairs(ps, cells, team).state;
      assert KnownPair(r, cells, 0);
      forall k | 1 <= k < |cells| / 2 ensures KnownPair(r, cells, k) {
        assert KnownPair(r, cells[2..], k - 1);
        assert cells[2..][2 * (k - 1) + 1] == cells[2 * k + 1];
      }
    }
  }

  /** Pairs whose identities are all known add nothing and raise nothing. */
  lemma {:induction false} RosterOfKnownPairs(ps: seq<PlayerRow>, cells: seq<Td>, team: string)
    requires |cells| % 2 == 0
    requires forall k :: 0 <= k < |cells| / 2 ==> KnownPair(ps, cells, k)
    ensures RosterPairs(ps, cells, team) == Done(ps)
    decreases |cells|
  {
    if cells != [] {
      assert KnownPair(ps, cells, 0);
      forall k | 0 <= k < |cells[2..]| / 2 ensures KnownPair(ps, cells[2..], k) {
        assert KnownPair(ps, cells, k + 1);
        assert cells[2..][2 * k + 1] == cells[2 * (k + 1) + 1];
      }
      RosterOfKnownPairs(ps, cells[2..], team);
    }
  }

  /** Walking the same roster again adds no player. */
  lemma RosterIdempotent(ps: seq<PlayerRow>, cells: seq<Td>, team: string)
    requires RosterPairs(ps, cells, team).Done?
    ensures var r := RosterPairs(ps, cells, team).state; RosterPairs(r, cells, team) == Done(r)
  {
    RosterCoversPairs(ps, cells, team);
    RosterOfKnownPairs(RosterPairs(ps, cells, team).state, cells, team);
  }

  /* ---------------- get_batter_career_stats ---------------- */

  /** The column a footer stat is stored under: "2B" and "3B" are renamed. */
  function CareerKey(dataStat: string): string
  {
    if dataStat == "2B" then "doubles" else if dataStat == "3B" then "triples" else dataStat
  }

  /** One footer cell (baseball_players.py:158-164): an empty cell is
      skipped; otherwise its data-stat is read and float() of its text is
      stored under the renamed key, with no try around it. */
  function FooterCell(sx: NumberSyntax, d: Dict, v: Td): Outcome<Dict>
  {
    if v.text == "" then Done(d)
    else match DataStat(v)
      case None => Raised(d, KeyError("data-stat"))
      case Some(ds) =>
        if ParsesAsFloat(sx, v.text) then Done(d[CareerKey(ds) := Number(FloatOf(v.text))])
        else Raised(d, ValueError(v.text))
  }

  function FooterCells(sx: NumberSyntax, d: Dict, cells: seq<Td>): Outcome<Dict>
    decreases |cells|
  {
    if cells == [] then Done(d)
    else match FooterCell(sx, d, cells[0])
      case Raised(d', e) => Raised(d', e)
      case Done(d') => FooterCells(sx, d', cells[1..])
  }

  /** The name, br_name and position the dictionary starts from. */
  function PlayerFields(player: PlayerRow): Dict
  {
    map["name" := Text(player.name), "br_name" := Text(player.brName), "position" := Text(player.position)]
  }

  /** The mapped columns of CareerStats (baseball_players.py:60-86). The
      declarative constructor raises TypeError for a keyword that is not an
      attribute of the class; the model takes the columns as the accepted
      keywords (other class attributes, such as `metadata`, are not
      modelled). */
  const CareerColumns: set<string> := {
    "br_name", "name", "position", "G", "PA", "AB", "R", "H", "doubles", "triples",
    "HR", "RBI", "SB", "CS", "BB", "SO", "TB", "GIDP", "HBP", "SH", "SF", "IBB",
    "batting_avg", "onbase_perc", "slugging_perc", "onbase_plus_slugging", "onbase_plus_slugging_plus"
  }

  /** The record get_batter_career_stats adds; `footer` is the cells of the
      first footer row, None when the page or the footer is missing. A key
      that is not a column makes `CareerStats(**stats)` raise TypeError. */
  function CareerRecord(sx: NumberSyntax, player: PlayerRow, footer: Option<seq<Td>>): Outcome<Dict>
  {
    match footer
    case None => Raised(PlayerFields(player), AttributeError)
    case Some(cells) =>
      match FooterCells(sx, PlayerFields(player), cells)
      case Raised(d, e) => Raised(d, e)
      case Done(d) => if d.Keys <= CareerColumns then Done(d) else Raised(d, TypeError)
  }

  /** `get_batter_career_stats(player, s)`. */
  method GetBatterCareerStats(player: PlayerRow, s: Session, footer: Option<seq<Td>>, sx: NumberSyntax)
    returns (err: Option<PyError>)
    modifies s
    ensures var o := CareerRecord(sx, player, footer);
      s.careerStats == old(s.careerStats) + (if o.Done? then [o.state] else []) && err == o.Error()
    ensures s.teams == old(s.teams) && s.players == old(s.players)
  {
    var stats := map[];
    stats := stats["name" := Text(player.name)];
    stats := stats["br_name" := Text(player.brName)];
    stats := stats["position" := Text(player.position)];
    if footer.None? {
      return Some(AttributeError);
    }
    var cells := footer.value;
    var i := 0;
    while i < |cells|
      invariant 0 <= i <= |cells|
      invariant FooterCells(sx, PlayerFields(player), cells) == FooterCells(sx, stats, cells[i..])
    {
      assert cells[i..][0] == cells[i] && cells[i..][1..] == cells[i + 1..];
      var v := cells[i];
      if v.text != "" {
        if "data-stat" !in v.attrs {
          return Some(KeyError("data-stat"));
        }
        if !ParsesAsFloat(sx, v.text) {
          return Some(ValueError(v.text));
        }
        if v.attrs["data-stat"] == "2B" {
          stats := stats["doubles" := Number(FloatOf(v.text))];
        } else if v.attrs["data-stat"] == "3B" {
          stats := stats["triples" := Number(FloatOf(v.text))];
        } else {
          stats := stats[v.attrs["data-stat"] := Number(FloatOf(v.text))];
        }
      }
      i := i + 1;
    }
    if !(stats.Keys <= CareerColumns) {
      return Some(TypeError);
    }
    s.AddCareerStats(stats);
    return None;
  }

  /** The key a footer cell is stored under; None for a cell that is
      skipped or raises. */
  function FooterCellKey(v: Td): Option<string>
  {
    if v.text != "" && DataStat(v).Some? then Some(CareerKey(DataStat(v).value)) else None
  }

  /** The renamed keys of the non-empty footer cells. */
  function FooterKeys(cells: seq<Td>): set<string>
  {
    set i | 0 <= i < |cells| && FooterCellKey(cells[i]).Some? :: FooterCellKey(cells[i]).value
  }

  lemma FooterKeysCons(cells: seq<Td>)
    requires cells != []
    ensures FooterKeys(cells) ==
      (if FooterCellKey(cells[0]).Some? then {FooterCellKey(cells[0]).value} else {}) + FooterKeys(cells[1..])
  {
    forall x | x in FooterKeys(cells[1..]) ensures x in FooterKeys(cells) {
      var i :| 0 <= i < |cells[1..]| && FooterCellKey(cells[1..][i]).Some? && FooterCellKey(cells[1..][i]).value == x;
      assert cells[i + 1] == cells[1..][i];
    }
    forall x | x in FooterKeys(cells)
      ensures x in (if FooterCellKey(cells[0]).Some? then {FooterCellKey(cells[0]).value} else {}) + FooterKeys(cells[1..])
    {
      var i :| 0 <= i < |cells| && FooterCellKey(cells[i]).Some? && FooterCellKey(cells[i]).value == x;
      if i > 0 { assert cells[1..][i - 1] == cells[i]; }
    }
  }

  /** A footer run adds exactly the renamed keys of its non-empty cells
      (so never "2B" or "3B"), and leaves every other key as it was. */
  lemma {:induction false} FooterCellsFrame(sx: NumberSyntax, d: Dict, cells: seq<Td>)
    requires FooterCells(sx, d, cells).Done?
    ensures var r := FooterCells(sx, d, cells).state;
      r.Keys == d.Keys + FooterKeys(cells) &&
      "2B" !in FooterKeys(cells) && "3B" !in FooterKeys(cells) &&
      forall k :: k in d && k !in FooterKeys(cells) ==> r[k] == d[k]
    decreases |cells|
  {
    if cells != [] {
      var d' := FooterCell(sx, d, cells[0]).state;
      assert d'.Keys == d.Keys + (if FooterCellKey(cells[0]).Some? then {FooterCellKey(cells[0]).value} else {});
      FooterCellsFrame(sx, d', cells[1..]);
      FooterKeysCons(cells);
    }
  }

  /** The value stored under a key is float() of the last non-empty cell
      whose renamed key it is. */
  lemma {:induction false} FooterLastCellWins(sx: NumberSyntax, d: Dict, cells: seq<Td>, i: int)
    requires FooterCells(sx, d, cells).Done?
    requires 0 <= i < |cells| && FooterCellKey(cells[i]).Some?
    requires forall j :: i < j < |cells| ==> FooterCellKey(cells[j]) != FooterCellKey(cells[i])
    ensures var r := FooterCells(sx, d, cells).state;
      FooterCellKey(cells[i]).value in r && r[FooterCellKey(cells[i]).value] == Number(FloatOf(cells[i].text))
    decreases |cells|
  {
    var d' := FooterCell(sx, d, cells[0]).state;
    var k := FooterCellKey(cells[i]).value;
    if i == 0 {
      FooterCellsFrame(sx, d', cells[1..]);
      forall j | 0 <= j < |cells[1..]| ensures FooterCellKey(cells[1..][j]) != Some(k) {
        assert cells[1..][j] == cells[j + 1];
      }
      assert k !in FooterKeys(cells[1..]);
    } else {
      assert cells[1..][i - 1] == cells[i];
      forall j | i - 1 < j < |cells[1..]| ensures FooterCellKey(cells[1..][j]) != FooterCellKey(cells[1..][i - 1]) {
        assert cells[1..][j] == cells[j + 1];
      }
      FooterLastCellWins(sx, d', cells[1..], i - 1);
    }
  }

  /** A footer is stored exactly when every cell converts and every
      renamed data-stat is a CareerStats column. */
  lemma CareerRecordAccepts(sx: NumberSyntax, player: PlayerRow, cells: seq<Td>)
    ensures CareerRecord(sx, player, Some(cells)).Done? <==>
      FooterCells(sx, PlayerFields(player), cells).Done? && FooterKeys(cells) <= CareerColumns
  {
    if FooterCells(sx, PlayerFields(player), cells).Done? {
      FooterCellsFrame(sx, PlayerFields(player), cells);
      assert PlayerFields(player).Keys <= CareerColumns;
    }
  }

  /** A completed career record always holds name, br_name and position,
      taken from the player unless a footer column of that name replaced
      them, and never a "2B" or "3B" key. */
  lemma CareerRecordFields(sx: NumberSyntax, player: PlayerRow, footer: Option<seq<Td>>)
    requires CareerRecord(sx, player, footer).Done?
    ensures var r := CareerRecord(sx, player, footer).state;
      "name" in r && "br_name" in r && "position" in r && "2B" !in r && "3B" !in r &&
      ("name" !in FooterKeys(footer.value) ==> r["name"] == Text(player.name)) &&
      ("br_name" !in FooterKeys(footer.value) ==> r["br_name"] == Text(player.brName)) &&
      ("position" !in FooterKeys(footer.value) ==> r["position"] == Text(player.position))
  {
    FooterCellsFrame(sx, PlayerFields(player), footer.value);
  }

  /* ---------------- populate_teams_table ---------------- */

  /** `Team(team_name=v, abbr=k)` for each item of get_teams' result. */
  function TeamRows(items: seq<(string, string)>): seq<Team>
  {
    seq(|items|, i requires 0 <= i < |items| => Team(items[i].1, items[i].0))
  }

  /** The teams an empty table is seeded with: get_teams of the index page
      (whose None, for a missing page, has no `.items()`). */
  function SeedTeams(html: Option<seq<Td>>): Outcome<seq<Team>>
  {
    match html
    case None => Raised([], AttributeError)
    case Some(entries) =>
      match TeamEntries([], entries)
      case Raised(_, e) => Raised([], e)
      case Done(items) => Done(TeamRows(items))
  }

  /** `populate_teams_table(s)`: the index page is read and its teams
      inserted only when the teams table is empty. */
  method PopulateTeamsTable(s: Session, html: Option<seq<Td>>) returns (err: Option<PyError>)
    modifies s
    ensures |old(s.teams)| != 0 ==> s.teams == old(s.teams) && err == None
    ensures |old(s.teams)| == 0 ==> var o := SeedTeams(html); s.teams == o.state && err == o.Error()
    ensures s.players == old(s.players) && s.careerStats == old(s.careerStats)
  {
    if |s.teams| == 0 {
      var teams, e := GetTeams(html);
      if teams.None? {
        return if e.Some? then e else Some(AttributeError);
      }
      var items := teams.value;
      for i := 0 to |items|
        invariant s.teams == TeamRows(items[..i])
        invariant s.players == old(s.players) && s.careerStats == old(s.careerStats)
      {
        s.AddTeam(Team(items[i].1, items[i].0));
        assert TeamRows(items[..i + 1]) == TeamRows(items[..i]) + [Team(items[i].1, items[i].0)];
      }
      assert items[..|items|] == items;
    }
    return None;
  }

  /** Seeding inserts one team per distinct abbreviation found on the index
      page, abbreviations distinct. */
  lemma SeededTeamsOnePerAbbreviation(html: Option<seq<Td>>)
    requires SeedTeams(html).Done?
    ensures var ts := SeedTeams(html).state;
      |ts| == |EntryAbbrs(html.value)| &&
      (set i | 0 <= i < |ts| :: ts[i].abbr) == EntryAbbrs(html.value) &&
      forall i, j :: 0 <= i < j < |ts| ==> ts[i].abbr != ts[j].abbr
  {
    var items := TeamEntries([], html.value).state;
    TeamEntriesKeys([], html.value);
    DistinctKeysCount(items);
    var ts := TeamRows(items);
    assert (set i | 0 <= i < |ts| :: ts[i].abbr) == KeysOf(items) by {
      forall x | x in KeysOf(items) ensures x in (set i | 0 <= i < |ts| :: ts[i].abbr) {
        var i :| 0 <= i < |items| && items[i].0 == x;
        assert ts[i].abbr == x;
      }
    }
  }

  /** Text without a comma takes the second branch of the rule. */
  lemma NoCommaName(text: string)
    requires ',' !in text
    ensures TeamDisplayName(text) == Lower(Replace(text, " ", "-"))
  {
    SplitWhole(text, ',');
  }

  /** `Replace(s, " ", "-")` on a literal, via the character-wise rule. */
  lemma DashesFor(s: string, r: string)
    requires |r| == |s| && forall i :: 0 <= i < |s| ==> r[i] == (if s[i] == ' ' then '-' else s[i])
    ensures Replace(s, " ", "-") == r
  {
    ReplaceOneChar(s, ' ', '-');
    assert " " == [' '] && "-" == ['-'];
  }

  /** Worked example: a plain team name. */
  lemma DisplayNamePlain(text: string)
    requires text == "Houston Astros"
    ensures TeamDisplayName(text) == "houston-astros"
  {
    NoCommaName(text);
    DashesFor(text, "Houston-Astros");
    assert Lower("Houston-Astros") == "houston-astros";
  }

  /** Worked example: a former name pointing at the team's current entry. */
  lemma DisplayNameRedirect(text: string)
    requires text == "Angels, see California Angels"
    ensures TeamDisplayName(text) == "california-angels"
  {
    RedirectUsesName(text);
    CaliforniaAngelsSlug("California Angels");
  }

  lemma RedirectUsesName(text: string)
    requires text == "Angels, see California Angels"
    ensures TeamDisplayName(text) == Lower(Replace("California Angels", " ", "-"))
  {
    var name := "California Angels";
    NoSeeIn(name);
    assert text == "Angels" + ", see " + name;
    DisplayNameSeeMarker("Angels", name);
  }

  lemma CaliforniaAngelsSlug(name: string)
    requires name == "California Angels"
    ensures Lower(Replace(name, " ", "-")) == "california-angels"
  {
    CaliforniaAngelsDashed(name);
    LowerOfCaliforniaAngels("California-Angels");
  }

  lemma CaliforniaAngelsDashed(name: string)
    requires name == "California Angels"
    ensures Replace(name, " ", "-") == "California-Angels"
  {
    DashesFor(name, "California-Angels");
  }

  lemma LowerOfCaliforniaAngels(s: string)
    requires s == "California-Angels"
    ensures Lower(s) == "california-angels"
  {
  }

  lemma NoSeeIn(name: string)
    requires name == "California Angels"
    ensures forall i :: !OccursAt(name, "see ", i)
  {
    assert name[..16] == "California Angel";
    assert 's' !in name[..16];
    forall i ensures !OccursAt(name, "see ", i) {
      if 0 <= i && i + 4 <= |name| {
        assert name[i..i + 4][0] == name[i] == name[..16][i];
      }
    }
  }
}
