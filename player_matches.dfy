/** The match-history screen of one player: the match records it shows,
    the filter and sort it applies to them, which team the player was on,
    the outcome and score columns, the choices offered in the filter
    drop-downs and the comma-separated export. */
module PlayerMatches {
  import opened Nullable
  import opened Strings
  import opened Sorting

  /** A match record as the screen receives it; `createdAt` is the
      creation timestamp already read as a number. */
  datatype Match = Match(
    id: int,
    matchId: Option<int>,
    blueTeam: Option<string>,
    redTeam: Option<string>,
    winningScore: Option<int>,
    losingScore: Option<int>,
    mapName: Option<string>,
    server: Option<string>,
    outcome: Option<int>,
    statsUrl: Option<string>,
    createdAt: int)

  datatype Team = Blue | Red

  /** The column the table is sorted by. */
  datatype SortKey = CreatedAt | MapName

  // ---------------------------------------------------------------------
  // Filtering

  /** The filter controls: an empty map or server choice and an empty
      date (`None`) impose nothing. */
  datatype Filters = Filters(mapName: string, server: string, startDate: Option<int>, endDate: Option<int>)

  const NoFilters := Filters("", "", None, None)

  /** The test one match must pass to be shown. */
  predicate Keep(m: Match, f: Filters)
    ensures Keep(m, f) && f.mapName != "" ==> m.mapName.Some? && m.mapName.value != ""
    ensures Keep(m, f) && f.server != "" ==> m.server.Some? && m.server.value != ""
    ensures f.startDate.Some? && f.endDate.Some? && f.startDate.value > f.endDate.value ==> !Keep(m, f)
  {
    && (f.mapName == "" || m.mapName == Some(f.mapName))
    && (f.server == "" || m.server == Some(f.server))
    && (f.startDate.None? || m.createdAt >= f.startDate.value)
    && (f.endDate.None? || m.createdAt <= f.endDate.value)
  }

  /** `matches.filter(...)` with the current controls: every match it
      returns passes them. */
  function Filtered(matches: seq<Match>, f: Filters): (r: seq<Match>)
    ensures |r| <= |matches|
    ensures forall k :: 0 <= k < |r| ==> Keep(r[k], f)
  {
    Filter(matches, m => Keep(m, f))
  }

  /** A match is shown exactly when it is one of the matches and passes
      every non-empty control, both date bounds inclusive; it is shown as
      many times as it occurs. */
  lemma FilteredExactly(matches: seq<Match>, f: Filters, m: Match)
    ensures multiset(Filtered(matches, f))[m] ==
            if Keep(m, f) then multiset(matches)[m] else 0
    ensures m in Filtered(matches, f) <==>
            && m in matches
            && (f.mapName == "" || m.mapName == Some(f.mapName))
            && (f.server == "" || m.server == Some(f.server))
            && (f.startDate.None? || m.createdAt >= f.startDate.value)
            && (f.endDate.None? || m.createdAt <= f.endDate.value)
  {
    FilterCount(matches, m => Keep(m, f), m);
  }

  /** The kept matches keep their original relative order. */
  lemma FilteredKeepsOrder(front: seq<Match>, back: seq<Match>, f: Filters)
    ensures Filtered(front + back, f) == Filtered(front, f) + Filtered(back, f)
  {
    FilterAppend(front, back, m => Keep(m, f));
  }

  /** With every control empty, every match is shown. */
  lemma NoFiltersKeepAll(matches: seq<Match>)
    ensures Filtered(matches, NoFilters) == matches
  {
    FilterAll(matches, m => Keep(m, NoFilters));
  }

  // ---------------------------------------------------------------------
  // Sorting

  /** `a.map || ''`: a missing map name sorts as the empty string, the
      same reading of null that `TextField` gives the export. */
  function MapText(m: Match): (t: string)
    ensures m.mapName.None? ==> t == ""
    ensures m.mapName.Some? ==> t == m.mapName.value
  {
    TextField(m.mapName)
  }

  /** The comparator handed to `sort`: the difference of the timestamps,
      or the locale comparison of the map names, with the operands swapped
      for the descending order. */
  function Compare(a: Match, b: Match, key: SortKey, order: Direction): (c: int)
    ensures c <= 0 <==> InOrder(a, b, key, order)
    ensures c == 0 <==> if key == CreatedAt then a.createdAt == b.createdAt else MapText(a) == MapText(b)
  {
    match key
    case CreatedAt =>
      if order == Asc then a.createdAt - b.createdAt else b.createdAt - a.createdAt
    case MapName =>
      if order == Asc then LocaleCompare(MapText(a), MapText(b))
      else LocaleCompare(MapText(b), MapText(a))
  }

  /** `a` may be placed before `b`. */
  predicate Precedes(a: Match, b: Match, key: SortKey, order: Direction)
  {
    Compare(a, b, key, order) <= 0
  }

  /** The order the table promises for two rows, stated without the
      comparator: timestamps rising or falling, or map names (missing ones
      read as empty) rising or falling. */
  predicate InOrder(a: Match, b: Match, key: SortKey, order: Direction)
  {
    match key
    case CreatedAt =>
      if order == Asc then a.createdAt <= b.createdAt else a.createdAt >= b.createdAt
    case MapName =>
      if order == Asc then !LexLess(MapText(b), MapText(a)) else !LexLess(MapText(a), MapText(b))
  }

  predicate InDisplayOrder(s: seq<Match>, key: SortKey, order: Direction)
  {
    forall i, j :: 0 <= i < j < |s| ==> InOrder(s[i], s[j], key, order)
  }

  /** The comparator is consistent, so sorting with it is well defined. */
  lemma PrecedesIsTotalPreorder(key: SortKey, order: Direction)
    ensures TotalPreorder((a: Match, b: Match) => Precedes(a, b, key, order))
  {
    forall a: Match, b: Match
      ensures Precedes(a, b, key, order) || Precedes(b, a, key, order)
    {
      LexNotAfterTotal(MapText(a), MapText(b));
    }
    forall a: Match, b: Match, c: Match | Precedes(a, b, key, order) && Precedes(b, c, key, order)
      ensures Precedes(a, c, key, order)
    {
      if key == MapName {
        if order == Asc {
          LexNotAfterTransitive(MapText(a), MapText(b), MapText(c));
        } else {
          LexNotAfterTransitive(MapText(c), MapText(b), MapText(a));
        }
      }
    }
  }

  /** A sequence sorted with the comparator is in display order. */
  lemma SortedIsInDisplayOrder(s: seq<Match>, key: SortKey, order: Direction)
    requires SortedBy(s, (a: Match, b: Match) => Precedes(a, b, key, order))
    ensures InDisplayOrder(s, key, order)
  {
    forall i, j | 0 <= i < j < |s|
      ensures Precedes(s[i], s[j], key, order)
    {
    }
  }

  /** The filter-and-sort effect: the shown matches are the kept ones,
      each as often as it is kept, in display order. */
  method FilterAndSort(matches: seq<Match>, f: Filters, key: SortKey, order: Direction)
    returns (shown: seq<Match>)
    ensures multiset(shown) == multiset(Filtered(matches, f))
    ensures InDisplayOrder(shown, key, order)
  {
    var kept := Filtered(matches, f);
    var a := new Match[|kept|](k requires 0 <= k < |kept| => kept[k]);
    assert a[..] == kept;
    PrecedesIsTotalPreorder(key, order);
    InsertionSort(a, (x: Match, y: Match) => Precedes(x, y, key, order));
    shown := a[..];
    SortedIsInDisplayOrder(shown, key, order);
  }

  /** The sort column and direction. */
  datatype SortState = SortState(key: SortKey, order: Direction)

  /** `handleSort`: the current column flips the direction, another column
      becomes current with the direction reset to ascending. */
  function NextSort(s: SortState, key: SortKey): (r: SortState)
    ensures r.key == key
    ensures s.key == key ==> r.order != s.order
    ensures s.key != key ==> r.order == Asc
  {
    if s.key == key then SortState(key, s.order.Flip()) else SortState(key, Asc)
  }

  /** Choosing the current column twice restores the state. */
  lemma NextSortTwice(s: SortState)
    ensures NextSort(NextSort(s, s.key), s.key) == s
  {
    assert s.order.Flip().Flip() == s.order;
  }

  // ---------------------------------------------------------------------
  // Team, outcome and scores

  /** The trimmed comma-separated entries of a team list. */
  function Entries(team: string): (e: seq<string>)
    ensures |e| == |Split(team, ',')|
    ensures forall k :: 0 <= k < |e| ==> e[k] == Trim(Split(team, ',')[k])
  {
    var parts := Split(team, ',');
    seq(|parts|, k requires 0 <= k < |parts| => Trim(parts[k]))
  }

  /** `getPlayerTeam`: blue exactly when the player's id is one of the
      trimmed entries of the blue list; red when the id is missing or
      empty, and whatever the red list holds. */
  function GetPlayerTeam(m: Match, discordId: Option<string>): (t: Team)
    ensures discordId.None? || discordId == Some("") ==> t == Red
    ensures m.blueTeam.None? ==> t == Red
    ensures t == Blue <==>
            discordId.Some? && discordId.value != "" && m.blueTeam.Some? &&
            discordId.value in Entries(m.blueTeam.value)
  {
    if discordId.None? || discordId.value == "" then Red
    else
      var blue := if m.blueTeam.Some? then Entries(m.blueTeam.value) else [];
      if discordId.value in blue then Blue else Red
  }

  /** For a blue list written as comma-separated trimmed ids, the player
      is blue exactly when their id is one of those ids. */
  lemma GetPlayerTeamByRoster(m: Match, ids: seq<string>, id: string)
    requires |ids| >= 1
    requires forall k :: 0 <= k < |ids| ==> ',' !in ids[k] && Trimmed(ids[k])
    requires m.blueTeam == Some(Join(ids, ','))
    requires id != ""
    ensures GetPlayerTeam(m, Some(id)) == Blue <==> id in ids
  {
    SplitJoin(ids, ',');
    assert Entries(Join(ids, ',')) == ids;
  }

  /** The red list never affects the team. */
  lemma RedListIgnored(m: Match, red: Option<string>, discordId: Option<string>)
    ensures GetPlayerTeam(m.(redTeam := red), discordId) == GetPlayerTeam(m, discordId)
  {
  }

  /** `getOutcomeClass`: the row's style relative to the player's team. */
  function GetOutcomeClass(outcome: Option<int>, team: Team): (c: string)
    ensures c == "win" <==> (outcome == Some(1) && team == Blue) || (outcome == Some(2) && team == Red)
    ensures c == "draw" <==> outcome.None?
    ensures c == "win" || c == "draw" || c == "loss"
  {
    if outcome == Some(1) && team == Blue then "win"
    else if outcome == Some(2) && team == Red then "win"
    else if outcome.None? then "draw"
    else "loss"
  }

  /** The outcome column (and export field) relative to the team. */
  function OutcomeText(outcome: Option<int>, team: Team): (t: string)
    ensures t == "Win" <==> (outcome == Some(1) && team == Blue) || (outcome == Some(2) && team == Red)
    ensures t == "Win" || t == "Loss"
  {
    assert "Loss" != "Win" by {
      assert "Loss"[0] != "Win"[0];
    }
    if team == Blue then (if outcome == Some(1) then "Win" else "Loss")
    else
      assert team == Red;
      if outcome == Some(2) then "Win" else "Loss"
  }

  /** Style and text agree on wins; a missing outcome is styled as a draw
      but reads "Loss", and a reported draw (0) is styled and read as a
      loss. */
  lemma ClassAndTextAgree(outcome: Option<int>, team: Team)
    ensures GetOutcomeClass(outcome, team) == "win" <==> OutcomeText(outcome, team) == "Win"
    ensures outcome.None? ==> GetOutcomeClass(outcome, team) == "draw" && OutcomeText(outcome, team) == "Loss"
    ensures outcome == Some(0) ==> GetOutcomeClass(outcome, team) == "loss" && OutcomeText(outcome, team) == "Loss"
  {
  }

  datatype Scores = Scores(blue: Option<int>, red: Option<int>)

  function TeamScore(s: Scores, t: Team): Option<int>
  {
    if t == Blue then s.blue else s.red
  }

  /** `getScores`: the side the outcome names gets the winning score, the
      other the losing score; without a winner both show the losing score. */
  function GetScores(m: Match): (s: Scores)
    ensures m.outcome == Some(1) ==> s == Scores(m.winningScore, m.losingScore)
    ensures m.outcome == Some(2) ==> s == Scores(m.losingScore, m.winningScore)
    ensures m.outcome != Some(1) && m.outcome != Some(2) ==> s == Scores(m.losingScore, m.losingScore)
  {
    Scores(if m.outcome == Some(1) then m.winningScore else m.losingScore,
           if m.outcome == Some(2) then m.winningScore else m.losingScore)
  }

  /** A row that reads "Win" shows the winning score on the player's side;
      a decided match that reads "Loss" shows it on the other side. */
  lemma WinnerShowsWinningScore(m: Match, t: Team)
    ensures OutcomeText(m.outcome, t) == "Win" ==> TeamScore(GetScores(m), t) == m.winningScore
    ensures (m.outcome == Some(1) || m.outcome == Some(2)) && OutcomeText(m.outcome, t) == "Loss" ==>
              TeamScore(GetScores(m), t) == m.losingScore &&
              TeamScore(GetScores(m), if t == Blue then Red else Blue) == m.winningScore
  {
  }

  // ---------------------------------------------------------------------
  // Filter choices

  /** `Array.from(new Set(values.filter(Boolean)))`: the non-empty values,
      each once, in the order they first occur. */
  function UniqueNonEmpty(values: seq<Option<string>>): (r: seq<string>)
    ensures forall i, j :: 0 <= i < j < |r| ==> r[i] != r[j]
    ensures forall x :: x in r <==> x != "" && Some(x) in values
    decreases |values|
  {
    if |values| == 0 then []
    else
      var r := UniqueNonEmpty(values[..|values| - 1]);
      var last := values[|values| - 1];
      assert values == values[..|values| - 1] + [last];
      if last.Some? && last.value != "" && last.value !in r then r + [last.value] else r
  }

  /** Where `x` first occurs among the values. */
  function FirstIndex(values: seq<Option<string>>, x: string): (k: nat)
    requires Some(x) in values
    ensures k < |values| && values[k] == Some(x)
    ensures forall i :: 0 <= i < k ==> values[i] != Some(x)
  {
    if values[0] == Some(x) then 0 else 1 + FirstIndex(values[1..], x)
  }

  /** The choices are listed in the order of their first occurrence. */
  lemma {:induction false} UniqueInFirstOccurrenceOrder(values: seq<Option<string>>, i: nat, j: nat)
    requires i < j < |UniqueNonEmpty(values)|
    ensures FirstIndex(values, UniqueNonEmpty(values)[i]) < FirstIndex(values, UniqueNonEmpty(values)[j])
    decreases |values|
  {
    var n := |values|;
    var front := values[..n - 1];
    var r := UniqueNonEmpty(values);
    var r' := UniqueNonEmpty(front);
    assert values == front + [values[n - 1]];
    assert r[i] in r && r[j] in r;
    if j < |r'| {
      assert r[i] == r'[i] && r[j] == r'[j];
      assert r'[i] in r' && r'[j] in r';
      UniqueInFirstOccurrenceOrder(front, i, j);
      SameFirstIndex(front, values[n - 1], r[i]);
      SameFirstIndex(front, values[n - 1], r[j]);
    } else {
      assert r[i] == r'[i] && r'[i] in r';
      SameFirstIndex(front, values[n - 1], r[i]);
      assert r[j] !in r';
      assert FirstIndex(values, r[j]) == n - 1;
    }
  }

  lemma SameFirstIndex(front: seq<Option<string>>, last: Option<string>, x: string)
    requires Some(x) in front
    ensures Some(x) in front + [last]
    ensures FirstIndex(front + [last], x) == FirstIndex(front, x)
  {
    var k := FirstIndex(front, x);
    var k' := FirstIndex(front + [last], x);
    assert (front + [last])[k] == Some(x);
  }

  /** The map names offered by the map drop-down, each once. */
  function UniqueMaps(matches: seq<Match>): (r: seq<string>)
    ensures forall i, j :: 0 <= i < j < |r| ==> r[i] != r[j]
    ensures "" !in r
  {
    UniqueNonEmpty(seq(|matches|, k requires 0 <= k < |matches| => matches[k].mapName))
  }

  /** The server names offered by the server drop-down, each once. */
  function UniqueServers(matches: seq<Match>): (r: seq<string>)
    ensures forall i, j :: 0 <= i < j < |r| ==> r[i] != r[j]
    ensures "" !in r
  {
    UniqueNonEmpty(seq(|matches|, k requires 0 <= k < |matches| => matches[k].server))
  }

  /** Every non-empty map occurring in the matches is offered once. */
  lemma UniqueMapsOffered(matches: seq<Match>, name: string)
    ensures name in UniqueMaps(matches) <==>
            name != "" && exists k :: 0 <= k < |matches| && matches[k].mapName == Some(name)
  {
    var values := seq(|matches|, k requires 0 <= k < |matches| => matches[k].mapName);
    assert forall k :: 0 <= k < |matches| ==> values[k] == matches[k].mapName;
    if Some(name) in values {
      var k :| 0 <= k < |values| && values[k] == Some(name);
      assert matches[k].mapName == Some(name);
    }
  }

  /** Every non-empty server occurring in the matches is offered once. */
  lemma UniqueServersOffered(matches: seq<Match>, name: string)
    ensures name in UniqueServers(matches) <==>
            name != "" && exists k :: 0 <= k < |matches| && matches[k].server == Some(name)
  {
    var values := seq(|matches|, k requires 0 <= k < |matches| => matches[k].server);
    assert forall k :: 0 <= k < |matches| ==> values[k] == matches[k].server;
    if Some(name) in values {
      var k :| 0 <= k < |values| && values[k] == Some(name);
      assert matches[k].server == Some(name);
    }
  }

  // ---------------------------------------------------------------------
  // Export

  const Headers: seq<string> :=
    ["Match ID", "Date Played", "Map", "Server", "Team", "Blue Score", "Red Score", "Outcome"]

  /** How `join` writes a nullable string: null becomes empty. */
  function TextField(x: Option<string>): (r: string)
    ensures x.None? ==> r == ""
    ensures x.Some? ==> r == x.value
  {
    if x.Some? then x.value else ""
  }

  /** How `join` writes a nullable number: null becomes empty, a number
      its decimal text. */
  function NumberField(x: Option<int>): (r: string)
    ensures x.None? <==> r == ""
    ensures x.Some? ==> NumberValue(r) == x.value
  {
    if x.Some? then
      NumberTextRoundTrip(x.value);
      NumberText(x.value)
    else ""
  }

  /** The eight fields of one exported row for a player on `team`;
      `formatDate` is the host's date rendering. */
  function RowFields(m: Match, team: Team, formatDate: int -> string): (fields: seq<string>)
    ensures |fields| == |Headers|
  {
    var scores := GetScores(m);
    [NumberField(m.matchId), formatDate(m.createdAt), TextField(m.mapName), TextField(m.server),
     if team == Blue then "Blue" else "Red",
     NumberField(scores.blue), NumberField(scores.red), OutcomeText(m.outcome, team)]
  }

  /** What each exported field holds: missing values are empty, the team
      and scores are the table's, and the outcome reads "Win" exactly when
      the player's team won, so a missing outcome reads "Loss". */
  lemma RowFieldsContents(m: Match, team: Team, formatDate: int -> string)
    ensures var fields := RowFields(m, team, formatDate);
            && fields[0] == NumberField(m.matchId)
            && fields[1] == formatDate(m.createdAt)
            && fields[2] == (if m.mapName.Some? then m.mapName.value else "")
            && fields[3] == (if m.server.Some? then m.server.value else "")
            && fields[4] == (if team == Blue then "Blue" else "Red")
            && fields[5] == NumberField(GetScores(m).blue)
            && fields[6] == NumberField(GetScores(m).red)
            && (fields[7] == "Win" <==> (m.outcome == Some(1) && team == Blue) || (m.outcome == Some(2) && team == Red))
            && (fields[7] == "Win" || fields[7] == "Loss")
  {
    var fields := RowFields(m, team, formatDate);
    assert fields[7] == OutcomeText(m.outcome, team);
  }

  /** One exported line: the row's fields joined by commas, so it opens
      with the match id and a comma. */
  function RowLine(m: Match, team: Team, formatDate: int -> string): (r: string)
    ensures IsPrefix(NumberField(m.matchId), r)
    ensures |r| > |NumberField(m.matchId)| && r[|NumberField(m.matchId)|] == ','
  {
    Join(RowFields(m, team, formatDate), ',')
  }

  /** The export: the header line, then one line per shown match in the
      order shown, for the team `getPlayerTeam` finds, fields joined by
      commas and lines by line feeds, with no quoting. */
  function CsvText(shown: seq<Match>, discordId: Option<string>, formatDate: int -> string): (r: string)
    ensures IsPrefix(Join(Headers, ','), r)
    ensures |shown| > 0 ==> |r| > |Join(Headers, ',')| && r[|Join(Headers, ',')|] == '\n'
  {
    Join([Join(Headers, ',')] +
         seq(|shown|, k requires 0 <= k < |shown| =>
           RowLine(shown[k], GetPlayerTeam(shown[k], discordId), formatDate)), '\n')
  }

  /** A field holds neither separator. */
  predicate Plain(s: string)
  {
    ',' !in s && '\n' !in s
  }

  lemma NumberFieldPlain(x: Option<int>)
    ensures Plain(NumberField(x))
  {
    if x.Some? {
      var s := NumberText(x.value);
      assert forall k :: 0 <= k < |s| ==> s[k] != ',' && s[k] != '\n';
    }
  }

  /** A join of pieces without `c`, by a separator other than `c`, has
      no `c`. */
  lemma {:induction false} JoinAvoids(parts: seq<string>, sep: char, c: char)
    requires sep != c
    requires forall k :: 0 <= k < |parts| ==> c !in parts[k]
    ensures c !in Join(parts, sep)
    decreases |parts|
  {
    if |parts| > 1 {
      JoinAvoids(parts[1..], sep, c);
    }
  }

  /** When no date, map or server text contains a comma or a line break,
      no field of the row does. */
  lemma RowFieldsPlain(m: Match, team: Team, formatDate: int -> string)
    requires Plain(formatDate(m.createdAt)) && Plain(TextField(m.mapName)) && Plain(TextField(m.server))
    ensures forall k :: 0 <= k < |RowFields(m, team, formatDate)| ==> Plain(RowFields(m, team, formatDate)[k])
  {
    var fields := RowFields(m, team, formatDate);
    NumberFieldPlain(m.matchId);
    NumberFieldPlain(GetScores(m).blue);
    NumberFieldPlain(GetScores(m).red);
    assert Plain(if team == Blue then "Blue" else "Red");
    assert Plain(OutcomeText(m.outcome, team));
    forall k | 0 <= k < |fields|
      ensures Plain(fields[k])
    {
      if k == 4 {
        assert fields[k] == if team == Blue then "Blue" else "Red";
      } else if k == 7 {
        assert fields[k] == OutcomeText(m.outcome, team);
      }
    }
  }

  /** When no date, map or server text contains a comma, the fields of
      every row are read back by splitting it at commas. */
  lemma RowSplitsIntoFields(m: Match, team: Team, formatDate: int -> string)
    requires Plain(formatDate(m.createdAt)) && Plain(TextField(m.mapName)) && Plain(TextField(m.server))
    ensures Split(RowLine(m, team, formatDate), ',') == RowFields(m, team, formatDate)
    ensures '\n' !in RowLine(m, team, formatDate)
  {
    var fields := RowFields(m, team, formatDate);
    RowFieldsPlain(m, team, formatDate);
    SplitJoin(fields, ',');
    JoinAvoids(fields, ',', '\n');
  }

  /** A comma inside a map name is not quoted, so that row no longer
      splits back into its fields. */
  lemma CommaInMapShiftsColumns(m: Match, team: Team, formatDate: int -> string)
    requires ',' in TextField(m.mapName)
    ensures Split(RowLine(m, team, formatDate), ',') != RowFields(m, team, formatDate)
  {
    var parts := Split(RowLine(m, team, formatDate), ',');
    if |parts| > 2 {
      assert ',' !in parts[2];
    }
  }

  /** A date rendering holding a comma (as a locale's date-and-time text
      commonly does) is not quoted either, so that row no longer splits
      into its fields. */
  lemma CommaInDateShiftsColumns(m: Match, team: Team, formatDate: int -> string)
    requires ',' in formatDate(m.createdAt)
    ensures Split(RowLine(m, team, formatDate), ',') != RowFields(m, team, formatDate)
  {
    var parts := Split(RowLine(m, team, formatDate), ',');
    if |parts| > 1 {
      assert ',' !in parts[1];
    }
  }

  /** When no date, map or server text contains a line break, no exported
      row does. */
  lemma RowLineSingleLine(m: Match, team: Team, formatDate: int -> string)
    requires '\n' !in formatDate(m.createdAt) && '\n' !in TextField(m.mapName) && '\n' !in TextField(m.server)
    ensures '\n' !in RowLine(m, team, formatDate)
  {
    var fields := RowFields(m, team, formatDate);
    NumberFieldPlain(m.matchId);
    NumberFieldPlain(GetScores(m).blue);
    NumberFieldPlain(GetScores(m).red);
    assert '\n' !in OutcomeText(m.outcome, team);
    forall k | 0 <= k < |fields|
      ensures '\n' !in fields[k]
    {
      if k == 4 {
        assert fields[k] == if team == Blue then "Blue" else "Red";
      } else if k == 7 {
        assert fields[k] == OutcomeText(m.outcome, team);
      }
    }
    JoinAvoids(fields, ',', '\n');
  }

  /** When no date, map or server text contains a line break, the export
      splits at line feeds into the header line and then the line of each
      shown match, in display order. Commas inside fields do not matter
      here. */
  lemma CsvLineStructure(shown: seq<Match>, discordId: Option<string>, formatDate: int -> string)
    requires forall k :: 0 <= k < |shown| ==>
               '\n' !in formatDate(shown[k].createdAt) && '\n' !in TextField(shown[k].mapName) &&
               '\n' !in TextField(shown[k].server)
    ensures var lines := Split(CsvText(shown, discordId, formatDate), '\n');
            && |lines| == |shown| + 1
            && lines[0] == Join(Headers, ',')
            && forall k :: 0 <= k < |shown| ==>
                 lines[k + 1] == RowLine(shown[k], GetPlayerTeam(shown[k], discordId), formatDate)
  {
    var rows := seq(|shown|, k requires 0 <= k < |shown| =>
                  RowLine(shown[k], GetPlayerTeam(shown[k], discordId), formatDate));
    var lines := [Join(Headers, ',')] + rows;
    forall k | 0 <= k < |shown|
      ensures '\n' !in rows[k]
    {
      RowLineSingleLine(shown[k], GetPlayerTeam(shown[k], discordId), formatDate);
    }
    HeaderLine();
    assert forall k :: 0 <= k < |lines| ==> '\n' !in lines[k];
    SplitJoin(lines, '\n');
  }

  /** When no date, map or server text contains a comma or a line break,
      each line after the header also splits at commas into the eight
      fields of its match. */
  lemma CsvLines(shown: seq<Match>, discordId: Option<string>, formatDate: int -> string)
    requires forall k :: 0 <= k < |shown| ==>
               Plain(formatDate(shown[k].createdAt)) && Plain(TextField(shown[k].mapName)) &&
               Plain(TextField(shown[k].server))
    ensures var lines := Split(CsvText(shown, discordId, formatDate), '\n');
            && |lines| == |shown| + 1
            && Split(lines[0], ',') == Headers
            && forall k :: 0 <= k < |shown| ==>
                 Split(lines[k + 1], ',') == RowFields(shown[k], GetPlayerTeam(shown[k], discordId), formatDate)
  {
    CsvLineStructure(shown, discordId, formatDate);
    HeaderLine();
    forall k | 0 <= k < |shown|
      ensures Split(RowLine(shown[k], GetPlayerTeam(shown[k], discordId), formatDate), ',') ==
              RowFields(shown[k], GetPlayerTeam(shown[k], discordId), formatDate)
    {
      RowSplitsIntoFields(shown[k], GetPlayerTeam(shown[k], discordId), formatDate);
    }
  }

  /** The header line splits into the eight column names. */
  lemma HeaderLine()
    ensures Split(Join(Headers, ','), ',') == Headers
    ensures '\n' !in Join(Headers, ',')
  {
    assert forall k :: 0 <= k < |Headers| ==> Plain(Headers[k]);
    SplitJoin(Headers, ',');
    JoinAvoids(Headers, ',', '\n');
  }

  // ---------------------------------------------------------------------
  // The screen's state

  /** The screen's state: the fetched matches, the player's id, the
      filter controls, the sort column and direction, and the matches on
      display, which the filter-and-sort effect recomputes after every
      change. */
  class MatchHistoryView {
    var matches: seq<Match>
    var playerDiscordId: Option<string>
    var filteredMatches: seq<Match>
    var mapFilter: string
    var serverFilter: string
    var startDate: Option<int>
    var endDate: Option<int>
    var sortKey: SortKey
    var sortOrder: Direction

    function CurrentFilters(): Filters
      reads this
    {
      Filters(mapFilter, serverFilter, startDate, endDate)
    }

    /** What the effect establishes: the shown matches are the kept ones,
        in display order. */
    ghost predicate Valid()
      reads this
    {
      && multiset(filteredMatches) == multiset(Filtered(matches, CurrentFilters()))
      && InDisplayOrder(filteredMatches, sortKey, sortOrder)
    }

    /** Nothing loaded, no filters, newest matches first. */
    constructor ()
      ensures Valid()
      ensures matches == [] && filteredMatches == [] && playerDiscordId == None
      ensures CurrentFilters() == NoFilters
      ensures sortKey == CreatedAt && sortOrder == Desc
    {
      matches, playerDiscordId, filteredMatches := [], None, [];
      mapFilter, serverFilter, startDate, endDate := "", "", None, None;
      sortKey, sortOrder := CreatedAt, Desc;
    }

    /** The filter-and-sort effect. */
    method Refresh()
      modifies this`filteredMatches
      ensures Valid()
    {
      filteredMatches := FilterAndSort(matches, CurrentFilters(), sortKey, sortOrder);
    }

    /** The fetched player id and matches arrive. */
    method Load(discordId: Option<string>, data: seq<Match>)
      modifies this
      ensures Valid()
      ensures matches == data && playerDiscordId == discordId
      ensures CurrentFilters() == old(CurrentFilters())
      ensures sortKey == old(sortKey) && sortOrder == old(sortOrder)
    {
      playerDiscordId := discordId;
      matches := data;
      filteredMatches := data;
      Refresh();
    }

    method SetMapFilter(value: string)
      modifies this
      ensures Valid()
      ensures CurrentFilters() == old(CurrentFilters()).(mapName := value)
      ensures matches == old(matches) && playerDiscordId == old(playerDiscordId)
      ensures sortKey == old(sortKey) && sortOrder == old(sortOrder)
    {
      mapFilter := value;
      Refresh();
    }

    method SetServerFilter(value: string)
      modifies this
      ensures Valid()
      ensures CurrentFilters() == old(CurrentFilters()).(server := value)
      ensures matches == old(matches) && playerDiscordId == old(playerDiscordId)
      ensures sortKey == old(sortKey) && sortOrder == old(sortOrder)
    {
      serverFilter := value;
      Refresh();
    }

    method SetStartDate(value: Option<int>)
      modifies this
      ensures Valid()
      ensures CurrentFilters() == old(CurrentFilters()).(startDate := value)
      ensures matches == old(matches) && playerDiscordId == old(playerDiscordId)
      ensures sortKey == old(sortKey) && sortOrder == old(sortOrder)
    {
      startDate := value;
      Refresh();
    }

    method SetEndDate(value: Option<int>)
      modifies this
      ensures Valid()
      ensures CurrentFilters() == old(CurrentFilters()).(endDate := value)
      ensures matches == old(matches) && playerDiscordId == old(playerDiscordId)
      ensures sortKey == old(sortKey) && sortOrder == old(sortOrder)
    {
      endDate := value;
      Refresh();
    }

    /** A click on a sortable column header. */
    method HandleSort(key: SortKey)
      modifies this
      ensures Valid()
      ensures SortState(sortKey, sortOrder) == NextSort(old(SortState(sortKey, sortOrder)), key)
      ensures matches == old(matches) && playerDiscordId == old(playerDiscordId)
      ensures CurrentFilters() == old(CurrentFilters())
    {
      var next := NextSort(SortState(sortKey, sortOrder), key);
      sortKey, sortOrder := next.key, next.order;
      Refresh();
    }
  }
}
