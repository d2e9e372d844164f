/** The leaderboard screen: the player list, optionally without inactive
    players, sorted by a chosen column in a chosen direction, and the win
    ratio shown for every player. */
module Leaderboard {
  import opened Nullable
  import opened Strings
  import opened Sorting

  /** A player record as the screen receives it. */
  datatype Player = Player(
    id: int,
    playerName: string,
    currentElo: int,
    discordId: string,
    pugWins: nat,
    pugLosses: nat,
    pugDraws: nat,
    isActive: bool,
    activeRank: Option<int>,
    allTimeRank: int)

  /** The columns the list can be sorted by. */
  datatype SortField =
    ActiveRank | AllTimeRank | PlayerName | CurrentElo | PugWins | PugLosses | PugDraws | WinPercentage

  /** JavaScript's `Number.MAX_VALUE`, (2^53 - 1) * 2^971. */
  const MaxValue: real := 179769313486231570814527423731704356798070567525844996598917476803157260780028538760589558632766878171540458953514382464234321326889464182768467546703537516986049910576551282076245490090389328944075868508455133942304583236903222948165808559332123348274797826204144723168738177180919299881250404026184124858368.0

  // ---------------------------------------------------------------------
  // Win ratio

  /** `(wins / (wins + losses)) || 0`: the share of decided games won,
      zero (instead of NaN) when none is decided; draws do not count. */
  function WinRatio(wins: nat, losses: nat): (r: real)
    ensures 0.0 <= r <= 1.0
    ensures wins + losses == 0 ==> r == 0.0
    ensures r * (wins + losses) as real == wins as real
  {
    if wins + losses == 0 then 0.0 else (wins as real) / ((wins + losses) as real)
  }

  /** More wins with the same losses never lower the ratio. */
  lemma WinRatioMonotone(w1: nat, w2: nat, losses: nat)
    requires w1 <= w2
    ensures WinRatio(w1, losses) <= WinRatio(w2, losses)
  {
    if w1 + losses > 0 {
      var d1, d2 := (w1 + losses) as real, (w2 + losses) as real;
      assert w1 as real * d2 == w1 as real * w2 as real + w1 as real * losses as real;
      assert w2 as real * d1 == w2 as real * w1 as real + w2 as real * losses as real;
      assert w1 as real * losses as real <= w2 as real * losses as real;
      QuotientsOrdered(w1 as real, d1, w2 as real, d2);
    }
  }

  /** `a / b <= c / d` for positive denominators when `a * d <= c * b`. */
  lemma QuotientsOrdered(a: real, b: real, c: real, d: real)
    requires b > 0.0 && d > 0.0
    requires a * d <= c * b
    ensures a / b <= c / d
  {
    assert a / b == (a * d) / (b * d);
    assert c / d == (c * b) / (b * d);
  }

  /** The percentage cell, before rounding to one decimal. */
  function DisplayedWinPercentage(wins: nat, losses: nat): (pct: real)
    ensures 0.0 <= pct <= 100.0
    ensures wins + losses == 0 ==> pct == 0.0
    ensures pct * (wins + losses) as real == 100.0 * wins as real
  {
    WinRatio(wins, losses) * 100.0
  }

  lemma ThreeWinsOneLoss()
    ensures DisplayedWinPercentage(3, 1) == 75.0
  {
    assert WinRatio(3, 1) * 4.0 == 3.0;
  }

  // ---------------------------------------------------------------------
  // The comparator

  /** The value a column compares: a lower-cased name or a number. */
  datatype SortValue = Text(s: string) | Number(x: real)

  /** `compareA` / `compareB` for one player: the lower-cased name, the
      active rank with a missing rank read as `Number.MAX_VALUE`, the win
      ratio, or the column's own number. */
  function SortValueOf(p: Player, field: SortField): (v: SortValue)
    ensures v.Text? <==> field == PlayerName
    ensures field == PlayerName ==> |v.s| == |p.playerName| && forall k :: 0 <= k < |v.s| ==> !('A' <= v.s[k] <= 'Z')
    ensures field == ActiveRank && p.activeRank.None? ==> v.x == MaxValue
    ensures field == WinPercentage ==> 0.0 <= v.x <= 1.0
  {
    match field
    case PlayerName => Text(Lower(p.playerName))
    case ActiveRank => Number(if p.activeRank.Some? then p.activeRank.value as real else MaxValue)
    case WinPercentage => Number(WinRatio(p.pugWins, p.pugLosses))
    case AllTimeRank => Number(p.allTimeRank as real)
    case CurrentElo => Number(p.currentElo as real)
    case PugWins => Number(p.pugWins as real)
    case PugLosses => Number(p.pugLosses as real)
    case PugDraws => Number(p.pugDraws as real)
  }

  /** JavaScript's `<` on two values of one column. */
  predicate Less(a: SortValue, b: SortValue)
    ensures Less(a, b) ==> (a.Text? <==> b.Text?)
    ensures Less(a, b) ==> a != b
  {
    match (a, b)
    case (Text(x), Text(y)) =>
      LexLessIrreflexive(x);
      LexLess(x, y)
    case (Number(x), Number(y)) => x < y
    case _ => false
  }

  /** The comparator handed to `sort`. */
  function Compare(a: Player, b: Player, field: SortField, dir: Direction): (c: int)
    ensures -1 <= c <= 1
  {
    var x, y := SortValueOf(a, field), SortValueOf(b, field);
    if Less(x, y) then (if dir == Asc then -1 else 1)
    else if Less(y, x) then (if dir == Asc then 1 else -1)
    else 0
  }

  lemma LessAsymmetric(x: SortValue, y: SortValue)
    requires Less(x, y)
    ensures !Less(y, x)
  {
    if x.Text? && y.Text? {
      LexLessAsymmetric(x.s, y.s);
    }
  }

  /** Swapping the operands negates the comparison. */
  lemma CompareAntisymmetric(a: Player, b: Player, field: SortField, dir: Direction)
    ensures Compare(a, b, field, dir) == -Compare(b, a, field, dir)
  {
    var x, y := SortValueOf(a, field), SortValueOf(b, field);
    if Less(x, y) {
      LessAsymmetric(x, y);
    }
  }

  /** Two players compare equal exactly when their column values are
      equal. For the name column, `NameComparedIgnoringCase` spells out what
      equal values mean. */
  lemma CompareZeroIffSameValue(a: Player, b: Player, field: SortField, dir: Direction)
    ensures Compare(a, b, field, dir) == 0 <==> SortValueOf(a, field) == SortValueOf(b, field)
  {
    var x, y := SortValueOf(a, field), SortValueOf(b, field);
    if x.Text? && y.Text? {
      LexLessTrichotomy(x.s, y.s);
      LexLessIrreflexive(x.s);
    }
  }

  /** The name column ignores case: two players tie on it exactly when
      their names have the same length and agree letter by letter up to
      case. */
  lemma NameComparedIgnoringCase(a: Player, b: Player, dir: Direction)
    ensures Compare(a, b, PlayerName, dir) == 0 <==>
            |a.playerName| == |b.playerName| &&
            forall k :: 0 <= k < |a.playerName| ==> SameIgnoringCase(a.playerName[k], b.playerName[k])
  {
    CompareZeroIffSameValue(a, b, PlayerName, dir);
    LowerEqual(a.playerName, b.playerName);
  }

  /** `a` may be placed before `b`. */
  predicate Precedes(a: Player, b: Player, field: SortField, dir: Direction)
  {
    Compare(a, b, field, dir) <= 0
  }

  /** The comparator is consistent, so sorting with it is well defined. */
  lemma PrecedesIsTotalPreorder(field: SortField, dir: Direction)
    ensures TotalPreorder((a: Player, b: Player) => Precedes(a, b, field, dir))
  {
    forall a: Player, b: Player
      ensures Precedes(a, b, field, dir) || Precedes(b, a, field, dir)
    {
      CompareAntisymmetric(a, b, field, dir);
    }
    forall a: Player, b: Player, c: Player | Precedes(a, b, field, dir) && Precedes(b, c, field, dir)
      ensures Precedes(a, c, field, dir)
    {
      PrecedesIffInOrder(a, b, field, dir);
      PrecedesIffInOrder(b, c, field, dir);
      PrecedesIffInOrder(a, c, field, dir);
      var x, y, z := SortValueOf(a, field), SortValueOf(b, field), SortValueOf(c, field);
      if field == PlayerName {
        if dir == Asc {
          LexNotAfterTransitive(x.s, y.s, z.s);
        } else {
          LexNotAfterTransitive(z.s, y.s, x.s);
        }
      }
    }
  }

  /** The order the list promises for two rows: column values
      non-decreasing when ascending, non-increasing when descending. */
  predicate InOrder(a: Player, b: Player, field: SortField, dir: Direction)
  {
    if dir == Asc then !Less(SortValueOf(b, field), SortValueOf(a, field))
    else !Less(SortValueOf(a, field), SortValueOf(b, field))
  }

  /** The comparator lets `a` stand before `b` exactly when the two are
      in the promised order. */
  lemma PrecedesIffInOrder(a: Player, b: Player, field: SortField, dir: Direction)
    ensures Precedes(a, b, field, dir) <==> InOrder(a, b, field, dir)
  {
    var x, y := SortValueOf(a, field), SortValueOf(b, field);
    if Less(x, y) {
      LessAsymmetric(x, y);
    }
    if Less(y, x) {
      LessAsymmetric(y, x);
    }
  }

  predicate InRankOrder(s: seq<Player>, field: SortField, dir: Direction)
  {
    forall i, j :: 0 <= i < j < |s| ==> InOrder(s[i], s[j], field, dir)
  }

  /** A sequence sorted with the comparator is in the promised order. */
  lemma SortedIsInRankOrder(s: seq<Player>, field: SortField, dir: Direction)
    requires SortedBy(s, (a: Player, b: Player) => Precedes(a, b, field, dir))
    ensures InRankOrder(s, field, dir)
  {
    forall i, j | 0 <= i < j < |s|
      ensures InOrder(s[i], s[j], field, dir)
    {
      PrecedesIffInOrder(s[i], s[j], field, dir);
    }
  }

  /** A player with an active rank below `Number.MAX_VALUE`. */
  predicate Ranked(p: Player)
  {
    p.activeRank.Some? && (p.activeRank.value as real) < MaxValue
  }

  /** Players without an active rank sort after every ranked player when
      ascending and before them when descending. */
  lemma UnrankedPlacement(s: seq<Player>, dir: Direction)
    requires InRankOrder(s, ActiveRank, dir)
    ensures dir == Asc ==>
      forall i, j :: 0 <= i < |s| && 0 <= j < |s| && Ranked(s[i]) && s[j].activeRank.None? ==> i < j
    ensures dir == Desc ==>
      forall i, j :: 0 <= i < |s| && 0 <= j < |s| && Ranked(s[i]) && s[j].activeRank.None? ==> j < i
  {
  }

  // ---------------------------------------------------------------------
  // The list on display

  /** The players listed before sorting: all of them, or the active ones. */
  function Visible(players: seq<Player>, showInactive: bool): (r: seq<Player>)
    ensures showInactive ==> r == players
    ensures !showInactive ==> forall k :: 0 <= k < |r| ==> r[k].isActive
    ensures |r| <= |players|
  {
    if showInactive then players else Filter(players, (p: Player) => p.isActive)
  }

  /** Every player is listed as often as they occur, unless inactive
      players are hidden and they are inactive. */
  lemma VisibleExactly(players: seq<Player>, showInactive: bool, p: Player)
    ensures multiset(Visible(players, showInactive))[p] ==
            if showInactive || p.isActive then multiset(players)[p] else 0
  {
    if !showInactive {
      FilterCount(players, (q: Player) => q.isActive, p);
    }
  }

  /** `sortedPlayers`: a copy of the listed players sorted in place. */
  method SortedPlayers(players: seq<Player>, showInactive: bool, field: SortField, dir: Direction)
    returns (sorted: seq<Player>)
    ensures multiset(sorted) == multiset(Visible(players, showInactive))
    ensures InRankOrder(sorted, field, dir)
  {
    var listed := Visible(players, showInactive);
    var a := new Player[|listed|](k requires 0 <= k < |listed| => listed[k]);
    assert a[..] == listed;
    PrecedesIsTotalPreorder(field, dir);
    InsertionSort(a, (x: Player, y: Player) => Precedes(x, y, field, dir));
    sorted := a[..];
    SortedIsInRankOrder(sorted, field, dir);
  }

  /** The sort column and direction. */
  datatype SortState = SortState(field: SortField, dir: Direction)

  /** `handleSort`: the current column flips the direction, another column
      becomes current with the direction reset to descending. */
  function NextSort(s: SortState, field: SortField): (r: SortState)
    ensures r.field == field
    ensures s.field == field ==> r.dir != s.dir
    ensures s.field != field ==> r.dir == Desc
  {
    if s.field == field then SortState(field, s.dir.Flip()) else SortState(field, Desc)
  }

  /** The screen's state. */
  class LeaderboardView {
    var players: seq<Player>
    var showInactive: bool
    var sortField: SortField
    var sortDirection: Direction

    /** Nothing loaded, inactive players hidden, highest rating first. */
    constructor ()
      ensures players == [] && !showInactive
      ensures sortField == CurrentElo && sortDirection == Desc
    {
      players, showInactive := [], false;
      sortField, sortDirection := CurrentElo, Desc;
    }

    /** The fetched players arrive. */
    method Load(data: seq<Player>)
      modifies this
      ensures players == data
      ensures showInactive == old(showInactive)
      ensures sortField == old(sortField) && sortDirection == old(sortDirection)
    {
      players := data;
    }

    /** The show/hide inactive players button. */
    method ToggleInactive()
      modifies this
      ensures showInactive == !old(showInactive)
      ensures players == old(players)
      ensures sortField == old(sortField) && sortDirection == old(sortDirection)
    {
      showInactive := !showInactive;
    }

    /** A click on a sortable column header. */
    method HandleSort(field: SortField)
      modifies this
      ensures SortState(sortField, sortDirection) == NextSort(old(SortState(sortField, sortDirection)), field)
      ensures players == old(players) && showInactive == old(showInactive)
    {
      var next := NextSort(SortState(sortField, sortDirection), field);
      sortField, sortDirection := next.field, next.dir;
    }

    /** The rows on display; computing them changes nothing, so the fetched
        list is never reordered. */
    method Rows() returns (rows: seq<Player>)
      ensures multiset(rows) == multiset(Visible(players, showInactive))
      ensures InRankOrder(rows, sortField, sortDirection)
    {
      rows := SortedPlayers(players, showInactive, sortField, sortDirection);
    }
  }
}
