/** A table component given a player name and a close callback (the
    screen that opens it is not part of this model): one row per match of
    the player found by that name, with the player's side, the score and the
    outcome relative to that side. Its outcome class and score helpers are
    the ones of the match-history screen, `PlayerMatches.GetOutcomeClass`
    and `PlayerMatches.GetScores`. */
module PlayerMatchesTable {
  import opened Nullable
  import opened Strings
  import opened PlayerMatches

  /** `match.blue_team?.includes(playerName) ? 'blue' : 'red'`: blue
      exactly when the blue list is present and the name occurs somewhere
      in it, as any piece of text and not only as a whole entry. */
  function TableTeam(m: Match, playerName: string): (t: Team)
    ensures m.blueTeam.None? ==> t == Red
    ensures t == Blue <==> m.blueTeam.Some? && exists i :: OccursAt(playerName, m.blueTeam.value, i)
  {
    if m.blueTeam.Some? then
      IsSubstringAt(playerName, m.blueTeam.value);
      if IsSubstring(playerName, m.blueTeam.value) then Blue else Red
    else Red
  }

  /** A string that is a trimmed entry of the blue list, by the entry
      test of `PlayerMatches.GetPlayerTeam`, is always found by the
      substring test. The two screens test different identifiers (the
      history screen a Discord id, this table a player name), so this
      compares the two tests and not the two screens. */
  lemma EntryIsDetected(m: Match, name: string)
    requires GetPlayerTeam(m, Some(name)) == Blue
    ensures TableTeam(m, name) == Blue
  {
    var team := m.blueTeam.value;
    var parts := Split(team, ',');
    var k :| 0 <= k < |parts| && Entries(team)[k] == name;
    TrimIsSubstring(parts[k]);
    JoinSplit(team, ',');
    JoinedPieceIsSubstring(parts, ',', k);
    SubstringTransitive(name, parts[k], team);
  }

  /** The converse fails: a name contained in a team-mate's name counts as
      blue though it is not an entry of the list. */
  lemma NameInsideAnotherName()
    ensures var m := Match(1, None, Some("bobby,alice"), None, None, None, None, None, Some(1), None, 0);
            TableTeam(m, "bob") == Blue && GetPlayerTeam(m, Some("bob")) == Red
  {
    var m := Match(1, None, Some("bobby,alice"), None, None, None, None, None, Some(1), None, 0);
    assert "bobby,alice"[..3] == "bob";
    assert IsSubstring("bob", "bobby,alice");
    var ids := ["bobby", "alice"];
    assert Join(ids, ',') == "bobby,alice";
    assert "bob" !in ids by {
      assert "bob" != ids[0] by { assert |"bob"| != |ids[0]|; }
      assert "bob" != ids[1] by { assert |"bob"| != |ids[1]|; }
    }
    GetPlayerTeamByRoster(m, ids, "bob");
  }

  /** What a row shows besides the match's own fields. */
  datatype Row = Row(team: Team, rowClass: string, scores: Scores, outcomeText: string)

  /** One table row: the side found by the substring test, the row style
      and the outcome text relative to that side, and the two scores. */
  function TableRow(m: Match, playerName: string): (r: Row)
    ensures r.team == Blue <==> m.blueTeam.Some? && IsSubstring(playerName, m.blueTeam.value)
    ensures r.rowClass == "win" <==> r.outcomeText == "Win"
    ensures r.outcomeText == "Win" <==>
            (m.outcome == Some(1) && r.team == Blue) || (m.outcome == Some(2) && r.team == Red)
    ensures m.outcome.None? ==> r.rowClass == "draw" && r.outcomeText == "Loss"
    ensures r.outcomeText == "Win" ==> TeamScore(r.scores, r.team) == m.winningScore
  {
    var team := TableTeam(m, playerName);
    ClassAndTextAgree(m.outcome, team);
    WinnerShowsWinningScore(m, team);
    Row(team, GetOutcomeClass(m.outcome, team), GetScores(m), OutcomeText(m.outcome, team))
  }
}
