/** The all-matches table: team lists cut to a fixed width and the
    outcome shown from the blue and red sides alike. */
module MatchesTable {
  import opened Nullable

  /** The longest team list shown uncut. */
  const MaxShown := 20

  /** How much of a longer list is kept before the ellipsis. */
  const KeptPrefix := 17

  /** `truncateTeamName`: nothing for a missing or empty list, a list of
      at most 20 characters as it is, and a longer one cut to its first 17
      characters followed by "...". */
  function TruncateTeamName(name: Option<string>): (r: string)
    ensures name.None? || name == Some("") ==> r == ""
    ensures |r| <= MaxShown
    ensures name.Some? && |name.value| <= MaxShown ==> r == name.value
    ensures name.Some? && |name.value| > MaxShown ==>
              |r| == MaxShown && r[..KeptPrefix] == name.value[..KeptPrefix] && r[KeptPrefix..] == "..."
  {
    if name.None? || name.value == "" then ""
    else if |name.value| > MaxShown then name.value[..KeptPrefix] + "..."
    else name.value
  }

  /** Cutting a cut name changes nothing. */
  lemma TruncateIdempotent(name: Option<string>)
    ensures TruncateTeamName(Some(TruncateTeamName(name))) == TruncateTeamName(name)
  {
  }

  /** `getOutcomeClass`: the row style names the winning side. */
  function GetOutcomeClass(outcome: Option<int>): (c: string)
    ensures c == "blue-win" <==> outcome == Some(1)
    ensures c == "red-win" <==> outcome == Some(2)
    ensures c == "draw" <==> outcome != Some(1) && outcome != Some(2)
  {
    assert "blue-win" != "red-win" && "blue-win" != "draw" && "red-win" != "draw" by {
      assert "blue-win"[0] != "red-win"[0] && "blue-win"[0] != "draw"[0] && "red-win"[0] != "draw"[0];
    }
    if outcome == Some(1) then "blue-win"
    else if outcome == Some(2) then "red-win"
    else "draw"
  }

  /** `getOutcomeText`: the outcome column names the winning side. */
  function GetOutcomeText(outcome: Option<int>): (t: string)
    ensures t == "Blue Win" <==> outcome == Some(1)
    ensures t == "Red Win" <==> outcome == Some(2)
    ensures t == "Draw" <==> outcome != Some(1) && outcome != Some(2)
  {
    assert "Blue Win" != "Red Win" && "Blue Win" != "Draw" && "Red Win" != "Draw" by {
      assert "Blue Win"[0] != "Red Win"[0] && "Blue Win"[0] != "Draw"[0] && "Red Win"[0] != "Draw"[0];
    }
    if outcome == Some(1) then "Blue Win"
    else if outcome == Some(2) then "Red Win"
    else "Draw"
  }

  /** Style and text always tell the same story. */
  lemma ClassAndTextAgree(outcome: Option<int>)
    ensures GetOutcomeClass(outcome) == "blue-win" <==> GetOutcomeText(outcome) == "Blue Win"
    ensures GetOutcomeClass(outcome) == "red-win" <==> GetOutcomeText(outcome) == "Red Win"
    ensures GetOutcomeClass(outcome) == "draw" <==> GetOutcomeText(outcome) == "Draw"
  {
  }
}
