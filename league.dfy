/**
 * `League`: the teams of a division file kept column by column, in arrays
 * indexed by team number, with a map from names to team numbers and the
 * trivial-elimination flag of every team. The file is given as its rows;
 * reading it is not modelled.
 */
module Leagues {
  import opened Common
  import opened HashAlgs
  import opened BaseballTeams

  class League {
    /** `N`: the number of teams. */
    const N: nat
    const gameSchedule: array2<JInt>
    const wins: array<JInt>
    const losses: array<JInt>
    const remaining: array<JInt>
    const teamNames: array<string>
    var teamNumber: map<string, int>
    const triviallyEliminated: array<bool>
    /** The rows of the division file. */
    ghost const rows: seq<TeamRow>

    /** Every array has one entry per team, and the three count arrays are distinct. */
    ghost predicate Shaped()
      reads this
    {
      N == |rows| && WellFormed(rows)
      && wins.Length == N && losses.Length == N && remaining.Length == N
      && teamNames.Length == N && triviallyEliminated.Length == N
      && gameSchedule.Length0 == N && gameSchedule.Length1 == N
      && wins != losses && wins != remaining && losses != remaining
    }

    /** The first `k` rows are stored: their columns at their team number, their names in `teamNumber`. */
    ghost predicate Filled(k: nat)
      reads this, wins, losses, remaining, teamNames, gameSchedule
    {
      Shaped() && k <= N
      && (forall i :: 0 <= i < k ==>
            wins[i] == rows[i].wins && losses[i] == rows[i].losses && remaining[i] == rows[i].remaining
            && teamNames[i] == rows[i].name)
      && (forall i, j :: 0 <= i < k && 0 <= j < N ==> gameSchedule[i, j] == rows[i].games[j])
      && teamNumber == NameIndex(rows, k)
    }

    ghost predicate Valid()
      reads this, wins, losses, remaining, teamNames, gameSchedule
    {
      Filled(N)
    }

    /**
     * `League(filePath)` up to `triviallyEliminate`: new arrays, then
     * `addTeam` for every row, in order. No team is flagged yet.
     */
    constructor (file: seq<TeamRow>)
      requires WellFormed(file) && |file| < 0x8000_0000
      ensures Valid() && rows == file
      ensures fresh(wins) && fresh(losses) && fresh(remaining) && fresh(teamNames) && fresh(gameSchedule)
      ensures fresh(triviallyEliminated) && forall t :: 0 <= t < N ==> !triviallyEliminated[t]
    {
      N := |file|;
      rows := file;
      wins := new JInt[|file|](_ => 0);
      losses := new JInt[|file|](_ => 0);
      remaining := new JInt[|file|](_ => 0);
      teamNames := new string[|file|](_ => "");
      triviallyEliminated := new bool[|file|](_ => false);
      gameSchedule := new JInt[|file|, |file|]((_, _) => 0);
      teamNumber := map[];
      new;
      for teamNum := 0 to N
        invariant Filled(teamNum)
        invariant forall t :: 0 <= t < N ==> !triviallyEliminated[t]
      {
        AddTeam(teamNum, file[teamNum]);
      }
    }

    /** `addTeam(teamNum, file)`: the next row, stored at `teamNum`; its name is put in `teamNumber`. */
    method AddTeam(teamNum: int, row: TeamRow)
      requires 0 <= teamNum < |rows| && row == rows[teamNum] && Filled(teamNum)
      modifies this, wins, losses, remaining, teamNames, gameSchedule
      ensures Filled(teamNum + 1)
    {
      teamNames[teamNum] := row.name;
      teamNumber := teamNumber[row.name := teamNum];
      wins[teamNum] := row.wins;
      losses[teamNum] := row.losses;
      remaining[teamNum] := row.remaining;
      ReadSchedule(teamNum, row.games);
    }

    /** `for (i = 0; i < N; i++) gameSchedule[teamNum][i] = file.readInt()`: one row of the schedule. */
    method ReadSchedule(teamNum: int, games: seq<JInt>)
      requires Shaped() && 0 <= teamNum < N && |games| == N
      modifies gameSchedule
      ensures forall i, j :: 0 <= i < N && 0 <= j < N ==>
        gameSchedule[i, j] == if i == teamNum then games[j] else old(gameSchedule[i, j])
    {
      for k := 0 to N
        invariant forall i, j :: 0 <= i < N && 0 <= j < N ==>
          gameSchedule[i, j] == if i == teamNum && j < k then games[j] else old(gameSchedule[i, j])
      {
        gameSchedule[teamNum, k] := games[k];
      }
    }

    /**
     * `triviallyEliminate()`: a league of no teams throws; otherwise every
     * team whose `wins + remaining` (in `int` arithmetic) falls below the
     * most wins of any team is flagged, and no flag is cleared.
     */
    method TriviallyEliminate() returns (r: Result<()>)
      requires Valid()
      modifies triviallyEliminated
      ensures N == 0 <==> r.Err?
      ensures r.Err? ==> r.error == IllegalArgument
      ensures r.Ok? ==> forall t :: 0 <= t < N ==>
        triviallyEliminated[t] == (old(triviallyEliminated[t]) || TriviallyEliminated(rows, t))
    {
      var ws: seq<int> := wins[..];
      if |ws| == 0 {
        return Err(IllegalArgument);
      }
      assert ws == Wins(rows);
      var maxW := ws[Top(ws)];
      assert maxW == MaxWins(rows);
      for teamNum := 0 to N
        invariant forall t :: 0 <= t < N ==>
          triviallyEliminated[t] == (old(triviallyEliminated[t]) || (t < teamNum && TriviallyEliminated(rows, t)))
      {
        var w := wins[teamNum];
        var rem := remaining[teamNum];
        assert Wrap32(w as int + rem) == rows[teamNum].MaxPossibleWins();
        if Wrap32(w as int + rem) < maxW {
          triviallyEliminated[teamNum] := true;
        }
      }
      r := Ok(());
    }

    /**
     * `League(filePath)`: the columns of the file, and the flag of every team
     * set exactly when the trivial rule eliminates it; a file of no teams
     * throws.
     */
    static method Load(file: seq<TeamRow>) returns (r: Result<League>)
      requires WellFormed(file) && |file| < 0x8000_0000
      ensures file == [] <==> r.Err?
      ensures r.Err? ==> r.error == IllegalArgument
      ensures r.Ok? ==> fresh(r.value) && r.value.Valid() && r.value.rows == file && r.value.Decided()
    {
      var l := new League(file);
      var res := l.TriviallyEliminate();
      if res.Err? {
        return Err(res.error);
      }
      r := Ok(l);
    }

    /** Every team's flag says whether the trivial rule eliminates it. */
    ghost predicate Decided()
      reads this, triviallyEliminated
      requires Shaped()
    {
      forall t :: 0 <= t < N ==> triviallyEliminated[t] == TriviallyEliminated(rows, t)
    }

    /** `getNumberOfTeams()`. */
    function GetNumberOfTeams(): (n: int)
      reads this, wins, losses, remaining, teamNames, gameSchedule
      requires Valid()
      ensures n == |rows|
    {
      N
    }

    /** `getTeamNames()`: the key set of a `HashMap`, so a set: every name of the file. */
    function GetTeamNames(): (names: set<string>)
      reads this, wins, losses, remaining, teamNames, gameSchedule
      requires Valid()
      ensures forall n :: n in names <==> exists i :: 0 <= i < N && rows[i].name == n
    {
      NameIndexFacts(rows, N);
      teamNumber.Keys
    }

    /** `getWins(teamNum)`; an index that is not a team's throws. */
    function GetWins(teamNum: int): (r: Result<JInt>)
      reads this, wins, losses, remaining, teamNames, gameSchedule
      requires Valid()
      ensures r.Ok? <==> 0 <= teamNum < N
      ensures r.Ok? ==> r.value == rows[teamNum].wins
      ensures r.Err? ==> r.error == IndexOutOfBounds
    {
      if 0 <= teamNum < wins.Length then Ok(wins[teamNum]) else Err(IndexOutOfBounds)
    }

    /** `getLosses(teamNum)`. */
    function GetLosses(teamNum: int): (r: Result<JInt>)
      reads this, wins, losses, remaining, teamNames, gameSchedule
      requires Valid()
      ensures r.Ok? <==> 0 <= teamNum < N
      ensures r.Ok? ==> r.value == rows[teamNum].losses
      ensures r.Err? ==> r.error == IndexOutOfBounds
    {
      if 0 <= teamNum < losses.Length then Ok(losses[teamNum]) else Err(IndexOutOfBounds)
    }

    /** `getRemaining(teamNum)`. */
    function GetRemaining(teamNum: int): (r: Result<JInt>)
      reads this, wins, losses, remaining, teamNames, gameSchedule
      requires Valid()
      ensures r.Ok? <==> 0 <= teamNum < N
      ensures r.Ok? ==> r.value == rows[teamNum].remaining
      ensures r.Err? ==> r.error == IndexOutOfBounds
    {
      if 0 <= teamNum < remaining.Length then Ok(remaining[teamNum]) else Err(IndexOutOfBounds)
    }

    /** `getRemainingAgainst(teamNum1, teamNum2)`: the games left between the two, from the first one's row. */
    function GetRemainingAgainst(teamNum1: int, teamNum2: int): (r: Result<JInt>)
      reads this, wins, losses, remaining, teamNames, gameSchedule
      requires Valid()
      ensures r.Ok? <==> 0 <= teamNum1 < N && 0 <= teamNum2 < N
      ensures r.Ok? ==> r.value == rows[teamNum1].games[teamNum2]
      ensures r.Err? ==> r.error == IndexOutOfBounds
    {
      if 0 <= teamNum1 < gameSchedule.Length0 && 0 <= teamNum2 < gameSchedule.Length1
      then Ok(gameSchedule[teamNum1, teamNum2])
      else Err(IndexOutOfBounds)
    }

    /** `isTriviallyEliminated(teamNum)`: once loaded, whether the trivial rule eliminates the team. */
    function IsTriviallyEliminated(teamNum: int): (r: Result<bool>)
      reads this, wins, losses, remaining, teamNames, gameSchedule, triviallyEliminated
      requires Valid()
      ensures r.Ok? <==> 0 <= teamNum < N
      ensures r.Ok? && Decided() ==> r.value == TriviallyEliminated(rows, teamNum)
      ensures r.Err? ==> r.error == IndexOutOfBounds
    {
      if 0 <= teamNum < triviallyEliminated.Length then Ok(triviallyEliminated[teamNum]) else Err(IndexOutOfBounds)
    }

    /**
     * `getTeamNum(teamName)`: `getOrDefault(teamName, -1)`, and a negative
     * number throws: the last row with the name, or an error when no row has it.
     */
    function GetTeamNum(teamName: string): (r: Result<int>)
      reads this, wins, losses, remaining, teamNames, gameSchedule
      requires Valid()
      ensures r.Err? <==> forall i :: 0 <= i < N ==> rows[i].name != teamName
      ensures r.Err? ==> r.error == IllegalArgument
      ensures r.Ok? ==> 0 <= r.value < N && rows[r.value].name == teamName
      ensures r.Ok? ==> forall j :: r.value < j < N ==> rows[j].name != teamName
    {
      NameIndexFacts(rows, N);
      var teamNum := if teamName in teamNumber then teamNumber[teamName] else -1;
      if teamNum < 0 then Err(IllegalArgument) else Ok(teamNum)
    }
  }
}
