/**
 * `Division`: the teams of a division file, in file order, with a look-up of
 * teams by name. Loading a division reads every team and then settles each
 * team's elimination status with `Eliminator.processDivision`. The file is
 * given as its rows; reading it is not modelled.
 */
module Divisions {
  import opened Common
  import opened HashAlgs
  import opened BaseballTeams
  import opened EliminationNetworks
  import opened Eliminators

  /**
   * A division after the first `k` rows were read: one team per row in id
   * order, a look-up mapping each name to the team of the last row carrying
   * it, and the look-up's names in order of first insertion.
   */
  ghost predicate LoadedState(rows: seq<TeamRow>, k: nat, teams: seq<Team>, lookup: map<string, Team>, names: seq<string>) {
    k <= |rows| && WellFormed(rows) && |teams| == k
    && (forall i :: 0 <= i < k ==> teams[i].id == i && teams[i].Row() == rows[i])
    && lookup.Keys == NameIndex(rows, k).Keys
    && (forall n :: n in lookup ==> 0 <= NameIndex(rows, k)[n] < k && lookup[n] == teams[NameIndex(rows, k)[n]])
    && names == KeyOrder(rows, k)
  }

  /**
   * `teams[k] = team; teamLookup.put(team.teamName, team)` keeps the state:
   * `teams'`, `lookup'` and `names'` are the arrays, the map and its key
   * order afterwards.
   */
  lemma {:induction false} LoadedPut(rows: seq<TeamRow>, k: nat, teams: seq<Team>, lookup: map<string, Team>, names: seq<string>, team: Team,
                  teams': seq<Team>, lookup': map<string, Team>, names': seq<string>)
    requires LoadedState(rows, k, teams, lookup, names) && k < |rows|
    requires team.id == k && team.Row() == rows[k]
    requires teams' == teams + [team] && lookup' == lookup[team.teamName := team]
    requires names' == if team.teamName in lookup then names else names + [team.teamName]
    ensures LoadedState(rows, k + 1, teams', lookup', names')
  {
    var M := NameIndex(rows, k);
    var M' := NameIndex(rows, k + 1);
    assert M' == M[rows[k].name := k];
    LookupPut(M, k, teams, lookup, team, M', teams', lookup');
    NamesPut(rows, k, M, lookup);
    TeamsSnoc(rows, k, teams, team, teams');
  }

  /** The look-up after the put maps each name to the team at its new index. */
  lemma {:induction false} LookupPut(M: map<string, int>, k: nat, teams: seq<Team>, lookup: map<string, Team>, team: Team,
                  M': map<string, int>, teams': seq<Team>, lookup': map<string, Team>)
    requires |teams| == k && lookup.Keys == M.Keys
    requires forall n :: n in lookup ==> 0 <= M[n] < k && lookup[n] == teams[M[n]]
    requires M' == M[team.teamName := k] && teams' == teams + [team] && lookup' == lookup[team.teamName := team]
    ensures lookup'.Keys == M'.Keys
    ensures forall n :: n in lookup' ==> 0 <= M'[n] < k + 1 && lookup'[n] == teams'[M'[n]]
  {
    forall n | n in lookup'
      ensures 0 <= M'[n] < k + 1 && lookup'[n] == teams'[M'[n]]
    {
      if n != team.teamName {
        assert teams'[M[n]] == teams[M[n]];
      }
    }
  }

  /** The name is new to the look-up exactly when it is new to the key order. */
  lemma {:induction false} NamesPut(rows: seq<TeamRow>, k: nat, M: map<string, int>, lookup: map<string, Team>)
    requires k < |rows| && M == NameIndex(rows, k) && lookup.Keys == M.Keys
    ensures KeyOrder(rows, k + 1) == if rows[k].name in lookup then KeyOrder(rows, k) else KeyOrder(rows, k) + [rows[k].name]
  {
    KeyOrderFacts(rows, k);
    NameIndexFacts(rows, k);
    var n0 := rows[k].name;
    if n0 in KeyOrder(rows, k) {
      var i :| 0 <= i < k && rows[i].name == n0;
      assert n0 in M;
    }
    if n0 in lookup {
      assert n0 in M;
      assert 0 <= M[n0] < k && rows[M[n0]].name == n0;
    }
  }

  /** Appending the next row's team keeps the teams in id order. */
  lemma {:induction false} TeamsSnoc(rows: seq<TeamRow>, k: nat, teams: seq<Team>, team: Team, teams': seq<Team>)
    requires k < |rows| && |teams| == k && team.id == k && team.Row() == rows[k] && teams' == teams + [team]
    requires forall i :: 0 <= i < k ==> teams[i].id == i && teams[i].Row() == rows[i]
    ensures forall i :: 0 <= i < k + 1 ==> teams'[i].id == i && teams'[i].Row() == rows[i]
  {
    forall i | 0 <= i < k + 1
      ensures teams'[i].id == i && teams'[i].Row() == rows[i]
    {
      if i < k {
        assert teams'[i] == teams[i];
      }
    }
  }

  class Division {
    /** `N`: the number of teams. */
    const N: int
    var teams: seq<Team>
    var teamLookup: map<string, Team>
    /** The key order of `teamLookup`, a `LinkedHashMap`: each name once, in order of first insertion. */
    var teamNames: seq<string>
    /** The rows of the division file. */
    ghost const rows: seq<TeamRow>

    /** The state after the first `k` rows were read. */
    ghost predicate Loaded(k: nat)
      reads this
    {
      LoadedState(rows, k, teams, teamLookup, teamNames)
    }

    ghost predicate Valid()
      reads this
    {
      N == |rows| && Loaded(N)
    }

    /**
     * `Division(filePath)` up to `processDivision`: `addTeam` for every row,
     * in order. The teams are new and have no certificate yet.
     */
    constructor (file: seq<TeamRow>)
      requires WellFormed(file) && |file| < 0x8000_0000
      ensures Valid() && rows == file
      ensures forall i :: 0 <= i < |teams| ==> fresh(teams[i]) && teams[i].certOfElim == None && teams[i].isEliminated == None
    {
      N := |file|;
      rows := file;
      teams := [];
      teamLookup := map[];
      teamNames := [];
      new;
      for teamNum := 0 to N
        invariant Loaded(teamNum)
        invariant forall i :: 0 <= i < teamNum ==> fresh(teams[i]) && teams[i].certOfElim == None && teams[i].isEliminated == None
      {
        AddTeam(teamNum, file[teamNum]);
      }
    }

    /**
     * `addTeam(teamId, file)`: a new team from the next row, stored at its id
     * and put in the look-up under its name.
     */
    method AddTeam(teamId: JInt, row: TeamRow)
      requires 0 <= teamId < |rows| && row == rows[teamId] && Loaded(teamId)
      modifies this
      ensures Loaded(teamId + 1) && teams == old(teams) + [teams[teamId]]
      ensures fresh(teams[teamId]) && teams[teamId].certOfElim == None && teams[teamId].isEliminated == None
    {
      var team := new Team(row.name, teamId, row.wins, row.losses, row.remaining, row.games);
      teams := teams + [team];
      if row.name !in teamLookup {
        teamNames := teamNames + [row.name];
      }
      teamLookup := teamLookup[row.name := team];
      LoadedPut(rows, teamId, old(teams), old(teamLookup), old(teamNames), team, teams, teamLookup, teamNames);
    }

    /** `getNumberOfTeams()`. */
    function GetNumberOfTeams(): (n: int)
      reads this
      requires Valid()
      ensures n == |rows| == |teams|
    {
      N
    }

    /** `getTeamNames()`: the key set of the look-up, in insertion order: every name of the file, once. */
    function GetTeamNames(): (names: seq<string>)
      reads this
      requires Valid()
      ensures forall n :: n in names <==> exists i :: 0 <= i < N && rows[i].name == n
      ensures forall a, b :: 0 <= a < b < |names| ==> names[a] != names[b]
    {
      KeyOrderFacts(rows, N);
      teamNames
    }

    /** `getTeam(teamNum)`: the team of row `teamNum`; another index throws. */
    function GetTeam(teamNum: int): (r: Result<Team>)
      reads this
      requires Valid()
      ensures r.Ok? <==> 0 <= teamNum < N
      ensures r.Ok? ==> r.value.id == teamNum && r.value.Row() == rows[teamNum]
      ensures r.Err? ==> r.error == IndexOutOfBounds
    {
      if 0 <= teamNum < |teams| then Ok(teams[teamNum]) else Err(IndexOutOfBounds)
    }

    /**
     * `getTeamId(teamName)`: the id of the last row with that name; a name no
     * row carries throws.
     */
    function GetTeamId(teamName: string): (r: Result<int>)
      reads this
      requires Valid()
      ensures r.Err? <==> forall i :: 0 <= i < N ==> rows[i].name != teamName
      ensures r.Err? ==> r.error == IllegalArgument
      ensures r.Ok? ==> 0 <= r.value < N && rows[r.value].name == teamName
      ensures r.Ok? ==> forall j :: r.value < j < N ==> rows[j].name != teamName
    {
      NameIndexFacts(rows, N);
      if teamName !in teamLookup then Err(IllegalArgument) else Ok(teamLookup[teamName].id)
    }

    /** `getTeam(teamName)`: `getTeam(getTeamId(teamName))`. */
    function GetTeamByName(teamName: string): (r: Result<Team>)
      reads this
      requires Valid()
      ensures r.Err? <==> forall i :: 0 <= i < N ==> rows[i].name != teamName
      ensures r.Err? ==> r.error == IllegalArgument
      ensures r.Ok? ==> r.value.teamName == teamName && 0 <= r.value.id < N && r.value.Row() == rows[r.value.id]
    {
      match GetTeamId(teamName)
      case Err(e) => Err(e)
      case Ok(id) => GetTeam(id)
    }

    /** `iterator()`: the teams in id order. */
    function Iterator(): (ts: seq<Team>)
      reads this
      requires Valid()
      ensures |ts| == N && forall i :: 0 <= i < N ==> ts[i].id == i && ts[i].Row() == rows[i]
    {
      teams
    }

    /**
     * `Division(filePath)`: the teams of the file, each with the certificate
     * `CertificateOf` describes; a file of no teams throws.
     */
    static method Load(file: seq<TeamRow>, inCut: (Network, int) -> bool) returns (r: Result<Division>)
      requires WellFormed(file) && |file| < 0x8000_0000
      ensures file == [] <==> r.Err?
      ensures r.Err? ==> r.error == IllegalArgument
      ensures r.Ok? ==> fresh(r.value) && r.value.Valid() && r.value.rows == file
      ensures r.Ok? ==> forall i :: 0 <= i < |file| ==>
        r.value.teams[i].certOfElim == Some(CertificateOf(file, i, inCut))
        && r.value.teams[i].IsEliminated() == Ok(CertificateOf(file, i, inCut) != [])
    {
      var d := new Division(file);
      var res := ProcessDivision(d.teams, d.rows, inCut);
      if res.Err? {
        return Err(res.error);
      }
      r := Ok(d);
    }
  }
}
