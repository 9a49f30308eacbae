/**
 * `Eliminator`: builds, for one team of a division, the flow network of
 * `EliminationNetworks` edge by edge, runs the max-flow analysis on it and
 * stores the resulting certificate in the team. `processDivision` settles
 * every team of a division, trivially where it can. The division is given as
 * its teams in id order, which is all `Eliminator` reads of it; the max-flow
 * analysis is the parameter `inCut`.
 */
module Eliminators {
  import opened Common
  import opened HashAlgs
  import opened BaseballTeams
  import opened EliminationNetworks
  import Seqs

  /** The entries of an array of edges that are all set (none is null). */
  function Values<T>(s: seq<Option<T>>): (r: seq<T>)
    requires forall k :: 0 <= k < |s| ==> s[k] != None
    ensures |r| == |s| && forall k :: 0 <= k < |s| ==> r[k] == s[k].value
  {
    seq(|s|, k requires 0 <= k < |s| => s[k].value)
  }

  class Eliminator {
    const numTeams: int
    /** The division: its teams in id order. */
    const teams: seq<Team>
    const elimTeam: Team
    /** The rows of the division file the teams were built from. */
    ghost const rows: seq<TeamRow>
    /** `teamToSink`: one edge per team, `None` (null) until `addTeams` sets it. */
    const teamToSink: array<Option<FlowEdge>>
    var sourceToGame: seq<FlowEdge>
    var gameToTeam: seq<FlowEdge>

    /** The division and the arrays agree in size. */
    ghost predicate Shaped()
      reads this
    {
      Lists(teams, rows) && numTeams == |teams| && teamToSink.Length == numTeams
    }

    /** The source→game and game→team edges added so far are those of the games `G`, in order. */
    ghost predicate HasGames(G: seq<Game>)
      reads this
    {
      sourceToGame == SourceEdges(numTeams, G) && gameToTeam == TeamEdges(numTeams, G)
    }

    /**
     * The state the constructor leaves: exactly the edges of the network for
     * `elimTeam`, the team→sink edges indexed by team id.
     */
    ghost predicate Built()
      reads this, teamToSink
    {
      Shaped()
      && HasGames(Games(rows, elimTeam.id, numTeams))
      && forall i :: 0 <= i < numTeams ==> teamToSink[i] == Some(SinkEdge(rows, elimTeam.GetMaxPossibleWins(), i))
    }

    /** `Eliminator(elimTeam, division)`: `addTeams()`, then `addGames()`. */
    constructor (elimTeam: Team, teams: seq<Team>, ghost rows: seq<TeamRow>)
      requires Lists(teams, rows)
      ensures this.elimTeam == elimTeam && this.teams == teams && this.rows == rows
      ensures Built() && fresh(teamToSink)
    {
      this.elimTeam := elimTeam;
      this.teams := teams;
      this.rows := rows;
      numTeams := |teams|;
      teamToSink := new Option<FlowEdge>[|teams|](_ => None);
      sourceToGame := [];
      gameToTeam := [];
      new;
      AddTeams();
      AddGames();
    }

    /** `getVertexID(teamId)`: vertex `2 + teamId`; an id that is not a team's throws. */
    function GetVertexId(teamId: int): (r: Result<int>)
      ensures r.Ok? <==> 0 <= teamId < numTeams
      ensures r.Ok? ==> r.value == TeamVertex(teamId) && r.value != SOURCE && r.value != SINK
      ensures r.Ok? ==> TEAMID_OFFSET <= r.value < GameVertex(numTeams, 0)
      ensures r.Err? ==> r.error == IllegalArgument
    {
      if teamId >= numTeams || teamId < 0 then Err(IllegalArgument) else Ok(TEAMID_OFFSET + teamId)
    }

    /** `getNumberOfVertices()`: source, sink, the teams and the games added so far. */
    function GetNumberOfVertices(): (v: int)
      reads this, teamToSink
      ensures Built() ==> v == TEAMID_OFFSET + numTeams + |Games(rows, elimTeam.id, numTeams)|
      ensures Built() ==> v == NetworkOf(rows, elimTeam.id, elimTeam.GetMaxPossibleWins()).V
    {
      TEAMID_OFFSET + numTeams + |sourceToGame|
    }

    /** `getAllEdges()`: the source edges, the game edges, then the sink edges. */
    function GetAllEdges(): (es: seq<FlowEdge>)
      reads this, teamToSink
      requires Built()
      ensures es == NetworkOf(rows, elimTeam.id, elimTeam.GetMaxPossibleWins()).edges
    {
      var sinks := Values(teamToSink[..]);
      assert sinks == SinkEdges(rows, elimTeam.GetMaxPossibleWins());
      sourceToGame + gameToTeam + sinks
    }

    /** `addTeams()`: a sink edge for every team, with room for `maxAllowedWins - wins` more wins. */
    method AddTeams()
      requires Shaped()
      modifies teamToSink
      ensures forall i :: 0 <= i < numTeams ==> teamToSink[i] == Some(SinkEdge(rows, elimTeam.GetMaxPossibleWins(), i))
    {
      var maxAllowedWins := elimTeam.GetMaxPossibleWins();
      for k := 0 to |teams|
        invariant forall i :: 0 <= i < k ==> teamToSink[i] == Some(SinkEdge(rows, maxAllowedWins, i))
      {
        var team := teams[k];
        var winCapacity := Wrap32(maxAllowedWins - team.wins);
        AddTeam(team.id, winCapacity);
      }
    }

    /** `addTeam(teamId, maxWins)`: the edge from the team's vertex to the sink. */
    method AddTeam(teamId: int, maxWins: JInt)
      requires Shaped() && 0 <= teamId < numTeams
      modifies teamToSink
      ensures teamToSink[..] == old(teamToSink[..])[teamId := Some(FlowEdge(TeamVertex(teamId), SINK, Finite(maxWins)))]
    {
      var teamVertId := GetVertexId(teamId).value;
      teamToSink[teamId] := Some(FlowEdge(teamVertId, SINK, Finite(maxWins)));
    }

    /**
     * `addGames()`: for every first opponent other than the examined team, the
     * games against each lower-id opponent, in id order.
     */
    method AddGames()
      requires Shaped() && sourceToGame == [] && gameToTeam == []
      modifies this
      ensures HasGames(Games(rows, elimTeam.id, numTeams))
    {
      for a := 0 to |teams|
        invariant HasGames(Games(rows, elimTeam.id, a))
      {
        AddOpponent(a);
      }
    }

    /** One pass of the outer loop of `addGames`: the games of first opponent `a`, none for the examined team. */
    method AddOpponent(a: int)
      requires Shaped() && 0 <= a < numTeams
      requires HasGames(Games(rows, elimTeam.id, a))
      modifies this
      ensures HasGames(Games(rows, elimTeam.id, a + 1))
    {
      var opp1 := teams[a];
      assert opp1.id == a;
      if opp1.id == elimTeam.id {
        assert Games(rows, elimTeam.id, a + 1) == Games(rows, elimTeam.id, a) + [] == Games(rows, elimTeam.id, a);
        return;
      }
      AddRowGames(a);
    }

    /** The inner loop of `addGames` for first opponent `a`, stopping at the first team whose id is not below it. */
    method AddRowGames(a: int)
      requires Shaped() && 0 <= a < numTeams && a != elimTeam.id
      requires HasGames(Games(rows, elimTeam.id, a))
      modifies this
      ensures HasGames(Games(rows, elimTeam.id, a + 1))
    {
      ghost var G0 := Games(rows, elimTeam.id, a);
      assert G0 + RowGames(rows, elimTeam.id, a, 0) == G0 + [] == G0;
      var b := 0;
      while b < |teams|
        invariant 0 <= b <= a
        invariant HasGames(G0 + RowGames(rows, elimTeam.id, a, b))
      {
        assert teams[b].id == b;
        if teams[b].id >= a {
          break;
        }
        AddPair(a, b, G0);
        b := b + 1;
      }
      assert Games(rows, elimTeam.id, a + 1) == G0 + RowGames(rows, elimTeam.id, a, a);
    }

    /** One pass of the inner loop of `addGames`: the game between `a` and `b < a`, if it is one. */
    method AddPair(a: int, b: int, ghost G0: seq<Game>)
      requires Shaped() && 0 <= b < a < numTeams && a != elimTeam.id
      requires HasGames(G0 + RowGames(rows, elimTeam.id, a, b))
      modifies this
      ensures HasGames(G0 + RowGames(rows, elimTeam.id, a, b + 1))
    {
      var opp1, opp2 := teams[a], teams[b];
      assert opp1.Row() == rows[a] && opp2.id == b;
      var numGames := opp1.GetRemainingAgainst(opp2).value;
      ghost var R := RowGames(rows, elimTeam.id, a, b);
      if numGames > 0 && opp2.id != elimTeam.id {
        AddGamesVertex(a, b, numGames, G0 + R);
        Seqs.ConcatAssoc(G0, R, [Game(a, b, numGames)]);
      } else {
        assert RowGames(rows, elimTeam.id, a, b + 1) == R + [] == R;
      }
    }

    /**
     * `addGamesVertex(teamId1, teamId2, numGames)`: the next game vertex, fed
     * from the source with the games left and draining into both teams.
     */
    method AddGamesVertex(teamId1: int, teamId2: int, numGames: JInt, ghost G: seq<Game>)
      requires Shaped() && 0 <= teamId1 < numTeams && 0 <= teamId2 < numTeams
      requires HasGames(G)
      modifies this
      ensures HasGames(G + [Game(teamId1, teamId2, numGames)])
    {
      var gameVertId := GetNextGameId();
      var teamVertId1 := GetVertexId(teamId1).value;
      var teamVertId2 := GetVertexId(teamId2).value;
      AddSourceToGame(gameVertId, numGames);
      AddGameToTeam(gameVertId, teamVertId1);
      AddGameToTeam(gameVertId, teamVertId2);
      SourceEdgesSnoc(numTeams, G, Game(teamId1, teamId2, numGames));
      TeamEdgesSnoc(numTeams, G, Game(teamId1, teamId2, numGames));
    }

    /** `addSourceToGame(gameVertID, numGames)`. */
    method AddSourceToGame(gameVertId: int, numGames: JInt)
      modifies this
      ensures sourceToGame == old(sourceToGame) + [FlowEdge(SOURCE, gameVertId, Finite(numGames))]
      ensures gameToTeam == old(gameToTeam)
    {
      sourceToGame := sourceToGame + [FlowEdge(SOURCE, gameVertId, Finite(numGames))];
    }

    /** `addGameToTeam(gameVertID, teamVertID)`: an unbounded edge. */
    method AddGameToTeam(gameVertId: int, teamVertId: int)
      modifies this
      ensures gameToTeam == old(gameToTeam) + [FlowEdge(gameVertId, teamVertId, Infinite)]
      ensures sourceToGame == old(sourceToGame)
    {
      gameToTeam := gameToTeam + [FlowEdge(gameVertId, teamVertId, Infinite)];
    }

    /** `getNextGameId()`: the game vertices are numbered on from the teams, one per game added. */
    function GetNextGameId(): (v: int)
      reads this
      ensures v == GameVertex(numTeams, |sourceToGame|)
    {
      TEAMID_OFFSET + numTeams + |sourceToGame|
    }

    /**
     * `generateCertificateOfElimination(FF)`: the names of the teams whose
     * vertex is on the source side of the cut, in id order.
     */
    method GenerateCertificate(net: Network, inCut: (Network, int) -> bool) returns (coe: seq<string>)
      requires Shaped()
      ensures coe == Certificate(rows, net, inCut)
    {
      coe := [];
      for teamId := 0 to numTeams
        invariant coe == CutNames(rows, net, inCut, teamId)
      {
        coe := AddIfInCut(net, inCut, teamId, coe);
      }
    }

    /** One pass of `generateCertificateOfElimination`'s loop: team `teamId`'s name, if its vertex is in the cut. */
    method AddIfInCut(net: Network, inCut: (Network, int) -> bool, teamId: int, coe: seq<string>) returns (coe': seq<string>)
      requires Shaped() && 0 <= teamId < numTeams
      requires coe == CutNames(rows, net, inCut, teamId)
      ensures coe' == CutNames(rows, net, inCut, teamId + 1)
    {
      coe' := coe;
      var vertexId := GetVertexId(teamId).value;
      ghost var ids := CutIds(net, inCut, teamId);
      if inCut(net, vertexId) {
        var name := teams[teamId].teamName;
        assert teams[teamId].Row() == rows[teamId];
        assert CutIds(net, inCut, teamId + 1) == ids + [teamId];
        NamesOfSnoc(rows, ids, teamId);
        coe' := coe + [name];
      } else {
        assert CutIds(net, inCut, teamId + 1) == ids + [] == ids;
      }
    }

    /**
     * `eliminate()`: nothing when the team already has a certificate;
     * otherwise the network's certificate becomes the team's.
     */
    method Eliminate(inCut: (Network, int) -> bool)
      requires Built()
      modifies elimTeam
      ensures old(elimTeam.HasCertOfElim()) ==>
        elimTeam.certOfElim == old(elimTeam.certOfElim) && elimTeam.isEliminated == old(elimTeam.isEliminated)
      ensures !old(elimTeam.HasCertOfElim()) ==>
        elimTeam.Settled()
        && elimTeam.certOfElim == Some(Certificate(rows, NetworkOf(rows, elimTeam.id, elimTeam.GetMaxPossibleWins()), inCut))
    {
      if elimTeam.HasCertOfElim() {
        return;
      }
      var V := GetNumberOfVertices();
      var net := Network(V, GetAllEdges());
      var coe := GenerateCertificate(net, inCut);
      var _ := elimTeam.SetCertOfElim(Some(coe));
    }
  }

  /**
   * What `processDivision` leaves in team `i`, given the certificate and flag
   * the team held before (`cert0`, `flag0`) and the ones it holds after.
   */
  predicate Processed(rows: seq<TeamRow>, i: int, inCut: (Network, int) -> bool,
                      cert0: Option<seq<string>>, flag0: Option<bool>, cert: Option<seq<string>>, flag: Option<bool>)
    requires WellFormed(rows) && 0 <= i < |rows|
  {
    if TriviallyEliminated(rows, i) || flag0 == None
    then cert == Some(CertificateOf(rows, i, inCut)) && flag == Some(CertificateOf(rows, i, inCut) != [])
    else cert == cert0 && flag == flag0
  }

  /**
   * `processDivision(division)`: an empty division throws. Otherwise every
   * team gets the certificate `CertificateOf` describes, except that the flow
   * analysis leaves alone a team that already has one.
   */
  method ProcessDivision(teams: seq<Team>, ghost rows: seq<TeamRow>, inCut: (Network, int) -> bool) returns (r: Result<()>)
    requires Lists(teams, rows)
    modifies set t | t in teams
    ensures teams == [] <==> r == Err(IllegalArgument)
    ensures teams != [] ==> r == Ok(())
    ensures teams != [] ==> forall i :: 0 <= i < |teams| ==>
      Processed(rows, i, inCut, old(teams[i].certOfElim), old(teams[i].isEliminated), teams[i].certOfElim, teams[i].isEliminated)
  {
    var top := MaxByWins(teams, rows);
    if top.Err? {
      return Err(top.error);
    }
    var maxW := top.value;
    var certOfElim := [maxW.teamName];
    for i := 0 to |teams|
      invariant forall k :: 0 <= k < i ==>
        Processed(rows, k, inCut, old(teams[k].certOfElim), old(teams[k].isEliminated), teams[k].certOfElim, teams[k].isEliminated)
      invariant forall k :: i <= k < |teams| ==>
        teams[k].certOfElim == old(teams[k].certOfElim) && teams[k].isEliminated == old(teams[k].isEliminated)
    {
      label before:
      ProcessTeam(teams, rows, i, maxW.wins, certOfElim, inCut);
      forall k | 0 <= k < |teams| && k != i
        ensures teams[k].certOfElim == old@before(teams[k].certOfElim)
        ensures teams[k].isEliminated == old@before(teams[k].isEliminated)
      {
        assert teams[k].id != teams[i].id;
      }
    }
    r := Ok(());
  }

  /**
   * `stream(division).max(comparingInt(getWins)).orElseThrow(...)`: the
   * first team with the most wins; an empty division throws.
   */
  method MaxByWins(teams: seq<Team>, ghost rows: seq<TeamRow>) returns (r: Result<Team>)
    requires Lists(teams, rows)
    ensures teams == [] <==> r.Err?
    ensures r.Err? ==> r.error == IllegalArgument
    ensures r.Ok? ==> |rows| > 0 && r.value.wins == MaxWins(rows) && r.value.teamName == rows[Top(Wins(rows))].name
  {
    if |teams| == 0 {
      return Err(IllegalArgument);
    }
    var ws := seq(|teams|, k requires 0 <= k < |teams| => teams[k].wins as int);
    assert ws == Wins(rows) by {
      forall k | 0 <= k < |teams|
        ensures ws[k] == Wins(rows)[k]
      {
        assert teams[k].Row() == rows[k];
      }
    }
    var maxW := teams[Top(ws)];
    assert maxW.Row() == rows[Top(ws)];
    r := Ok(maxW);
  }

  /** One pass of `processDivision`'s loop: team `i` is settled and no other team changes. */
  method ProcessTeam(teams: seq<Team>, ghost rows: seq<TeamRow>, i: int, maxWins: JInt, certOfElim: seq<string>,
                     inCut: (Network, int) -> bool)
    requires Lists(teams, rows) && 0 <= i < |teams|
    requires maxWins == MaxWins(rows) && certOfElim == [rows[Top(Wins(rows))].name]
    modifies teams[i]
    ensures Processed(rows, i, inCut, old(teams[i].certOfElim), old(teams[i].isEliminated), teams[i].certOfElim, teams[i].isEliminated)
  {
    var t := teams[i];
    assert t.Row() == rows[i];
    if t.GetMaxPossibleWins() < maxWins {
      var _ := t.SetCertOfElim(Some(certOfElim));
    } else {
      var eliminator := new Eliminator(t, teams, rows);
      eliminator.Eliminate(inCut);
    }
  }
}
