/**
 * The flow network `Eliminator` builds to decide whether a team can still
 * finish first, stated on the rows of the division file. Vertex 0 is the
 * source and 1 the sink; team `i` is vertex `2 + i`; after the teams comes one
 * vertex per game between two other teams. Source→game edges carry the games
 * left, game→team edges are unbounded, and team→sink edges carry how many
 * more games the team may win without passing the examined team's maximum.
 * The max-flow computation is a parameter `inCut`: whether a vertex is on the
 * source side of the minimum cut it finds.
 */
module EliminationNetworks {
  import opened HashAlgs
  import opened BaseballTeams

  /** `Vertex.SOURCE`, `Vertex.SINK`, and `TEAMID_OFFSET`, the number of such vertices. */
  const SOURCE: int := 0
  const SINK: int := 1
  const TEAMID_OFFSET: int := 2

  /** An edge capacity: a count, or `Double.POSITIVE_INFINITY`. */
  datatype Capacity = Finite(amount: int) | Infinite

  datatype FlowEdge = FlowEdge(from: int, to: int, capacity: Capacity)

  /** A `FlowNetwork` on vertices `0 .. V - 1`, with its edges in the order they were added. */
  datatype Network = Network(V: int, edges: seq<FlowEdge>)

  /** A game vertex: two teams other than the one examined, and the games left between them. */
  datatype Game = Game(team1: int, team2: int, left: int)

  /** The vertex of team `id`. */
  function TeamVertex(id: int): int {
    TEAMID_OFFSET + id
  }

  /** The vertex of the `k`-th game of a division of `n` teams. */
  function GameVertex(n: int, k: int): int {
    TEAMID_OFFSET + n + k
  }

  /**
   * The games `addGames` adds with team `a` as the first opponent, against
   * the teams below `b`: every one with games left that is not the examined
   * team `e`. The schedule is read from `a`'s row.
   */
  function RowGames(rows: seq<TeamRow>, e: int, a: nat, b: nat): seq<Game>
    requires WellFormed(rows) && a < |rows| && b <= |rows|
    decreases b
  {
    if b == 0 then []
    else
      RowGames(rows, e, a, b - 1)
      + (if rows[a].games[b - 1] > 0 && b - 1 != e then [Game(a, b - 1, rows[a].games[b - 1])] else [])
  }

  /** The games added for the first opponents below `a`, skipping the examined team `e`. */
  function Games(rows: seq<TeamRow>, e: int, a: nat): seq<Game>
    requires WellFormed(rows) && a <= |rows|
    decreases a
  {
    if a == 0 then []
    else Games(rows, e, a - 1) + (if a - 1 == e then [] else RowGames(rows, e, a - 1, a - 1))
  }

  /** A game the network should have: a lower-id opponent second, neither of them `e`, with games left. */
  predicate IsGame(rows: seq<TeamRow>, e: int, g: Game)
    requires WellFormed(rows)
  {
    0 <= g.team2 < g.team1 < |rows| && g.team1 != e && g.team2 != e
    && g.left == rows[g.team1].games[g.team2] && g.left > 0
  }

  /** `g` comes before `h`: by first opponent, then by second. */
  predicate Before(g: Game, h: Game) {
    g.team1 < h.team1 || (g.team1 == h.team1 && g.team2 < h.team2)
  }

  /** The games of one first opponent: exactly its games against the teams below `b`, in order. */
  lemma {:induction false} RowGamesFacts(rows: seq<TeamRow>, e: int, a: nat, b: nat)
    requires WellFormed(rows) && a < |rows| && b <= a && a != e
    ensures forall k :: 0 <= k < |RowGames(rows, e, a, b)| ==>
      IsGame(rows, e, RowGames(rows, e, a, b)[k]) && RowGames(rows, e, a, b)[k].team1 == a && RowGames(rows, e, a, b)[k].team2 < b
    ensures Ordered(RowGames(rows, e, a, b))
    ensures forall g :: IsGame(rows, e, g) && g.team1 == a && g.team2 < b ==> g in RowGames(rows, e, a, b)
    decreases b
  {
    if b > 0 {
      RowGamesFacts(rows, e, a, b - 1);
    }
  }

  /** The games are listed in strictly increasing order. */
  predicate Ordered(G: seq<Game>) {
    forall j, k :: 0 <= j < k < |G| ==> Before(G[j], G[k])
  }

  /** Ordered games of first opponents below `a`, then ordered games of `a`, are ordered. */
  lemma OrderedConcat(G: seq<Game>, R: seq<Game>, a: int)
    requires Ordered(G) && Ordered(R)
    requires forall k :: 0 <= k < |G| ==> G[k].team1 < a
    requires forall k :: 0 <= k < |R| ==> R[k].team1 == a
    ensures Ordered(G + R)
  {
    forall j, k | 0 <= j < k < |G + R|
      ensures Before((G + R)[j], (G + R)[k])
    {
      if k < |G| {
        assert (G + R)[j] == G[j] && (G + R)[k] == G[k];
      } else if j >= |G| {
        assert (G + R)[j] == R[j - |G|] && (G + R)[k] == R[k - |G|];
      } else {
        assert (G + R)[j] == G[j] && (G + R)[k] == R[k - |G|];
      }
    }
  }

  /**
   * All games of a division: each listed game is a game of the network, every
   * such game is listed, and the list is strictly ordered, so no pair of
   * teams is listed twice.
   */
  lemma {:induction false} GamesFacts(rows: seq<TeamRow>, e: int, a: nat)
    requires WellFormed(rows) && a <= |rows|
    ensures forall k :: 0 <= k < |Games(rows, e, a)| ==> IsGame(rows, e, Games(rows, e, a)[k]) && Games(rows, e, a)[k].team1 < a
    ensures Ordered(Games(rows, e, a))
    ensures forall g :: IsGame(rows, e, g) && g.team1 < a ==> g in Games(rows, e, a)
    decreases a
  {
    if a > 0 {
      GamesFacts(rows, e, a - 1);
      var G := Games(rows, e, a - 1);
      if a - 1 == e {
        assert Games(rows, e, a) == G + [] == G;
      } else {
        RowGamesFacts(rows, e, a - 1, a - 1);
        var R := RowGames(rows, e, a - 1, a - 1);
        assert Games(rows, e, a) == G + R;
        GamesJoin(rows, e, a - 1, G, R);
      }
    }
  }

  /** The games of the first opponents below `a`, followed by the games of `a`, are the games of those up to `a`. */
  lemma GamesJoin(rows: seq<TeamRow>, e: int, a: int, G: seq<Game>, R: seq<Game>)
    requires WellFormed(rows)
    requires forall k :: 0 <= k < |G| ==> IsGame(rows, e, G[k]) && G[k].team1 < a
    requires forall k :: 0 <= k < |R| ==> IsGame(rows, e, R[k]) && R[k].team1 == a
    requires Ordered(G) && Ordered(R)
    requires forall g :: IsGame(rows, e, g) && g.team1 < a ==> g in G
    requires forall g :: IsGame(rows, e, g) && g.team1 == a && g.team2 < a ==> g in R
    ensures forall k :: 0 <= k < |G + R| ==> IsGame(rows, e, (G + R)[k]) && (G + R)[k].team1 < a + 1
    ensures Ordered(G + R)
    ensures forall g :: IsGame(rows, e, g) && g.team1 < a + 1 ==> g in G + R
  {
    OrderedConcat(G, R, a);
    forall k | 0 <= k < |G + R|
      ensures IsGame(rows, e, (G + R)[k]) && (G + R)[k].team1 < a + 1
    {
      if k < |G| {
        assert (G + R)[k] == G[k];
      } else {
        assert (G + R)[k] == R[k - |G|];
      }
    }
    forall g | IsGame(rows, e, g) && g.team1 < a + 1
      ensures g in G + R
    {
      if g.team1 < a {
        assert g in G;
      } else {
        assert g in R;
      }
    }
  }

  /** The source→game edges: the `k`-th game's vertex gets the games left as its capacity. */
  function SourceEdges(n: int, G: seq<Game>): (es: seq<FlowEdge>)
    ensures |es| == |G|
    decreases |G|
  {
    if G == [] then []
    else SourceEdges(n, G[..|G| - 1]) + [FlowEdge(SOURCE, GameVertex(n, |G| - 1), Finite(G[|G| - 1].left))]
  }

  /** The game→team edges: two unbounded edges per game, to its first and then its second team. */
  function TeamEdges(n: int, G: seq<Game>): (es: seq<FlowEdge>)
    ensures |es| == 2 * |G|
    decreases |G|
  {
    if G == [] then []
    else
      var k := |G| - 1;
      TeamEdges(n, G[..k]) + [FlowEdge(GameVertex(n, k), TeamVertex(G[k].team1), Infinite),
                              FlowEdge(GameVertex(n, k), TeamVertex(G[k].team2), Infinite)]
  }

  /** Adding one game adds its source edge at the end. */
  lemma SourceEdgesSnoc(n: int, G: seq<Game>, g: Game)
    ensures SourceEdges(n, G + [g]) == SourceEdges(n, G) + [FlowEdge(SOURCE, GameVertex(n, |G|), Finite(g.left))]
  {
    assert (G + [g])[..|G|] == G;
  }

  /** Adding one game adds its two team edges at the end. */
  lemma TeamEdgesSnoc(n: int, G: seq<Game>, g: Game)
    ensures TeamEdges(n, G + [g]) == TeamEdges(n, G) + [FlowEdge(GameVertex(n, |G|), TeamVertex(g.team1), Infinite),
                                                        FlowEdge(GameVertex(n, |G|), TeamVertex(g.team2), Infinite)]
  {
    assert (G + [g])[..|G|] == G;
  }

  /** Edge by edge: game `k` is vertex `2 + n + k`, fed from the source with its games left. */
  lemma {:induction false} SourceEdgesAt(n: int, G: seq<Game>, k: int)
    requires 0 <= k < |G|
    ensures SourceEdges(n, G)[k] == FlowEdge(SOURCE, GameVertex(n, k), Finite(G[k].left))
    decreases |G|
  {
    if k < |G| - 1 {
      SourceEdgesAt(n, G[..|G| - 1], k);
    }
  }

  /** Edge by edge: game `k` drains into its two teams, without bound. */
  lemma {:induction false} TeamEdgesAt(n: int, G: seq<Game>, k: int)
    requires 0 <= k < |G|
    ensures TeamEdges(n, G)[2 * k] == FlowEdge(GameVertex(n, k), TeamVertex(G[k].team1), Infinite)
    ensures TeamEdges(n, G)[2 * k + 1] == FlowEdge(GameVertex(n, k), TeamVertex(G[k].team2), Infinite)
    decreases |G|
  {
    if k < |G| - 1 {
      TeamEdgesAt(n, G[..|G| - 1], k);
    }
  }

  /** `addTeam(i, maxAllowed - wins)`: the edge from team `i` to the sink. */
  function SinkEdge(rows: seq<TeamRow>, maxAllowed: JInt, i: int): FlowEdge
    requires 0 <= i < |rows|
  {
    FlowEdge(TeamVertex(i), SINK, Finite(Wrap32(maxAllowed - rows[i].wins)))
  }

  /** The team→sink edges, one per team in id order, the examined team's included. */
  function SinkEdges(rows: seq<TeamRow>, maxAllowed: JInt): (es: seq<FlowEdge>)
    ensures |es| == |rows| && forall i :: 0 <= i < |rows| ==> es[i] == SinkEdge(rows, maxAllowed, i)
  {
    seq(|rows|, i requires 0 <= i < |rows| => SinkEdge(rows, maxAllowed, i))
  }

  /**
   * The network for examined team `e`, whose best possible win total is
   * `maxAllowed`: its vertex count and all its edges, source edges first,
   * then game edges, then sink edges.
   */
  function NetworkOf(rows: seq<TeamRow>, e: int, maxAllowed: JInt): Network
    requires WellFormed(rows)
  {
    var G := Games(rows, e, |rows|);
    Network(TEAMID_OFFSET + |rows| + |G|, SourceEdges(|rows|, G) + TeamEdges(|rows|, G) + SinkEdges(rows, maxAllowed))
  }

  /** An edge `FlowNetwork.addEdge` accepts and `FlowEdge` allows: both ends are vertices, the capacity is not negative. */
  predicate Admissible(V: int, edge: FlowEdge) {
    0 <= edge.from < V && 0 <= edge.to < V
    && (edge.capacity.Finite? ==> edge.capacity.amount >= 0)
  }

  /** Every edge of `es` is admissible in a network of `V` vertices. */
  predicate AllAdmissible(V: int, es: seq<FlowEdge>) {
    forall k :: 0 <= k < |es| ==> Admissible(V, es[k])
  }

  lemma AdmissibleConcat(V: int, a: seq<FlowEdge>, b: seq<FlowEdge>)
    requires AllAdmissible(V, a) && AllAdmissible(V, b)
    ensures AllAdmissible(V, a + b)
  {
    forall k | 0 <= k < |a + b|
      ensures Admissible(V, (a + b)[k])
    {
      if k >= |a| {
        assert (a + b)[k] == b[k - |a|];
      }
    }
  }

  /** The source edges of listed games go to game vertices with positive capacities. */
  lemma {:induction false} SourceEdgesAdmissible(rows: seq<TeamRow>, e: int, G: seq<Game>)
    requires WellFormed(rows) && forall k :: 0 <= k < |G| ==> IsGame(rows, e, G[k])
    ensures AllAdmissible(TEAMID_OFFSET + |rows| + |G|, SourceEdges(|rows|, G))
  {
    forall k | 0 <= k < |G|
      ensures Admissible(TEAMID_OFFSET + |rows| + |G|, SourceEdges(|rows|, G)[k])
    {
      SourceEdgesAt(|rows|, G, k);
    }
  }

  /** The team edges of listed games join a game vertex to the vertices of its two teams. */
  lemma {:induction false} TeamEdgesAdmissible(rows: seq<TeamRow>, e: int, G: seq<Game>)
    requires WellFormed(rows) && forall k :: 0 <= k < |G| ==> IsGame(rows, e, G[k])
    ensures AllAdmissible(TEAMID_OFFSET + |rows| + |G|, TeamEdges(|rows|, G))
  {
    var V, T := TEAMID_OFFSET + |rows| + |G|, TeamEdges(|rows|, G);
    forall j | 0 <= j < |T|
      ensures Admissible(V, T[j])
    {
      TeamEdgesAt(|rows|, G, j / 2);
      assert j == 2 * (j / 2) || j == 2 * (j / 2) + 1;
    }
  }

  /**
   * The sink edges have non-negative capacities when the examined team's
   * best total is at least every team's wins and no team has negative wins.
   */
  lemma {:induction false} SinkEdgesAdmissible(rows: seq<TeamRow>, maxAllowed: JInt, V: int)
    requires V >= TEAMID_OFFSET + |rows|
    requires forall i :: 0 <= i < |rows| ==> 0 <= rows[i].wins <= maxAllowed
    ensures AllAdmissible(V, SinkEdges(rows, maxAllowed))
  {
  }

  /**
   * The network is well formed when the examined team is not trivially
   * eliminated and no team has negative wins: every edge joins two of its
   * vertices and has a non-negative capacity. Its vertices are the source,
   * the sink, one per team and one per listed game.
   */
  lemma {:induction false} NetworkAdmissible(rows: seq<TeamRow>, e: int)
    requires WellFormed(rows) && 0 <= e < |rows| && !TriviallyEliminated(rows, e)
    requires forall i :: 0 <= i < |rows| ==> rows[i].wins >= 0
    ensures NetworkOf(rows, e, rows[e].MaxPossibleWins()).V == TEAMID_OFFSET + |rows| + |Games(rows, e, |rows|)|
    ensures AllAdmissible(NetworkOf(rows, e, rows[e].MaxPossibleWins()).V, NetworkOf(rows, e, rows[e].MaxPossibleWins()).edges)
  {
    var m := rows[e].MaxPossibleWins();
    var G := Games(rows, e, |rows|);
    var V := TEAMID_OFFSET + |rows| + |G|;
    GamesFacts(rows, e, |rows|);
    SourceEdgesAdmissible(rows, e, G);
    TeamEdgesAdmissible(rows, e, G);
    forall i | 0 <= i < |rows|
      ensures rows[i].wins <= m
    {
      assert Wins(rows)[i] <= MaxWins(rows);
    }
    SinkEdgesAdmissible(rows, m, V);
    AdmissibleConcat(V, SourceEdges(|rows|, G), TeamEdges(|rows|, G));
    AdmissibleConcat(V, SourceEdges(|rows|, G) + TeamEdges(|rows|, G), SinkEdges(rows, m));
  }

  /** The teams below `k` whose vertex the cut puts on the source side, in id order. */
  function CutIds(net: Network, inCut: (Network, int) -> bool, k: nat): (ids: seq<int>)
    ensures forall j :: 0 <= j < |ids| ==> 0 <= ids[j] < k
    decreases k
  {
    if k == 0 then []
    else CutIds(net, inCut, k - 1) + (if inCut(net, TeamVertex(k - 1)) then [k - 1] else [])
  }

  /** The cut's teams are exactly the teams on the source side, each once, in increasing order. */
  lemma {:induction false} CutIdsFacts(net: Network, inCut: (Network, int) -> bool, k: nat)
    ensures forall i :: i in CutIds(net, inCut, k) <==> 0 <= i < k && inCut(net, TeamVertex(i))
    ensures forall a, b :: 0 <= a < b < |CutIds(net, inCut, k)| ==> CutIds(net, inCut, k)[a] < CutIds(net, inCut, k)[b]
    decreases k
  {
    if k > 0 {
      CutIdsFacts(net, inCut, k - 1);
    }
  }

  /** The names of the teams with the given ids, in the same order. */
  function NamesOf(rows: seq<TeamRow>, ids: seq<int>): (names: seq<string>)
    requires forall j :: 0 <= j < |ids| ==> 0 <= ids[j] < |rows|
    ensures |names| == |ids|
    decreases |ids|
  {
    if ids == [] then [] else NamesOf(rows, ids[..|ids| - 1]) + [rows[ids[|ids| - 1]].name]
  }

  /** One more id adds its team's name at the end. */
  lemma NamesOfSnoc(rows: seq<TeamRow>, ids: seq<int>, i: int)
    requires forall j :: 0 <= j < |ids| ==> 0 <= ids[j] < |rows|
    requires 0 <= i < |rows|
    ensures NamesOf(rows, ids + [i]) == NamesOf(rows, ids) + [rows[i].name]
  {
    assert (ids + [i])[..|ids|] == ids;
  }

  /** `generateCertificateOfElimination`: the names of the teams on the source side of the cut. */
  function Certificate(rows: seq<TeamRow>, net: Network, inCut: (Network, int) -> bool): seq<string> {
    CutNames(rows, net, inCut, |rows|)
  }

  /** The names of the teams among the first `k` that are on the source side of the cut, in id order. */
  function CutNames(rows: seq<TeamRow>, net: Network, inCut: (Network, int) -> bool, k: nat): seq<string>
    requires k <= |rows|
  {
    NamesOf(rows, CutIds(net, inCut, k))
  }

  /**
   * The certificate `processDivision` gives team `t`: the name of the team
   * with the most wins when `t` is trivially eliminated, and otherwise the
   * certificate of the flow analysis for `t`.
   */
  function CertificateOf(rows: seq<TeamRow>, t: int, inCut: (Network, int) -> bool): seq<string>
    requires WellFormed(rows) && 0 <= t < |rows|
  {
    if TriviallyEliminated(rows, t) then [rows[Top(Wins(rows))].name]
    else Certificate(rows, NetworkOf(rows, t, rows[t].MaxPossibleWins()), inCut)
  }

  /**
   * A team is eliminated, after `processDivision`, exactly when it is
   * trivially eliminated or the cut of its network has a team on the
   * source side.
   */
  lemma {:induction false} EliminatedWhen(rows: seq<TeamRow>, t: int, inCut: (Network, int) -> bool)
    requires WellFormed(rows) && 0 <= t < |rows|
    ensures CertificateOf(rows, t, inCut) != [] <==>
      TriviallyEliminated(rows, t)
      || exists i :: 0 <= i < |rows| && inCut(NetworkOf(rows, t, rows[t].MaxPossibleWins()), TeamVertex(i))
  {
    var net := NetworkOf(rows, t, rows[t].MaxPossibleWins());
    var ids := CutIds(net, inCut, |rows|);
    CutIdsFacts(net, inCut, |rows|);
    if ids != [] {
      assert ids[0] in ids;
    }
    if exists i :: 0 <= i < |rows| && inCut(net, TeamVertex(i)) {
      var i :| 0 <= i < |rows| && inCut(net, TeamVertex(i));
      assert i in ids;
    }
  }
}
