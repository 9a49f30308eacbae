/**
 * Baseball elimination: a team's season record as a division file lists it,
 * and the `Team` object a division keeps for it. The counts are fixed when
 * the team is created; only the certificate of elimination is set later.
 * `Division.Team` and the top-level `Team` class are the same class, except
 * that only the first has `getMaxPossibleWins`; `Team` models both.
 */
module BaseballTeams {
  import opened Common
  import opened HashAlgs

  /**
   * One line of a division file: the team's name, wins, losses, games left
   * in the season, and games left against each team of the division.
   */
  datatype TeamRow = TeamRow(name: string, wins: JInt, losses: JInt, remaining: JInt, games: seq<JInt>)
  {
    /** `getMaxPossibleWins()`: `wins + remaining`, in `int` arithmetic. */
    function MaxPossibleWins(): (m: JInt)
      ensures (m - (wins + remaining)) % TWO32 == 0
      ensures -0x8000_0000 <= wins + remaining < 0x8000_0000 ==> m == wins + remaining
    {
      Wrap32(wins + remaining)
    }
  }

  /** Every row lists one game count per team of the division. */
  predicate WellFormed(rows: seq<TeamRow>) {
    forall i :: 0 <= i < |rows| ==> |rows[i].games| == |rows|
  }

  /** The sum of a sequence of counts, as an integer. */
  function Sum(s: seq<int>): int {
    if s == [] then 0 else s[0] + Sum(s[1..])
  }

  /** `reduce(w, Integer::sum)` over a schedule: a left fold of `int` additions. */
  function DivisionWins(w: JInt, games: seq<JInt>): JInt
    decreases |games|
  {
    if games == [] then w else DivisionWins(Wrap32(w + games[0]), games[1..])
  }

  /** The fold is the total `w + Σ games`, wrapped once at the end. */
  lemma {:induction false} DivisionWinsTotal(w: JInt, games: seq<JInt>)
    ensures DivisionWins(w, games) == Wrap32(w + Sum(games))
    decreases |games|
  {
    if games != [] {
      DivisionWinsTotal(Wrap32(w + games[0]), games[1..]);
      WrapAdd(w + games[0], Sum(games[1..]));
    }
  }

  /** The wins column of a division file. */
  function Wins(rows: seq<TeamRow>): (ws: seq<int>)
    ensures |ws| == |rows| && forall i :: 0 <= i < |rows| ==> ws[i] == rows[i].wins
  {
    seq(|rows|, i requires 0 <= i < |rows| => rows[i].wins as int)
  }

  /**
   * The team `Stream.max(comparingInt(getWins))` returns: the reduction keeps
   * its accumulator on ties, so this is the first team with the most wins.
   */
  function Top(ws: seq<int>): (t: nat)
    requires |ws| > 0
    ensures t < |ws|
    ensures forall i :: 0 <= i < |ws| ==> ws[i] <= ws[t]
    ensures forall i :: 0 <= i < t ==> ws[i] < ws[t]
    decreases |ws|
  {
    if |ws| == 1 then 0
    else
      var k := Top(ws[..|ws| - 1]);
      if ws[k] >= ws[|ws| - 1] then k else |ws| - 1
  }

  /** The most wins of any team: `IntStream.of(wins).max()`. */
  function MaxWins(rows: seq<TeamRow>): int
    requires |rows| > 0
  {
    Wins(rows)[Top(Wins(rows))]
  }

  /**
   * The trivial elimination rule: the team cannot reach, even by winning
   * every game it has left, the wins another team already has.
   */
  predicate TriviallyEliminated(rows: seq<TeamRow>, t: int)
    requires 0 <= t < |rows|
  {
    rows[t].MaxPossibleWins() < MaxWins(rows)
  }

  /**
   * A team with the most wins is never trivially eliminated, provided its
   * games left are not negative and `wins + remaining` does not overflow.
   */
  lemma {:induction false} TopNotTrivial(rows: seq<TeamRow>, t: int)
    requires 0 <= t < |rows| && rows[t].wins == MaxWins(rows)
    requires 0 <= rows[t].remaining && rows[t].wins + rows[t].remaining < 0x8000_0000
    ensures !TriviallyEliminated(rows, t)
  {
  }

  /**
   * `teamNumber`/`teamLookup` after `put(rows[i].name, i)` for the rows
   * below `k`, in order: a later row with a name replaces an earlier one.
   */
  function NameIndex(rows: seq<TeamRow>, k: nat): map<string, int>
    requires k <= |rows|
  {
    if k == 0 then map[] else NameIndex(rows, k - 1)[rows[k - 1].name := k - 1]
  }

  /**
   * `M` maps the names of the rows below `k` to a row carrying the name, the
   * last such row, and maps nothing else.
   */
  predicate Indexes(rows: seq<TeamRow>, M: map<string, int>, k: nat)
    requires k <= |rows|
  {
    (forall i :: 0 <= i < k ==> rows[i].name in M && i <= M[rows[i].name])
    && forall n :: n in M ==>
      0 <= M[n] < k && rows[M[n]].name == n && forall j :: M[n] < j < k ==> rows[j].name != n
  }

  /** Putting the next row's name at its index extends the index by that row. */
  lemma IndexesPut(rows: seq<TeamRow>, M: map<string, int>, k: nat)
    requires 0 < k <= |rows| && Indexes(rows, M, k - 1)
    ensures Indexes(rows, M[rows[k - 1].name := k - 1], k)
  {
    var n0 := rows[k - 1].name;
    var M' := M[n0 := k - 1];
    forall n | n in M'
      ensures 0 <= M'[n] < k && rows[M'[n]].name == n && forall j :: M'[n] < j < k ==> rows[j].name != n
    {
      if n != n0 {
        assert M'[n] == M[n];
      }
    }
  }

  /** The name index holds exactly the names of the rows, each at the last row carrying it. */
  lemma {:induction false} NameIndexFacts(rows: seq<TeamRow>, k: nat)
    requires k <= |rows|
    ensures Indexes(rows, NameIndex(rows, k), k)
  {
    if k > 0 {
      NameIndexFacts(rows, k - 1);
      IndexesPut(rows, NameIndex(rows, k - 1), k);
    }
  }

  /** The key order of the `LinkedHashMap` after the same puts: first occurrences, in order. */
  function KeyOrder(rows: seq<TeamRow>, k: nat): seq<string>
    requires k <= |rows|
  {
    if k == 0 then []
    else
      var ks := KeyOrder(rows, k - 1);
      if rows[k - 1].name in ks then ks else ks + [rows[k - 1].name]
  }

  /** Every name appears in the key order exactly once, and nothing else does. */
  lemma {:induction false} KeyOrderFacts(rows: seq<TeamRow>, k: nat)
    requires k <= |rows|
    ensures forall n :: n in KeyOrder(rows, k) <==> exists i :: 0 <= i < k && rows[i].name == n
    ensures forall a, b :: 0 <= a < b < |KeyOrder(rows, k)| ==> KeyOrder(rows, k)[a] != KeyOrder(rows, k)[b]
  {
    if k > 0 {
      KeyOrderFacts(rows, k - 1);
      var ks := KeyOrder(rows, k - 1);
      forall n | n in KeyOrder(rows, k)
        ensures exists i :: 0 <= i < k && rows[i].name == n
      {
        if n !in ks {
          assert rows[k - 1].name == n;
        }
      }
    }
  }

  class Team {
    const id: JInt
    const wins: JInt
    const losses: JInt
    const remaining: JInt
    const teamName: string
    const gameSchedule: seq<JInt>
    /** `isEliminated`: `None` (null) until a certificate is set. */
    var isEliminated: Option<bool>
    var certOfElim: Option<seq<string>>

    /** `Team(teamName, id, wins, losses, remaining, gameSchedule)`: no certificate yet. */
    constructor (teamName: string, id: JInt, wins: JInt, losses: JInt, remaining: JInt, gameSchedule: seq<JInt>)
      ensures Row() == TeamRow(teamName, wins, losses, remaining, gameSchedule) && this.id == id
      ensures !HasCertOfElim() && certOfElim == None
    {
      this.teamName := teamName;
      this.id := id;
      this.wins := wins;
      this.losses := losses;
      this.remaining := remaining;
      this.gameSchedule := gameSchedule;
      isEliminated := None;
      certOfElim := None;
    }

    /** The team's record, as the line of the file it was read from. */
    function Row(): TeamRow {
      TeamRow(teamName, wins, losses, remaining, gameSchedule)
    }

    /** `getMaxPossibleWins()`. */
    function GetMaxPossibleWins(): JInt {
      Row().MaxPossibleWins()
    }

    /**
     * `getMaxDivisionWins()`: the wins plus every game left in the division,
     * summed in `int` arithmetic.
     */
    function GetMaxDivisionWins(): (m: JInt)
      ensures m == Wrap32(wins + Sum(gameSchedule))
      ensures -0x8000_0000 <= wins + Sum(gameSchedule) < 0x8000_0000 ==> m == wins + Sum(gameSchedule)
    {
      DivisionWinsTotal(wins, gameSchedule);
      DivisionWins(wins, gameSchedule)
    }

    /** `getRemainingAgainst(that)`: the schedule entry at `that`'s id, which must be an index. */
    function GetRemainingAgainst(that: Team): (r: Result<JInt>)
      ensures r.Ok? <==> 0 <= that.id < |gameSchedule|
      ensures r.Ok? ==> r.value == gameSchedule[that.id]
      ensures r.Err? ==> r.error == IndexOutOfBounds
    {
      if 0 <= that.id < |gameSchedule| then Ok(gameSchedule[that.id]) else Err(IndexOutOfBounds)
    }

    /** `hasCertOfElim()`: whether the elimination status has been set. */
    predicate HasCertOfElim()
      reads this
    {
      isEliminated != None
    }

    /** The state `setCertOfElim` leaves: a certificate, and the flag saying whether it is non-empty. */
    ghost predicate Settled()
      reads this
    {
      certOfElim != None && isEliminated == Some(certOfElim.value != [])
    }

    /**
     * `isEliminated()`: throws before a certificate is set; afterwards, the
     * team is eliminated exactly when its certificate names some team.
     */
    function IsEliminated(): (r: Result<bool>)
      reads this
      ensures r.Err? <==> !HasCertOfElim()
      ensures r.Err? ==> r.error == IllegalArgument
      ensures Settled() ==> r == Ok(certOfElim.value != [])
    {
      if !HasCertOfElim() then Err(IllegalArgument) else Ok(isEliminated.value)
    }

    /** `getCertOfElim()`. */
    function GetCertOfElim(): Option<seq<string>>
      reads this
    {
      certOfElim
    }

    /**
     * `setCertOfElim(c)`: stores the certificate, then sets the flag from its
     * emptiness. A null certificate is stored and then throws, leaving the
     * flag as it was.
     */
    method SetCertOfElim(c: Option<seq<string>>) returns (r: Result<()>)
      modifies this
      ensures certOfElim == c
      ensures c != None ==> r == Ok(()) && Settled() && HasCertOfElim()
      ensures c == None ==> r == Err(NullPointer) && isEliminated == old(isEliminated)
    {
      certOfElim := c;
      if c == None {
        return Err(NullPointer);
      }
      isEliminated := Some(c.value != []);
      r := Ok(());
    }

    /** `compareTo(that)`: `Integer.compare` of the wins, and of nothing else. */
    function CompareTo(that: Team): (c: int)
      ensures c == -1 <==> wins < that.wins
      ensures c == 0 <==> wins == that.wins
      ensures c == 1 <==> wins > that.wins
    {
      if wins < that.wins then -1 else if wins == that.wins then 0 else 1
    }
  }

  /** `compareTo` is a total preorder: antisymmetric and transitive. */
  lemma CompareToOrder(a: Team, b: Team, c: Team)
    ensures a.CompareTo(b) == -b.CompareTo(a)
    ensures a.CompareTo(b) <= 0 && b.CompareTo(c) <= 0 ==> a.CompareTo(c) <= 0
  {
  }

  /** A division's teams, in id order, built from the rows of its file. */
  ghost predicate Lists(teams: seq<Team>, rows: seq<TeamRow>) {
    |teams| == |rows| && WellFormed(rows)
    && forall i :: 0 <= i < |teams| ==> teams[i].id == i && teams[i].Row() == rows[i]
  }

  /** In a division, `getRemainingAgainst` reads the file's game count for the pair. */
  lemma {:induction false} RemainingAgainstRow(teams: seq<Team>, rows: seq<TeamRow>, i: int, j: int)
    requires Lists(teams, rows) && 0 <= i < |teams| && 0 <= j < |teams|
    ensures teams[i].GetRemainingAgainst(teams[j]) == Ok(rows[i].games[j])
  {
    assert teams[i].Row() == rows[i];
  }
}
