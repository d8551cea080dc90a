/** Lobby bookkeeping of a game before it starts: the random size of the game,
    joining players, and the readiness test. P is the connection record of a player,
    which the lobby only stores. */
module Lobby {
  import opened Wrappers
  import opened Rules

  datatype LobbyError = ErrFullGame

  /** maxPlayer == 0 means "not drawn yet". */
  datatype Lobby<P> = Lobby(maxPlayer: int, numberPlayer: int, players: map<int, P>)

  /** A game as the server creates it. */
  function NewLobby<P>(): Lobby<P>
  {
    Lobby(0, 0, map[])
  }

  /** What every lobby reachable from NewLobby satisfies: the size is undrawn or in
      [2, PlayersPerGame], the players are stored under 1..numberPlayer, and there are
      never more of them than the size. */
  ghost predicate Inv<P>(l: Lobby<P>)
  {
    && (l.maxPlayer == 0 || 2 <= l.maxPlayer <= PlayersPerGame)
    && 0 <= l.numberPlayer
    && (l.maxPlayer == 0 ==> l.numberPlayer == 0)
    && (l.maxPlayer == 0 || l.numberPlayer <= l.maxPlayer)
    && (forall i :: i in l.players <==> 1 <= i <= l.numberPlayer)
  }

  /** Draws the size of the game once; `draw` stands for rand.Intn(PlayersPerGame - 1). */
  function SetMaxPlayer<P>(l: Lobby<P>, draw: int): (r: Lobby<P>)
    requires 0 <= draw < PlayersPerGame - 1
    ensures l.maxPlayer != 0 ==> r == l
    ensures l.maxPlayer == 0 ==> 2 <= r.maxPlayer <= PlayersPerGame
    ensures r.numberPlayer == l.numberPlayer && r.players == l.players
  {
    if l.maxPlayer == 0 then l.(maxPlayer := draw + 2) else l
  }

  /** Adds a player; fails with ErrFullGame when the game is full. The drawn size is
      kept even when the call fails. */
  function AddPlayer<P>(l: Lobby<P>, p: P, draw: int): (r: (Lobby<P>, Option<LobbyError>))
    requires 0 <= draw < PlayersPerGame - 1
    ensures var s := SetMaxPlayer(l, draw);
            (r.1 == Some(ErrFullGame) <==> s.numberPlayer == s.maxPlayer)
    ensures r.1.Some? ==> r.0 == SetMaxPlayer(l, draw)
    ensures r.1.None? ==>
              && r.0.maxPlayer == SetMaxPlayer(l, draw).maxPlayer
              && r.0.numberPlayer == l.numberPlayer + 1
              && r.0.players == l.players[l.numberPlayer + 1 := p]
  {
    var s := SetMaxPlayer(l, draw);
    if s.numberPlayer == s.maxPlayer then (s, Some(ErrFullGame))
    else
      var n := s.numberPlayer + 1;
      (s.(numberPlayer := n, players := s.players[n := p]), None)
  }

  /** The number of players still missing, never negative. */
  function MissingPlayer<P>(l: Lobby<P>, draw: int): (r: (Lobby<P>, int))
    requires 0 <= draw < PlayersPerGame - 1
    ensures r.0 == SetMaxPlayer(l, draw)
    ensures r.1 >= 0
    ensures r.1 + r.0.numberPlayer == r.0.maxPlayer || (r.1 == 0 && r.0.numberPlayer > r.0.maxPlayer)
  {
    var s := SetMaxPlayer(l, draw);
    var m := s.maxPlayer - s.numberPlayer;
    (s, if m < 0 then 0 else m)
  }

  function IsReady<P>(l: Lobby<P>, draw: int): (r: (Lobby<P>, bool))
    requires 0 <= draw < PlayersPerGame - 1
    ensures r.0 == SetMaxPlayer(l, draw)
    ensures r.1 <==> r.0.numberPlayer == r.0.maxPlayer
  {
    var s := SetMaxPlayer(l, draw);
    (s, s.numberPlayer == s.maxPlayer)
  }

  /** Every lobby operation keeps the invariant, starting from a new game. */
  lemma LobbyInvariant<P>(l: Lobby<P>, p: P, draw: int)
    requires 0 <= draw < PlayersPerGame - 1
    ensures Inv(NewLobby<P>())
    ensures Inv(l) ==> Inv(SetMaxPlayer(l, draw))
    ensures Inv(l) ==> Inv(AddPlayer(l, p, draw).0)
    ensures Inv(l) ==> Inv(MissingPlayer(l, draw).0) && Inv(IsReady(l, draw).0)
  {
  }

  /** In a well-formed lobby the game is ready exactly when no player is missing,
      and a join fails exactly when the game is ready. */
  lemma ReadyIffNoneMissing<P>(l: Lobby<P>, p: P, draw: int)
    requires Inv(l) && 0 <= draw < PlayersPerGame - 1
    ensures IsReady(l, draw).1 <==> MissingPlayer(l, draw).1 == 0
    ensures AddPlayer(l, p, draw).1.Some? <==> IsReady(l, draw).1
  {
  }

  /** Joining as many players as are missing makes the game ready. */
  lemma {:induction false} FillingMakesReady<P>(l: Lobby<P>, ps: seq<P>, draw: int)
    requires Inv(l) && 0 <= draw < PlayersPerGame - 1
    requires |ps| == MissingPlayer(l, draw).1
    ensures IsReady(JoinAll(l, ps, draw), draw).1
    decreases |ps|
  {
    if |ps| == 0 {
    } else {
      LobbyInvariant(l, ps[0], draw);
      var l' := AddPlayer(l, ps[0], draw).0;
      assert MissingPlayer(l', draw).1 == |ps| - 1;
      FillingMakesReady(l', ps[1..], draw);
    }
  }

  /** Joins the players one after another, ignoring failures. */
  function JoinAll<P>(l: Lobby<P>, ps: seq<P>, draw: int): Lobby<P>
    requires 0 <= draw < PlayersPerGame - 1
    decreases |ps|
  {
    if |ps| == 0 then SetMaxPlayer(l, draw) else JoinAll(AddPlayer(l, ps[0], draw).0, ps[1..], draw)
  }
}
