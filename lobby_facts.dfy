/**
 * Properties of the lobby rules: every registry operation keeps LobbyInv,
 * rounds are resolved once and scored by the dominance cycle, a match is
 * always three rounds, and the rematch handshake needs both flags.
 */
module LobbyFacts {
  import opened Wrappers
  import opened Moves
  import opened Lobbies

  lemma StartedKeepsInvariant(l: Lobby)
    requires |l.players| <= MaxMembers && Distinct(l.players)
    ensures LobbyInv(Started(l))
    ensures Started(l).inGame && Started(l).roundsPlayed == 0 && Started(l).players == l.players
  {
  }

  /** joinLobby only appends to a lobby with room, so a lobby never exceeds two members. */
  lemma JoinedKeepsInvariant(l: Lobby, p: Player)
    requires LobbyInv(l) && |l.players| < MaxMembers && !Seated(l.players, p.userId)
    ensures LobbyInv(Joined(l, p)) && |Joined(l, p).players| == |l.players| + 1
    ensures Seated(Joined(l, p).players, p.userId)
  {
    assert Joined(l, p).players[|l.players|] == p;
  }

  lemma DepartKeepsInvariant(l: Lobby, uid: int)
    requires LobbyInv(l) && Seated(l.players, uid)
    ensures Depart(l, uid).Some? ==> LobbyInv(Depart(l, uid).value)
  {
  }

  lemma SubmitKeepsInvariant(l: Lobby, uid: int, m: MoveType)
    requires LobbyInv(l)
    ensures LobbyInv(Submit(l, uid, m).1)
    ensures Submit(l, uid, m).1.players == l.players && Submit(l, uid, m).1.lobbyId == l.lobbyId
  {
  }

  /**
   * A resolved round is counted exactly once: one more round, the slots
   * emptied, and wins still within rounds.
   */
  lemma RoundResolvedOnce(l: Lobby, uid: int, m: MoveType)
    requires LobbyInv(l) && Submit(l, uid, m).0.RoundPlayed?
    ensures var n := Submit(l, uid, m).1;
      && n.roundsPlayed == l.roundsPlayed + 1
      && n.p1Move == NoMove && n.p2Move == NoMove
      && n.p1Wins + n.p2Wins <= n.roundsPlayed
      && n.p1Wins + n.p2Wins <= l.p1Wins + l.p2Wins + 1
  {
  }

  /** A second move from the same seat in the same round is refused and changes nothing. */
  lemma RepeatedMoveRejected(l: Lobby, uid: int, m: MoveType, m': MoveType)
    requires LobbyInv(l) && m != NoMove && Submit(l, uid, m).0.Recorded?
    ensures Submit(Submit(l, uid, m).1, uid, m') == (Rejected, Submit(l, uid, m).1)
  {
  }

  /**
   * The match ends exactly when the resolved round is the third one; two
   * wins after two rounds do not end it, and no final score is 2 to 2.
   */
  lemma MatchEndsAtThirdRound(l: Lobby, uid: int, m: MoveType)
    requires LobbyInv(l)
    ensures var (res, n) := Submit(l, uid, m);
      && (n.matchJustEnded && !l.matchJustEnded <==> res.RoundPlayed? && l.roundsPlayed == MatchRounds - 1)
      && (res.RoundPlayed? ==> (res.report.matchEnded <==> n.roundsPlayed == MatchRounds))
      && (res.RoundPlayed? && res.report.matchEnded ==> !(n.p1Wins == 2 && n.p2Wins == 2))
  {
  }

  /** Both seats submitting, in either order, give the same round result and lobby. */
  lemma SubmissionOrderIrrelevant(l: Lobby, a: MoveType, b: MoveType)
    requires LobbyInv(l) && l.inGame && |l.players| == 2
    requires l.p1Move == NoMove && l.p2Move == NoMove
    requires a != NoMove && b != NoMove
    ensures var x, y := l.players[0].userId, l.players[1].userId;
      && Submit(l, x, a).0 == Recorded && Submit(l, y, b).0 == Recorded
      && Submit(Submit(l, x, a).1, y, b) == Submit(Submit(l, y, b).1, x, a)
      && Submit(Submit(l, x, a).1, y, b).0.RoundPlayed?
  {
    var x, y := l.players[0].userId, l.players[1].userId;
    assert x != y;
    assert Submit(Submit(l, x, a).1, y, b).0.RoundPlayed?;
  }

  /** One full round: the first seat plays a, then the second plays b. */
  function PlayRound(l: Lobby, a: MoveType, b: MoveType): Lobby
    requires |l.players| == 2
  {
    Submit(Submit(l, l.players[0].userId, a).1, l.players[1].userId, b).1
  }

  /**
   * Whatever is played, a started match between two distinct players is
   * still running after two rounds and over after the third.
   */
  lemma MatchLastsThreeRounds(l: Lobby, a1: MoveType, b1: MoveType, a2: MoveType, b2: MoveType, a3: MoveType, b3: MoveType)
    requires |l.players| == 2 && Distinct(l.players)
    requires a1 != NoMove && b1 != NoMove && a2 != NoMove && b2 != NoMove && a3 != NoMove && b3 != NoMove
    ensures var s := Started(l);
      var r1 := PlayRound(s, a1, b1);
      var r2 := PlayRound(r1, a2, b2);
      var r3 := PlayRound(r2, a3, b3);
      && r1.inGame && r1.roundsPlayed == 1
      && r2.inGame && r2.roundsPlayed == 2
      && !r3.inGame && r3.matchJustEnded && r3.roundsPlayed == 3
      && r3.players == l.players
  {
    var s := Started(l);
    var r1 := PlayRound(s, a1, b1);
    SubmissionOrderIrrelevant(s, a1, b1);
    var r2 := PlayRound(r1, a2, b2);
    SubmissionOrderIrrelevant(r1, a2, b2);
    SubmissionOrderIrrelevant(r2, a3, b3);
  }

  /** Two straight wins for the first seat leave the match running. */
  lemma TwoWinsDoNotEndMatch(l: Lobby)
    requires |l.players| == 2 && Distinct(l.players)
    ensures var r2 := PlayRound(PlayRound(Started(l), Rock, Scissors), Rock, Scissors);
      r2.p1Wins == 2 && r2.p2Wins == 0 && r2.inGame && !r2.matchJustEnded
  {
    var s := Started(l);
    SubmissionOrderIrrelevant(s, Rock, Scissors);
    SubmissionOrderIrrelevant(PlayRound(s, Rock, Scissors), Rock, Scissors);
  }

  /**
   * The rematch handshake: after a match, one member's request is not
   * enough, a repeated request changes nothing, and the other member's
   * request makes the rematch startable.
   */
  lemma RematchNeedsBothFlags(l: Lobby)
    requires LobbyInv(l) && |l.players| == 2 && l.matchJustEnded && !l.p1Rematch && !l.p2Rematch
    ensures var x, y := l.players[0].userId, l.players[1].userId;
      && Rematch(l, x).Some? && !CanStartRematch(Rematch(l, x).value)
      && Rematch(Rematch(l, x).value, x) == Rematch(l, x)
      && Rematch(Rematch(l, x).value, y).Some?
      && CanStartRematch(Rematch(Rematch(l, x).value, y).value)
      && Rematch(l, y).Some? && !CanStartRematch(Rematch(l, y).value)
      && Rematch(Rematch(l, y).value, x).Some?
      && CanStartRematch(Rematch(Rematch(l, y).value, x).value)
  {
    var x, y := l.players[0].userId, l.players[1].userId;
    assert x != y;
    assert Seated(l.players, x) && Seated(l.players, y);
  }

  lemma RematchKeepsInvariant(l: Lobby, uid: int)
    requires LobbyInv(l)
    ensures Rematch(l, uid).Some? ==> LobbyInv(Rematch(l, uid).value)
  {
  }
}
