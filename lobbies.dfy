/**
 * The records of src/Game.hpp (Player, Lobby and the Lobby field defaults)
 * and the pure match rules of src/Game.cpp: round evaluation, match end,
 * and the effect of each registry operation on one lobby value.
 */
module Lobbies {
  import opened Wrappers
  import opened Moves

  datatype Player = Player(userId: int, username: string)

  /** A lobby; p1 is the seat of players[0], p2 the seat of players[1]. */
  datatype Lobby = Lobby(
    lobbyId: int,
    name: string,
    players: seq<Player>,
    inGame: bool,
    matchJustEnded: bool,
    p1Move: MoveType,
    p2Move: MoveType,
    p1Wins: nat,
    p2Wins: nat,
    roundsPlayed: nat,
    p1Rematch: bool,
    p2Rematch: bool)

  /** A match is always exactly this many rounds (checkMatchEnd). */
  const MatchRounds: nat := 3

  /** A lobby seats at most this many players. */
  const MaxMembers: nat := 2

  /** The game fields as the Lobby field initialisers leave them. */
  predicate Cleared(l: Lobby) {
    && !l.inGame && !l.matchJustEnded
    && l.p1Move == NoMove && l.p2Move == NoMove
    && l.p1Wins == 0 && l.p2Wins == 0 && l.roundsPlayed == 0
    && !l.p1Rematch && !l.p2Rematch
  }

  /** The lobby createLobby builds: default fields, the caller as sole member. */
  function NewLobby(id: int, name: string, owner: Player): (l: Lobby)
    ensures Cleared(l) && LobbyInv(l)
    ensures l.lobbyId == id && l.name == name && l.players == [owner]
  {
    Lobby(id, name, [owner], false, false, NoMove, NoMove, 0, 0, 0, false, false)
  }

  predicate Seated(members: seq<Player>, uid: int) {
    exists i :: 0 <= i < |members| && members[i].userId == uid
  }

  predicate Distinct(members: seq<Player>) {
    forall i, j :: 0 <= i < j < |members| ==> members[i].userId != members[j].userId
  }

  /** The position of the first member with this id, or |members| if none. */
  function SeatOf(members: seq<Player>, uid: int): (i: nat)
    ensures i <= |members|
    ensures i < |members| ==> members[i].userId == uid
    ensures forall j :: 0 <= j < i ==> members[j].userId != uid
  {
    if members == [] then 0
    else if members[0].userId == uid then 0
    else 1 + SeatOf(members[1..], uid)
  }

  /**
   * What every lobby of the registry satisfies between two operations:
   * at most two distinct members, never two filled slots at rest, slots
   * empty outside a game, wins never exceeding rounds, and rematch flags
   * only after a finished match.
   */
  ghost predicate LobbyInv(l: Lobby) {
    && |l.players| <= MaxMembers
    && Distinct(l.players)
    && !(l.p1Move != NoMove && l.p2Move != NoMove)
    && (!l.inGame ==> l.p1Move == NoMove && l.p2Move == NoMove)
    && l.p1Wins + l.p2Wins <= l.roundsPlayed <= MatchRounds
    && (l.inGame ==> l.roundsPlayed < MatchRounds && !l.matchJustEnded && !l.p1Rematch && !l.p2Rematch)
    && (l.matchJustEnded ==> l.roundsPlayed == MatchRounds)
    && (l.p1Rematch || l.p2Rematch ==> l.matchJustEnded)
  }

  /** The reset leaveLobby applies to a lobby that still has a member. */
  function Reset(l: Lobby): Lobby {
    l.(inGame := false, matchJustEnded := false, p1Move := NoMove, p2Move := NoMove,
       p1Wins := 0, p2Wins := 0, roundsPlayed := 0, p1Rematch := false, p2Rematch := false)
  }

  /** startGame (and startRematch): a fresh match. */
  function Started(l: Lobby): Lobby {
    Reset(l).(inGame := true)
  }

  /** canStartGame */
  predicate CanStartGame(l: Lobby) {
    |l.players| == 2 && !l.inGame
  }

  /** canStartRematch */
  predicate CanStartRematch(l: Lobby) {
    |l.players| == 2 && l.matchJustEnded && l.p1Rematch && l.p2Rematch
  }

  /** The lobby after joinLobby appends a member. */
  function Joined(l: Lobby, p: Player): Lobby {
    l.(players := l.players + [p])
  }

  /**
   * The lobby after leaveLobby erases the member uid: None when it was the
   * last member (the registry then erases the lobby), otherwise the other
   * members in their old order with every game field reset.
   */
  function Depart(l: Lobby, uid: int): (r: Option<Lobby>)
    requires Seated(l.players, uid)
    ensures r.None? <==> |l.players| == 1
    ensures r.Some? ==> Cleared(r.value) && r.value.lobbyId == l.lobbyId && r.value.name == l.name
    ensures r.Some? ==> |r.value.players| == |l.players| - 1
    ensures r.Some? && Distinct(l.players) ==>
      !Seated(r.value.players, uid) && Distinct(r.value.players) &&
      forall q :: q != uid ==> (Seated(r.value.players, q) <==> Seated(l.players, q))
  {
    var i := SeatOf(l.players, uid);
    var rest := l.players[..i] + l.players[i + 1..];
    RemoveSeatKeepsOthers(l.players, i);
    if rest == [] then None else Some(Reset(l.(players := rest)))
  }

  /** Erasing position i removes exactly that member's seat. */
  lemma RemoveSeatKeepsOthers(members: seq<Player>, i: nat)
    requires i < |members|
    ensures var rest := members[..i] + members[i + 1..];
      && (Distinct(members) ==> Distinct(rest) && !Seated(rest, members[i].userId))
      && forall q :: q != members[i].userId ==> (Seated(rest, q) <==> Seated(members, q))
  {
    var rest := members[..i] + members[i + 1..];
    assert forall j :: 0 <= j < |rest| ==> rest[j] == if j < i then members[j] else members[j + 1];
    forall q | q != members[i].userId && Seated(members, q)
      ensures Seated(rest, q)
    {
      var k :| 0 <= k < |members| && members[k].userId == q;
      if k < i {
        assert rest[k].userId == q;
      } else {
        assert rest[k - 1].userId == q;
      }
    }
  }

  // ---------------------------------------------------------------------
  // Match rules
  // ---------------------------------------------------------------------

  /** Position of a real move on the dominance cycle. */
  function Ord(m: MoveType): int {
    match m
    case Rock => 0
    case Paper => 1
    case Scissors => 2
    case NoMove => -1
  }

  /** a beats b: a is one step ahead of b on the cycle Rock, Paper, Scissors. */
  predicate Beats(a: MoveType, b: MoveType) {
    a != NoMove && b != NoMove && (Ord(a) - Ord(b)) % 3 == 1
  }

  /** evaluate_round: 0 for a draw, 1 when the first seat wins, 2 when the second does. */
  function EvaluateRound(p1: MoveType, p2: MoveType): (r: int)
    ensures 0 <= r <= 2
    ensures r == 0 <==> p1 == p2
    ensures p1 != NoMove && p2 != NoMove ==> (r == 1 <==> Beats(p1, p2)) && (r == 2 <==> Beats(p2, p1))
  {
    if p1 == p2 then 0
    else if p1 == Rock && p2 == Scissors then 1
    else if p1 == Paper && p2 == Rock then 1
    else if p1 == Scissors && p2 == Paper then 1
    else 2
  }

  /** Swapping two distinct real moves swaps the winning seat. */
  lemma EvaluateRoundSwaps(a: MoveType, b: MoveType)
    requires a != NoMove && b != NoMove && a != b
    ensures EvaluateRound(a, b) == 3 - EvaluateRound(b, a)
  {
  }

  /**
   * checkMatchEnd: None before the third round; afterwards Some of the
   * user id of the seat with more wins, or Some(0) for a tie.
   */
  function CheckMatchEnd(l: Lobby): (r: Option<int>)
    requires l.roundsPlayed == MatchRounds && l.p1Wins > l.p2Wins ==> |l.players| >= 1
    requires l.roundsPlayed == MatchRounds && l.p2Wins > l.p1Wins ==> |l.players| >= 2
    ensures r.Some? <==> l.roundsPlayed == MatchRounds
    ensures r.Some? && l.p1Wins > l.p2Wins ==> r.value == l.players[0].userId
    ensures r.Some? && l.p2Wins > l.p1Wins ==> r.value == l.players[1].userId
    ensures r.Some? && l.p1Wins == l.p2Wins ==> r.value == 0
  {
    if l.roundsPlayed == MatchRounds then
      if l.p1Wins > l.p2Wins then Some(l.players[0].userId)
      else if l.p2Wins > l.p1Wins then Some(l.players[1].userId)
      else Some(0)
    else None
  }

  // ---------------------------------------------------------------------
  // Move submission (the lobby part of submitMove)
  // ---------------------------------------------------------------------

  /** The out-parameters submitMove fills when a round is resolved. */
  datatype RoundReport = RoundReport(
    roundWinner: int,
    p1Move: MoveType,
    p2Move: MoveType,
    matchEnded: bool,
    matchWinner: int,
    p1Wins: nat,
    p2Wins: nat)

  /** submitMove's outcome: false; true with the round pending; true with a round resolved. */
  datatype SubmitResult = Rejected | Recorded | RoundPlayed(report: RoundReport)

  /** The lobby takes a move from uid: a game with two players and uid's slot still empty. */
  predicate Accepts(l: Lobby, uid: int) {
    && l.inGame && |l.players| == 2
    && if uid == l.players[0].userId then l.p1Move == NoMove
       else uid == l.players[1].userId && l.p2Move == NoMove
  }

  /** Record m in the slot of uid's seat. */
  function Place(l: Lobby, uid: int, m: MoveType): Lobby
    requires |l.players| == 2
  {
    if uid == l.players[0].userId then l.(p1Move := m) else l.(p2Move := m)
  }

  predicate RoundComplete(l: Lobby) {
    l.p1Move != NoMove && l.p2Move != NoMove
  }

  /**
   * Resolve the round whose two slots are filled: score it, clear the
   * slots, count the round, and end the match after the third round.
   */
  function Settle(l: Lobby): (r: (Lobby, RoundReport))
    requires |l.players| == 2 && RoundComplete(l)
    ensures r.0.p1Move == NoMove && r.0.p2Move == NoMove
    ensures r.0.roundsPlayed == l.roundsPlayed + 1
    ensures r.0.p1Wins == l.p1Wins + (if Beats(l.p1Move, l.p2Move) then 1 else 0)
    ensures r.0.p2Wins == l.p2Wins + (if Beats(l.p2Move, l.p1Move) then 1 else 0)
    ensures r.1.roundWinner ==
      if Beats(l.p1Move, l.p2Move) then l.players[0].userId
      else if Beats(l.p2Move, l.p1Move) then l.players[1].userId
      else 0
    ensures r.1.p1Move == l.p1Move && r.1.p2Move == l.p2Move
    ensures r.1.p1Wins == r.0.p1Wins && r.1.p2Wins == r.0.p2Wins
    ensures r.1.matchEnded <==> r.0.roundsPlayed == MatchRounds
    ensures r.1.matchEnded ==> !r.0.inGame && r.0.matchJustEnded
    ensures r.1.matchEnded ==>
              r.1.matchWinner == if r.0.p1Wins > r.0.p2Wins then l.players[0].userId
                                 else if r.0.p2Wins > r.0.p1Wins then l.players[1].userId
                                 else 0
    ensures !r.1.matchEnded ==> r.0.inGame == l.inGame && r.0.matchJustEnded == l.matchJustEnded && r.1.matchWinner == 0
    ensures r.0.lobbyId == l.lobbyId && r.0.name == l.name && r.0.players == l.players
    ensures r.0.p1Rematch == l.p1Rematch && r.0.p2Rematch == l.p2Rematch
  {
    var w := EvaluateRound(l.p1Move, l.p2Move);
    var scored := l.(
      p1Wins := l.p1Wins + (if w == 1 then 1 else 0),
      p2Wins := l.p2Wins + (if w == 2 then 1 else 0),
      roundsPlayed := l.roundsPlayed + 1,
      p1Move := NoMove,
      p2Move := NoMove);
    var roundWinner := if w == 1 then l.players[0].userId else if w == 2 then l.players[1].userId else 0;
    match CheckMatchEnd(scored)
    case Some(winner) =>
      (scored.(inGame := false, matchJustEnded := true),
       RoundReport(roundWinner, l.p1Move, l.p2Move, true, winner, scored.p1Wins, scored.p2Wins))
    case None =>
      (scored, RoundReport(roundWinner, l.p1Move, l.p2Move, false, 0, scored.p1Wins, scored.p2Wins))
  }

  /** The lobby part of submitMove: the result and the new lobby. */
  function Submit(l: Lobby, uid: int, m: MoveType): (r: (SubmitResult, Lobby))
    ensures r.0.Rejected? <==> !Accepts(l, uid)
    ensures r.0.Rejected? ==> r.1 == l
  {
    if !Accepts(l, uid) then (Rejected, l)
    else
      var placed := Place(l, uid, m);
      if RoundComplete(placed) then
        var (settled, report) := Settle(placed);
        (RoundPlayed(report), settled)
      else (Recorded, placed)
  }

  // ---------------------------------------------------------------------
  // Rematch handshake (the lobby part of requestRematch)
  // ---------------------------------------------------------------------

  /**
   * requestRematch on one lobby: None for false; otherwise the lobby with
   * the caller's flag set and nothing else changed.
   */
  function Rematch(l: Lobby, uid: int): (r: Option<Lobby>)
    ensures r.Some? <==> |l.players| == 2 && !l.inGame && l.matchJustEnded && Seated(l.players, uid)
    ensures r.Some? ==> r.value.p1Rematch == (l.p1Rematch || uid == l.players[0].userId)
    ensures r.Some? ==> r.value.p2Rematch == (l.p2Rematch || (uid == l.players[1].userId && uid != l.players[0].userId))
    ensures r.Some? ==> r.value.(p1Rematch := l.p1Rematch, p2Rematch := l.p2Rematch) == l
  {
    if |l.players| != 2 || l.inGame || !l.matchJustEnded then None
    else if uid == l.players[0].userId then Some(l.(p1Rematch := true))
    else if uid == l.players[1].userId then Some(l.(p2Rematch := true))
    else None
  }
}
