/**
 * The pure part of the session layer of src/server.cpp: the request and
 * phase enums of src/Protocol.hpp, the phase a connection is in
 * (get_phase), the legality matrix (is_request_allowed), the heartbeat
 * timing rule of heartbeat_tick, the '\n' framing of handle_client_data,
 * and the outgoing responses as abstract tags.
 */
module Sessions {
  import opened Wrappers
  import opened Moves
  import opened Lobbies

  /** RequestType of src/Protocol.hpp. */
  datatype RequestType =
    | Login | Logout | CreateLobby | JoinLobby | LeaveLobby
    | Move | Rematch | State | Pong | Invalid

  /** SessionPhase of src/Protocol.hpp. */
  datatype SessionPhase =
    | NotLoggedIn | LoggedInNoLobby | InLobby | InGame | AfterGame | InvalidPhase

  /** A parsed request line as the server consumes it. */
  datatype Request = Request(kind: RequestType, params: seq<string>, validMagic: bool)

  // ---------------------------------------------------------------------
  // get_phase and is_request_allowed
  // ---------------------------------------------------------------------

  /**
   * get_phase, given whether the connection is bound to a player and the
   * lobby (if any) that player sits in. matchJustEnded is looked at before
   * inGame.
   */
  function DerivePhase(bound: bool, lobby: Option<Lobby>): (ph: SessionPhase)
    ensures ph == NotLoggedIn <==> !bound
    ensures ph == LoggedInNoLobby <==> bound && lobby.None?
    ensures ph == AfterGame <==> bound && lobby.Some? && lobby.value.matchJustEnded
    ensures ph == InGame <==> bound && lobby.Some? && !lobby.value.matchJustEnded && lobby.value.inGame
    ensures ph == InLobby <==> bound && lobby.Some? && !lobby.value.matchJustEnded && !lobby.value.inGame
    ensures ph != InvalidPhase
  {
    if !bound then NotLoggedIn
    else match lobby
      case None => LoggedInNoLobby
      case Some(l) =>
        if l.matchJustEnded then AfterGame
        else if l.inGame then InGame
        else InLobby
  }

  /** The legality matrix of is_request_allowed, written phase by phase. */
  function IsRequestAllowed(ph: SessionPhase, t: RequestType): (ok: bool)
    ensures t == Logout || t == Pong || t == State ==> (ok <==> ph != InvalidPhase)
    ensures t == Login ==> (ok <==> ph == NotLoggedIn)
    ensures t == CreateLobby || t == JoinLobby ==> (ok <==> ph == LoggedInNoLobby)
    ensures t == Move ==> (ok <==> ph == InGame)
    ensures t == Rematch ==> (ok <==> ph == AfterGame)
    ensures t == LeaveLobby ==> (ok <==> ph == InLobby || ph == AfterGame)
    ensures t == Invalid ==> !ok
  {
    match ph
    case NotLoggedIn => t == Login || t == Logout || t == Pong || t == State
    case LoggedInNoLobby => t == Logout || t == CreateLobby || t == JoinLobby || t == Pong || t == State
    case InLobby => t == Logout || t == LeaveLobby || t == Pong || t == State
    case InGame => t == Logout || t == Move || t == Pong || t == State
    case AfterGame => t == Logout || t == LeaveLobby || t == Rematch || t == Pong || t == State
    case InvalidPhase => false
  }

  /**
   * What the gate admits, stated on the registry state the phase is
   * derived from: a request reaches its handler only if the connection's
   * player and lobby are in the state that request needs.
   */
  lemma GateAgainstLobbyState(bound: bool, lobby: Option<Lobby>)
    ensures IsRequestAllowed(DerivePhase(bound, lobby), Login) <==> !bound
    ensures IsRequestAllowed(DerivePhase(bound, lobby), CreateLobby) <==> bound && lobby.None?
    ensures IsRequestAllowed(DerivePhase(bound, lobby), Move) <==>
      bound && lobby.Some? && lobby.value.inGame && !lobby.value.matchJustEnded
    ensures IsRequestAllowed(DerivePhase(bound, lobby), Rematch) <==>
      bound && lobby.Some? && lobby.value.matchJustEnded
    ensures IsRequestAllowed(DerivePhase(bound, lobby), LeaveLobby) <==>
      bound && lobby.Some? && (lobby.value.matchJustEnded || !lobby.value.inGame)
    ensures IsRequestAllowed(DerivePhase(bound, lobby), State)
  {
  }

  /** Every phase get_phase can produce admits the three session-keeping requests. */
  lemma SessionRequestsAlwaysAllowed(bound: bool, lobby: Option<Lobby>, t: RequestType)
    requires t == Logout || t == Pong || t == State
    ensures IsRequestAllowed(DerivePhase(bound, lobby), t)
  {
  }

  // ---------------------------------------------------------------------
  // Heartbeat timing (time in integer milliseconds)
  // ---------------------------------------------------------------------

  /** PING_INTERVAL of heartbeat_tick. */
  const PingIntervalMs: int := 2000

  /** PONG_TIMEOUT of heartbeat_tick. */
  const PongTimeoutMs: int := 5000

  /** The range of nonce_dist. */
  const NonceMin: int := 100000
  const NonceMax: int := 999999

  /** A connection's heartbeat record; lastNonce is None while still empty. */
  datatype Heartbeat = Heartbeat(lastPing: int, lastPong: int, lastNonce: Option<int>)

  /** What one heartbeat_tick does with a connection. */
  datatype Beat = TimedOut | PingDue | Quiet

  /** The record accept_client installs: ponged now, pinged one interval ago. */
  function NewHeartbeat(now: int): (hb: Heartbeat)
    ensures hb.lastPong == now && now - hb.lastPing == PingIntervalMs && hb.lastNonce.None?
  {
    Heartbeat(now - PingIntervalMs, now, None)
  }

  /** The timeout test comes first; a ping is due one interval after the last. */
  function BeatOf(hb: Heartbeat, now: int): (b: Beat)
    ensures b == TimedOut <==> now - hb.lastPong > PongTimeoutMs
    ensures b == PingDue <==> now - hb.lastPong <= PongTimeoutMs && now - hb.lastPing >= PingIntervalMs
  {
    if now - hb.lastPong > PongTimeoutMs then TimedOut
    else if now - hb.lastPing >= PingIntervalMs then PingDue
    else Quiet
  }

  /** The record after a ping with this nonce is sent at now. */
  function Pinged(hb: Heartbeat, now: int, nonce: int): Heartbeat {
    hb.(lastPing := now, lastNonce := Some(nonce))
  }

  /** A new connection is pinged on the first tick that falls within the pong timeout. */
  lemma NewConnectionPingedFirst(t0: int, now: int)
    requires t0 <= now <= t0 + PongTimeoutMs
    ensures BeatOf(NewHeartbeat(t0), now) == PingDue
  {
  }

  /** After a ping at t, no further ping is due before t + PingIntervalMs. */
  lemma NoPingWithinInterval(hb: Heartbeat, t: int, nonce: int, now: int)
    requires t <= now < t + PingIntervalMs
    ensures BeatOf(Pinged(hb, t, nonce), now) != PingDue
  {
  }

  /** A pong at t keeps the connection alive until t + PongTimeoutMs. */
  lemma PongKeepsAlive(hb: Heartbeat, t: int, now: int)
    requires now <= t + PongTimeoutMs
    ensures BeatOf(hb.(lastPong := t), now) != TimedOut
  {
  }

  /** Without a pong, the connection times out once PongTimeoutMs has passed, however often it was pinged. */
  lemma SilenceTimesOut(hb: Heartbeat, now: int)
    requires now > hb.lastPong + PongTimeoutMs
    ensures BeatOf(hb, now) == TimedOut
    ensures forall t, n :: BeatOf(Pinged(hb, t, n), now) == TimedOut
  {
  }

  // ---------------------------------------------------------------------
  // Line framing of handle_client_data
  // ---------------------------------------------------------------------

  /** The position of the first '\n' in s, as buffer.find('\n'). */
  function FindNewline(s: string): (r: Option<nat>)
    ensures r.Some? ==> r.value < |s| && s[r.value] == '\n' && '\n' !in s[..r.value]
    ensures r.None? <==> '\n' !in s
  {
    if s == [] then None
    else if s[0] == '\n' then Some(0)
    else match FindNewline(s[1..])
      case None => None
      case Some(i) => Some(i + 1)
  }

  /**
   * The complete lines of a buffer, in order and without their '\n', and
   * the incomplete remainder that stays buffered.
   */
  function Frames(s: string): (r: (seq<string>, string))
    ensures '\n' !in r.1
    ensures forall i :: 0 <= i < |r.0| ==> '\n' !in r.0[i]
    ensures |r.0| == 0 <==> '\n' !in s
    decreases |s|
  {
    match FindNewline(s)
    case None => ([], s)
    case Some(pos) =>
      var (rest, tail) := Frames(s[pos + 1..]);
      ([s[..pos]] + rest, tail)
  }

  /** The lines with a '\n' after each, followed by the remainder. */
  function Unframe(lines: seq<string>, rest: string): string {
    if lines == [] then rest else lines[0] + "\n" + Unframe(lines[1..], rest)
  }

  /** Framing loses nothing: the lines and the remainder rebuild the buffer. */
  lemma {:induction false} FramesRebuild(s: string)
    ensures Unframe(Frames(s).0, Frames(s).1) == s
    decreases |s|
  {
    var r := FindNewline(s);
    if r.Some? {
      var pos := r.value;
      var tail := s[pos + 1..];
      FramesRebuild(tail);
      FrameStep(s, pos);
      var head := s[..pos];
      var f := Frames(tail);
      UnframeCons(head, f.0, f.1);
      assert Frames(s) == ([head] + f.0, f.1);
      assert Unframe(f.0, f.1) == tail;
      assert Unframe(Frames(s).0, Frames(s).1) == head + "\n" + tail;
      NewlineSplit(s, pos);
    }
  }

  lemma NewlineSplit(s: string, pos: nat)
    requires pos < |s| && s[pos] == '\n'
    ensures s == s[..pos] + "\n" + s[pos + 1..]
  {
  }

  lemma UnframeCons(line: string, lines: seq<string>, rest: string)
    ensures Unframe([line] + lines, rest) == line + "\n" + Unframe(lines, rest)
  {
    assert ([line] + lines)[1..] == lines;
  }

  /** Framing a rebuilt buffer gives back its lines and remainder. */
  lemma {:induction false} UnframeFrames(lines: seq<string>, rest: string)
    requires forall i :: 0 <= i < |lines| ==> '\n' !in lines[i]
    requires '\n' !in rest
    ensures Frames(Unframe(lines, rest)) == (lines, rest)
    decreases |lines|
  {
    if lines != [] {
      var tail := Unframe(lines[1..], rest);
      var s := lines[0] + "\n" + tail;
      assert Unframe(lines, rest) == s;
      UnframeFrames(lines[1..], rest);
      FirstNewlineAfter(lines[0], tail);
      assert s[|lines[0]| + 1..] == tail;
      assert s[..|lines[0]|] == lines[0];
      assert Frames(s) == ([lines[0]] + lines[1..], rest);
      assert [lines[0]] + lines[1..] == lines;
    }
  }

  lemma {:induction false} FirstNewlineAfter(line: string, tail: string)
    requires '\n' !in line
    ensures FindNewline(line + "\n" + tail) == Some(|line|)
    decreases |line|
  {
    if line != [] {
      assert (line + "\n" + tail)[1..] == line[1..] + "\n" + tail;
      FirstNewlineAfter(line[1..], tail);
    }
  }

  /**
   * One step of the framing loop: taking the first line off the buffer
   * leaves the rest of the frames to come.
   */
  lemma FrameStep(s: string, pos: nat)
    requires FindNewline(s) == Some(pos)
    ensures Frames(s).0 == [s[..pos]] + Frames(s[pos + 1..]).0
    ensures Frames(s).1 == Frames(s[pos + 1..]).1
  {
  }

  // ---------------------------------------------------------------------
  // Outgoing traffic as tags
  // ---------------------------------------------------------------------

  /** The responses the server sends, by the Responses function that formats them. */
  datatype Msg =
    | LoginOk(userId: int)
    | LogoutOk
    | LobbyCreated(lobbyId: int)
    | LobbyJoined(lobbyName: string)
    | LobbyLeft
    | GameStarted
    | MoveAccepted(move: string)
    | RoundResult(winner: int, p1Move: string, p2Move: string)
    | MatchResult(winner: int, p1Wins: int, p2Wins: int)
    | RematchReady
    | GameCannotContinue(reason: string)
    | StateInfo(phase: SessionPhase, playerId: Option<int>)
    | Ping(nonce: int)
    | ErrUnexpectedState
    | ErrInvalidMagic
    | ErrInvalidMove
    | ErrNotInLobby
    | ErrNotInGame
    | ErrRematchNotAllowed
    | ErrMalformedRequest
    | ErrUnknownRequest
    | Error(text: string)

  /** What the server does on a socket: send one line, or close it. */
  datatype Event = Send(fd: int, msg: Msg) | Close(fd: int)
}
