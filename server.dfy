/**
 * The session dispatcher of src/server.cpp: class Server binds connections
 * (file descriptors) to players of the Game registry, gates each request
 * on the connection's phase, keeps a heartbeat record and an input buffer
 * per connection, and sends responses. Sockets are abstracted away: every
 * line the server sends and every socket it closes is appended to `log`.
 */
module Server {
  import opened Wrappers
  import opened Moves
  import opened Lobbies
  import opened Registry
  import opened Sessions

  /** The connection and registry state of a Server at one moment. */
  datatype Snapshot = Snapshot(
    bindings: map<int, int>,
    beats: map<int, Heartbeat>,
    buffers: map<int, string>,
    players: map<int, Player>,
    lobbies: map<int, Lobby>,
    sent: seq<Event>)

  class Server {
    const game: Game
    /** fd_to_player */
    var fdToPlayer: map<int, int>
    /** heartbeats */
    var heartbeats: map<int, Heartbeat>
    /** client_buffers */
    var clientBuffers: map<int, string>
    /** What the server has sent and closed so far, in order. */
    var log: seq<Event>

    /** No player is bound to two connections. */
    ghost predicate Injective()
      reads this`fdToPlayer
    {
      forall a, b :: a in fdToPlayer && b in fdToPlayer && fdToPlayer[a] == fdToPlayer[b] ==> a == b
    }

    /**
     * The registry is consistent, every bound connection's player is
     * registered, and each player has at most one connection (LOGIN
     * always binds a freshly added player).
     */
    ghost predicate Valid()
      reads this, game
    {
      && game.Valid()
      && (forall fd :: fd in fdToPlayer ==> fdToPlayer[fd] in game.players)
      && Injective()
    }

    constructor ()
      ensures Valid() && fresh(game)
      ensures fdToPlayer == map[] && heartbeats == map[] && clientBuffers == map[] && log == []
      ensures game.players == map[] && game.lobbies == map[]
    {
      game := new Game();
      fdToPlayer := map[];
      heartbeats := map[];
      clientBuffers := map[];
      log := [];
    }

    // -------------------------------------------------------------------
    // Specification functions
    // -------------------------------------------------------------------

    /** The connection bound to uid, if any. */
    ghost function BoundFd(uid: int): (r: Option<int>)
      reads this`fdToPlayer
      ensures r.Some? ==> r.value in fdToPlayer && fdToPlayer[r.value] == uid
      ensures r.None? ==> forall fd :: fd in fdToPlayer ==> fdToPlayer[fd] != uid
    {
      if exists fd :: fd in fdToPlayer && fdToPlayer[fd] == uid then
        Some(var fd :| fd in fdToPlayer && fdToPlayer[fd] == uid; fd)
      else None
    }

    /** get_phase(fd) on the current state. */
    ghost function Phase(fd: int): SessionPhase
      reads this`fdToPlayer, game
    {
      DerivePhase(fd in fdToPlayer, if fd in fdToPlayer then game.LobbyValueOf(fdToPlayer[fd]) else None)
    }

    /** The line one member receives in a broadcast: none when skipped or not connected. */
    ghost function Notice(uid: int, skip: Option<int>, msg: Msg): seq<Event>
      reads this`fdToPlayer
    {
      if skip == Some(uid) then []
      else match BoundFd(uid)
        case None => []
        case Some(fd) => [Send(fd, msg)]
    }

    /** A broadcast to the members, in member order, leaving out `skip`. */
    ghost function Notices(members: seq<Player>, skip: Option<int>, msg: Msg): seq<Event>
      reads this`fdToPlayer
      decreases |members|
    {
      if members == [] then []
      else Notices(members[..|members| - 1], skip, msg) + Notice(members[|members| - 1].userId, skip, msg)
    }

    /** What notify_lobby_peers_player_left sends for uid. */
    ghost function PeerNotices(uid: int, msg: Msg): seq<Event>
      reads this`fdToPlayer, game
    {
      match game.LobbyValueOf(uid)
      case None => []
      case Some(l) => Notices(l.players, Some(uid), msg)
    }

    /**
     * A broadcast reaches exactly the connected members other than the
     * skipped one, with the message, one line per member.
     */
    lemma {:induction false} NoticesReach(members: seq<Player>, skip: Option<int>, msg: Msg)
      requires Injective()
      ensures forall e :: e in Notices(members, skip, msg) ==>
        && e.Send? && e.msg == msg && e.fd in fdToPlayer
        && Seated(members, fdToPlayer[e.fd]) && skip != Some(fdToPlayer[e.fd])
      ensures forall fd :: fd in fdToPlayer && Seated(members, fdToPlayer[fd]) && skip != Some(fdToPlayer[fd]) ==>
        Send(fd, msg) in Notices(members, skip, msg)
      ensures |Notices(members, skip, msg)| <= |members|
      decreases |members|
    {
      if members != [] {
        var init := members[..|members| - 1];
        var last := members[|members| - 1];
        NoticesReach(init, skip, msg);
        var ns := Notices(members, skip, msg);
        assert ns == Notices(init, skip, msg) + Notice(last.userId, skip, msg);
        forall e | e in ns
          ensures e.Send? && e.msg == msg && e.fd in fdToPlayer
          ensures Seated(members, fdToPlayer[e.fd]) && skip != Some(fdToPlayer[e.fd])
        {
          if e in Notices(init, skip, msg) {
            var i :| 0 <= i < |init| && init[i].userId == fdToPlayer[e.fd];
            assert members[i] == init[i];
          } else {
            assert members[|members| - 1].userId == fdToPlayer[e.fd];
          }
        }
        forall fd | fd in fdToPlayer && Seated(members, fdToPlayer[fd]) && skip != Some(fdToPlayer[fd])
          ensures Send(fd, msg) in ns
        {
          var i :| 0 <= i < |members| && members[i].userId == fdToPlayer[fd];
          if i < |init| {
            assert init[i] == members[i];
            assert Send(fd, msg) in Notices(init, skip, msg);
          } else {
            assert BoundFd(last.userId) == Some(fd);
            assert Notice(last.userId, skip, msg) == [Send(fd, msg)];
          }
        }
      }
    }

    // -------------------------------------------------------------------
    // Sending
    // -------------------------------------------------------------------

    /** The inner loop of every broadcast: send to each connection bound to uid. */
    method SendToUser(uid: int, msg: Msg)
      requires Injective()
      modifies this`log
      ensures log == old(log) + Notice(uid, None, msg)
    {
      var pending := fdToPlayer.Keys;
      ghost var found: Option<int> := None;
      while pending != {}
        invariant pending <= fdToPlayer.Keys
        invariant found.None? ==> forall fd :: fd in fdToPlayer && fd !in pending ==> fdToPlayer[fd] != uid
        invariant found.Some? ==> found.value in fdToPlayer && found.value !in pending && fdToPlayer[found.value] == uid
        invariant log == old(log) + if found.Some? then [Send(found.value, msg)] else []
        decreases pending
      {
        var fd := Pick(pending);
        if fdToPlayer[fd] == uid {
          log := log + [Send(fd, msg)];
          found := Some(fd);
        }
        pending := pending - {fd};
      }
      assert found == BoundFd(uid);
    }

    /** A broadcast to one more member sends that member's line last. */
    lemma NoticesStep(members: seq<Player>, i: int, skip: Option<int>, msg: Msg)
      requires 0 <= i < |members|
      ensures Notices(members[..i + 1], skip, msg) == Notices(members[..i], skip, msg) + Notice(members[i].userId, skip, msg)
    {
      assert members[..i + 1][..i] == members[..i];
    }

    /** One member's turn of a broadcast: send unless it is the skipped user. */
    method SendUnlessSkipped(uid: int, skip: Option<int>, msg: Msg)
      requires Injective()
      modifies this`log
      ensures log == old(log) + Notice(uid, skip, msg)
    {
      if skip != Some(uid) {
        SendToUser(uid, msg);
      }
    }

    /** for (auto& p : lobby->players) { skip; send to p's connections }. */
    method SendToMembers(members: seq<Player>, skip: Option<int>, msg: Msg)
      requires Injective()
      modifies this`log
      ensures log == old(log) + Notices(members, skip, msg)
    {
      var i := 0;
      while i < |members|
        invariant 0 <= i <= |members|
        invariant log == old(log) + Notices(members[..i], skip, msg)
      {
        SendUnlessSkipped(members[i].userId, skip, msg);
        NoticesStep(members, i, skip, msg);
        i := i + 1;
      }
      assert members[..i] == members;
    }

    /** notify_lobby_peers_player_left */
    method NotifyPeersLeft(uid: int, reason: string)
      requires Valid()
      modifies this`log
      ensures log == old(log) + PeerNotices(uid, GameCannotContinue(reason))
    {
      var lobbyOpt := game.GetLobbyOf(uid);
      if lobbyOpt.None? {
        return;
      }
      SendToMembers(game.lobbies[lobbyOpt.value].players, Some(uid), GameCannotContinue(reason));
    }

    // -------------------------------------------------------------------
    // Connections
    // -------------------------------------------------------------------

    /** accept_client for the accepted fd at time now. */
    method AcceptClient(fd: int, now: int)
      modifies this`clientBuffers, this`heartbeats
      ensures clientBuffers == old(clientBuffers)[fd := ""]
      ensures heartbeats == old(heartbeats)[fd := NewHeartbeat(now)]
    {
      clientBuffers := clientBuffers[fd := ""];
      heartbeats := heartbeats[fd := NewHeartbeat(now)];
    }

    /** remove_client: closes the socket and drops its buffer and heartbeat. */
    method RemoveClient(fd: int)
      modifies this`log, this`clientBuffers, this`heartbeats
      ensures log == old(log) + [Close(fd)]
      ensures clientBuffers == old(clientBuffers) - {fd}
      ensures heartbeats == old(heartbeats) - {fd}
    {
      log := log + [Close(fd)];
      clientBuffers := clientBuffers - {fd};
      heartbeats := heartbeats - {fd};
    }

    /**
     * disconnect_fd: a bound connection's peers are told the game cannot
     * continue and its player is removed (leaving its lobby); then the
     * connection is unbound and removed.
     */
    method DisconnectFd(fd: int, reason: string)
      requires Valid()
      modifies this, game
      ensures Valid()
      ensures Disconnected(fd, reason, [])
      ensures clientBuffers == old(clientBuffers) - {fd}
      ensures fd in old(fdToPlayer) ==>
        forall id :: id in game.lobbies ==> !Seated(game.lobbies[id].players, old(fdToPlayer[fd]))
      ensures Extends(old(log), log) && |log| > 0 && log[|log| - 1] == Close(fd)
      ensures game.players.Keys <= old(game.players).Keys
      ensures game.nextUserId == old(game.nextUserId) && game.nextLobbyId == old(game.nextLobbyId)
    {
      heartbeats := heartbeats - {fd};
      if fd in fdToPlayer {
        DropPlayer(fd, reason);
      }
      RemoveClient(fd);
    }

    /**
     * What disconnect_fd(fd, reason) does, after the lines `first` were
     * sent: a bound connection's lobby peers are told the game cannot
     * continue, its player leaves the lobby and is erased; the connection
     * is unbound, its heartbeat dropped and its socket closed. An unbound
     * connection only closes.
     */
    twostate predicate Disconnected(fd: int, reason: string, first: seq<Event>)
      reads this, game
    {
      && fdToPlayer == old(fdToPlayer) - {fd}
      && heartbeats == old(heartbeats) - {fd}
      && if fd in old(fdToPlayer) then
           var uid := old(fdToPlayer[fd]);
           && log == old(log) + first + old(PeerNotices(uid, GameCannotContinue(reason))) + [Close(fd)]
           && game.players == old(game.players) - {uid}
           && game.lobbies == old(game.AfterLeave(uid))
         else log == old(log) + first + [Close(fd)] && unchanged(game)
    }

    /** The bound half of disconnect_fd: notify the peers, remove the player, unbind. */
    method DropPlayer(fd: int, reason: string)
      requires Valid() && fd in fdToPlayer
      modifies this`log, this`fdToPlayer, game
      ensures Valid()
      ensures fdToPlayer == old(fdToPlayer) - {fd}
      ensures var uid := old(fdToPlayer[fd]);
        && log == old(log) + old(PeerNotices(uid, GameCannotContinue(reason)))
        && game.players == old(game.players) - {uid}
        && game.lobbies == old(game.AfterLeave(uid))
        && forall id :: id in game.lobbies ==> !Seated(game.lobbies[id].players, uid)
      ensures game.nextUserId == old(game.nextUserId) && game.nextLobbyId == old(game.nextLobbyId)
    {
      var uid := fdToPlayer[fd];
      NotifyPeersLeft(uid, reason);
      game.RemovePlayer(uid);
      fdToPlayer := fdToPlayer - {fd};
    }

    // -------------------------------------------------------------------
    // get_phase
    // -------------------------------------------------------------------

    /** get_phase */
    method GetPhase(fd: int) returns (ph: SessionPhase)
      requires Valid()
      ensures ph == Phase(fd)
    {
      if fd !in fdToPlayer {
        return NotLoggedIn;
      }
      var uid := fdToPlayer[fd];
      var lobbyOpt := game.GetLobbyOf(uid);
      if lobbyOpt.None? {
        return LoggedInNoLobby;
      }
      var lobby := game.lobbies[lobbyOpt.value];
      if lobby.matchJustEnded {
        return AfterGame;
      }
      if lobby.inGame {
        return InGame;
      }
      return InLobby;
    }
  

    // -------------------------------------------------------------------
    // The cases of handle_request
    // -------------------------------------------------------------------

    /**
     * The effect of LOGIN: a wrong param count gets the malformed error, a
     * connection already bound the unexpected-state error, both with no
     * change; otherwise a fresh player with the given name is registered
     * and bound to the connection, which is told its id.
     */
    twostate predicate LoginDone(fd: int, params: seq<string>)
      reads this, game
    {
      && (|params| != 1 ==>
            log == old(log) + [Send(fd, ErrMalformedRequest)] && fdToPlayer == old(fdToPlayer) && unchanged(game))
      && (|params| == 1 && fd in old(fdToPlayer) ==>
            log == old(log) + [Send(fd, ErrUnexpectedState)] && fdToPlayer == old(fdToPlayer) && unchanged(game))
      && (|params| == 1 && fd !in old(fdToPlayer) ==>
            var uid := old(game.nextUserId);
            && uid !in old(game.players) && uid >= 1
            && game.players == old(game.players)[uid := Player(uid, params[0])]
            && game.lobbies == old(game.lobbies)
            && fdToPlayer == old(fdToPlayer)[fd := uid]
            && log == old(log) + [Send(fd, LoginOk(uid))])
    }

    /** LOGIN: one param, the username; binds the connection to a fresh player. */
    method DoLogin(fd: int, params: seq<string>)
      requires Valid()
      modifies this`fdToPlayer, this`log, game
      ensures Valid()
      ensures LoginDone(fd, params)
      ensures Extends(old(log), log)
    {
      if |params| != 1 {
        log := log + [Send(fd, ErrMalformedRequest)];
        return;
      }
      var username := params[0];
      if fd in fdToPlayer {
        log := log + [Send(fd, ErrUnexpectedState)];
        return;
      }
      var uid := game.AddPlayer(username);
      fdToPlayer := fdToPlayer[fd := uid];
      log := log + [Send(fd, LoginOk(uid))];
    }

    /**
     * The effect of LOGOUT: the player leaves its lobby and is erased, the
     * connection is told LOGOUT_OK, unbound, and closed; since the binding
     * is gone before disconnect_fd runs, no peer is notified.
     */
    twostate predicate LogoutDone(fd: int)
      reads this, game
    {
      && log == old(log) + [Send(fd, LogoutOk), Close(fd)]
      && fdToPlayer == old(fdToPlayer) - {fd}
      && heartbeats == old(heartbeats) - {fd}
      && (fd in old(fdToPlayer) ==>
            && game.players == old(game.players) - {old(fdToPlayer[fd])}
            && game.lobbies == old(game.AfterLeave(fdToPlayer[fd])))
      && (fd !in old(fdToPlayer) ==> unchanged(game))
    }

    /** LOGOUT: removes and unbinds the player, then disconnect_fd. */
    method DoLogout(fd: int)
      requires Valid()
      modifies this, game
      ensures Valid()
      ensures LogoutDone(fd)
      ensures Extends(old(log), log)
      ensures clientBuffers == old(clientBuffers) - {fd}
    {
      if fd in fdToPlayer {
        var uid := fdToPlayer[fd];
        game.RemovePlayer(uid);
        fdToPlayer := fdToPlayer - {fd};
      }
      log := log + [Send(fd, LogoutOk)];
      DisconnectFd(fd, "LOGOUT");
    }

    /**
     * The effect of CREATE_LOBBY on a bound connection: a wrong param
     * count, or a caller already seated, gets an error and no change;
     * otherwise a lobby with the next id, the given name and the caller
     * alone is added, and the caller is told its id.
     */
    twostate predicate CreateLobbyDone(fd: int, params: seq<string>)
      reads this, game
    {
      && fd in old(fdToPlayer)
      && var uid := old(fdToPlayer[fd]);
         && (|params| != 1 ==> log == old(log) + [Send(fd, ErrMalformedRequest)] && unchanged(game))
         && (|params| == 1 && old(game.LobbyOf(uid)).Some? ==>
               log == old(log) + [Send(fd, Error("Cannot create lobby"))] && unchanged(game))
         && (|params| == 1 && old(game.LobbyOf(uid)).None? ==>
               var id := old(game.nextLobbyId);
               && uid in old(game.players)
               && game.lobbies == old(game.lobbies)[id := NewLobby(id, params[0], old(game.players[uid]))]
               && game.players == old(game.players)
               && game.LobbyOf(uid) == Some(id)
               && log == old(log) + [Send(fd, LobbyCreated(id))])
    }

    /** CREATE_LOBBY: one param, the lobby name. */
    method DoCreateLobby(fd: int, params: seq<string>)
      requires Valid() && fd in fdToPlayer
      modifies this`log, game
      ensures Valid()
      ensures CreateLobbyDone(fd, params)
      ensures Extends(old(log), log)
    {
      if |params| != 1 {
        log := log + [Send(fd, ErrMalformedRequest)];
        return;
      }
      var uid := fdToPlayer[fd];
      var lobbyName := params[0];
      var lobbyIdOpt := game.CreateLobby(uid, lobbyName);
      if lobbyIdOpt.None? {
        log := log + [Send(fd, Error("Cannot create lobby"))];
        return;
      }
      log := log + [Send(fd, LobbyCreated(lobbyIdOpt.value))];
    }

    /**
     * The effect of JOIN_LOBBY on a bound connection, `joined` being the
     * lobby joined, if any: the caller's lobby when it had none before. A
     * wrong param count gets the malformed error.
     * The join fails, with "Join failed" and no change, when the caller is
     * already seated or the lobby of that name met first is full; it
     * succeeds whenever the caller is unseated, some lobby has that name
     * and every lobby of that name has room. On success the caller joins
     * a lobby of that name with room and is told so; then the game starts,
     * and every member is told, exactly when the lobby can start a game.
     */
    twostate predicate JoinLobbyDone(fd: int, params: seq<string>)
      reads this, game
    {
      && fd in old(fdToPlayer)
      && var uid := old(fdToPlayer[fd]);
         var joined := if |params| == 1 && old(game.LobbyOf(uid)).None? then game.LobbyOf(uid) else None;
         && (|params| != 1 ==>
               log == old(log) + [Send(fd, ErrMalformedRequest)] && unchanged(game) && joined.None?)
         && (|params| == 1 && joined.None? ==>
               log == old(log) + [Send(fd, Error("Join failed"))] && unchanged(game))
         && (|params| == 1 && old(game.LobbyOf(uid)).Some? ==> joined.None?)
         && (|params| == 1 && old(game.LobbyOf(uid)).None?
             && (exists k :: k in old(game.lobbies) && old(game.lobbies[k]).name == params[0])
             && (forall k :: k in old(game.lobbies) && old(game.lobbies[k]).name == params[0] ==>
                   |old(game.lobbies[k]).players| < MaxMembers)
             ==> joined.Some?)
         && (|params| == 1 && joined.None? && old(game.LobbyOf(uid)).None? ==>
               forall k :: k in old(game.lobbies) && old(game.lobbies[k]).name == params[0] ==>
                 exists f :: f in old(game.lobbies) && old(game.lobbies[f]).name == params[0]
                             && |old(game.lobbies[f]).players| >= MaxMembers)
         && (joined.Some? ==>
               && |params| == 1 && joined.value in old(game.lobbies) && uid in old(game.players)
               && old(game.lobbies[joined.value]).name == params[0]
               && |old(game.lobbies[joined.value]).players| < MaxMembers
               && game.players == old(game.players)
               && var id := joined.value;
                  var l := Joined(old(game.lobbies[id]), old(game.players[uid]));
                  && (CanStartGame(l) ==>
                        && game.lobbies == old(game.lobbies)[id := Started(l)]
                        && log == old(log) + [Send(fd, LobbyJoined(params[0]))] + Notices(l.players, None, GameStarted))
                  && (!CanStartGame(l) ==>
                        && game.lobbies == old(game.lobbies)[id := l]
                        && log == old(log) + [Send(fd, LobbyJoined(params[0]))]))
    }

    /** JOIN_LOBBY: one param, the lobby name. */
    method DoJoinLobby(fd: int, params: seq<string>)
      requires Valid() && fd in fdToPlayer
      modifies this`log, game
      ensures Valid()
      ensures JoinLobbyDone(fd, params)
      ensures Extends(old(log), log)
    {
      if |params| != 1 {
        log := log + [Send(fd, ErrMalformedRequest)];
        return;
      }
      var uid := fdToPlayer[fd];
      var lobbyName := params[0];
      ghost var id;
      var ok;
      ok, id := game.JoinLobby(uid, lobbyName);
      if !ok {
        log := log + [Send(fd, Error("Join failed"))];
        return;
      }
      AnnounceJoin(fd, uid, id, lobbyName);
    }

    /** The success of JOIN_LOBBY: LOBBY_JOINED to the joiner, then the game starts if it can. */
    method AnnounceJoin(fd: int, uid: int, ghost id: int, lobbyName: string)
      requires Valid() && id in game.lobbies && Seated(game.lobbies[id].players, uid)
      modifies this`log, game
      ensures Valid()
      ensures game.players == old(game.players) && game.LobbyOf(uid) == Some(id)
      ensures var l := old(game.lobbies[id]);
        && (CanStartGame(l) ==>
              && game.lobbies == old(game.lobbies)[id := Started(l)]
              && log == old(log) + [Send(fd, LobbyJoined(lobbyName))] + Notices(l.players, None, GameStarted))
        && (!CanStartGame(l) ==>
              && game.lobbies == old(game.lobbies)
              && log == old(log) + [Send(fd, LobbyJoined(lobbyName))])
    {
      log := log + [Send(fd, LobbyJoined(lobbyName))];
      game.LobbyOfUnique(uid, id);
      StartIfReady(uid);
      game.LobbyOfUnique(uid, id);
    }

    /**
     * The end of JOIN_LOBBY: the joiner's lobby starts its game, and every
     * member is told, exactly when it can start one.
     */
    method StartIfReady(uid: int)
      requires Valid() && game.LobbyOf(uid).Some?
      modifies this`log, game
      ensures Valid()
      ensures var id := old(game.LobbyOf(uid)).value;
        var l := old(game.lobbies[id]);
        && (CanStartGame(l) ==>
              game.lobbies == old(game.lobbies)[id := Started(l)] && log == old(log) + Notices(l.players, None, GameStarted))
        && (!CanStartGame(l) ==> unchanged(game) && log == old(log))
      ensures game.players == old(game.players)
      ensures Extends(old(log), log)
    {
      var lobbyOpt := game.GetLobbyOf(uid);
      if lobbyOpt.Some? && CanStartGame(game.lobbies[lobbyOpt.value]) {
        var lid := lobbyOpt.value;
        game.StartGame(lid);
        SendToMembers(game.lobbies[lid].players, None, GameStarted);
      }
    }

    /**
     * The effect of LEAVE_LOBBY on a bound connection: the caller leaves
     * its lobby and sits in none, and is told LOBBY_LEFT; the member who
     * stays is not told.
     */
    twostate predicate LeaveLobbyDone(fd: int)
      reads this, game
    {
      && fd in old(fdToPlayer)
      && var uid := old(fdToPlayer[fd]);
         && game.lobbies == old(game.AfterLeave(uid))
         && (forall id :: id in game.lobbies ==> !Seated(game.lobbies[id].players, uid))
         && game.players == old(game.players)
         && log == old(log) + [Send(fd, LobbyLeft)]
    }

    /** LEAVE_LOBBY */
    method DoLeaveLobby(fd: int)
      requires Valid() && fd in fdToPlayer
      modifies this`log, game
      ensures Valid()
      ensures LeaveLobbyDone(fd)
      ensures Extends(old(log), log)
    {
      var uid := fdToPlayer[fd];
      game.LeaveLobby(uid);
      log := log + [Send(fd, LobbyLeft)];
    }

    /** The round and match results a played move broadcasts to the lobby. */
    ghost function ResultNotices(members: seq<Player>, res: SubmitResult): seq<Event>
      reads this`fdToPlayer
    {
      match res
      case RoundPlayed(r) =>
        (if r.p1Move != NoMove && r.p2Move != NoMove
         then Notices(members, None, RoundResult(r.roundWinner, MoveToString(r.p1Move), MoveToString(r.p2Move)))
         else [])
        + if r.matchEnded then Notices(members, None, MatchResult(r.matchWinner, r.p1Wins, r.p2Wins)) else []
      case _ => []
    }

    /**
     * The announcements after an accepted move: the round result when
     * both moves of the round are known, then the match result when the
     * match ended.
     */
    method AnnounceResult(members: seq<Player>, res: SubmitResult)
      requires Injective()
      modifies this`log
      ensures log == old(log) + ResultNotices(members, res)
    {
      var p1Move := if res.RoundPlayed? then res.report.p1Move else NoMove;
      var p2Move := if res.RoundPlayed? then res.report.p2Move else NoMove;
      var matchEnded := res.RoundPlayed? && res.report.matchEnded;
      if p1Move != NoMove && p2Move != NoMove {
        SendToMembers(members, None, RoundResult(res.report.roundWinner, MoveToString(p1Move), MoveToString(p2Move)));
      }
      if matchEnded {
        SendToMembers(members, None, MatchResult(res.report.matchWinner, res.report.p1Wins, res.report.p2Wins));
      }
    }

    /**
     * The effect of MOVE on a bound connection: a wrong param count, a
     * token other than "R", "P" or "S", or a move the caller's lobby does
     * not take gets its error and changes nothing; an accepted move is
     * recorded as submitMove does and acknowledged, and a resolved round
     * is announced to the lobby, and so is the end of the match.
     */
    twostate predicate MoveDone(fd: int, params: seq<string>)
      reads this, game
    {
      && fd in old(fdToPlayer)
      && var uid := old(fdToPlayer[fd]);
         && (|params| != 1 ==> log == old(log) + [Send(fd, ErrMalformedRequest)] && unchanged(game))
         && (|params| == 1 && StringToMove(params[0]).None? ==>
               log == old(log) + [Send(fd, ErrInvalidMove)] && unchanged(game))
         && (|params| == 1 && StringToMove(params[0]).Some? ==>
               var m := StringToMove(params[0]).value;
               var res := old(game.Submission(uid, m));
               && (res.Rejected? ==> log == old(log) + [Send(fd, ErrNotInGame)] && unchanged(game))
               && (!res.Rejected? ==>
                     && old(game.LobbyValueOf(uid)).Some?
                     && game.lobbies == old(game.AfterSubmit(uid, m))
                     && game.players == old(game.players)
                     && log == old(log) + [Send(fd, MoveAccepted(params[0]))]
                                        + ResultNotices(old(game.LobbyValueOf(uid)).value.players, res)))
    }

    /** MOVE: one param, "R", "P" or "S". */
    method DoMove(fd: int, params: seq<string>)
      requires Valid() && fd in fdToPlayer
      modifies this`log, game
      ensures Valid()
      ensures MoveDone(fd, params)
      ensures Extends(old(log), log)
    {
      if |params| != 1 {
        log := log + [Send(fd, ErrMalformedRequest)];
        return;
      }
      var uid := fdToPlayer[fd];
      var mv := StringToMove(params[0]);
      if mv.None? {
        log := log + [Send(fd, ErrInvalidMove)];
        return;
      }
      ghost var seat := game.LobbyOf(uid);
      var res := game.SubmitMove(uid, mv.value);
      if res.Rejected? {
        log := log + [Send(fd, ErrNotInGame)];
        return;
      }
      game.LobbyOfUnique(uid, seat.value);
      TokenRoundTrip(params[0]);
      log := log + [Send(fd, MoveAccepted(MoveToString(mv.value)))];
      var lobbyOpt := game.GetLobbyOf(uid);
      if lobbyOpt.Some? {
        AnnounceResult(game.lobbies[lobbyOpt.value].players, res);
      }
    }

    /**
     * The effect of REMATCH on a bound connection: outside a lobby, or
     * when the lobby does not take the request, an error and no change;
     * otherwise the caller's flag is set and the caller told REMATCH_READY,
     * and once both flags are set the match restarts and every member is
     * told.
     */
    twostate predicate RematchDone(fd: int)
      reads this, game
    {
      && fd in old(fdToPlayer)
      && var uid := old(fdToPlayer[fd]);
         && game.players == old(game.players)
         && (old(game.LobbyOf(uid)).None? ==> log == old(log) + [Send(fd, ErrNotInLobby)] && unchanged(game))
         && (old(game.LobbyOf(uid)).Some? ==>
               var id := old(game.LobbyOf(uid)).value;
               var r := Lobbies.Rematch(old(game.lobbies[id]), uid);
               && (r.None? ==> log == old(log) + [Send(fd, ErrRematchNotAllowed)] && unchanged(game))
               && (r.Some? && CanStartRematch(r.value) ==>
                     && game.lobbies == old(game.lobbies)[id := Started(r.value)]
                     && log == old(log) + [Send(fd, RematchReady)] + Notices(r.value.players, None, GameStarted))
               && (r.Some? && !CanStartRematch(r.value) ==>
                     && game.lobbies == old(game.lobbies)[id := r.value]
                     && log == old(log) + [Send(fd, RematchReady)]))
    }

    /** REMATCH */
    method DoRematch(fd: int)
      requires Valid() && fd in fdToPlayer
      modifies this`log, game
      ensures Valid()
      ensures RematchDone(fd)
      ensures Extends(old(log), log)
    {
      var uid := fdToPlayer[fd];
      var lobbyOpt := game.GetLobbyOf(uid);
      if lobbyOpt.None? {
        log := log + [Send(fd, ErrNotInLobby)];
        return;
      }
      var id := lobbyOpt.value;
      var ok := game.RequestRematch(uid, id);
      if !ok {
        log := log + [Send(fd, ErrRematchNotAllowed)];
        return;
      }
      log := log + [Send(fd, RematchReady)];
      if CanStartRematch(game.lobbies[id]) {
        game.StartRematch(id);
        SendToMembers(game.lobbies[id].players, None, GameStarted);
      }
    }

    /** The effect of STATE: the phase ph, and the player id when the connection is bound; no change. */
    twostate predicate StateDone(fd: int, ph: SessionPhase)
      reads this, game
    {
      && log == old(log) + [Send(fd, StateInfo(ph, if fd in old(fdToPlayer) then Some(old(fdToPlayer[fd])) else None))]
      && unchanged(game)
    }

    /** STATE */
    method DoState(fd: int, ph: SessionPhase)
      requires Valid()
      modifies this`log
      ensures StateDone(fd, ph)
      ensures Extends(old(log), log)
    {
      var userId := -1;
      if fd in fdToPlayer {
        userId := fdToPlayer[fd];
      }
      log := log + [Send(fd, StateInfo(ph, if userId >= 0 then Some(userId) else None))];
    }

    /**
     * The effect of PONG at time now: a wrong param count gets the
     * malformed error; otherwise the nonce is not compared and the
     * connection's lastPong becomes now, with nothing sent. The game is
     * not touched.
     */
    twostate predicate PongDone(fd: int, params: seq<string>, now: int)
      reads this, game
    {
      && unchanged(game)
      && (|params| != 1 ==> log == old(log) + [Send(fd, ErrMalformedRequest)] && heartbeats == old(heartbeats))
      && (|params| == 1 ==> log == old(log))
      && (|params| == 1 && fd in old(heartbeats) ==>
            heartbeats == old(heartbeats)[fd := old(heartbeats[fd]).(lastPong := now)])
      && (|params| == 1 && fd !in old(heartbeats) ==> heartbeats == old(heartbeats))
    }

    /** PONG: one param, the nonce. */
    method DoPong(fd: int, params: seq<string>, now: int)
      modifies this`log, this`heartbeats
      ensures PongDone(fd, params, now)
      ensures Extends(old(log), log)
    {
      if |params| != 1 {
        log := log + [Send(fd, ErrMalformedRequest)];
        return;
      }
      if fd !in heartbeats {
        return;
      }
      var hb := heartbeats[fd];
      heartbeats := heartbeats[fd := hb.(lastPong := now)];
    }

    // -------------------------------------------------------------------
    // handle_request
    // -------------------------------------------------------------------

    /**
     * The effect of a request its phase ph admits: that of the handler its
     * type selects (the gate never admits Invalid).
     */
    twostate predicate Handled(fd: int, req: Request, ph: SessionPhase, now: int)
      reads this, game
    {
      match req.kind
      case Login => LoginDone(fd, req.params)
      case Logout => LogoutDone(fd)
      case CreateLobby => CreateLobbyDone(fd, req.params)
      case JoinLobby => JoinLobbyDone(fd, req.params)
      case LeaveLobby => LeaveLobbyDone(fd)
      case Move => MoveDone(fd, req.params)
      case Rematch => RematchDone(fd)
      case State => StateDone(fd, ph)
      case Pong => PongDone(fd, req.params, now)
      case Invalid => false
    }

    /**
     * The effect of handle_request: a request the connection's phase does
     * not admit is answered with ERR_UNEXPECTED_STATE and changes nothing
     * else; an admitted one has its handler's effect.
     */
    twostate predicate Answered(fd: int, req: Request, now: int)
      reads this, game
    {
      var ph := old(Phase(fd));
      if IsRequestAllowed(ph, req.kind) then Handled(fd, req, ph, now)
      else
        && log == old(log) + [Send(fd, ErrUnexpectedState)] && unchanged(game)
        && fdToPlayer == old(fdToPlayer) && heartbeats == old(heartbeats)
    }

    /** handle_request */
    method HandleRequest(fd: int, req: Request, now: int)
      requires Valid()
      modifies this, game
      ensures Valid()
      ensures Answered(fd, req, now)
      ensures req.kind == Logout ==> clientBuffers == old(clientBuffers) - {fd}
      ensures req.kind != Logout ==> clientBuffers == old(clientBuffers)
      ensures req.kind != Logout && req.kind != Login ==> fdToPlayer == old(fdToPlayer)
      ensures req.kind != Logout && req.kind != Pong ==> heartbeats == old(heartbeats)
      ensures Extends(old(log), log)
    {
      var ph := GetPhase(fd);
      if !IsRequestAllowed(ph, req.kind) {
        log := log + [Send(fd, ErrUnexpectedState)];
        return;
      }
      Dispatch(fd, req, ph, now);
    }

    /** The switch of handle_request, for a request its phase admits. */
    method Dispatch(fd: int, req: Request, ph: SessionPhase, now: int)
      requires Valid() && ph == Phase(fd) && IsRequestAllowed(ph, req.kind)
      modifies this, game
      ensures Valid()
      ensures Handled(fd, req, ph, now)
      ensures req.kind == Logout ==> clientBuffers == old(clientBuffers) - {fd}
      ensures req.kind != Logout ==> clientBuffers == old(clientBuffers)
      ensures req.kind != Logout && req.kind != Login ==> fdToPlayer == old(fdToPlayer)
      ensures req.kind != Logout && req.kind != Pong ==> heartbeats == old(heartbeats)
      ensures Extends(old(log), log)
    {
      match req.kind
      case Login =>
        DoLogin(fd, req.params);
      case Logout =>
        DoLogout(fd);
      case CreateLobby =>
        DoCreateLobby(fd, req.params);
      case JoinLobby =>
        DoJoinLobby(fd, req.params);
      case LeaveLobby =>
        DoLeaveLobby(fd);
      case Move =>
        DoMove(fd, req.params);
      case Rematch =>
        DoRematch(fd);
      case State =>
        DoState(fd, ph);
      case Pong =>
        DoPong(fd, req.params, now);
      case Invalid =>
        assert false;
    }

    // -------------------------------------------------------------------
    // heartbeat_tick
    // -------------------------------------------------------------------

    /**
     * The connections one tick at time now disconnects: those past the
     * pong timeout, and those due a ping whose send fails.
     */
    function Doomed(hbs: map<int, Heartbeat>, now: int, failing: set<int>): (doomed: set<int>)
      ensures forall fd :: fd in doomed <==>
        fd in hbs && (BeatOf(hbs[fd], now) == TimedOut || (BeatOf(hbs[fd], now) == PingDue && fd in failing))
    {
      set fd | fd in hbs && (BeatOf(hbs[fd], now) == TimedOut || (BeatOf(hbs[fd], now) == PingDue && fd in failing))
    }

    /** A record after the tick: pinged at now with a nonce in range when due, otherwise as it was. */
    ghost predicate Ticked(before: Heartbeat, after: Heartbeat, now: int) {
      if BeatOf(before, now) == PingDue then
        after.lastNonce.Some? && NonceMin <= after.lastNonce.value <= NonceMax
        && after == Pinged(before, now, after.lastNonce.value)
      else after == before
    }

    /**
     * The first loop of heartbeat_tick: every connection due a ping is
     * pinged at now with a fresh nonce (the send is not logged when it
     * fails); the doomed connections are collected.
     */
    method SendPings(now: int, failing: set<int>) returns (toDisconnect: set<int>)
      modifies this`heartbeats, this`log
      ensures toDisconnect == Doomed(old(heartbeats), now, failing)
      ensures heartbeats.Keys == old(heartbeats).Keys
      ensures forall fd :: fd in heartbeats ==> Ticked(old(heartbeats[fd]), heartbeats[fd], now)
      ensures forall fd :: fd in heartbeats && fd !in failing && BeatOf(old(heartbeats[fd]), now) == PingDue ==>
        heartbeats[fd].lastNonce.Some? && Send(fd, Ping(heartbeats[fd].lastNonce.value)) in log
      ensures Extends(old(log), log)
      ensures forall i :: |old(log)| <= i < |log| ==> PingSent(log[i], old(heartbeats), heartbeats, now, failing)
    {
      ghost var doomed := Doomed(heartbeats, now, failing);
      toDisconnect := {};
      var pending := heartbeats.Keys;
      while pending != {}
        invariant pending <= heartbeats.Keys == old(heartbeats).Keys
        invariant forall fd :: fd in pending ==> heartbeats[fd] == old(heartbeats[fd])
        invariant forall fd :: fd in heartbeats && fd !in pending ==> Ticked(old(heartbeats[fd]), heartbeats[fd], now)
        invariant forall fd :: fd in heartbeats && fd !in pending && fd !in failing && BeatOf(old(heartbeats[fd]), now) == PingDue ==>
          heartbeats[fd].lastNonce.Some? && Send(fd, Ping(heartbeats[fd].lastNonce.value)) in log
        invariant toDisconnect == doomed - pending
        invariant Extends(old(log), log)
        invariant forall i :: |old(log)| <= i < |log| ==>
          log[i].fd !in pending && PingSent(log[i], old(heartbeats), heartbeats, now, failing)
        decreases pending
      {
        var fd := Pick(pending);
        var hb := heartbeats[fd];
        if now - hb.lastPong > PongTimeoutMs {
          toDisconnect := toDisconnect + {fd};
        } else if now - hb.lastPing >= PingIntervalMs {
          var nonce :| NonceMin <= nonce <= NonceMax;
          heartbeats := heartbeats[fd := Pinged(hb, now, nonce)];
          if fd in failing {
            toDisconnect := toDisconnect + {fd};
          } else {
            log := log + [Send(fd, Ping(nonce))];
          }
        }
        pending := pending - {fd};
      }
    }

    /**
     * A line the ping loop sends: a ping to a connection due one whose
     * send does not fail, carrying the nonce its record now holds.
     */
    static ghost predicate PingSent(e: Event, before: map<int, Heartbeat>, after: map<int, Heartbeat>, now: int, failing: set<int>) {
      && e.Send? && e.fd in before && e.fd in after && e.fd !in failing
      && BeatOf(before[e.fd], now) == PingDue
      && after[e.fd].lastNonce.Some? && e.msg == Ping(after[e.fd].lastNonce.value)
    }

    /** b starts with a: nothing sent before is lost. */
    static ghost predicate Extends(a: seq<Event>, b: seq<Event>) {
      |a| <= |b| && b[..|a|] == a
    }

    static lemma AppendExtends(a: seq<Event>, b: seq<Event>)
      ensures Extends(a, a + b)
    {
      assert (a + b)[..|a|] == a;
    }

    static lemma ExtendsTrans(a: seq<Event>, b: seq<Event>, c: seq<Event>)
      requires Extends(a, b) && Extends(b, c)
      ensures Extends(a, c) && forall e :: e in b ==> e in c
    {
      assert c[..|a|] == c[..|b|][..|a|];
      forall e | e in b
        ensures e in c
      {
        var k :| 0 <= k < |b| && b[k] == e;
        assert c[k] == e;
      }
    }

    static lemma RemoveMore<V>(m: map<int, V>, done: set<int>, fd: int)
      ensures (m - done) - {fd} == m - (done + {fd})
    {
    }

    /** The players the bindings m give to the connections fds. */
    static ghost function BoundPlayers(m: map<int, int>, fds: set<int>): set<int> {
      set fd | fd in fds && fd in m :: m[fd]
    }

    static lemma BoundPlayersStep(m: map<int, int>, done: set<int>, fd: int)
      requires fd !in done
      ensures BoundPlayers(m, done + {fd}) == BoundPlayers(m, done) + BoundPlayers(m - done, {fd})
    {
      var l := BoundPlayers(m, done + {fd});
      var r := BoundPlayers(m, done) + BoundPlayers(m - done, {fd});
      forall u | u in l ensures u in r {
        var f :| f in done + {fd} && f in m && m[f] == u;
        if f == fd {
          assert fd in m - done;
        }
      }
    }

    /**
     * What disconnecting the players `gone` leaves of the lobbies: no new
     * lobby, and every lobby seating none of them exactly as it was.
     */
    static ghost predicate KeptLobbies(before: map<int, Lobby>, after: map<int, Lobby>, gone: set<int>) {
      && after.Keys <= before.Keys
      && forall id :: id in before && (forall u :: u in gone ==> !Seated(before[id].players, u)) ==>
           id in after && after[id] == before[id]
    }

    static lemma KeptLobbiesTrans(a: map<int, Lobby>, b: map<int, Lobby>, c: map<int, Lobby>, g1: set<int>, g2: set<int>)
      requires KeptLobbies(a, b, g1) && KeptLobbies(b, c, g2)
      ensures KeptLobbies(a, c, g1 + g2)
    {
      forall id | id in a && (forall u :: u in g1 + g2 ==> !Seated(a[id].players, u))
        ensures id in c && c[id] == a[id]
      {
        assert id in b && b[id] == a[id];
      }
    }

    /** A line disconnect_fd(_, reason) produces for one of fds: its close, or a peer's notice. */
    static ghost predicate DropEvent(e: Event, fds: set<int>, reason: string) {
      (e.Close? && e.fd in fds) || (e.Send? && e.msg == GameCannotContinue(reason))
    }

    /** b extends a with disconnect lines for fds only. */
    static ghost predicate DropEvents(a: seq<Event>, b: seq<Event>, fds: set<int>, reason: string) {
      Extends(a, b) && forall i :: |a| <= i < |b| ==> DropEvent(b[i], fds, reason)
    }

    static lemma DropEventsTrans(a: seq<Event>, b: seq<Event>, c: seq<Event>, fds: set<int>, fd: int, reason: string)
      requires DropEvents(a, b, fds, reason) && DropEvents(b, c, {fd}, reason) && fd in fds
      ensures DropEvents(a, c, fds, reason)
    {
      ExtendsTrans(a, b, c);
      forall i | |a| <= i < |c|
        ensures DropEvent(c[i], fds, reason)
      {
        if i < |b| {
          assert c[i] == c[..|b|][i];
        }
      }
    }

    /**
     * disconnect_fd as the heartbeat loop needs it: the connection is gone,
     * its player too, and no lobby but the player's is touched.
     */
    method DisconnectOne(fd: int, reason: string)
      requires Valid()
      modifies this, game
      ensures Valid()
      ensures heartbeats == old(heartbeats) - {fd}
      ensures fdToPlayer == old(fdToPlayer) - {fd}
      ensures clientBuffers == old(clientBuffers) - {fd}
      ensures fd in old(fdToPlayer) ==> game.lobbies == old(game.AfterLeave(fdToPlayer[fd]))
      ensures fd !in old(fdToPlayer) ==> unchanged(game)
      ensures game.players == old(game.players) - BoundPlayers(old(fdToPlayer), {fd})
      ensures KeptLobbies(old(game.lobbies), game.lobbies, BoundPlayers(old(fdToPlayer), {fd}))
      ensures game.nextUserId == old(game.nextUserId) && game.nextLobbyId == old(game.nextLobbyId)
      ensures DropEvents(old(log), log, {fd}, reason) && Close(fd) in log
    {
      ghost var gone := BoundPlayers(fdToPlayer, {fd});
      if fd in fdToPlayer {
        var uid := fdToPlayer[fd];
        assert gone == {uid};
        game.AfterLeaveKeeps(uid);
        match game.LobbyValueOf(uid)
        case Some(l) => NoticesReach(l.players, Some(uid), GameCannotContinue(reason));
        case None =>
      } else {
        assert gone == {};
      }
      DisconnectFd(fd, reason);
      assert log[|log| - 1] in log;
    }

    /** The connection and registry state a disconnect loop starts from. */
    ghost function Snap(): Snapshot
      reads this, game
    {
      Snapshot(fdToPlayer, heartbeats, clientBuffers, game.players, game.lobbies, log)
    }

    /**
     * The state after the connections `done`, out of `fds`, were
     * disconnected, in some order, starting from s0.
     */
    ghost predicate DroppedFrom(s0: Snapshot, fds: set<int>, done: set<int>, reason: string)
      reads this, game
    {
      && heartbeats == s0.beats - done
      && fdToPlayer == s0.bindings - done
      && clientBuffers == s0.buffers - done
      && game.players == s0.players - BoundPlayers(s0.bindings, done)
      && KeptLobbies(s0.lobbies, game.lobbies, BoundPlayers(s0.bindings, done))
      && (forall fd :: fd in done ==> Close(fd) in log)
      && DropEvents(s0.sent, log, fds, reason)
    }

    /** One turn of the disconnect loop: one more of fds is disconnected. */
    method DisconnectNext(fd: int, reason: string, ghost s0: Snapshot, ghost fds: set<int>, ghost done: set<int>)
      requires Valid() && DroppedFrom(s0, fds, done, reason) && fd in fds && fd !in done
      modifies this, game
      ensures Valid() && DroppedFrom(s0, fds, done + {fd}, reason)
      ensures fd !in old(fdToPlayer) ==> unchanged(game)
      ensures game.nextUserId == old(game.nextUserId) && game.nextLobbyId == old(game.nextLobbyId)
    {
      ghost var before := log;
      ghost var lobbiesBefore := game.lobbies;
      DisconnectOne(fd, reason);
      RemoveMore(s0.beats, done, fd);
      RemoveMore(s0.bindings, done, fd);
      RemoveMore(s0.buffers, done, fd);
      BoundPlayersStep(s0.bindings, done, fd);
      KeptLobbiesTrans(s0.lobbies, lobbiesBefore, game.lobbies,
        BoundPlayers(s0.bindings, done), BoundPlayers(s0.bindings - done, {fd}));
      DropEventsTrans(s0.sent, before, log, fds, fd, reason);
    }

    /** The second loop of heartbeat_tick: disconnect_fd for each collected connection. */
    method DisconnectAll(fds: set<int>, reason: string)
      requires Valid()
      modifies this, game
      ensures Valid()
      ensures heartbeats == old(heartbeats) - fds
      ensures fdToPlayer == old(fdToPlayer) - fds
      ensures clientBuffers == old(clientBuffers) - fds
      ensures forall fd :: fd in fds ==> Close(fd) in log
      ensures game.players == old(game.players) - BoundPlayers(old(fdToPlayer), fds)
      ensures KeptLobbies(old(game.lobbies), game.lobbies, BoundPlayers(old(fdToPlayer), fds))
      ensures BoundPlayers(old(fdToPlayer), fds) == {} ==> unchanged(game)
      ensures DropEvents(old(log), log, fds, reason)
    {
      ghost var s0 := Snap();
      ghost var done: set<int> := {};
      assert s0.players - BoundPlayers(s0.bindings, {}) == s0.players;
      var rest := fds;
      while rest != {}
        invariant Valid()
        invariant done + rest == fds && done !! rest
        invariant DroppedFrom(s0, fds, done, reason)
        invariant game.nextUserId == old(game.nextUserId) && game.nextLobbyId == old(game.nextLobbyId)
        invariant BoundPlayers(old(fdToPlayer), done) == {} ==> unchanged(game)
        decreases rest
      {
        var fd := Pick(rest);
        BoundPlayersStep(s0.bindings, done, fd);
        DisconnectNext(fd, reason, s0, fds, done);
        rest := rest - {fd};
        done := done + {fd};
      }
    }

    /**
     * heartbeat_tick at time now. `failing` are the connections on which
     * sending a ping fails. Every connection due a ping is pinged with a
     * fresh nonce; the doomed connections are then disconnected with
     * reason "TIMEOUT": their players leave their lobbies and are erased,
     * and no other player or lobby changes; the others keep their ticked
     * records.
     */
    method HeartbeatTick(now: int, failing: set<int>)
      requires Valid()
      modifies this, game
      ensures Valid()
      ensures var doomed := old(Doomed(heartbeats, now, failing));
        && heartbeats.Keys == old(heartbeats).Keys - doomed
        && fdToPlayer == old(fdToPlayer) - doomed
        && clientBuffers == old(clientBuffers) - doomed
        && (forall fd :: fd in doomed ==> Close(fd) in log)
      ensures var gone := BoundPlayers(old(fdToPlayer), old(Doomed(heartbeats, now, failing)));
        && game.players == old(game.players) - gone
        && KeptLobbies(old(game.lobbies), game.lobbies, gone)
        && (gone == {} ==> unchanged(game))
      ensures forall fd :: fd in heartbeats ==> fd in old(heartbeats) && Ticked(old(heartbeats[fd]), heartbeats[fd], now)
      ensures forall fd :: fd in heartbeats && fd in old(heartbeats) && BeatOf(old(heartbeats[fd]), now) == PingDue ==>
        heartbeats[fd].lastNonce.Some? && Send(fd, Ping(heartbeats[fd].lastNonce.value)) in log
      ensures Extends(old(log), log)
      ensures forall i :: |old(log)| <= i < |log| ==>
        (log[i].Send? && log[i].msg.Ping?) || DropEvent(log[i], old(Doomed(heartbeats, now, failing)), "TIMEOUT")
    {
      var toDisconnect := SendPings(now, failing);
      ghost var pinged := log;
      DisconnectAll(toDisconnect, "TIMEOUT");
      ExtendsTrans(old(log), pinged, log);
      forall i | |old(log)| <= i < |pinged|
        ensures log[i].Send? && log[i].msg.Ping?
      {
        assert log[i] == log[..|pinged|][i];
        assert PingSent(pinged[i], old(heartbeats), heartbeats, now, failing);
      }
    }

    // -------------------------------------------------------------------
    // handle_client_data
    // -------------------------------------------------------------------

    /**
     * One step of the framing loop: takes the first complete line, if
     * any, off fd's buffer.
     */
    method NextLine(fd: int) returns (line: Option<string>)
      requires fd in clientBuffers
      modifies this`clientBuffers
      ensures fd in clientBuffers && clientBuffers.Keys == old(clientBuffers).Keys
      ensures line.None? ==> clientBuffers == old(clientBuffers) && Frames(clientBuffers[fd]).0 == []
      ensures line.Some? ==>
        && |clientBuffers[fd]| < |old(clientBuffers[fd])|
        && Frames(old(clientBuffers[fd])).0 == [line.value] + Frames(clientBuffers[fd]).0
        && Frames(old(clientBuffers[fd])).1 == Frames(clientBuffers[fd]).1
        && clientBuffers == old(clientBuffers)[fd := clientBuffers[fd]]
    {
      var cur := clientBuffers[fd];
      var pos := FindNewline(cur);
      if pos.None? {
        return None;
      }
      FrameStep(cur, pos.value);
      clientBuffers := clientBuffers[fd := cur[pos.value + 1..]];
      return Some(cur[..pos.value]);
    }

    /**
     * handle_client_data for the bytes `chunk` received on fd, with
     * `parse` as the line parser; an empty chunk stands for a closed or
     * failed receive. The chunk is appended to the connection's buffer
     * and each complete line is parsed and handled in order; a line
     * without the magic is answered with ERR_INVALID_MAGIC and the
     * connection is dropped. `handled` are the lines taken off the buffer.
     */
    method HandleClientData(fd: int, chunk: string, parse: string -> Request, now: int)
      returns (ghost handled: seq<string>)
      requires Valid()
      modifies this, game
      ensures Valid()
      ensures chunk == [] ==>
        handled == [] && Disconnected(fd, "DISCONNECTED", []) && clientBuffers == old(clientBuffers) - {fd}
      ensures chunk != [] ==>
        var all := Frames((if fd in old(clientBuffers) then old(clientBuffers[fd]) else "") + chunk);
        Drained(all, handled, fd, parse)
      ensures Extends(old(log), log)
    {
      handled := [];
      if chunk == [] {
        DisconnectFd(fd, "DISCONNECTED");
        return;
      }
      var buffer := (if fd in clientBuffers then clientBuffers[fd] else "") + chunk;
      clientBuffers := clientBuffers[fd := buffer];
      handled := DrainLines(fd, parse, now);
    }

    /** A request after which the line loop stops: no magic, or LOGOUT. */
    ghost predicate Stops(r: Request) {
      !r.validMagic || r.kind == Logout
    }

    /** None of the first n lines stops the line loop. */
    ghost predicate Kept(lines: seq<string>, n: int, parse: string -> Request) {
      forall i :: 0 <= i < n && i < |lines| ==> !Stops(parse(lines[i]))
    }

    /**
     * What draining a buffer whose frames are `all` achieves: the handled
     * lines are the first complete lines, and none but the last stops the
     * loop; while the connection stays open every complete line was
     * handled and the remainder stays buffered; it closes only on a last
     * line without the magic or with LOGOUT.
     */
    ghost predicate Drained(all: (seq<string>, string), handled: seq<string>, fd: int, parse: string -> Request)
      reads this`clientBuffers
    {
      && |handled| <= |all.0| && handled == all.0[..|handled|]
      && (fd in clientBuffers ==> handled == all.0 && clientBuffers[fd] == all.1 && Kept(handled, |handled|, parse))
      && (fd !in clientBuffers ==>
            |handled| >= 1 && Kept(handled, |handled| - 1, parse) && Stops(parse(handled[|handled| - 1])))
    }

    /** The line loop of handle_client_data over fd's buffer. */
    method DrainLines(fd: int, parse: string -> Request, now: int) returns (ghost handled: seq<string>)
      requires Valid() && fd in clientBuffers
      modifies this, game
      ensures Valid()
      ensures Drained(old(Frames(clientBuffers[fd])), handled, fd, parse)
      ensures Extends(old(log), log)
    {
      ghost var all := Frames(clientBuffers[fd]);
      ghost var remaining := all.0;
      handled := [];
      while fd in clientBuffers
        invariant Valid()
        invariant handled + remaining == all.0
        invariant fd in clientBuffers ==> Frames(clientBuffers[fd]) == (remaining, all.1) && Kept(handled, |handled|, parse)
        invariant Extends(old(log), log)
        invariant fd !in clientBuffers ==>
          |handled| >= 1 && Kept(handled, |handled| - 1, parse) && Stops(parse(handled[|handled| - 1]))
        decreases if fd in clientBuffers then |clientBuffers[fd]| + 1 else 0
      {
        var line := NextLine(fd);
        if line.None? {
          break;
        }
        ShiftLine(handled, remaining, all.0);
        handled := handled + [line.value];
        remaining := remaining[1..];
        ghost var sent := log;
        HandleInLoop(fd, parse(line.value), now);
        ExtendsTrans(old(log), sent, log);
      }
      assert handled == all.0[..|handled|];
      if fd in clientBuffers {
        assert '\n' !in clientBuffers[fd];
      }
    }

    /** Moving the first remaining line to the handled ones keeps their concatenation. */
    static lemma ShiftLine(handled: seq<string>, remaining: seq<string>, all: seq<string>)
      requires handled + remaining == all && |remaining| >= 1
      ensures (handled + [remaining[0]]) + remaining[1..] == all
    {
      assert remaining == [remaining[0]] + remaining[1..];
    }

    /**
     * HandleLine as the line loop sees it: whether the connection's buffer
     * survives, and that nothing already sent is lost.
     */
    method HandleInLoop(fd: int, req: Request, now: int)
      requires Valid()
      modifies this, game
      ensures Valid()
      ensures clientBuffers == if Stops(req) then old(clientBuffers) - {fd} else old(clientBuffers)
      ensures Extends(old(log), log)
    {
      HandleLine(fd, req, now);
    }

    /**
     * The handling of one complete line: a request without the magic is
     * answered with ERR_INVALID_MAGIC and the connection dropped;
     * otherwise the request is handled. The connection's buffer survives
     * exactly when the request does not stop the line loop.
     */
    method HandleLine(fd: int, req: Request, now: int)
      requires Valid()
      modifies this, game
      ensures Valid()
      ensures !req.validMagic ==> Disconnected(fd, "INVALID_MAGIC", [Send(fd, ErrInvalidMagic)])
      ensures req.validMagic ==> Answered(fd, req, now)
      ensures clientBuffers == if Stops(req) then old(clientBuffers) - {fd} else old(clientBuffers)
      ensures Extends(old(log), log)
    {
      if !req.validMagic {
        log := log + [Send(fd, ErrInvalidMagic)];
        ghost var sent := log;
        DisconnectFd(fd, "INVALID_MAGIC");
        ExtendsTrans(old(log), sent, log);
        return;
      }
      HandleRequest(fd, req, now);
    }
  }
}
