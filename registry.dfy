/**
 * The player and lobby registry of src/Game.cpp: class Game owns the
 * `players` and `lobbies` maps and the two id counters and updates them in
 * place. A Lobby* of the source is a lobby id here; the lobby value under
 * that id is replaced where the source mutates through the pointer.
 */
module Registry {
  import opened Wrappers
  import opened Moves
  import opened Lobbies
  import LobbyFacts

  class Game {
    var players: map<int, Player>
    var lobbies: map<int, Lobby>
    var nextUserId: int
    var nextLobbyId: int

    /**
     * Ids start at 1 and only grow, so 0 (the draw value) is never an id;
     * every lobby satisfies LobbyInv, is non-empty, seats only registered
     * players; and no player sits in two lobbies.
     */
    ghost predicate Valid()
      reads this
    {
      && 1 <= nextUserId && 1 <= nextLobbyId
      && (forall uid :: uid in players ==> 1 <= uid < nextUserId && players[uid].userId == uid)
      && (forall id :: id in lobbies ==>
            && 1 <= id < nextLobbyId && lobbies[id].lobbyId == id
            && 1 <= |lobbies[id].players| && LobbyInv(lobbies[id])
            && Registered(lobbies[id].players))
      && (forall uid, a, b ::
            (a in lobbies && b in lobbies && Seated(lobbies[a].players, uid) && Seated(lobbies[b].players, uid)) ==> a == b)
    }

    ghost predicate Registered(members: seq<Player>)
      reads this
    {
      forall i :: 0 <= i < |members| ==> members[i].userId in players
    }

    constructor ()
      ensures Valid()
      ensures players == map[] && lobbies == map[] && nextUserId == 1 && nextLobbyId == 1
    {
      players := map[];
      lobbies := map[];
      nextUserId := 1;
      nextLobbyId := 1;
    }

    /** The lobby seating uid, if any (unique by Valid). */
    ghost function LobbyOf(uid: int): (r: Option<int>)
      reads this
      ensures r.Some? ==> r.value in lobbies && Seated(lobbies[r.value].players, uid)
      ensures r.None? ==> forall id :: id in lobbies ==> !Seated(lobbies[id].players, uid)
    {
      if exists id :: id in lobbies && Seated(lobbies[id].players, uid) then
        Some(var id :| id in lobbies && Seated(lobbies[id].players, uid); id)
      else None
    }

    /** The lobby value seating uid, if any. */
    ghost function LobbyValueOf(uid: int): Option<Lobby>
      reads this
    {
      match LobbyOf(uid)
      case None => None
      case Some(id) => Some(lobbies[id])
    }

    /** The lobbies after leaveLobby(uid). */
    ghost function AfterLeave(uid: int): map<int, Lobby>
      reads this
    {
      match LobbyOf(uid)
      case None => lobbies
      case Some(id) =>
        match Depart(lobbies[id], uid)
        case None => lobbies - {id}
        case Some(l) => lobbies[id := l]
    }

    /** submitMove's result for (uid, m). */
    ghost function Submission(uid: int, m: MoveType): SubmitResult
      reads this
    {
      match LobbyOf(uid)
      case None => Rejected
      case Some(id) => Submit(lobbies[id], uid, m).0
    }

    /** The lobbies after submitMove(uid, m). */
    ghost function AfterSubmit(uid: int, m: MoveType): map<int, Lobby>
      reads this
    {
      match LobbyOf(uid)
      case None => lobbies
      case Some(id) => lobbies[id := Submit(lobbies[id], uid, m).1]
    }

    /** Two lobby maps with the same ids and the same members in each. */
    static ghost predicate SameMembers(a: map<int, Lobby>, b: map<int, Lobby>) {
      a.Keys == b.Keys && forall id :: id in a ==> a[id].players == b[id].players
    }

    /** leaveLobby(uid) creates no lobby and touches none that does not seat uid. */
    lemma AfterLeaveKeeps(uid: int)
      ensures AfterLeave(uid).Keys <= lobbies.Keys
      ensures forall id :: id in lobbies && !Seated(lobbies[id].players, uid) ==>
        id in AfterLeave(uid) && AfterLeave(uid)[id] == lobbies[id]
    {
      match LobbyOf(uid)
      case None =>
      case Some(k) =>
        assert Seated(lobbies[k].players, uid);
    }

    lemma LobbyOfUnique(uid: int, id: int)
      requires Valid() && id in lobbies && Seated(lobbies[id].players, uid)
      ensures LobbyOf(uid) == Some(id)
    {
    }

    /** getLobbyOf: scans the lobbies, in unspecified order, for one seating uid. */
    method GetLobbyOf(uid: int) returns (r: Option<int>)
      requires Valid()
      ensures r == LobbyOf(uid)
      ensures r.Some? <==> exists id :: id in lobbies && Seated(lobbies[id].players, uid)
    {
      var pending := lobbies.Keys;
      while pending != {}
        invariant pending <= lobbies.Keys
        invariant forall id :: id in lobbies && id !in pending ==> !Seated(lobbies[id].players, uid)
        decreases pending
      {
        var id := Pick(pending);
        var members := lobbies[id].players;
        var i := 0;
        while i < |members|
          invariant 0 <= i <= |members|
          invariant forall j :: 0 <= j < i ==> members[j].userId != uid
        {
          if members[i].userId == uid {
            LobbyOfUnique(uid, id);
            return Some(id);
          }
          i := i + 1;
        }
        pending := pending - {id};
      }
      return None;
    }

    /** addPlayer: registers the name under a fresh id; names are not checked. */
    method AddPlayer(username: string) returns (uid: int)
      requires Valid()
      modifies this
      ensures Valid()
      ensures uid == old(nextUserId) && nextUserId == uid + 1 && uid >= 1
      ensures forall u :: u in old(players) ==> u < uid
      ensures players == old(players)[uid := Player(uid, username)]
      ensures lobbies == old(lobbies) && nextLobbyId == old(nextLobbyId)
    {
      uid := nextUserId;
      nextUserId := nextUserId + 1;
      players := players[uid := Player(uid, username)];
    }

    /** removePlayer: leaves the player's lobby, then erases the player. */
    method RemovePlayer(uid: int)
      requires Valid()
      modifies this
      ensures Valid()
      ensures players == old(players) - {uid}
      ensures lobbies == old(AfterLeave(uid))
      ensures nextUserId == old(nextUserId) && nextLobbyId == old(nextLobbyId)
    {
      var lobbyOpt := GetLobbyOf(uid);
      if lobbyOpt.Some? {
        LeaveLobby(uid);
      }
      players := players - {uid};
    }

    /** createLobby: fails when the caller already sits in a lobby. */
    method CreateLobby(uid: int, lobbyName: string) returns (r: Option<int>)
      requires Valid() && uid in players
      modifies this
      ensures Valid()
      ensures r.None? <==> old(LobbyOf(uid)).Some?
      ensures r.None? ==> unchanged(this)
      ensures r.Some? ==>
        && r.value == old(nextLobbyId) && nextLobbyId == r.value + 1
        && (forall id :: id in old(lobbies) ==> id < r.value)
        && lobbies == old(lobbies)[r.value := NewLobby(r.value, lobbyName, old(players)[uid])]
        && players == old(players) && nextUserId == old(nextUserId)
      ensures r.Some? ==> LobbyOf(uid) == r
    {
      var lobbyOpt := GetLobbyOf(uid);
      if lobbyOpt.Some? {
        return None;
      }
      var id := nextLobbyId;
      nextLobbyId := nextLobbyId + 1;
      var lobby := NewLobby(id, lobbyName, players[uid]);
      lobbies := lobbies[id := lobby];
      assert lobbies[id].players[0].userId == uid;
      LobbyOfUnique(uid, id);
      return Some(id);
    }

    /**
     * joinLobby: the first lobby with that name in (unspecified) map order
     * decides; a full one refuses even if another of that name has room.
     * On success `id` is the lobby joined.
     */
    method JoinLobby(uid: int, lobbyName: string) returns (ok: bool, ghost id: int)
      requires Valid() && uid in players
      modifies this
      ensures Valid()
      ensures !ok ==> unchanged(this)
      ensures old(LobbyOf(uid)).Some? ==> !ok
      ensures (forall k :: k in old(lobbies) ==> old(lobbies)[k].name != lobbyName) ==> !ok
      ensures !ok && old(LobbyOf(uid)).None? ==>
        forall k :: k in old(lobbies) && old(lobbies)[k].name == lobbyName ==>
          exists f :: f in old(lobbies) && old(lobbies)[f].name == lobbyName && |old(lobbies)[f].players| >= MaxMembers
      ensures ok ==>
        && old(LobbyOf(uid)).None?
        && id in old(lobbies) && old(lobbies)[id].name == lobbyName
        && |old(lobbies)[id].players| < MaxMembers
        && lobbies == old(lobbies)[id := Joined(old(lobbies)[id], old(players)[uid])]
        && LobbyOf(uid) == Some(id)
      ensures players == old(players) && nextUserId == old(nextUserId) && nextLobbyId == old(nextLobbyId)
    {
      id := 0;
      var lobbyOpt := GetLobbyOf(uid);
      if lobbyOpt.Some? {
        return false, id;
      }
      var pending := lobbies.Keys;
      while pending != {}
        invariant pending <= lobbies.Keys
        invariant forall k :: k in lobbies && k !in pending ==> lobbies[k].name != lobbyName
        invariant unchanged(this)
        decreases pending
      {
        var k := Pick(pending);
        if lobbies[k].name == lobbyName {
          if |lobbies[k].players| >= MaxMembers {
            return false, id;
          }
          id := k;
          ghost var before := lobbies[k];
          lobbies := lobbies[k := Joined(lobbies[k], players[uid])];
          assert Seated(lobbies[k].players, uid) by {
            assert lobbies[k].players[|before.players|].userId == uid;
          }
          JoinKeepsValid(before, k, uid);
          LobbyOfUnique(uid, k);
          return true, id;
        }
        pending := pending - {k};
      }
      return false, id;
    }

    lemma JoinKeepsValid(before: Lobby, k: int, uid: int)
      requires uid in players && k in lobbies && lobbies[k] == Joined(before, players[uid])
      requires |before.players| < MaxMembers && LobbyInv(before) && 1 <= |before.players|
      requires forall id :: id in lobbies && id != k ==> !Seated(lobbies[id].players, uid)
      requires !Seated(before.players, uid)
      requires 1 <= nextUserId && 1 <= nextLobbyId
      requires forall u :: u in players ==> 1 <= u < nextUserId && players[u].userId == u
      requires forall id :: id in lobbies && id != k ==>
            && 1 <= id < nextLobbyId && lobbies[id].lobbyId == id
            && 1 <= |lobbies[id].players| && LobbyInv(lobbies[id])
            && Registered(lobbies[id].players)
      requires 1 <= k < nextLobbyId && before.lobbyId == k && Registered(before.players)
      requires forall u, a, b ::
            (a in lobbies && b in lobbies && a != k && b != k &&
             Seated(lobbies[a].players, u) && Seated(lobbies[b].players, u)) ==> a == b
      requires forall u, a :: a in lobbies && a != k && Seated(before.players, u) ==> !Seated(lobbies[a].players, u)
      ensures Valid()
    {
      var p := players[uid];
      assert lobbies[k].players == before.players + [p];
      forall u | Seated(lobbies[k].players, u)
        ensures Seated(before.players, u) || u == uid
      {
        var i :| 0 <= i < |lobbies[k].players| && lobbies[k].players[i].userId == u;
        if i < |before.players| {
          assert before.players[i].userId == u;
        }
      }
      assert LobbyInv(lobbies[k]) by {
        assert Distinct(lobbies[k].players) by {
          forall i, j | 0 <= i < j < |lobbies[k].players|
            ensures lobbies[k].players[i].userId != lobbies[k].players[j].userId
          {
            if j == |before.players| {
              assert before.players[i].userId == lobbies[k].players[i].userId;
            }
          }
        }
      }
    }

    /** leaveLobby: erases the member; an emptied lobby is erased, otherwise reset. */
    method LeaveLobby(uid: int)
      requires Valid()
      modifies this
      ensures Valid()
      ensures lobbies == old(AfterLeave(uid))
      ensures forall id :: id in lobbies ==> !Seated(lobbies[id].players, uid)
      ensures players == old(players) && nextUserId == old(nextUserId) && nextLobbyId == old(nextLobbyId)
    {
      var pending := lobbies.Keys;
      while pending != {}
        invariant pending <= lobbies.Keys
        invariant forall id :: id in lobbies && id !in pending ==> !Seated(lobbies[id].players, uid)
        invariant unchanged(this)
        decreases pending
      {
        var id := Pick(pending);
        var members := lobbies[id].players;
        var i := 0;
        while i < |members|
          invariant 0 <= i <= |members|
          invariant forall j :: 0 <= j < i ==> members[j].userId != uid
        {
          if members[i].userId == uid {
            LobbyOfUnique(uid, id);
            EraseSeat(id, i);
            return;
          }
          i := i + 1;
        }
        pending := pending - {id};
      }
    }

    /**
     * The erase-and-reset step of leaveLobby for the member at position i
     * of lobby id: an emptied lobby is erased, otherwise it is reset.
     */
    method EraseSeat(id: int, i: nat)
      requires Valid() && id in lobbies && i < |lobbies[id].players|
      modifies this`lobbies
      ensures Valid()
      ensures var uid := old(lobbies[id].players[i].userId);
        lobbies == match Depart(old(lobbies[id]), uid)
          case None => old(lobbies) - {id}
          case Some(l) => old(lobbies)[id := l]
      ensures forall k :: k in lobbies ==> !Seated(lobbies[k].players, old(lobbies[id].players[i].userId))
      ensures players == old(players) && nextUserId == old(nextUserId) && nextLobbyId == old(nextLobbyId)
    {
      var lobby := lobbies[id];
      var uid := lobby.players[i].userId;
      assert i == SeatOf(lobby.players, uid);
      RemoveSeatKeepsOthers(lobby.players, i);
      var rest := lobby.players[..i] + lobby.players[i + 1..];
      if |rest| == 0 {
        EraseLobby(id);
      } else {
        lobbies := lobbies[id := Reset(lobby.(players := rest))];
        LeaveKeepsValid(lobby, id, uid, i);
      }
    }

    /** The erasing half of leaveLobby: the lobby its last member left is erased. */
    method EraseLobby(id: int)
      requires Valid() && id in lobbies
      modifies this`lobbies
      ensures Valid() && lobbies == old(lobbies) - {id}
    {
      lobbies := lobbies - {id};
    }

    lemma LeaveKeepsValid(lobby: Lobby, id: int, uid: int, i: nat)
      requires i < |lobby.players| && lobby.players[i].userId == uid
      requires LobbyInv(lobby) && 1 <= id < nextLobbyId && lobby.lobbyId == id
      requires 2 <= |lobby.players|
      requires id in lobbies && lobbies[id] == Reset(lobby.(players := lobby.players[..i] + lobby.players[i + 1..]))
      requires 1 <= nextUserId && 1 <= nextLobbyId
      requires forall u :: u in players ==> 1 <= u < nextUserId && players[u].userId == u
      requires Registered(lobby.players)
      requires forall k :: k in lobbies && k != id ==>
            && 1 <= k < nextLobbyId && lobbies[k].lobbyId == k
            && 1 <= |lobbies[k].players| && LobbyInv(lobbies[k])
            && Registered(lobbies[k].players)
      requires forall u, a, b ::
            (a in lobbies && b in lobbies && a != id && b != id &&
             Seated(lobbies[a].players, u) && Seated(lobbies[b].players, u)) ==> a == b
      requires forall u, a :: a in lobbies && a != id && Seated(lobby.players, u) ==> !Seated(lobbies[a].players, u)
      ensures Valid()
    {
      var rest := lobby.players[..i] + lobby.players[i + 1..];
      RemoveSeatKeepsOthers(lobby.players, i);
      assert forall j :: 0 <= j < |rest| ==> rest[j] == if j < i then lobby.players[j] else lobby.players[j + 1];
      forall u | Seated(rest, u)
        ensures Seated(lobby.players, u)
      {
      }
    }

    /** startGame on the lobby id; an id with no lobby (a null pointer) does nothing. */
    method StartGame(id: int)
      requires Valid()
      modifies this
      ensures Valid()
      ensures lobbies == if id in old(lobbies) then old(lobbies)[id := Started(old(lobbies)[id])] else old(lobbies)
      ensures players == old(players) && nextUserId == old(nextUserId) && nextLobbyId == old(nextLobbyId)
    {
      if id !in lobbies {
        return;
      }
      var lobby := lobbies[id];
      lobby := lobby.(inGame := true, matchJustEnded := false, p1Move := NoMove, p2Move := NoMove);
      lobby := lobby.(p1Wins := 0, p2Wins := 0, roundsPlayed := 0, p1Rematch := false, p2Rematch := false);
      ghost var before := lobbies[id];
      lobbies := lobbies[id := lobby];
      assert forall u :: Seated(lobbies[id].players, u) <==> Seated(before.players, u);
    }

    /**
     * submitMove: records uid's move in its seat's slot and resolves the
     * round once both slots are filled.
     */
    method SubmitMove(uid: int, move: MoveType) returns (res: SubmitResult)
      requires Valid()
      modifies this
      ensures Valid()
      ensures res == old(Submission(uid, move))
      ensures lobbies == old(AfterSubmit(uid, move))
      ensures res.Rejected? <==> old(LobbyOf(uid)).None? || !Accepts(old(lobbies)[old(LobbyOf(uid)).value], uid)
      ensures res.Rejected? ==> unchanged(this)
      ensures SameMembers(old(lobbies), lobbies)
      ensures players == old(players) && nextUserId == old(nextUserId) && nextLobbyId == old(nextLobbyId)
    {
      var lobbyOpt := GetLobbyOf(uid);
      if lobbyOpt.None? {
        return Rejected;
      }
      var id := lobbyOpt.value;
      var lobby;
      res, lobby := PlayInLobby(lobbies[id], uid, move);
      if !res.Rejected? {
        StoreLobby(id, lobby, uid, move);
      }
    }

    /** The write-back step of SubmitMove: the played lobby is stored through the pointer. */
    method StoreLobby(id: int, lobby: Lobby, ghost uid: int, ghost move: MoveType)
      requires Valid() && id in lobbies && lobby == Submit(lobbies[id], uid, move).1
      modifies this
      ensures Valid()
      ensures lobbies == old(lobbies)[id := lobby]
      ensures SameMembers(old(lobbies), lobbies)
      ensures players == old(players) && nextUserId == old(nextUserId) && nextLobbyId == old(nextLobbyId)
    {
      ghost var before := lobbies[id];
      LobbyFacts.SubmitKeepsInvariant(before, uid, move);
      lobbies := lobbies[id := lobby];
      SubmitKeepsValid(before, id, uid, move);
    }

    /**
     * The body of submitMove once the lobby is found: the seat checks,
     * the slot update and, when both slots are filled, the round's
     * resolution, performed on one lobby value. It is the step-by-step
     * counterpart of the function Submit, which specifies it.
     */
    static method PlayInLobby(lobby: Lobby, uid: int, move: MoveType) returns (res: SubmitResult, after: Lobby)
      ensures (res, after) == Submit(lobby, uid, move)
    {
      after := lobby;
      if !after.inGame || |after.players| != 2 {
        return Rejected, lobby;
      }
      var p1Id := after.players[0].userId;
      var p2Id := after.players[1].userId;
      if uid == p1Id {
        if after.p1Move != NoMove {
          return Rejected, lobby;
        }
        after := after.(p1Move := move);
      } else if uid == p2Id {
        if after.p2Move != NoMove {
          return Rejected, lobby;
        }
        after := after.(p2Move := move);
      } else {
        return Rejected, lobby;
      }
      if after.p1Move != NoMove && after.p2Move != NoMove {
        var (settled, report) := Settle(after);
        after := settled;
        res := RoundPlayed(report);
      } else {
        res := Recorded;
      }
    }

    lemma SubmitKeepsValid(before: Lobby, id: int, uid: int, move: MoveType)
      requires id in lobbies && lobbies[id] == Submit(before, uid, move).1
      requires LobbyInv(before) && 1 <= |before.players| && Registered(before.players)
      requires 1 <= id < nextLobbyId && before.lobbyId == id
      requires 1 <= nextUserId && 1 <= nextLobbyId
      requires forall u :: u in players ==> 1 <= u < nextUserId && players[u].userId == u
      requires forall k :: k in lobbies && k != id ==>
            && 1 <= k < nextLobbyId && lobbies[k].lobbyId == k
            && 1 <= |lobbies[k].players| && LobbyInv(lobbies[k])
            && Registered(lobbies[k].players)
      requires forall u, a, b ::
            (a in lobbies && b in lobbies && a != id && b != id &&
             Seated(lobbies[a].players, u) && Seated(lobbies[b].players, u)) ==> a == b
      requires forall u, a :: a in lobbies && a != id && Seated(before.players, u) ==> !Seated(lobbies[a].players, u)
      ensures Valid()
    {
      assert lobbies[id].players == before.players;
      LobbyFacts.SubmitKeepsInvariant(before, uid, move);
    }

    /** requestRematch: sets the caller's flag in a finished two-player lobby. */
    method RequestRematch(uid: int, id: int) returns (ok: bool)
      requires Valid()
      modifies this
      ensures Valid()
      ensures ok <==> id in old(lobbies) && Rematch(old(lobbies)[id], uid).Some?
      ensures !ok ==> unchanged(this)
      ensures lobbies == if ok then old(lobbies)[id := Rematch(old(lobbies)[id], uid).value] else old(lobbies)
      ensures players == old(players) && nextUserId == old(nextUserId) && nextLobbyId == old(nextLobbyId)
    {
      if id !in lobbies {
        return false;
      }
      var lobby := lobbies[id];
      if |lobby.players| != 2 || lobby.inGame || !lobby.matchJustEnded {
        return false;
      }
      var p1Id := lobby.players[0].userId;
      var p2Id := lobby.players[1].userId;
      if uid == p1Id {
        lobby := lobby.(p1Rematch := true);
      } else if uid == p2Id {
        lobby := lobby.(p2Rematch := true);
      } else {
        assert !Seated(lobby.players, uid);
        return false;
      }
      assert Seated(lobby.players, uid);
      ghost var before := lobbies[id];
      lobbies := lobbies[id := lobby];
      assert forall u :: Seated(lobbies[id].players, u) <==> Seated(before.players, u);
      return true;
    }

    /** startRematch: the same reset as startGame. */
    method StartRematch(id: int)
      requires Valid()
      modifies this
      ensures Valid()
      ensures lobbies == if id in old(lobbies) then old(lobbies)[id := Started(old(lobbies)[id])] else old(lobbies)
      ensures players == old(players) && nextUserId == old(nextUserId) && nextLobbyId == old(nextLobbyId)
    {
      StartGame(id);
    }
  }
}
