/** The server's two registries: the mediasoup workers handed out round
    robin, and the room list the socket handlers `createRoom`, `removeRoom`,
    `join` and `exitRoom` maintain. A room is reduced to the worker it was
    given and the socket ids of its peers; each socket remembers the room
    it joined. */
module Server {
  import opened Wrappers

  // ---------------------------------------------------------------------
  // Round-robin worker selection
  // ---------------------------------------------------------------------

  /** `getMediasoupWorker()`: the worker at the index (`undefined` past the
      end of the list), then the index moves on by one and wraps to 0 when
      it reaches the length of the list. */
  function GetWorker<W>(workers: seq<W>, idx: nat): (r: (Option<W>, nat))
    ensures idx < |workers| ==> r.0 == Some(workers[idx])
    ensures idx >= |workers| ==> r.0 == None
    ensures idx < |workers| ==> r.1 == (idx + 1) % |workers|
  {
    var worker := if idx < |workers| then Some(workers[idx]) else None;
    var next := if idx + 1 == |workers| then 0 else idx + 1;
    (worker, next)
  }

  /** The workers `n` consecutive selections return, and the index after
      them. */
  function Picks<W>(workers: seq<W>, idx: nat, n: nat): (seq<Option<W>>, nat)
    decreases n
  {
    if n == 0 then ([], idx)
    else
      var (w, next) := GetWorker(workers, idx);
      var (rest, last) := Picks(workers, next, n - 1);
      ([w] + rest, last)
  }

  /** A position up to one lap past the end of a list, wrapped back into
      it. */
  function Wrap(j: nat, len: nat): (k: nat)
    requires j < 2 * len
    ensures k < len && (k == j || k == j - len)
  {
    if j < len then j else j - len
  }

  /** Starting inside the list, the `i`-th of `n` selections (at most one
      round) returns the worker `i` places further on, cyclically, and the
      index ends `n` places further on. */
  lemma {:induction false} PicksRotate<W>(workers: seq<W>, idx: nat, n: nat)
    requires idx < |workers| && n <= |workers|
    ensures |Picks(workers, idx, n).0| == n
    ensures forall i :: 0 <= i < n ==> Picks(workers, idx, n).0[i] == Some(workers[Wrap(idx + i, |workers|)])
    ensures Picks(workers, idx, n).1 == Wrap(idx + n, |workers|)
    decreases n
  {
    if n > 0 {
      var next := Wrap(idx + 1, |workers|);
      assert GetWorker(workers, idx) == (Some(workers[idx]), next);
      PicksRotate(workers, next, n - 1);
      var p := Picks(workers, idx, n).0;
      forall i | 1 <= i < n
        ensures p[i] == Some(workers[Wrap(idx + i, |workers|)])
      {
        assert p[i] == Picks(workers, next, n - 1).0[i - 1];
      }
    }
  }

  /** A full round from a valid index returns every worker exactly once,
      in list order starting at the index, and comes back to the index. */
  lemma FullRound<W>(workers: seq<W>, idx: nat)
    requires idx < |workers|
    ensures Picks(workers, idx, |workers|).0 ==
            seq(|workers| - idx, i requires 0 <= i < |workers| - idx => Some(workers[idx + i])) +
            seq(idx, i requires 0 <= i < idx => Some(workers[i]))
    ensures Picks(workers, idx, |workers|).1 == idx
  {
    PicksRotate(workers, idx, |workers|);
  }

  // ---------------------------------------------------------------------
  // The room list
  // ---------------------------------------------------------------------

  datatype WorkerHandle = WorkerHandle(pid: nat)

  /** A room: the worker it was created on (`undefined` when none was
      available) and the socket ids of its peers. */
  datatype Room = Room(worker: Option<WorkerHandle>, peers: set<string>)

  /** The registries and each socket's `room_id` (`None` when the socket is
      in no room). */
  datatype State = State(rooms: map<string, Room>, socketRoom: map<string, Option<string>>,
                         workers: seq<WorkerHandle>, nextWorker: nat)
  {
    /** The room a socket last joined. */
    function RoomOf(socket: string): Option<string>
    {
      if socket in socketRoom then socketRoom[socket] else None
    }
  }

  /** What the handler hands to the client's callback. */
  datatype Reply = Message(text: string) | ErrorMessage(error: string) | RoomView(roomId: string)

  /** Every socket that names a room is a peer of that room, and so that
      room exists. */
  predicate SocketsInRooms(s: State)
  {
    forall socket :: socket in s.socketRoom && s.socketRoom[socket].Some? ==>
      s.socketRoom[socket].value in s.rooms && socket in s.rooms[s.socketRoom[socket].value].peers
  }

  /** The worker index stays within a non-empty worker list. */
  predicate WorkerIndexValid(s: State)
  {
    |s.workers| > 0 ==> s.nextWorker < |s.workers|
  }

  /** `createRoom`: an existing id is answered with `already exists`;
      otherwise a room with no peers is added on the next worker and its id
      is the reply. */
  function CreateRoom(s: State, roomId: string): (r: (State, Reply))
    ensures roomId in s.rooms ==> r == (s, Message("already exists"))
    ensures roomId !in s.rooms ==>
              && r.0.rooms.Keys == s.rooms.Keys + {roomId}
              && r.0.rooms[roomId].peers == {}
              && (forall id :: id in s.rooms ==> r.0.rooms[id] == s.rooms[id])
              && r.0.socketRoom == s.socketRoom && r.0.workers == s.workers
              && r.1 == Message(roomId)
    ensures roomId !in s.rooms && s.nextWorker < |s.workers| ==>
              r.0.rooms[roomId].worker == Some(s.workers[s.nextWorker])
    ensures roomId !in s.rooms ==>
              r.0.rooms[roomId].worker == GetWorker(s.workers, s.nextWorker).0
              && r.0.nextWorker == GetWorker(s.workers, s.nextWorker).1
    ensures SocketsInRooms(s) ==> SocketsInRooms(r.0)
    ensures WorkerIndexValid(s) ==> WorkerIndexValid(r.0)
  {
    if roomId in s.rooms then (s, Message("already exists"))
    else
      var (worker, next) := GetWorker(s.workers, s.nextWorker);
      (s.(rooms := s.rooms[roomId := Room(worker, {})], nextWorker := next), Message(roomId))
  }

  /** `removeRoom`: replies whether the room exists, and removes nothing. */
  function RemoveRoom(s: State, roomId: string): (r: (State, Reply))
    ensures r.0 == s
    ensures r.1 == Message(if roomId in s.rooms then "The room removed" else "Room does not exist")
  {
    if roomId !in s.rooms then (s, Message("Room does not exist"))
    else (s, Message("The room removed"))
  }

  /** `join`: an unknown room is an error and changes nothing; otherwise the
      socket becomes a peer of the room and remembers it. */
  function Join(s: State, socket: string, roomId: string): (r: (State, Reply))
    ensures roomId !in s.rooms ==> r == (s, ErrorMessage("Room does not exist"))
    ensures roomId in s.rooms ==>
              && r.0.rooms.Keys == s.rooms.Keys
              && r.0.rooms[roomId].peers == s.rooms[roomId].peers + {socket}
              && r.0.rooms[roomId].worker == s.rooms[roomId].worker
              && (forall id :: id in s.rooms && id != roomId ==> r.0.rooms[id] == s.rooms[id])
              && r.0.RoomOf(socket) == Some(roomId)
              && r.1 == RoomView(roomId)
    ensures forall o :: o != socket ==> r.0.RoomOf(o) == s.RoomOf(o)
    ensures r.0.workers == s.workers && r.0.nextWorker == s.nextWorker
    ensures SocketsInRooms(s) ==> SocketsInRooms(r.0)
  {
    if roomId !in s.rooms then (s, ErrorMessage("Room does not exist"))
    else
      var room := s.rooms[roomId];
      (s.(rooms := s.rooms[roomId := room.(peers := room.peers + {socket})],
          socketRoom := s.socketRoom[socket := Some(roomId)]),
       RoomView(roomId))
  }

  /** `exitRoom`: a socket in no existing room gets an error and nothing
      changes; otherwise it leaves the room, the room is deleted exactly
      when no peer remains, and the socket forgets it. */
  function ExitRoom(s: State, socket: string): (r: (State, Reply))
    ensures (s.RoomOf(socket).None? || s.RoomOf(socket).value !in s.rooms) ==>
              r == (s, ErrorMessage("not currently in a room"))
    ensures s.RoomOf(socket).Some? && s.RoomOf(socket).value in s.rooms ==>
              var id := s.RoomOf(socket).value;
              var left := s.rooms[id].peers - {socket};
              && (id in r.0.rooms <==> left != {})
              && (id in r.0.rooms ==> r.0.rooms[id] == s.rooms[id].(peers := left))
              && r.0.rooms.Keys == (if left == {} then s.rooms.Keys - {id} else s.rooms.Keys)
              && (forall other :: other in s.rooms && other != id ==> r.0.rooms[other] == s.rooms[other])
              && r.0.RoomOf(socket).None?
              && r.1 == Message("successfully exited room")
    ensures forall o :: o != socket ==> r.0.RoomOf(o) == s.RoomOf(o)
    ensures r.0.workers == s.workers && r.0.nextWorker == s.nextWorker
    ensures SocketsInRooms(s) ==> SocketsInRooms(r.0)
  {
    match s.RoomOf(socket)
    case None => (s, ErrorMessage("not currently in a room"))
    case Some(id) =>
      if id !in s.rooms then (s, ErrorMessage("not currently in a room"))
      else
        var left := s.rooms[id].peers - {socket};
        var rooms := if left == {} then s.rooms - {id} else s.rooms[id := s.rooms[id].(peers := left)];
        var sockets := if socket in s.socketRoom then s.socketRoom[socket := None] else s.socketRoom;
        var r := State(rooms, sockets, s.workers, s.nextWorker);
        assert SocketsInRooms(s) ==> SocketsInRooms(r) by {
          if SocketsInRooms(s) {
            forall other | other in r.socketRoom && r.socketRoom[other].Some?
              ensures r.socketRoom[other].value in r.rooms && other in r.rooms[r.socketRoom[other].value].peers
            {
              assert other != socket;
              assert r.socketRoom[other] == s.socketRoom[other];
              if s.socketRoom[other].value == id {
                assert other in left;
              }
            }
          }
        }
        (r, Message("successfully exited room"))
  }

  /** A socket that joins a room it is not a peer of and then leaves it
      restores the room list, except that a room it found empty is gone
      afterwards. The socket need not be in no room: `join` does not take
      it out of a room it was in before, so it stays among that room's
      peers (only its remembered room is overwritten). */
  lemma JoinThenExit(s: State, socket: string, roomId: string)
    requires roomId in s.rooms && socket !in s.rooms[roomId].peers
    ensures var joined := Join(s, socket, roomId).0;
            var exited := ExitRoom(joined, socket);
            && exited.1 == Message("successfully exited room")
            && exited.0.rooms == (if s.rooms[roomId].peers == {} then s.rooms - {roomId} else s.rooms)
            && exited.0.RoomOf(socket).None?
  {
    var joined := Join(s, socket, roomId).0;
    assert joined.rooms[roomId].peers - {socket} == s.rooms[roomId].peers;
    var exited := ExitRoom(joined, socket).0;
    if s.rooms[roomId].peers != {} {
      assert exited.rooms[roomId] == s.rooms[roomId];
      assert exited.rooms == s.rooms;
    } else {
      assert exited.rooms == s.rooms - {roomId};
    }
  }

  /** `removeRoom` never removes: the room can still be joined afterwards. */
  lemma RemovedRoomStillJoinable(s: State, socket: string, roomId: string)
    requires roomId in s.rooms
    ensures RemoveRoom(s, roomId).1 == Message("The room removed")
    ensures Join(RemoveRoom(s, roomId).0, socket, roomId).1 == RoomView(roomId)
  {
  }
}
