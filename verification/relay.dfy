/**
 * The Socket.IO relay of api/socket.js as a pure state machine. The server
 * holds a room store (room code -> room, iterated in insertion order) and a
 * session table (connection id -> session). Each inbound event is handled to
 * completion, so a handler is a function from (server, connection, event) to
 * (server', outbound messages). Broadcasts are returned as tagged messages
 * instead of being written to sockets.
 */
module Relay {
  import opened Util
  import opened TicTacToe

  datatype Player = Player(id: string, symbol: Mark, name: string)

  datatype GameState = GameState(board: Board, currentPlayer: Mark, gameActive: bool, scores: Scores)

  datatype Room = Room(id: string, players: seq<Player>, gameState: GameState, createdAt: int)

  datatype Session = Session(roomId: string, symbol: Mark)

  /**
   * `rooms` is the `gameRooms` Map and `order` its key insertion order (a
   * JavaScript Map iterates its values in that order); `sessions` is
   * `playerSessions`.
   */
  datatype Server = Server(rooms: map<string, Room>, order: seq<string>, sessions: map<string, Session>)

  /** One entry of the `roomsList` reply. */
  datatype RoomSummary = RoomSummary(id: string, players: nat, createdAt: int)

  datatype Msg =
    | GameStateMsg(state: GameState)
    | PlayersUpdate(players: seq<Player>)
    | RoomCreated(code: string)
    | RoomsList(rooms: seq<RoomSummary>)

  /** `io.to(room).emit(...)` or `socket.emit(...)` back to the sender. */
  datatype Outbound = ToRoom(room: string, msg: Msg) | ToSender(msg: Msg)

  /**
   * The inbound events. `CreateRoom` carries the random draw the source takes
   * from `Math.random()`, already scaled: the code is 10000 + draw.
   */
  datatype Event =
    | JoinRoom(roomId: string)
    | MakeMove(roomId: string, position: int)
    | ResetGame(roomId: string)
    | CreateRoom(draw: int)
    | GetRooms
    | Disconnect

  const EmptyServer: Server := Server(map[], [], map[])

  const InitialGameState: GameState := GameState(EmptyBoard, X, true, ZeroScores)

  /** The display name the source gives a player: "Player X" or "Player O". */
  function PlayerName(m: Mark): string {
    if m == X then "Player X" else "Player O"
  }

  /** A game whose flag says active has neither a winning line nor a full board. */
  predicate ConsistentGame(g: GameState) {
    g.gameActive ==> !CheckWin(g.board) && !IsFull(g.board)
  }

  predicate DistinctIds(ps: seq<Player>) {
    forall i, j :: 0 <= i < j < |ps| ==> ps[i].id != ps[j].id
  }

  predicate HasPlayer(ps: seq<Player>, id: string) {
    exists i :: 0 <= i < |ps| && ps[i].id == id
  }

  /** The server-wide invariant every handler preserves. */
  predicate Valid(s: Server) {
    && Distinct(s.order)
    && (forall k :: k in s.rooms ==> k in s.order)
    && (forall k :: k in s.order ==> k in s.rooms)
    && (forall k :: k in s.rooms ==> s.rooms[k].id == k)
    && (forall k :: k in s.rooms ==> ConsistentGame(s.rooms[k].gameState))
    && (forall k :: k in s.rooms ==> DistinctIds(s.rooms[k].players))
    && (forall k :: k in s.rooms ==> |s.rooms[k].players| > 0)
    && SessionsSeated(s)
  }

  /** Every session names a stored room in which its connection is a player. */
  predicate SessionsSeated(s: Server) {
    forall c :: c in s.sessions ==> s.sessions[c].roomId in s.rooms && HasPlayer(s.rooms[s.sessions[c].roomId].players, c)
  }

  lemma EmptyServerValid()
    ensures Valid(EmptyServer)
  {
  }

  /** `room.players.find(p => p.id === id)`: the first player with that id. */
  function FindPlayer(ps: seq<Player>, id: string): (r: Option<Player>)
    ensures r.None? <==> !HasPlayer(ps, id)
    ensures r.Some? ==> r.value in ps && r.value.id == id
    ensures r.Some? && |ps| > 0 && ps[0].id == id ==> r.value == ps[0]
  {
    if |ps| == 0 then None
    else if ps[0].id == id then Some(ps[0])
    else
      HasPlayerTail(ps, id);
      FindPlayer(ps[1..], id)
  }

  lemma HasPlayerTail(ps: seq<Player>, id: string)
    requires |ps| > 0 && ps[0].id != id
    ensures HasPlayer(ps, id) <==> HasPlayer(ps[1..], id)
  {
    if HasPlayer(ps[1..], id) {
      var i :| 0 <= i < |ps[1..]| && ps[1..][i].id == id;
      assert ps[i + 1].id == id;
    }
    if HasPlayer(ps, id) {
      var i :| 0 <= i < |ps| && ps[i].id == id;
      assert i > 0 && ps[1..][i - 1].id == id;
    }
  }

  // ---------------------------------------------------------------- joinRoom

  function NewRoom(roomId: string, now: int): (r: Room)
    ensures r.id == roomId && r.players == [] && r.createdAt == now
    ensures r.gameState.board == EmptyBoard && r.gameState.currentPlayer == X
    ensures r.gameState.gameActive && r.gameState.scores == ZeroScores
  {
    Room(roomId, [], InitialGameState, now)
  }

  /** The room a join lands in: the stored one, or a fresh one created at `now`. */
  function RoomFor(s: Server, roomId: string, now: int): Room {
    if roomId in s.rooms then s.rooms[roomId] else NewRoom(roomId, now)
  }

  /** The player a new joiner becomes: 'X' into an empty room, 'O' otherwise, with no cap. */
  function NewPlayer(room: Room, conn: string): (p: Player)
    ensures p.id == conn
    ensures p.symbol == X <==> |room.players| == 0
    ensures p.name == PlayerName(p.symbol)
  {
    var sym := if |room.players| == 0 then X else O;
    Player(conn, sym, PlayerName(sym))
  }

  function Join(s: Server, conn: string, now: int, roomId: string): (res: (Server, seq<Outbound>))
    ensures roomId in res.0.rooms
    ensures res.0.rooms[roomId].gameState == RoomFor(s, roomId, now).gameState
    ensures HasPlayer(res.0.rooms[roomId].players, conn)
    ensures forall k :: k in s.rooms && k != roomId ==> k in res.0.rooms && res.0.rooms[k] == s.rooms[k]
    ensures res.0.rooms.Keys == s.rooms.Keys + {roomId}
    ensures res.1 == [ToRoom(roomId, GameStateMsg(res.0.rooms[roomId].gameState)),
                      ToRoom(roomId, PlayersUpdate(res.0.rooms[roomId].players))]
  {
    var room := AddPlayer(RoomFor(s, roomId, now), conn);
    var order := if roomId in s.rooms then s.order else s.order + [roomId];
    var sessions := if HasPlayer(RoomFor(s, roomId, now).players, conn) then s.sessions
      else s.sessions[conn := Session(roomId, NewPlayer(RoomFor(s, roomId, now), conn).symbol)];
    (Server(s.rooms[roomId := room], order, sessions),
     [ToRoom(roomId, GameStateMsg(room.gameState)), ToRoom(roomId, PlayersUpdate(room.players))])
  }

  /** Appends the connection as a new player unless it is already one of the room's players. */
  function AddPlayer(room: Room, conn: string): (r: Room)
    ensures HasPlayer(r.players, conn)
    ensures r.id == room.id && r.gameState == room.gameState && r.createdAt == room.createdAt
    ensures HasPlayer(room.players, conn) ==> r == room
    ensures !HasPlayer(room.players, conn) ==> r.players == room.players + [NewPlayer(room, conn)]
  {
    if HasPlayer(room.players, conn) then room
    else
      var ps := room.players + [NewPlayer(room, conn)];
      assert ps[|room.players|].id == conn;
      room.(players := ps)
  }

  /** Joining an id the store has not seen creates it empty, X to move, active, scores 0-0, and the joiner is X. */
  lemma JoinUnseenRoom(s: Server, conn: string, now: int, roomId: string)
    requires roomId !in s.rooms
    ensures var s' := Join(s, conn, now, roomId).0;
      && s'.rooms[roomId].gameState == GameState(EmptyBoard, X, true, Scores(0, 0))
      && s'.rooms[roomId].createdAt == now
      && s'.rooms[roomId].players == [Player(conn, X, "Player X")]
      && s'.sessions[conn] == Session(roomId, X)
      && s'.order == s.order + [roomId]
  {
  }

  /** A connection already in the room adds no player and no session: nothing changes. */
  lemma RejoinChangesNothing(s: Server, conn: string, now: int, roomId: string)
    requires Valid(s)
    requires roomId in s.rooms && HasPlayer(s.rooms[roomId].players, conn)
    ensures Join(s, conn, now, roomId).0 == s
  {
    assert s.rooms[roomId := s.rooms[roomId]] == s.rooms;
  }

  /**
   * A new joiner is appended with 'X' exactly when the room had no players
   * and 'O' otherwise (a third joiner also gets 'O'), and its session records
   * the room and the symbol.
   */
  lemma JoinAssignsSymbol(s: Server, conn: string, now: int, roomId: string)
    requires roomId in s.rooms && !HasPlayer(s.rooms[roomId].players, conn)
    ensures var s' := Join(s, conn, now, roomId).0;
      var before := s.rooms[roomId].players;
      var after := s'.rooms[roomId].players;
      && |after| == |before| + 1
      && after[..|before|] == before
      && after[|before|].id == conn
      && (after[|before|].symbol == X <==> |before| == 0)
      && s'.sessions[conn] == Session(roomId, after[|before|].symbol)
      && s'.order == s.order
  {
  }

  // ---------------------------------------------------------------- makeMove

  /**
   * The authoritative transition of an accepted move: mark the cell, then a
   * win ends the game and credits the mover once, else a full board ends it
   * as a draw, and only a still-active game passes the turn.
   */
  function ApplyMove(g: GameState, position: int, sym: Mark): (r: GameState)
    requires 0 <= position < 9 && g.board[position] == Empty && g.gameActive
    ensures r.board == Place(g.board, position, sym)
    ensures CheckWin(r.board) ==> !r.gameActive && r.scores.Get(sym) == g.scores.Get(sym) + 1
    ensures r.scores.Get(Other(sym)) == g.scores.Get(Other(sym))
    ensures !CheckWin(r.board) ==> r.scores == g.scores
    ensures !CheckWin(r.board) && IsFull(r.board) ==> !r.gameActive
    ensures r.gameActive <==> !CheckWin(r.board) && !IsFull(r.board)
    ensures r.gameActive ==> r.currentPlayer == Other(g.currentPlayer)
    ensures !r.gameActive ==> r.currentPlayer == g.currentPlayer
    ensures ConsistentGame(r)
  {
    var board := Place(g.board, position, sym);
    if CheckWin(board) then
      GameState(board, g.currentPlayer, false, g.scores.Bump(sym))
    else if IsFull(board) then
      GameState(board, g.currentPlayer, false, g.scores)
    else
      GameState(board, Other(g.currentPlayer), g.gameActive, g.scores)
  }

  /** Which of the source's guards, in order, lets a move through. */
  predicate MoveAccepted(s: Server, conn: string, roomId: string, position: int) {
    && roomId in s.rooms
    && var room := s.rooms[roomId];
      var p := FindPlayer(room.players, conn);
      && p.Some?
      && p.value.symbol == room.gameState.currentPlayer
      // `board[position] === ''`: an index outside 0..8 reads undefined
      && 0 <= position < 9
      && room.gameState.board[position] == Empty
      && room.gameState.gameActive
  }

  function Move(s: Server, conn: string, roomId: string, position: int): (res: (Server, seq<Outbound>))
    ensures !MoveAccepted(s, conn, roomId, position) ==> res.0 == s && res.1 == []
    ensures MoveAccepted(s, conn, roomId, position) ==>
      && res.0.rooms.Keys == s.rooms.Keys
      && res.0.order == s.order && res.0.sessions == s.sessions
      && (forall k :: k in s.rooms && k != roomId ==> res.0.rooms[k] == s.rooms[k])
      && res.0.rooms[roomId].players == s.rooms[roomId].players
      && res.0.rooms[roomId].createdAt == s.rooms[roomId].createdAt
      && res.1 == [ToRoom(roomId, GameStateMsg(res.0.rooms[roomId].gameState))]
  {
    if !MoveAccepted(s, conn, roomId, position) then (s, [])
    else
      var room := s.rooms[roomId];
      var sym := FindPlayer(room.players, conn).value.symbol;
      var g := ApplyMove(room.gameState, position, sym);
      (s.(rooms := s.rooms[roomId := room.(gameState := g)]), [ToRoom(roomId, GameStateMsg(g))])
  }

  /**
   * Every rejection the source makes before its broadcast leaves the server
   * and the outbox untouched: missing room, unknown sender, wrong turn,
   * occupied or out-of-range cell, finished game.
   */
  lemma MoveRejections(s: Server, conn: string, roomId: string, position: int)
    ensures roomId !in s.rooms ==> Move(s, conn, roomId, position) == (s, [])
    ensures roomId in s.rooms && !HasPlayer(s.rooms[roomId].players, conn) ==> Move(s, conn, roomId, position) == (s, [])
    ensures roomId in s.rooms && HasPlayer(s.rooms[roomId].players, conn)
      && FindPlayer(s.rooms[roomId].players, conn).value.symbol != s.rooms[roomId].gameState.currentPlayer
      ==> Move(s, conn, roomId, position) == (s, [])
    ensures roomId in s.rooms && !(0 <= position < 9) ==> Move(s, conn, roomId, position) == (s, [])
    ensures roomId in s.rooms && 0 <= position < 9 && s.rooms[roomId].gameState.board[position] != Empty
      ==> Move(s, conn, roomId, position) == (s, [])
    ensures roomId in s.rooms && !s.rooms[roomId].gameState.gameActive ==> Move(s, conn, roomId, position) == (s, [])
  {
  }

  /**
   * An accepted move writes the mover's symbol into exactly one previously
   * empty cell; on a win the winning line is the mover's, the game stops and
   * only the mover's score rises, by one; on a draw scores stay; the turn
   * passes only while the game goes on.
   */
  lemma AcceptedMoveEffect(s: Server, conn: string, roomId: string, position: int)
    requires Valid(s)
    requires MoveAccepted(s, conn, roomId, position)
    ensures var g := s.rooms[roomId].gameState;
      var g' := Move(s, conn, roomId, position).0.rooms[roomId].gameState;
      var sym := FindPlayer(s.rooms[roomId].players, conn).value.symbol;
      && sym == g.currentPlayer
      && g.board[position] == Empty && g'.board[position] == Marked(sym)
      && (forall j :: 0 <= j < 9 && j != position ==> g'.board[j] == g.board[j])
      && (CheckWin(g'.board) ==>
            ThreeInARow(g'.board, sym) && !ThreeInARow(g'.board, Other(sym))
            && !g'.gameActive
            && g'.scores.Get(sym) == g.scores.Get(sym) + 1
            && g'.scores.Get(Other(sym)) == g.scores.Get(Other(sym)))
      && (!CheckWin(g'.board) && IsFull(g'.board) ==> !g'.gameActive && g'.scores == g.scores)
      && (g'.gameActive <==> !CheckWin(g'.board) && !IsFull(g'.board))
      && (g'.gameActive ==> g'.currentPlayer == Other(g.currentPlayer))
      && (!g'.gameActive ==> g'.currentPlayer == g.currentPlayer)
  {
    var g := s.rooms[roomId].gameState;
    var sym := FindPlayer(s.rooms[roomId].players, conn).value.symbol;
    var b' := Place(g.board, position, sym);
    assert ConsistentGame(g);
    if CheckWin(b') {
      WinnerIsMover(g.board, position, sym);
    }
  }

  // --------------------------------------------------------------- resetGame

  function Reset(s: Server, roomId: string): (res: (Server, seq<Outbound>))
    ensures roomId !in s.rooms ==> res == (s, [])
    ensures roomId in s.rooms ==>
      && res.0.rooms.Keys == s.rooms.Keys
      && (forall k :: k in s.rooms && k != roomId ==> res.0.rooms[k] == s.rooms[k])
      && res.0.order == s.order && res.0.sessions == s.sessions
      && res.0.rooms[roomId].players == s.rooms[roomId].players
      && res.1 == [ToRoom(roomId, GameStateMsg(res.0.rooms[roomId].gameState))]
  {
    if roomId !in s.rooms then (s, [])
    else
      var room := s.rooms[roomId];
      var g := room.gameState.(board := EmptyBoard, currentPlayer := X, gameActive := true);
      (s.(rooms := s.rooms[roomId := room.(gameState := g)]), [ToRoom(roomId, GameStateMsg(g))])
  }

  /** A reset clears the board, gives X the move and reactivates, but keeps the running scores. */
  lemma ResetKeepsScores(s: Server, roomId: string)
    requires roomId in s.rooms
    ensures var g := Reset(s, roomId).0.rooms[roomId].gameState;
      && g.board == EmptyBoard && g.currentPlayer == X && g.gameActive
      && g.scores == s.rooms[roomId].gameState.scores
      && ConsistentGame(g)
  {
    EmptyBoardNotOver();
  }

  lemma EmptyBoardNotOver()
    ensures !CheckWin(EmptyBoard) && !IsFull(EmptyBoard)
  {
    ScanUnfolds(EmptyBoard);
    assert EmptyBoard[0] == Empty;
  }

  // -------------------------------------------------------------- createRoom

  /**
   * The code `floor(10000 + r * 90000)` as a string; `draw` is the integer
   * part of `r * 90000`. The store is neither read nor checked for a clash.
   */
  function Create(s: Server, draw: int): (res: (Server, seq<Outbound>))
    requires 0 <= draw < 90000
    ensures res.0 == s
    ensures |res.1| == 1 && res.1[0].ToSender? && res.1[0].msg.RoomCreated?
    ensures var code := res.1[0].msg.code;
      && |code| == 5
      && (forall i :: 0 <= i < |code| ==> '0' <= code[i] <= '9')
      && 10000 <= ParseDecimal(code) <= 99999
  {
    (s, [ToSender(RoomCreated(RoomCode(draw)))])
  }

  /** The five-digit room code drawn from `[10000, 99999]`. */
  function RoomCode(draw: int): (code: string)
    requires 0 <= draw < 90000
    ensures |code| == 5 && (forall i :: 0 <= i < |code| ==> '0' <= code[i] <= '9')
    ensures ParseDecimal(code) == 10000 + draw
  {
    var n: nat := 10000 + draw;
    FiveDigitLength(n);
    DecimalString(n)
  }

  // ---------------------------------------------------------------- getRooms

  /** Summaries of the rooms listed in `keys` that still have a free seat, in that order. */
  function Joinable(rooms: map<string, Room>, keys: seq<string>): (r: seq<RoomSummary>)
    requires forall k :: k in keys ==> k in rooms
    ensures forall e :: e in r ==> exists k :: k in keys && e == Summary(rooms[k]) && |rooms[k].players| < 2
    ensures forall k :: k in keys && |rooms[k].players| < 2 ==> Summary(rooms[k]) in r
    ensures |r| <= |keys|
    ensures forall i, j :: 0 <= i < j < |r| ==> ListedBefore(rooms, keys, r[i], r[j])
  {
    if |keys| == 0 then []
    else
      var rest := Joinable(rooms, keys[1..]);
      var room := rooms[keys[0]];
      TailOrder(rooms, keys, rest);
      if |room.players| < 2 then
        HeadOrder(rooms, keys, rest);
        [Summary(room)] + rest
      else rest
  }

  lemma TailOrder(rooms: map<string, Room>, keys: seq<string>, rest: seq<RoomSummary>)
    requires |keys| > 0 && forall k :: k in keys ==> k in rooms
    requires forall i, j :: 0 <= i < j < |rest| ==> ListedBefore(rooms, keys[1..], rest[i], rest[j])
    ensures forall i, j :: 0 <= i < j < |rest| ==> ListedBefore(rooms, keys, rest[i], rest[j])
  {
    forall i, j | 0 <= i < j < |rest| ensures ListedBefore(rooms, keys, rest[i], rest[j]) {
      assert ListedBefore(rooms, keys[1..], rest[i], rest[j]);
      var a, b :| 0 <= a < b < |keys[1..]| && rest[i] == Summary(rooms[keys[1..][a]]) && rest[j] == Summary(rooms[keys[1..][b]]);
      assert keys[1..][a] == keys[a + 1] && keys[1..][b] == keys[b + 1];
    }
  }

  lemma HeadOrder(rooms: map<string, Room>, keys: seq<string>, rest: seq<RoomSummary>)
    requires |keys| > 0 && forall k :: k in keys ==> k in rooms
    requires forall e :: e in rest ==> exists k :: k in keys[1..] && e == Summary(rooms[k]) && |rooms[k].players| < 2
    requires forall i, j :: 0 <= i < j < |rest| ==> ListedBefore(rooms, keys, rest[i], rest[j])
    ensures var r := [Summary(rooms[keys[0]])] + rest;
      forall i, j :: 0 <= i < j < |r| ==> ListedBefore(rooms, keys, r[i], r[j])
  {
    var r := [Summary(rooms[keys[0]])] + rest;
    forall i, j | 0 <= i < j < |r| ensures ListedBefore(rooms, keys, r[i], r[j]) {
      if i == 0 {
        assert r[j] == rest[j - 1] && rest[j - 1] in rest;
        var k :| k in keys[1..] && r[j] == Summary(rooms[k]) && |rooms[k].players| < 2;
        var b :| 0 <= b < |keys[1..]| && keys[1..][b] == k;
        assert keys[b + 1] == k;
      } else {
        assert r[i] == rest[i - 1] && r[j] == rest[j - 1];
      }
    }
  }

  /** `a` and `b` summarise rooms at two positions of `keys`, `a`'s first. */
  predicate ListedBefore(rooms: map<string, Room>, keys: seq<string>, a: RoomSummary, b: RoomSummary)
    requires forall k :: k in keys ==> k in rooms
  {
    exists x, y :: 0 <= x < y < |keys| && a == Summary(rooms[keys[x]]) && b == Summary(rooms[keys[y]])
  }

  function Summary(room: Room): RoomSummary {
    RoomSummary(room.id, |room.players|, room.createdAt)
  }

  function ListRooms(s: Server): (res: (Server, seq<Outbound>))
    requires Valid(s)
    ensures res.0 == s
    ensures |res.1| == 1 && res.1[0].ToSender? && res.1[0].msg.RoomsList?
  {
    (s, [ToSender(RoomsList(Joinable(s.rooms, s.order)))])
  }

  /**
   * The listing holds exactly the rooms with fewer than two players, each as
   * (id, player count, creation time).
   */
  lemma ListRoomsExact(s: Server)
    requires Valid(s)
    ensures var listed := ListRooms(s).1[0].msg.rooms;
      && (forall e :: e in listed ==> e.id in s.rooms && e == Summary(s.rooms[e.id]) && e.players < 2)
      && (forall k :: k in s.rooms && |s.rooms[k].players| < 2 ==> Summary(s.rooms[k]) in listed)
  {
    var listed := ListRooms(s).1[0].msg.rooms;
    forall e | e in listed ensures e.id in s.rooms && e == Summary(s.rooms[e.id]) && e.players < 2 {
      var k :| k in s.order && e == Summary(s.rooms[k]) && |s.rooms[k].players| < 2;
      assert s.rooms[k].id == k;
    }
  }

  // -------------------------------------------------------------- disconnect

  function RemovePlayer(ps: seq<Player>, id: string): (r: seq<Player>)
    ensures forall p :: p in r <==> p in ps && p.id != id
    ensures !HasPlayer(r, id)
    ensures DistinctIds(ps) ==> DistinctIds(r)
    ensures |r| <= |ps|
  {
    if |ps| == 0 then []
    else
      var rest := RemovePlayer(ps[1..], id);
      if ps[0].id == id then rest
      else
        RemovePlayerHead(ps, rest);
        [ps[0]] + rest
  }

  lemma RemovePlayerHead(ps: seq<Player>, rest: seq<Player>)
    requires |ps| > 0
    requires forall p :: p in rest ==> p in ps[1..]
    ensures DistinctIds(ps) ==> forall q :: q in rest ==> q.id != ps[0].id
  {
    if DistinctIds(ps) {
      forall q | q in rest ensures q.id != ps[0].id {
        var i :| 0 <= i < |ps[1..]| && ps[1..][i] == q;
        assert ps[i + 1] == q;
      }
    }
  }

  function Drop(s: Server, conn: string): (res: (Server, seq<Outbound>))
    ensures conn !in s.sessions ==> res == (s, [])
    ensures conn !in res.0.sessions
    ensures res.0.sessions == s.sessions - {conn}
    ensures conn in s.sessions && s.sessions[conn].roomId !in s.rooms ==> res.0.rooms == s.rooms && res.1 == []
    ensures conn in s.sessions && s.sessions[conn].roomId in s.rooms ==>
      var id := s.sessions[conn].roomId;
      var left := RemovePlayer(s.rooms[id].players, conn);
      && (forall k :: k in s.rooms && k != id ==> k in res.0.rooms && res.0.rooms[k] == s.rooms[k])
      && (|left| == 0 ==> res.0.rooms.Keys == s.rooms.Keys - {id} && res.1 == [])
      && (|left| > 0 ==>
            (&& res.0.rooms.Keys == s.rooms.Keys
             && res.0.rooms[id] == s.rooms[id].(players := left)
             && res.1 == [ToRoom(id, PlayersUpdate(left))]))
  {
    if conn !in s.sessions then (s, [])
    else
      var id := s.sessions[conn].roomId;
      var sessions := s.sessions - {conn};
      if id !in s.rooms then (s.(sessions := sessions), [])
      else
        var left := RemovePlayer(s.rooms[id].players, conn);
        if |left| == 0 then
          (Server(s.rooms - {id}, RemoveValue(s.order, id), sessions), [])
        else
          (Server(s.rooms[id := s.rooms[id].(players := left)], s.order, sessions), [ToRoom(id, PlayersUpdate(left))])
  }

  // ------------------------------------------------------------------ relay

  function Handle(s: Server, conn: string, now: int, e: Event): (res: (Server, seq<Outbound>))
    requires Valid(s)
    requires e.CreateRoom? ==> 0 <= e.draw < 90000
    ensures Valid(res.0)
  {
    match e
    case JoinRoom(roomId) => JoinPreservesValid(s, conn, now, roomId); Join(s, conn, now, roomId)
    case MakeMove(roomId, position) => MovePreservesValid(s, conn, roomId, position); Move(s, conn, roomId, position)
    case ResetGame(roomId) => ResetPreservesValid(s, roomId); Reset(s, roomId)
    case CreateRoom(draw) => Create(s, draw)
    case GetRooms => ListRooms(s)
    case Disconnect => DropPreservesValid(s, conn); Drop(s, conn)
  }

  lemma JoinPreservesValid(s: Server, conn: string, now: int, roomId: string)
    requires Valid(s)
    ensures Valid(Join(s, conn, now, roomId).0)
  {
    var room := RoomFor(s, roomId, now);
    if roomId !in s.rooms {
      EmptyBoardNotOver();
    }
    if !HasPlayer(room.players, conn) {
      AppendNewId(room.players, NewPlayer(room, conn));
    }
    var joined := AddPlayer(room, conn);
    assert joined.id == roomId && |joined.players| > 0;
    JoinSeats(s, conn, now, roomId);
    PutRoomValid(s, joined, Join(s, conn, now, roomId).0.sessions);
  }

  /** Storing a sound room under its own id, listed once in the order, with seated sessions, keeps the invariant. */
  lemma PutRoomValid(s: Server, room: Room, sessions: map<string, Session>)
    requires Valid(s)
    requires ConsistentGame(room.gameState) && DistinctIds(room.players) && |room.players| > 0
    requires SessionsSeated(Server(s.rooms[room.id := room], s.order, sessions))
    ensures Valid(Server(s.rooms[room.id := room], if room.id in s.rooms then s.order else s.order + [room.id], sessions))
  {
    if room.id !in s.rooms {
      assert room.id !in s.order;
      AppendDistinct(s.order, room.id);
    }
  }

  /** After a join every session still names a room where its connection sits, the joiner's included. */
  lemma JoinSeats(s: Server, conn: string, now: int, roomId: string)
    requires SessionsSeated(s)
    ensures var room := RoomFor(s, roomId, now);
      SessionsSeated(Server(s.rooms[roomId := AddPlayer(room, conn)], s.order, Join(s, conn, now, roomId).0.sessions))
  {
    var room := RoomFor(s, roomId, now);
    var joined := AddPlayer(room, conn);
    var sessions := Join(s, conn, now, roomId).0.sessions;
    var rooms := s.rooms[roomId := joined];
    forall c | c in sessions ensures sessions[c].roomId in rooms && HasPlayer(rooms[sessions[c].roomId].players, c) {
      if c != conn || HasPlayer(room.players, conn) {
        assert c in s.sessions && sessions[c] == s.sessions[c];
        if s.sessions[c].roomId == roomId {
          KeepsPlayer(room, conn, c);
        }
      }
    }
  }

  /** Adding a player keeps every player already seated. */
  lemma KeepsPlayer(room: Room, conn: string, c: string)
    requires HasPlayer(room.players, c)
    ensures HasPlayer(AddPlayer(room, conn).players, c)
  {
    var i :| 0 <= i < |room.players| && room.players[i].id == c;
    assert AddPlayer(room, conn).players[i] == room.players[i];
  }

  lemma AppendDistinct(order: seq<string>, k: string)
    requires Distinct(order) && k !in order
    ensures Distinct(order + [k])
  {
    var o := order + [k];
    forall i, j | 0 <= i < j < |o| ensures o[i] != o[j] {
      if j == |order| { assert o[i] == order[i]; }
    }
  }

  lemma AppendNewId(ps: seq<Player>, p: Player)
    requires DistinctIds(ps) && !HasPlayer(ps, p.id)
    ensures DistinctIds(ps + [p])
  {
    var qs := ps + [p];
    forall i, j | 0 <= i < j < |qs| ensures qs[i].id != qs[j].id {
      if j == |ps| {
        assert qs[i] == ps[i];
      } else {
        assert qs[i] == ps[i] && qs[j] == ps[j];
      }
    }
  }

  lemma ResetPreservesValid(s: Server, roomId: string)
    requires Valid(s)
    ensures Valid(Reset(s, roomId).0)
  {
    EmptyBoardNotOver();
  }

  lemma MovePreservesValid(s: Server, conn: string, roomId: string, position: int)
    requires Valid(s)
    ensures Valid(Move(s, conn, roomId, position).0)
  {
  }

  lemma DropPreservesValid(s: Server, conn: string)
    requires Valid(s)
    ensures Valid(Drop(s, conn).0)
  {
    if conn in s.sessions && s.sessions[conn].roomId in s.rooms {
      var id := s.sessions[conn].roomId;
      var left := RemovePlayer(s.rooms[id].players, conn);
      var s' := Drop(s, conn).0;
      if |left| == 0 {
        assert s'.order == RemoveValue(s.order, id);
        forall k ensures k in s'.rooms <==> k in s'.order {
          if k in s.order && k != id { assert k in s'.order; }
        }
      }
      forall c | c in s'.sessions ensures s'.sessions[c].roomId in s'.rooms && HasPlayer(s'.rooms[s'.sessions[c].roomId].players, c) {
        assert c != conn && s'.sessions[c] == s.sessions[c];
        if s.sessions[c].roomId == id {
          StaysAfterRemove(s.rooms[id].players, conn, c);
        }
      }
    }
  }

  /** Removing one connection's players keeps every other player. */
  lemma StaysAfterRemove(ps: seq<Player>, conn: string, c: string)
    requires HasPlayer(ps, c) && c != conn
    ensures HasPlayer(RemovePlayer(ps, conn), c) && |RemovePlayer(ps, conn)| > 0
  {
    var i :| 0 <= i < |ps| && ps[i].id == c;
    assert ps[i] in RemovePlayer(ps, conn);
    var r := RemovePlayer(ps, conn);
    var j :| 0 <= j < |r| && r[j] == ps[i];
  }

  /** After a disconnect the connection is no player of the room its session named. */
  lemma DropRemovesPlayer(s: Server, conn: string)
    requires Valid(s)
    requires conn in s.sessions
    ensures var id := s.sessions[conn].roomId;
      var s' := Drop(s, conn).0;
      id in s'.rooms ==> !HasPlayer(s'.rooms[id].players, conn)
  {
  }

  // --------------------------------------------------------------- scenarios

  /** The assignments of the source's test scenario: X plays 4, 2, 6 while O plays 0 and 1. */
  lemma DiagonalScenario(p1: string, p2: string, now: int)
    requires p1 != p2
    ensures
      var (s1, _) := Join(EmptyServer, p1, now, "12345");
      var (s2, _) := Join(s1, p2, now, "12345");
      var (s3, o3) := Move(s2, p1, "12345", 4);
      var (s4, o4) := Move(s3, p2, "12345", 0);
      var (s5, _) := Move(s4, p1, "12345", 2);
      var (s6, _) := Move(s5, p2, "12345", 1);
      var (s7, _) := Move(s6, p1, "12345", 6);
      var g := s7.rooms["12345"].gameState;
      && s3.rooms["12345"].gameState.board[4] == Marked(X)
      && s3.rooms["12345"].gameState.currentPlayer == O
      && !g.gameActive && g.scores == Scores(1, 0)
      && ThreeInARow(g.board, X)
  {
    var id := "12345";
    var s2 := Join(Join(EmptyServer, p1, now, id).0, p2, now, id).0;
    TwoJoin(p1, p2, now, id);
    DiagonalPlay(s2, p1, p2, id);
  }

  /** Helper for the scenario: two distinct connections joining a fresh room sit as X and O of a new game. */
  lemma TwoJoin(p1: string, p2: string, now: int, id: string)
    requires p1 != p2
    ensures var s2 := Join(Join(EmptyServer, p1, now, id).0, p2, now, id).0;
      && id in s2.rooms
      && s2.rooms[id].players == [Player(p1, X, "Player X"), Player(p2, O, "Player O")]
      && s2.rooms[id].gameState == GameState(EmptyBoard, X, true, ZeroScores)
  {
  }

  /** Helper for the scenario: the five moves played from a fresh game. */
  lemma DiagonalPlay(s2: Server, p1: string, p2: string, id: string)
    requires p1 != p2 && id in s2.rooms
    requires s2.rooms[id].players == [Player(p1, X, "Player X"), Player(p2, O, "Player O")]
    requires s2.rooms[id].gameState == GameState(EmptyBoard, X, true, ZeroScores)
    ensures
      var (s3, _) := Move(s2, p1, id, 4);
      var (s4, _) := Move(s3, p2, id, 0);
      var (s5, _) := Move(s4, p1, id, 2);
      var (s6, _) := Move(s5, p2, id, 1);
      var (s7, _) := Move(s6, p1, id, 6);
      var g := s7.rooms[id].gameState;
      && s3.rooms[id].gameState.board[4] == Marked(X)
      && s3.rooms[id].gameState.currentPlayer == O
      && !g.gameActive && g.scores == Scores(1, 0)
      && ThreeInARow(g.board, X)
  {
    var ps := s2.rooms[id].players;
    assert FindPlayer(ps, p2) == Some(ps[1]) by { assert ps[1..][0] == ps[1]; }
    var b1 := Place(EmptyBoard, 4, X);
    NoWinYet(b1);
    QuietStep(s2, p1, id, 4, ps, X, EmptyBoard);
    var s3 := Move(s2, p1, id, 4).0;
    DiagonalEnd(s3, p1, p2, id, ps);
  }

  /** Helper for the scenario: the last four moves, from X's opening in the centre. */
  lemma DiagonalEnd(s3: Server, p1: string, p2: string, id: string, ps: seq<Player>)
    requires ps == [Player(p1, X, "Player X"), Player(p2, O, "Player O")]
    requires FindPlayer(ps, p2) == Some(ps[1])
    requires id in s3.rooms && s3.rooms[id].players == ps
    requires s3.rooms[id].gameState == GameState(Place(EmptyBoard, 4, X), O, true, ZeroScores)
    ensures
      var (s4, _) := Move(s3, p2, id, 0);
      var (s5, _) := Move(s4, p1, id, 2);
      var (s6, _) := Move(s5, p2, id, 1);
      var (s7, _) := Move(s6, p1, id, 6);
      var g := s7.rooms[id].gameState;
      && !g.gameActive && g.scores == Scores(1, 0)
      && ThreeInARow(g.board, X)
  {
    var b1 := Place(EmptyBoard, 4, X);
    var b2 := Place(b1, 0, O);
    var b3 := Place(b2, 2, X);
    var b4 := Place(b3, 1, O);
    var b5 := Place(b4, 6, X);
    NoWinYet(b2);
    NoWinYet(b3);
    NoWinYet(b4);
    QuietStep(s3, p2, id, 0, ps, O, b1);
    var s4 := Move(s3, p2, id, 0).0;
    QuietStep(s4, p1, id, 2, ps, X, b2);
    var s5 := Move(s4, p1, id, 2).0;
    QuietStep(s5, p2, id, 1, ps, O, b3);
    var s6 := Move(s5, p2, id, 1).0;
    ScenarioStep(s6, p1, id, 6, ps, X);
    assert b5[2] == Marked(X) && b5[4] == Marked(X) && b5[6] == Marked(X);
    ScanUnfolds(b5);
  }

  /** Helper for the scenario: a move that neither wins nor fills the board passes the turn and keeps the scores. */
  lemma QuietStep(s: Server, conn: string, id: string, cell: int, ps: seq<Player>, sym: Mark, b: Board)
    requires id in s.rooms && s.rooms[id].players == ps
    requires FindPlayer(ps, conn).Some? && FindPlayer(ps, conn).value.symbol == sym
    requires s.rooms[id].gameState == GameState(b, sym, true, ZeroScores)
    requires 0 <= cell < 9 && b[cell] == Empty
    requires !CheckWin(Place(b, cell, sym)) && !IsFull(Place(b, cell, sym))
    ensures id in Move(s, conn, id, cell).0.rooms
    ensures Move(s, conn, id, cell).0.rooms[id].players == ps
    ensures Move(s, conn, id, cell).0.rooms[id].gameState == GameState(Place(b, cell, sym), Other(sym), true, ZeroScores)
  {
    ScenarioStep(s, conn, id, cell, ps, sym);
  }

  /** Helper for the scenario: an accepted move keeps the room's players and applies the mark. */
  lemma ScenarioStep(s: Server, conn: string, id: string, cell: int, ps: seq<Player>, sym: Mark)
    requires id in s.rooms && s.rooms[id].players == ps
    requires FindPlayer(ps, conn).Some? && FindPlayer(ps, conn).value.symbol == sym
    requires s.rooms[id].gameState.currentPlayer == sym && s.rooms[id].gameState.gameActive
    requires 0 <= cell < 9 && s.rooms[id].gameState.board[cell] == Empty
    ensures id in Move(s, conn, id, cell).0.rooms
    ensures Move(s, conn, id, cell).0.rooms[id].players == ps
    ensures Move(s, conn, id, cell).0.rooms[id].gameState == ApplyMove(s.rooms[id].gameState, cell, sym)
  {
  }

  /** Helper for the scenario: a board with at most four marks and no three in a row is not over. */
  lemma NoWinYet(b: Board)
    requires b[3] == Empty && b[5] == Empty && b[7] == Empty && b[8] == Empty
    requires !(b[0] != Empty && b[0] == b[1] && b[0] == b[2])
    requires !(b[2] != Empty && b[2] == b[4] && b[2] == b[6])
    requires !(b[1] != Empty && b[1] == b[4] && b[1] == b[7])
    requires !(b[0] != Empty && b[0] == b[4] && b[0] == b[8])
    requires !(b[6] != Empty && b[6] == b[7] && b[6] == b[8])
    requires !(b[0] != Empty && b[0] == b[3] && b[0] == b[6])
    ensures !CheckWin(b) && !IsFull(b)
  {
    ScanUnfolds(b);
  }

  /** The second joiner, playing before the first joiner's opening move has been applied, is out of turn: nothing changes and nothing is broadcast. */
  lemma OutOfTurnScenario(p1: string, p2: string, now: int)
    requires p1 != p2
    ensures
      var (s1, _) := Join(EmptyServer, p1, now, "12345");
      var (s2, _) := Join(s1, p2, now, "12345");
      Move(s2, p2, "12345", 0) == (s2, [])
  {
    var (s1, _) := Join(EmptyServer, p1, now, "12345");
    var (s2, _) := Join(s1, p2, now, "12345");
    assert s2.rooms["12345"].players == [Player(p1, X, "Player X"), Player(p2, O, "Player O")];
  }
}
