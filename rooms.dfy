/**
 * The registry of rooms (rooms.js): three maps keyed by room id hold each room's
 * operation log, its set of user ids and its membership table.
 *
 * As in the log module, the registry is first a value (`Registry`) with one
 * function per operation, and the class `RoomManager` implements the operations by
 * updating its map fields, each method proved to reach the state the function gives.
 */
module RoomRegistry {
  import opened Wrappers
  import opened OperationLog
  import opened Membership

  type RoomId = string

  datatype Registry<T> = Registry(
    rooms: map<RoomId, Log<T>>,
    roomUsers: map<RoomId, set<UserId>>,
    userInfo: map<RoomId, Table>)

  /** What `getRoomState` reports: the log's snapshot with the room's members. */
  datatype RoomState<T> = RoomState(
    operations: seq<T>, canUndo: bool, canRedo: bool, operationCount: nat,
    users: seq<UserInfo>, userCount: nat)

  /**
   * The registry invariant: the three maps have the same rooms; in each room the
   * user set is the key set of the membership table; every log keeps its capacity bound.
   */
  ghost predicate InSync<T>(reg: Registry<T>) {
    && reg.roomUsers.Keys == reg.rooms.Keys
    && reg.userInfo.Keys == reg.rooms.Keys
    && (forall r :: r in reg.userInfo ==> UniqueIds(reg.userInfo[r]))
    && (forall r :: r in reg.roomUsers && r in reg.userInfo ==> reg.roomUsers[r] == Ids(reg.userInfo[r]))
    && (forall r :: r in reg.rooms ==> Bounded(reg.rooms[r]))
  }

  /** Room `r` looks the same in `a` and in `b`, in all three maps. */
  ghost predicate SameRoom<T>(a: Registry<T>, b: Registry<T>, r: RoomId) {
    && (r in a.rooms <==> r in b.rooms) && (r in a.rooms ==> a.rooms[r] == b.rooms[r])
    && (r in a.roomUsers <==> r in b.roomUsers) && (r in a.roomUsers ==> a.roomUsers[r] == b.roomUsers[r])
    && (r in a.userInfo <==> r in b.userInfo) && (r in a.userInfo ==> a.userInfo[r] == b.userInfo[r])
  }

  function EmptyRegistry<T>(): Registry<T> {
    Registry(map[], map[], map[])
  }

  /** A room's log, or the empty log when the room is unknown. */
  function LogOf<T>(reg: Registry<T>, r: RoomId): Log<T> {
    if r in reg.rooms then reg.rooms[r] else EmptyLog()
  }

  /** A room's user set, or the empty set when the room is unknown. */
  function UsersOf<T>(reg: Registry<T>, r: RoomId): set<UserId> {
    if r in reg.roomUsers then reg.roomUsers[r] else {}
  }

  /** A room's membership table, or the empty table when the room is unknown. */
  function TableOf<T>(reg: Registry<T>, r: RoomId): Table {
    if r in reg.userInfo then reg.userInfo[r] else []
  }

  /** The maps after `getRoom(r)`: a room seen for the first time gets all three entries at once. */
  function Materialize<T>(reg: Registry<T>, r: RoomId): Registry<T> {
    if r in reg.rooms then reg
    else Registry(reg.rooms[r := EmptyLog()], reg.roomUsers[r := {}], reg.userInfo[r := []])
  }

  /** getRoom: the maps afterwards and the room's log. */
  function RoomGet<T>(reg: Registry<T>, r: RoomId): (Registry<T>, Log<T>) {
    (Materialize(reg, r), LogOf(Materialize(reg, r), r))
  }

  /** getRoomUsers: the room's entries in insertion order; none for an unknown room. */
  function RoomUsers<T>(reg: Registry<T>, r: RoomId): seq<UserInfo> {
    if r !in reg.userInfo then [] else reg.userInfo[r]
  }

  /** getRoomState: creates the room if needed, then reports its snapshot and members. */
  function RoomGetState<T>(reg: Registry<T>, r: RoomId): (Registry<T>, RoomState<T>) {
    var m := Materialize(reg, r);
    var s := LogSnapshot(LogOf(m, r));
    var users := RoomUsers(m, r);
    (m, RoomState(s.operations, s.canUndo, s.canRedo, s.operationCount, users, |users|))
  }

  /** joinRoom, with the entry (and so the colour) already chosen: add the id and store the entry. */
  function Join<T>(reg: Registry<T>, r: RoomId, info: UserInfo): Registry<T> {
    var m := Materialize(reg, r);
    Registry(m.rooms,
             m.roomUsers[r := UsersOf(m, r) + {info.userId}],
             m.userInfo[r := Put(TableOf(m, r), info)])
  }

  /** leaveRoom: nothing for a room never referenced; otherwise drop the user from both structures. */
  function Leave<T>(reg: Registry<T>, r: RoomId, u: UserId): Registry<T> {
    if r !in reg.roomUsers then reg
    else Registry(reg.rooms,
                  reg.roomUsers[r := reg.roomUsers[r] - {u}],
                  reg.userInfo[r := Remove(TableOf(reg, r), u)])
  }

  /** addOperation delegated to room `r`'s log. */
  function RoomAddOperation<T>(reg: Registry<T>, r: RoomId, op: T): (Registry<T>, T) {
    var m := Materialize(reg, r);
    (m.(rooms := m.rooms[r := LogAppend(LogOf(m, r), op)]), op)
  }

  /** undo delegated to room `r`'s log. */
  function RoomUndo<T>(reg: Registry<T>, r: RoomId): (Registry<T>, Option<T>) {
    var m := Materialize(reg, r);
    var step := LogUndo(LogOf(m, r));
    (m.(rooms := m.rooms[r := step.log]), step.moved)
  }

  /** redo delegated to room `r`'s log. */
  function RoomRedo<T>(reg: Registry<T>, r: RoomId): (Registry<T>, Option<T>) {
    var m := Materialize(reg, r);
    var step := LogRedo(LogOf(m, r));
    (m.(rooms := m.rooms[r := step.log]), step.moved)
  }

  /** clearCanvas delegated to room `r`'s log. */
  function RoomClear<T>(reg: Registry<T>, r: RoomId): Registry<T> {
    var m := Materialize(reg, r);
    m.(rooms := m.rooms[r := LogClear(LogOf(m, r))])
  }

  // ---------------------------------------------------------------------------
  // Properties of the registry operations
  // ---------------------------------------------------------------------------

  lemma EmptyRegistryInSync<T>()
    ensures InSync(EmptyRegistry<T>())
  {
  }

  /** Materializing a room keeps the maps in sync and changes nothing any room reports about itself. */
  lemma MaterializeSpec<T>(reg: Registry<T>, r: RoomId)
    requires InSync(reg)
    ensures var m := Materialize(reg, r);
            && InSync(m)
            && r in m.rooms && r in m.roomUsers && r in m.userInfo
            && LogOf(m, r) == LogOf(reg, r) && UsersOf(m, r) == UsersOf(reg, r) && TableOf(m, r) == TableOf(reg, r)
            && forall o :: o != r ==> SameRoom(reg, m, o)
  {
  }

  /**
   * getRoom keeps the maps in sync and makes the room known in all three; a new room
   * starts with an empty log, no users and an empty table; a known room is returned
   * as it is and no map changes, so a second call changes nothing.
   */
  lemma GetRoomSpec<T>(reg: Registry<T>, r: RoomId)
    requires InSync(reg)
    ensures var (m, log) := RoomGet(reg, r);
            && InSync(m)
            && r in m.rooms && r in m.roomUsers && r in m.userInfo
            && log == m.rooms[r]
            && (r !in reg.rooms ==> log == EmptyLog() && m.roomUsers[r] == {} && m.userInfo[r] == [])
            && (r in reg.rooms ==> m == reg && log == reg.rooms[r])
            && RoomGet(m, r) == (m, log)
            && forall o :: o != r ==> SameRoom(reg, m, o)
  {
  }

  /** getRoomUsers never creates a room; it lists exactly the room's user set, each once. */
  lemma RoomUsersSpec<T>(reg: Registry<T>, r: RoomId)
    requires InSync(reg)
    ensures r !in reg.rooms ==> RoomUsers(reg, r) == []
    ensures Ids(RoomUsers(reg, r)) == UsersOf(reg, r)
    ensures UniqueIds(RoomUsers(reg, r))
  {
  }

  /**
   * getRoomState creates the room, reports the log's snapshot, and lists as many
   * users as `userCount` says, exactly the room's members.
   */
  lemma GetRoomStateSpec<T>(reg: Registry<T>, r: RoomId)
    requires InSync(reg)
    ensures var (m, s) := RoomGetState(reg, r);
            && m == RoomGet(reg, r).0
            && InSync(m)
            && s.userCount == |s.users|
            && Ids(s.users) == UsersOf(m, r)
            && s.operations == LogOf(m, r).operations
            && s.operationCount == |s.operations|
            && (s.canUndo <==> LogUndo(LogOf(m, r)).moved.Some?)
            && (s.canRedo <==> LogRedo(LogOf(m, r)).moved.Some?)
  {
    GetRoomSpec(reg, r);
    RoomUsersSpec(RoomGet(reg, r).0, r);
  }

  /** Replacing one known room's user set and table by a matching pair keeps the maps in sync. */
  lemma {:induction false} SetMembersKeepsSync<T>(reg: Registry<T>, r: RoomId, users: set<UserId>, table: Table)
    requires InSync(reg) && r in reg.rooms
    requires users == Ids(table) && UniqueIds(table)
    ensures var n := Registry(reg.rooms, reg.roomUsers[r := users], reg.userInfo[r := table]);
            && InSync(n)
            && forall o :: o != r ==> SameRoom(reg, n, o)
  {
    var n := Registry(reg.rooms, reg.roomUsers[r := users], reg.userInfo[r := table]);
    assert n.roomUsers.Keys == reg.roomUsers.Keys;
    assert n.userInfo.Keys == reg.userInfo.Keys;
    forall o | o in n.userInfo ensures UniqueIds(n.userInfo[o]) && n.roomUsers[o] == Ids(n.userInfo[o]) {
      if o != r {
        assert n.userInfo[o] == reg.userInfo[o] && n.roomUsers[o] == reg.roomUsers[o];
      }
    }
  }

  /** Replacing one known room's log by a bounded log keeps the maps in sync. */
  lemma {:induction false} SetLogKeepsSync<T>(reg: Registry<T>, r: RoomId, log: Log<T>)
    requires InSync(reg) && r in reg.rooms
    requires Bounded(log)
    ensures var n := reg.(rooms := reg.rooms[r := log]);
            && InSync(n)
            && LogOf(n, r) == log
            && forall o :: o != r ==> SameRoom(reg, n, o)
  {
    var n := reg.(rooms := reg.rooms[r := log]);
    assert n.rooms.Keys == reg.rooms.Keys;
    forall o | o in n.rooms ensures Bounded(n.rooms[o]) {
      if o != r {
        assert n.rooms[o] == reg.rooms[o];
      }
    }
  }

  /** joinRoom keeps the maps in sync and leaves other rooms alone. */
  lemma JoinKeepsSync<T>(reg: Registry<T>, r: RoomId, info: UserInfo)
    requires InSync(reg)
    ensures InSync(Join(reg, r, info))
    ensures forall o :: o != r ==> SameRoom(reg, Join(reg, r, info), o)
  {
    MaterializeSpec(reg, r);
    var m := Materialize(reg, r);
    var table := Put(TableOf(m, r), info);
    var users := UsersOf(m, r) + {info.userId};
    assert users == Ids(table) && UniqueIds(table);
    SetMembersKeepsSync(m, r, users, table);
  }

  /** joinRoom, stated on the maps after the room has been materialized. */
  lemma JoinUnfolds<T>(reg: Registry<T>, r: RoomId, info: UserInfo)
    requires InSync(reg)
    ensures var m := Materialize(reg, r);
            && r in m.roomUsers && r in m.userInfo
            && m.userInfo[r] == TableOf(reg, r)
            && Join(reg, r, info) == Registry(m.rooms, m.roomUsers[r := m.roomUsers[r] + {info.userId}], m.userInfo[r := Put(m.userInfo[r], info)])
            && InSync(Join(reg, r, info))
  {
    MaterializeSpec(reg, r);
    JoinKeepsSync(reg, r, info);
  }

  /**
   * joinRoom stores the entry under its user id, replacing any earlier one, adds the
   * id to the user set, and touches neither the room's log, nor other users, nor
   * other rooms.
   */
  lemma JoinSpec<T>(reg: Registry<T>, r: RoomId, info: UserInfo)
    requires InSync(reg)
    ensures var j := Join(reg, r, info);
            && InSync(j)
            && UsersOf(j, r) == UsersOf(reg, r) + {info.userId}
            && Lookup(TableOf(j, r), info.userId) == Some(info)
            && (forall v :: v != info.userId ==> Lookup(TableOf(j, r), v) == Lookup(TableOf(reg, r), v))
            && LogOf(j, r) == LogOf(reg, r)
            && forall o :: o != r ==> SameRoom(reg, j, o)
  {
    JoinKeepsSync(reg, r, info);
    MaterializeSpec(reg, r);
  }

  /**
   * A colour chosen by the rule, while some palette colour is unused in the room, is
   * held by no other member after the join, and distinct colours stay distinct.
   */
  lemma JoinColorIsFresh<T>(reg: Registry<T>, r: RoomId, palette: seq<Color>, info: UserInfo)
    requires InSync(reg)
    requires ColorRule(palette, TableOf(reg, r), info.color)
    requires Available(palette, Colors(TableOf(reg, r))) != []
    ensures var t := TableOf(Join(reg, r, info), r);
            && (forall v :: v != info.userId && Lookup(t, v).Some? ==> Lookup(t, v).value.color != info.color)
            && (DistinctColors(TableOf(reg, r)) ==> DistinctColors(t))
  {
    MaterializeSpec(reg, r);
    PutFreshColor(TableOf(reg, r), info);
  }

  /** In particular, a room with fewer entries than palette colours always gives a fresh colour. */
  lemma JoinColorIsFreshBelowCapacity<T>(reg: Registry<T>, r: RoomId, palette: seq<Color>, info: UserInfo)
    requires InSync(reg)
    requires Distinct(palette)
    requires ColorRule(palette, TableOf(reg, r), info.color)
    requires |TableOf(reg, r)| < |palette|
    ensures var t := TableOf(Join(reg, r, info), r);
            && (forall v :: v != info.userId && Lookup(t, v).Some? ==> Lookup(t, v).value.color != info.color)
            && (DistinctColors(TableOf(reg, r)) ==> DistinctColors(t))
  {
    ChosenColor(palette, TableOf(reg, r), info.color);
    JoinColorIsFresh(reg, r, palette, info);
  }

  /**
   * leaveRoom on a room never referenced changes nothing and creates nothing; on a
   * known room it removes the user from the user set and the table and keeps
   * everything else.
   */
  lemma LeaveSpec<T>(reg: Registry<T>, r: RoomId, u: UserId)
    requires InSync(reg)
    ensures var l := Leave(reg, r, u);
            && InSync(l)
            && (r !in reg.rooms ==> l == reg)
            && (r in reg.rooms ==> r in l.rooms && u !in UsersOf(l, r) && Lookup(TableOf(l, r), u) == None)
            && (forall v :: v != u ==> Lookup(TableOf(l, r), v) == Lookup(TableOf(reg, r), v))
            && UsersOf(l, r) == UsersOf(reg, r) - {u}
            && LogOf(l, r) == LogOf(reg, r)
            && forall o :: o != r ==> SameRoom(reg, l, o)
  {
    if r in reg.rooms {
      SetMembersKeepsSync(reg, r, reg.roomUsers[r] - {u}, Remove(TableOf(reg, r), u));
    }
  }

  /** addOperation on room `r` changes only `r`'s log, as the log's own addOperation would. */
  lemma RoomAddOperationSpec<T>(reg: Registry<T>, r: RoomId, op: T)
    requires InSync(reg)
    ensures var (a, x) := RoomAddOperation(reg, r, op);
            && InSync(a) && x == op
            && LogOf(a, r) == LogAppend(LogOf(reg, r), op)
            && a.roomUsers == Materialize(reg, r).roomUsers && a.userInfo == Materialize(reg, r).userInfo
            && forall o :: o != r ==> SameRoom(reg, a, o)
  {
    MaterializeSpec(reg, r);
    var m := Materialize(reg, r);
    OperationsKeepBounded(LogOf(m, r));
    SetLogKeepsSync(m, r, LogAppend(LogOf(m, r), op));
  }

  /** undo on room `r` changes only `r`'s log, as the log's own undo would. */
  lemma RoomUndoSpec<T>(reg: Registry<T>, r: RoomId)
    requires InSync(reg)
    ensures var (u, x) := RoomUndo(reg, r);
            && InSync(u)
            && Step(LogOf(u, r), x) == LogUndo(LogOf(reg, r))
            && u.roomUsers == Materialize(reg, r).roomUsers && u.userInfo == Materialize(reg, r).userInfo
            && forall o :: o != r ==> SameRoom(reg, u, o)
  {
    MaterializeSpec(reg, r);
    var m := Materialize(reg, r);
    OperationsKeepBounded(LogOf(m, r));
    SetLogKeepsSync(m, r, LogUndo(LogOf(m, r)).log);
  }

  /** redo on room `r` changes only `r`'s log, as the log's own redo would. */
  lemma RoomRedoSpec<T>(reg: Registry<T>, r: RoomId)
    requires InSync(reg)
    ensures var (d, x) := RoomRedo(reg, r);
            && InSync(d)
            && Step(LogOf(d, r), x) == LogRedo(LogOf(reg, r))
            && d.roomUsers == Materialize(reg, r).roomUsers && d.userInfo == Materialize(reg, r).userInfo
            && forall o :: o != r ==> SameRoom(reg, d, o)
  {
    MaterializeSpec(reg, r);
    var m := Materialize(reg, r);
    OperationsKeepBounded(LogOf(m, r));
    SetLogKeepsSync(m, r, LogRedo(LogOf(m, r)).log);
  }

  /** clearCanvas on room `r` empties only `r`'s log. */
  lemma RoomClearSpec<T>(reg: Registry<T>, r: RoomId)
    requires InSync(reg)
    ensures var c := RoomClear(reg, r);
            && InSync(c)
            && LogOf(c, r) == EmptyLog()
            && c.roomUsers == Materialize(reg, r).roomUsers && c.userInfo == Materialize(reg, r).userInfo
            && forall o :: o != r ==> SameRoom(reg, c, o)
  {
    MaterializeSpec(reg, r);
    var m := Materialize(reg, r);
    OperationsKeepBounded(LogOf(m, r));
    SetLogKeepsSync(m, r, LogClear(LogOf(m, r)));
  }

  /** Room `other` reports the same state in two registries that agree on it. */
  lemma SameRoomSameState<T>(a: Registry<T>, b: Registry<T>, other: RoomId)
    requires SameRoom(a, b, other)
    ensures RoomGetState(a, other).1 == RoomGetState(b, other).1
  {
  }

  /** Rooms are isolated: a log operation on one room leaves another room's reported state as it was. */
  lemma RoomsAreIsolated<T>(reg: Registry<T>, r: RoomId, other: RoomId, op: T)
    requires InSync(reg)
    requires r != other
    ensures RoomGetState(RoomAddOperation(reg, r, op).0, other).1 == RoomGetState(reg, other).1
    ensures RoomGetState(RoomUndo(reg, r).0, other).1 == RoomGetState(reg, other).1
    ensures RoomGetState(RoomRedo(reg, r).0, other).1 == RoomGetState(reg, other).1
    ensures RoomGetState(RoomClear(reg, r), other).1 == RoomGetState(reg, other).1
  {
    RoomAddOperationSpec(reg, r, op);
    SameRoomSameState(RoomAddOperation(reg, r, op).0, reg, other);
    RoomUndoSpec(reg, r);
    SameRoomSameState(RoomUndo(reg, r).0, reg, other);
    RoomRedoSpec(reg, r);
    SameRoomSameState(RoomRedo(reg, r).0, reg, other);
    RoomClearSpec(reg, r);
    SameRoomSameState(RoomClear(reg, r), reg, other);
  }

  // ---------------------------------------------------------------------------
  // The class, updated in place
  // ---------------------------------------------------------------------------

  class RoomManager<T> {
    var rooms: map<RoomId, Log<T>>
    var roomUsers: map<RoomId, set<UserId>>
    var userInfo: map<RoomId, Table>
    const userColors: seq<Color>

    /** The three maps as a registry value. */
    function Model(): Registry<T>
      reads this
    {
      Registry(rooms, roomUsers, userInfo)
    }

    /** The maps are in sync; the palette (a constant, set to `Palette`) has distinct colours. */
    ghost predicate Valid()
      reads this
    {
      InSync(Model()) && userColors != [] && Distinct(userColors)
    }

    constructor ()
      ensures Valid()
      ensures Model() == EmptyRegistry()
      ensures userColors == Palette
    {
      rooms := map[];
      roomUsers := map[];
      userInfo := map[];
      userColors := Palette;
      PaletteIsDistinct();
    }

    method GetRoom(roomId: RoomId) returns (room: Log<T>)
      requires Valid()
      modifies this
      ensures Valid()
      ensures (Model(), room) == RoomGet(old(Model()), roomId)
      ensures old(roomId in rooms) ==> rooms == old(rooms) && roomUsers == old(roomUsers) && userInfo == old(userInfo)
    {
      GetRoomSpec(Model(), roomId);
      if roomId !in rooms {
        rooms := rooms[roomId := EmptyLog()];
        roomUsers := roomUsers[roomId := {}];
        userInfo := userInfo[roomId := []];
      }
      room := rooms[roomId];
    }

    method GetRoomState(roomId: RoomId) returns (state: RoomState<T>)
      requires Valid()
      modifies this
      ensures Valid()
      ensures (Model(), state) == RoomGetState(old(Model()), roomId)
      ensures state.userCount == |state.users|
    {
      var room := GetRoom(roomId);
      var users := GetRoomUsers(roomId);
      var s := LogSnapshot(room);
      state := RoomState(s.operations, s.canUndo, s.canRedo, s.operationCount, users, |users|);
    }

    method JoinRoom(roomId: RoomId, userId: UserId, userName: string, joinedAt: int) returns (info: UserInfo)
      requires Valid()
      modifies this
      ensures Valid()
      ensures info.userId == userId && info.userName == userName && info.joinedAt == joinedAt
      ensures ColorRule(userColors, old(TableOf(Model(), roomId)), info.color)
      ensures Model() == Join(old(Model()), roomId, info)
    {
      ghost var before := Model();
      var room := GetRoom(roomId);
      var users := roomUsers[roomId];
      var table := userInfo[roomId];
      var color := PickColor(table);
      info := UserInfo(userId, userName, color, joinedAt);
      roomUsers := roomUsers[roomId := users + {userId}];
      userInfo := userInfo[roomId := Put(table, info)];
      JoinUnfolds(before, roomId, info);
    }

    /**
     * The colour for a user joining a room whose table is `table`: the first palette
     * colour no entry uses, else any palette colour (the source picks one at random).
     */
    method PickColor(table: Table) returns (color: Color)
      requires Valid()
      ensures ColorRule(userColors, table, color)
    {
      var available := Available(userColors, Colors(table));
      if |available| > 0 {
        color := available[0];
      } else {
        var k :| 0 <= k < |userColors|;
        color := userColors[k];
      }
    }

    method LeaveRoom(roomId: RoomId, userId: UserId)
      requires Valid()
      modifies this
      ensures Valid()
      ensures Model() == Leave(old(Model()), roomId, userId)
    {
      LeaveSpec(Model(), roomId, userId);
      if roomId !in roomUsers {
        return;
      }
      var users := roomUsers[roomId];
      var table := userInfo[roomId];
      roomUsers := roomUsers[roomId := users - {userId}];
      userInfo := userInfo[roomId := Remove(table, userId)];
    }

    /** A pure read: the room's entries in insertion order, none for an unknown room. */
    function GetRoomUsers(roomId: RoomId): (users: seq<UserInfo>)
      reads this
      requires Valid()
      ensures users == RoomUsers(Model(), roomId)
      ensures roomId !in rooms ==> users == []
      ensures Ids(users) == UsersOf(Model(), roomId) && UniqueIds(users)
    {
      RoomUsersSpec(Model(), roomId);
      if roomId !in userInfo then [] else userInfo[roomId]
    }

    method AddOperation(roomId: RoomId, operation: T) returns (r: T)
      requires Valid()
      modifies this
      ensures Valid()
      ensures (Model(), r) == RoomAddOperation(old(Model()), roomId, operation)
    {
      RoomAddOperationSpec(Model(), roomId, operation);
      var room := GetRoom(roomId);
      rooms := rooms[roomId := LogAppend(room, operation)];
      r := operation;
    }

    method Undo(roomId: RoomId) returns (r: Option<T>)
      requires Valid()
      modifies this
      ensures Valid()
      ensures (Model(), r) == RoomUndo(old(Model()), roomId)
    {
      RoomUndoSpec(Model(), roomId);
      var room := GetRoom(roomId);
      var step := LogUndo(room);
      rooms := rooms[roomId := step.log];
      r := step.moved;
    }

    method Redo(roomId: RoomId) returns (r: Option<T>)
      requires Valid()
      modifies this
      ensures Valid()
      ensures (Model(), r) == RoomRedo(old(Model()), roomId)
    {
      RoomRedoSpec(Model(), roomId);
      var room := GetRoom(roomId);
      var step := LogRedo(room);
      rooms := rooms[roomId := step.log];
      r := step.moved;
    }

    method ClearCanvas(roomId: RoomId)
      requires Valid()
      modifies this
      ensures Valid()
      ensures Model() == RoomClear(old(Model()), roomId)
    {
      RoomClearSpec(Model(), roomId);
      var room := GetRoom(roomId);
      rooms := rooms[roomId := LogClear(room)];
    }
  }
}
