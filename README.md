# Shared whiteboard rooms: operation log and room registry

This project models the non-transport core of a multi-user whiteboard server in
Dafny. It covers two parts:

- `DrawingState` (drawing-state.js) is one room's operation log. `operations`
  is both the replayable canvas history and the source that undo takes from.
  `undoStack` holds undone operations so they can be redone. A fixed capacity of
  10000 evicts the oldest operation on append.
- `RoomManager` (rooms.js) is the registry of rooms. It keeps three maps keyed
  by room id: the room's log, its set of user ids, and its membership table
  (user id to `{userId, userName, color, joinedAt}`). A room gets all three
  entries on first reference. A joining user gets the first palette colour
  that nobody in the room uses. Undo, redo, append and clear go to the named
  room's log.

Each component is written twice: once as a value with one function per
operation, and once as a class whose methods update its fields in place.

- `OperationLog.Log` with `LogAppend`, `LogUndo`, `LogRedo`, `LogClear` and
  `LogSnapshot` is the value form of the log. `OperationLog.DrawingState` is
  the class. Each of its methods is proved to reach exactly the state the
  matching function computes.
- `RoomRegistry.Registry` with `RoomGet`, `RoomGetState`, `Join`, `Leave`,
  `RoomUsers` and the four `Room*` delegates is the value form of the registry.
  `RoomRegistry.RoomManager` is the class, with its three maps as fields.
- The properties are proved as lemmas about the functions.

Operation payloads are an opaque type parameter `T`. A room's membership table
is a JavaScript `Map`, so it iterates in insertion order, and `getRoomUsers`
exposes that order. It is therefore modelled (`Membership.Table`) as a sequence
of entries with distinct user ids. `Put` replaces an existing entry where it
stands, as `Map.set` does, and `Remove` drops it, as `Map.delete` does.

Some behaviours of the code are easy to misread, so the model states them outright:

- Undo on an empty history returns nothing and leaves both stacks unchanged
  (`UndoTakesTail`). The undo stack is kept, so redo stays possible.
- Undo followed by redo restores both stacks exactly (`UndoThenRedo`). In
  particular the undo stack is back to what it held before, not empty.
- The colour rule counts the joining user's own earlier entry as "in use".
  A fresh colour is guaranteed whenever some palette colour is unused in the
  room (`JoinColorIsFresh`), which always holds while the room has fewer
  entries than palette colours (`JoinColorIsFreshBelowCapacity`). When every
  palette colour is in use, for instance after a user rejoins a room whose
  entries, their own included, hold all fifteen colours, the colour is
  random and may be one somebody else holds.

## Model

| member | source | states |
|---|---|---|
| `OperationLog.AppendEvictsOldest` | drawing-state.js:8-18 | appending empties the undo stack and puts the operation last; below capacity the history grows by exactly that operation; at capacity the oldest entry is dropped first |
| `OperationLog.AppendKeepsNewest` | drawing-state.js:11-15 | from a history within capacity, one append keeps exactly the newest 10000 of the history plus the operation |
| `OperationLog.AppendAllKeepsNewest` | drawing-state.js:8-17 | any run of appends keeps exactly the newest 10000 of the old history followed by the appended operations, in order, and leaves nothing to redo |
| `OperationLog.AppendsFromEmpty` | drawing-state.js:8-17 | from a fresh log, appends within capacity are kept in exactly the order made; beyond capacity the history is exactly the last 10000 appended |
| `OperationLog.OperationsKeepBounded` | drawing-state.js:5-44 | append, undo, redo and clear all keep the combined size of both stacks within 10000, so the history never exceeds the capacity even though redo does not check it |
| `OperationLog.RedoNeedsBounded` | drawing-state.js:36-37 | without that invariant, redo on a full history with a pending redo would grow it to 10001 entries |
| `OperationLog.UndoTakesTail` | drawing-state.js:20-29 | undo returns None exactly when the history is empty, and then changes nothing; otherwise it returns the last operation, removes it from the history and pushes it on the undo stack |
| `OperationLog.RedoTakesTop` | drawing-state.js:31-40 | redo returns None exactly when the undo stack is empty, and then changes nothing; otherwise it pops the undo stack's top, appends it to the history and returns it |
| `OperationLog.UndoThenRedo` | drawing-state.js:25-39 | on a non-empty history, redo right after undo restores both stacks exactly and returns the operation undo returned |
| `OperationLog.RedoThenUndo` | drawing-state.js:25-39 | with a pending redo, undo right after redo restores both stacks exactly and returns the operation redo returned |
| `OperationLog.UndoKeepsTimeline` | drawing-state.js:25-26 | undo leaves the sequence history-followed-by-reversed-undo-stack unchanged, hence its multiset and the total count; it only moves the boundary |
| `OperationLog.RedoKeepsTimeline` | drawing-state.js:36-37 | redo leaves the same sequence, its multiset and the total count unchanged |
| `OperationLog.AppendInvalidatesRedo` | drawing-state.js:8-17 | after an append, redo returns None and undo returns the appended operation |
| `OperationLog.SnapshotPredictsUndoRedo` | drawing-state.js:47-54 | the snapshot's canUndo and canRedo are true exactly when undo and redo would return an operation; its count is the length of its copy of the history |
| `OperationLog.ClearEmpties` | drawing-state.js:42-45 | clear leaves both stacks empty whatever the prior state, and the snapshot then reports nothing to undo or redo |
| `OperationLog.UndoThenAppendScenario` | drawing-state.js:8-39 | A, B, undo (returns B), C: redo then returns None and the history is [A, C] |
| `OperationLog.DrawingState.constructor` | drawing-state.js:2-6 | a new log has two empty stacks and satisfies the capacity invariant |
| `OperationLog.DrawingState.AddOperation` | drawing-state.js:8-18 | updates the fields in place to the state `LogAppend` (append, then evict past capacity) gives, keeps the invariant, and returns the operation unchanged |
| `OperationLog.DrawingState.Undo` | drawing-state.js:20-29 | updates the fields in place to the state `LogUndo` gives and returns the operation it moved, or None |
| `OperationLog.DrawingState.Redo` | drawing-state.js:31-40 | updates the fields in place to the state `LogRedo` gives and returns the operation it moved, or None |
| `OperationLog.DrawingState.Clear` | drawing-state.js:42-45 | reassigns both stacks to empty, keeping the invariant |
| `OperationLog.DrawingState.GetState` | drawing-state.js:47-54 | reports the history, canUndo iff the history is non-empty, canRedo iff the undo stack is non-empty, and the count, without changing the object |
| `Membership.Put` | rooms.js:55 | storing an entry makes it the one found under its id, adds its id to the key set, changes no other user's entry, keeps ids unique, appends a new id at the end, and puts a replacing entry at exactly the position of the entry it replaces, every other entry staying where it was |
| `Membership.Remove` | rooms.js:67 | deleting a user removes exactly that id from the key set, leaves every other user's entry, keeps ids unique and colours distinct, does nothing for an absent user, and otherwise removes exactly that one entry, the rest keeping their order |
| `Membership.Available` | rooms.js:41-42 | the available colours are exactly the palette colours not in use |
| `Membership.AvailableStartsAtFirstUnused` | rooms.js:42-44 | the first available colour is the first unused colour in palette order |
| `Membership.PaletteNotExhausted` | rooms.js:41-44 | with distinct palette colours and fewer colours in use than the palette holds, some colour is available |
| `Membership.PaletteIsDistinct` | rooms.js:8-12 | the palette has 15 pairwise distinct colours |
| `Membership.ChosenColor` | rooms.js:41-45 | the chosen colour is always a palette colour; whenever some palette colour is unused it is the first unused one in palette order, which no entry holds; with fewer entries than colours some colour is unused |
| `Membership.PutFreshColor` | rooms.js:41-55 | an entry stored with a colour nobody holds has a colour that no other member has, and a table with distinct colours keeps them distinct |
| `RoomRegistry.EmptyRegistryInSync` | rooms.js:4-7 | the three empty maps satisfy the registry invariant |
| `RoomRegistry.MaterializeSpec` | rooms.js:15-20 | a first reference creates the room in all three maps at once, keeps them in sync, and changes no room's contents |
| `RoomRegistry.GetRoomSpec` | rooms.js:15-23 | getRoom keeps the maps in sync; a new room starts with an empty log, no users and an empty table; a known room's log is returned and no map changes, so a second call changes nothing; other rooms are untouched |
| `RoomRegistry.RoomUsersSpec` | rooms.js:70-76 | an unknown room lists no users; otherwise the listed entries are exactly the room's user set, each once |
| `RoomRegistry.GetRoomStateSpec` | rooms.js:25-34 | getRoomState creates the room like getRoom, reports its log's snapshot, lists exactly its members, and userCount is the number listed |
| `RoomRegistry.JoinKeepsSync` | rooms.js:36-58 | joinRoom keeps the three maps in sync and each room's user set equal to its table's key set, and leaves other rooms alone |
| `RoomRegistry.JoinSpec` | rooms.js:47-57 | after joinRoom the user's entry is the new one, replacing any earlier entry, the user is in the user set, other users' entries, the room's log and other rooms are unchanged |
| `RoomRegistry.JoinColorIsFresh` | rooms.js:41-55 | whenever some palette colour is unused in the room, the colour chosen by the rule is held by no other member after the join, and distinct colours stay distinct |
| `RoomRegistry.JoinColorIsFreshBelowCapacity` | rooms.js:41-55 | in particular, in a room with fewer entries than palette colours the chosen colour is fresh in the same sense |
| `RoomRegistry.LeaveSpec` | rooms.js:60-68 | leaveRoom on a room never referenced changes nothing and creates nothing; on a known room it removes the user from the user set and the table, keeps the maps in sync and touches nothing else |
| `RoomRegistry.RoomAddOperationSpec` | rooms.js:78-81 | addOperation on a room changes only that room's log, exactly as the log's own append does, and returns the operation |
| `RoomRegistry.RoomUndoSpec` | rooms.js:83-86 | undo on a room changes only that room's log, exactly as the log's own undo does, with the same result |
| `RoomRegistry.RoomRedoSpec` | rooms.js:88-91 | redo on a room changes only that room's log, exactly as the log's own redo does, with the same result |
| `RoomRegistry.RoomClearSpec` | rooms.js:93-96 | clearCanvas on a room empties only that room's log |
| `RoomRegistry.RoomsAreIsolated` | rooms.js:78-96 | append, undo, redo or clear on one room leaves any other room's reported state unchanged |
| `RoomRegistry.RoomManager.constructor` | rooms.js:4-13 | starts with three empty maps and the fifteen-colour palette, satisfying the invariant |
| `RoomRegistry.RoomManager.GetRoom` | rooms.js:15-23 | updates the maps to the state `RoomGet` gives and returns the room's log; for a known room no map changes |
| `RoomRegistry.RoomManager.GetRoomState` | rooms.js:25-34 | updates the maps and reports exactly what `RoomGetState` gives; userCount equals the number of users listed |
| `RoomRegistry.RoomManager.PickColor` | rooms.js:41-45 | returns the first palette colour unused in the table, or some palette colour when every colour is in use |
| `RoomRegistry.RoomManager.JoinRoom` | rooms.js:36-58 | returns an entry with the given id, name and time and a colour that obeys the colour rule; the maps become what `Join` gives for that entry |
| `RoomRegistry.RoomManager.LeaveRoom` | rooms.js:60-68 | the maps become what `Leave` gives, so an unknown room is not created |
| `RoomRegistry.RoomManager.GetRoomUsers` | rooms.js:70-76 | a read that lists the room's entries in insertion order, none for an unknown room; their ids are exactly the room's user set, each once |
| `RoomRegistry.RoomManager.AddOperation` | rooms.js:78-81 | the maps become what `RoomAddOperation` gives, and the operation is returned |
| `RoomRegistry.RoomManager.Undo` | rooms.js:83-86 | the maps become what `RoomUndo` gives, and its result is returned |
| `RoomRegistry.RoomManager.Redo` | rooms.js:88-91 | the maps become what `RoomRedo` gives, and its result is returned |
| `RoomRegistry.RoomManager.ClearCanvas` | rooms.js:93-96 | the maps become what `RoomClear` gives |

## Left out

- server.js is not part of this model. It is the socket and HTTP wiring: CORS, connection and event handlers, broadcasts to room members, listening and logging. It only forwards calls into `RoomManager`.
- `Date.now()` for `joinedAt` is taken as the `joinedAt` parameter of `JoinRoom`.
- The random fallback colour (`Math.random()`) is a nondeterministic choice of a palette index in `PickColor`. Its contract only says that the colour is in the palette.
- Operation contents (stroke data, server-assigned ids and timestamps) are the opaque type `T`.
- `RoomManager` stores each room's log as a value, not as a shared `DrawingState` object. `getRoom` in the source returns that object, and a caller could mutate a room through it outside the registry. The model does not capture this aliasing. Every change to a room goes through the registry's own methods.
- `getState` and `getRoomUsers` copy arrays (`[...]`, `Array.from`). The model returns sequences, which are values, so "the caller cannot mutate internal state through the copy" holds by construction and is not stated separately.
- `Remove` drops every entry with the given id, while `Map.delete` drops the single entry stored under a key. The two agree because a table's ids are unique, which the registry invariant keeps.
- The registry functions read a missing map entry as empty (`LogOf`, `UsersOf`, `TableOf`). The source would fail on such a lookup, but this happens only when the three maps are out of sync, which the invariant rules out.
