# Chat relay membership registry, in Dafny

This project models the membership registry of a small real-time group chat
relay (`src/utils/users.js`). The registry is one in-memory list of
`{id, username, room}` records, where `id` is a connection id. Four operations
work on it:

- `addUser` checks that a username and a room were given. It rejects a
  username that is already present in that room. Otherwise it appends the new
  record and returns it.
- `removeUser` splices out the first record with a connection id and returns it.
- `getUser` returns the first record with a connection id.
- `getUsersInRoom` returns the records of one room, in list order.

`wrappers.dfy` holds `Option` and `Result`. `users.dfy` holds module `Users`:

- the `User` record and the two error strings;
- pure specification functions over `seq<User>`: `FindIndex` (first match by
  id, or -1), `RemoveAt` (what `splice(k, 1)` leaves), `InRoom` (filter by room);
- the invariant `NamesUnique`: no two records share both room and username;
- lemmas about these functions;
- class `Registry`, whose field `users: seq<User>` is the module-level array.
  Its methods `AddUser` and `RemoveUser` reassign that field. `GetUser` and
  `GetUsersInRoom` are functions that read it.

Two client methods verify two concrete call sequences against the contracts.
`JoinScenario`: alice joins lobby; a second alice in lobby is refused; alice
joins office; the lobby roster holds only the first record. `DuplicateIdScenario`:
one connection joins twice and has two records; each disconnect removes only
the first remaining one.

Connection ids are not checked for uniqueness: `addUser` compares only room
and username (src/utils/users.js:11-13), so the model lets ids repeat.
`RemoveUser` and `GetUser` act on the first matching record, and
`FindAfterRemove` states what a later lookup of the same id finds.

A username or room counts as missing when it is absent or the empty string
(`Option<string>`: `None` or `Some("")`). This matches the source's
`!username || !room` test on strings. Matching of rooms, usernames and ids is
exact and case-sensitive.

## Model

| member | source | states |
|---|---|---|
| `Users.FindIndex` | src/utils/users.js:27 | the result is -1 exactly when no record has the id; otherwise it is the index of a record with that id, and no earlier record has it |
| `Users.RemoveAt` | src/utils/users.js:29 | splicing index k removes exactly one element: the length drops by one, the elements before k stay in place, the later ones shift down by one, and the multiset loses one copy of the removed record |
| `Users.InRoom` | src/utils/users.js:37-39 | a record is in the filtered list exactly when it is in the list and its room is the given room; the result is no longer than the list |
| `Users.InRoomAppend` | src/utils/users.js:38 | filtering by room distributes over concatenation, so the roster keeps list (join) order, and a newly appended record lands at the roster's end |
| `Users.InRoomCount` | src/utils/users.js:38 | the roster holds each record of the room as often as the list does, and no record of another room |
| `Users.AppendKeepsNamesUnique` | src/utils/users.js:11-22 | appending a record whose (room, username) is not taken keeps "no two records share room and username" |
| `Users.RemoveKeepsNamesUnique` | src/utils/users.js:26-31 | removing any one record keeps "no two records share room and username" |
| `Users.RosterNamesDistinct` | src/utils/users.js:11-22 | in a list that keeps the invariant, the roster of any room has pairwise distinct usernames, so it needs no de-duplication |
| `Users.FindAfterRemove` | src/utils/users.js:26-35 | after the first record with an id is removed, a lookup of that id finds the next record with the id (shifted down by one), or nothing when there is none |
| `Users.RemoveOnlyWithId` | src/utils/users.js:26-35 | when the removed record was the only one with its id, a later lookup or removal of that id finds nothing |
| `Users.Registry.constructor` | src/utils/users.js:1 | the registry starts empty and satisfies the invariant |
| `Users.Registry.AddUser` | src/utils/users.js:3-24 | a missing or empty username or room gives "Please provide a username and room name!" and leaves the list unchanged; a (room, username) pair already present gives "Username is already taken!" and leaves the list unchanged; otherwise it returns `{id, username, room}` and the new list is the old one with that record appended; the invariant is preserved |
| `Users.Registry.RemoveUser` | src/utils/users.js:26-31 | with no record for the id it returns nothing and leaves the list unchanged; otherwise it returns the first record with the id and the new list is the old one with exactly that index removed; the invariant is preserved |
| `Users.Registry.GetUser` | src/utils/users.js:33-35 | returns nothing exactly when no record has the id; otherwise returns a record with that id that is the first such record in the list |
| `Users.Registry.GetUsersInRoom` | src/utils/users.js:37-39 | returns exactly the records whose room equals the argument, each as often as in the list, and nothing else; when the registry invariant holds, their usernames are pairwise distinct; it only reads the list |

## Left out

- `src/index.js` is not part of this model. It holds the transport wiring:
  static file serving, socket events, room joins and broadcasts, logging and
  the listening port. The profanity filter it calls lives in an external
  library (`bad-words`), and the message builders in `./utils/messages`,
  which is not part of this model.
- In that handler, `addUser({ id: socket.id, ...options })` lets a client's
  own `id` field replace the socket id. This is also not modelled. The
  registry takes whatever id it is given.
- Non-string field values are not modelled. The source accepts any truthy
  value (a number, an object) as a username or room; the model takes strings
  only, with `None` standing for every falsy value.
- Connection ids are modelled as strings and compared exactly. The source
  compares them with `===`.
- Records are modelled as values. The source hands out references to its
  stored record objects (`addUser`'s result, `getUser`, `getUsersInRoom`), so
  a caller that changed one would change the registry; that aliasing is not
  captured. No caller in `src/index.js` changes a record.
- Each operation runs to completion, so the model has no concurrency.
- The list has no size bound, and neither does the source's.
