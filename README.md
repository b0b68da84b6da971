# Beer tally: the per-chat player registry

This project models the storage core of a group-chat bot that tracks who
plays in the beer tally of each chat. `HashMapBeerTally` keeps a two-level
map: chat id → (user id → display name). A user can play in several chats,
under the same name or a different one. It offers three operations:

- `register_player` checks the username first: it must be non-empty and
  alphanumeric. It then refuses a user who already has an entry in the chat,
  returning that user's stored name. Next it refuses a name that another user
  of the chat already holds. Otherwise it stores the name and creates the
  chat's map if this is the chat's first player.
- `unregister_player` removes one user's entry. It fails when the chat is
  unknown or the user has no entry there. The chat's key stays, even when
  its map becomes empty.
- `player_list` renders the chat's names the way Rust's `{:?}` prints a
  `Vec<String>`, for example `["alice", "bob"]`, in the map's iteration order.

Files:

- `storage.dfy` (module `Storage`) holds the result types and the
  username check. It also has `Register` and `Unregister`, which compute each
  operation on a registry value and serve as its specification. The class
  `HashMapBeerTally` has the field `players: map<int, map<int, string>>`,
  which its methods update in place. Each method is proved equal to its
  specification function. `player_list` collects the names in a loop, and
  its result is specified up to permutation through `Names`, the multiset of
  a chat's display names. The lemmas prove the registry invariant: within
  every chat, names are pairwise distinct, valid usernames. They also prove
  the register/unregister round trip and the exactness of the list.
- `debug_format.dfy` (module `DebugFormat`) gives the `{:?}` rendering of a
  vector of strings and a reader for it. They are proved inverse on strings
  without double quotes, so the printed list names exactly the chat's
  players.

`PlayerList` has no `modifies` clause. This states that listing leaves the
registry unchanged, even though the source takes `&mut self`.

## Model

| member | source | states |
|---|---|---|
| `Storage.Register` | src/storage.rs:36-65 | The checks run in the source's order. The result is `InvalidUsername` exactly when the name is empty or not alphanumeric. It is `AlreadyRegistered` exactly when the user is already in the chat, and then it carries the stored name, not the requested one. It is `UsernameTaken` exactly when another user of the chat holds the same name. Every result except `Registered` leaves the registry unchanged. On `Registered`, the only change is the new (chat, user) entry. An unknown chat gets a map holding only this user. |
| `Storage.Unregister` | src/storage.rs:67-75 | The result is `Ok` exactly when the chat exists and contains the user. `Err` changes nothing. After `Ok`, the user is gone from the chat, every other entry is unchanged, and the chat's key remains. |
| `Storage.HashMapBeerTally.constructor` | src/storage.rs:28-32 | A new tally has no chats and satisfies the registry invariant. |
| `Storage.HashMapBeerTally.RegisterPlayer` | src/storage.rs:36-65 | The in-place update gives exactly the result and the new map of `Register`, and it preserves the registry invariant. |
| `Storage.HashMapBeerTally.UnregisterPlayer` | src/storage.rs:67-75 | The in-place removal gives exactly the result and the new map of `Unregister`, and it preserves the registry invariant. |
| `Storage.HashMapBeerTally.PlayerList` | src/storage.rs:77-87 | The output is the `{:?}` rendering of some ordering of the chat's names, each user's name counted once. An unknown chat yields `"[]"`. The registry is not modified. |
| `Storage.RegisterPreservesInvariant` | src/storage.rs:42-62 | Registration keeps every chat's names pairwise distinct and valid. |
| `Storage.UnregisterPreservesInvariant` | src/storage.rs:67-74 | Unregistration keeps every chat's names pairwise distinct and valid. |
| `Storage.RegisterThenUnregister` | src/storage.rs:46-71 | Unregistering a user right after registering them succeeds. The chat's user map returns to its earlier value, or to an empty map if the registration created the chat. |
| `Storage.RegisterSameUserTwice` | src/storage.rs:42-57 | A second registration of the same (chat, user) reports the first name and changes nothing. The exception is an invalid second name, which is reported as `InvalidUsername` because that check comes first. |
| `Storage.RegisterSameNameTwice` | src/storage.rs:54-59 | A second user asking for a name already taken in the chat gets `UsernameTaken`, and the first user keeps the name. |
| `Storage.NamesOfDistinct` | src/storage.rs:80-84 | For a chat with distinct names, the collected names contain every name of the chat exactly once and nothing else. There are as many as the chat has users. |
| `Storage.PlayerListExact` | src/storage.rs:77-87 | Take any list of a valid chat's names in any order. It has one entry per user, it contains exactly the chat's names, and it has no repeats. Its rendering parses back to the same list. |
| `DebugFormat.Render` | src/storage.rs:86 | The output is bracketed, and it is `"[]"` exactly when the list is empty. |
| `DebugFormat.ParseRender` | src/storage.rs:86 | On quote-free strings, parsing the rendering gives back the original list, elements and order. |

## Left out

- src/main.rs is not part of this model. It is the bot's network transport and command loop, and it never calls the registry.
- src/tally.rs is not part of this model. `UserTally` is a data struct with only a constructor, and nothing in the registry uses it.
- The `BeerTally` trait is not modelled as an interface. It has one implementation, so `HashMapBeerTally` carries the three operations directly.
- IsValidUsername: `char::is_alphanumeric` accepts every Unicode letter and digit, but the model accepts only ASCII letters and digits. Full Unicode tables are out of scope.
- DebugFormat.Render: models `{:?}` only for strings that need no escaping. This holds for every stored name, because valid names are ASCII alphanumeric.
- PlayerList: the order of the names follows `HashMap` iteration order, which is unspecified. The contract fixes the names only up to permutation.
- Chat and user ids are `i64` in the source and unbounded integers here. No arithmetic is done on them.
- The wider design of this bot also describes random selection, record keeping, renaming and a `Players:` list format. None of these exist in this version of the source, so they are not modelled. Where that description and the code disagree, the model follows the code. One example: registering the same user twice with an invalid second name gives `InvalidUsername`, not `AlreadyRegistered`.
