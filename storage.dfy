/** The per-chat player registry: for every chat, the display name each
    registered user plays under. */
module Storage {
  import opened DebugFormat

  /** Outcome of a registration request, in the order the checks are made. */
  datatype RegisterPlayerResult =
    | InvalidUsername
    | AlreadyRegistered(name: string)
    | UsernameTaken
    | Registered

  /** Outcome of an unregistration request: `Result<(), ()>`. */
  datatype UnregisterResult = Ok | Err

  /** Display name per user id, within one chat. */
  type UserNames = map<int, string>

  /** User names per chat id; a user may play in several chats. */
  type Players = map<int, UserNames>

  /** `char::is_alphanumeric`, restricted to ASCII letters and digits. */
  predicate IsAlphanumeric(c: char) {
    'a' <= c <= 'z' || 'A' <= c <= 'Z' || '0' <= c <= '9'
  }

  /** A username is accepted when it is non-empty and alphanumeric. */
  predicate IsValidUsername(name: string) {
    |name| > 0 && forall i :: 0 <= i < |name| ==> IsAlphanumeric(name[i])
  }

  /** No two users of the chat share a display name. */
  ghost predicate DistinctNames(m: UserNames) {
    forall u, v :: u in m && v in m && u != v ==> m[u] != m[v]
  }

  /** What registration guarantees of every chat: names are pairwise
      distinct and each is a valid username. */
  ghost predicate ChatInvariant(m: UserNames) {
    DistinctNames(m) && forall u :: u in m ==> IsValidUsername(m[u])
  }

  ghost predicate RegistryInvariant(p: Players) {
    forall c :: c in p ==> ChatInvariant(p[c])
  }

  /** The users of a chat; an unknown chat has none. */
  function ChatUsers(p: Players, chat: int): UserNames {
    if chat in p then p[chat] else map[]
  }

  /** `register_player` on the registry value p: the result and the new
      registry. */
  function Register(p: Players, chat: int, user: int, name: string): (out: (RegisterPlayerResult, Players))
    ensures out.0 == InvalidUsername <==> !IsValidUsername(name)
    ensures out.0.AlreadyRegistered? <==> IsValidUsername(name) && chat in p && user in p[chat]
    ensures out.0.AlreadyRegistered? ==> out.0.name == p[chat][user]
    ensures out.0 == UsernameTaken <==>
              IsValidUsername(name) && chat in p && user !in p[chat] && name in p[chat].Values
    ensures out.0 != Registered ==> out.1 == p
    ensures out.0 == Registered ==>
              && out.1.Keys == p.Keys + {chat}
              && out.1[chat].Keys == ChatUsers(p, chat).Keys + {user}
              && out.1[chat][user] == name
              && (forall u :: u in ChatUsers(p, chat) ==> out.1[chat][u] == p[chat][u])
              && (forall c :: c in p && c != chat ==> out.1[c] == p[c])
  {
    if !IsValidUsername(name) then (InvalidUsername, p)
    else if chat !in p then (Registered, p[chat := map[user := name]])
    else if user in p[chat] then (AlreadyRegistered(p[chat][user]), p)
    else if name in p[chat].Values then (UsernameTaken, p)
    else (Registered, p[chat := p[chat][user := name]])
  }

  /** `unregister_player` on the registry value p: the result and the new
      registry. */
  function Unregister(p: Players, chat: int, user: int): (out: (UnregisterResult, Players))
    ensures out.0 == Ok <==> chat in p && user in p[chat]
    ensures out.0 == Err ==> out.1 == p
    ensures out.0 == Ok ==>
              && out.1.Keys == p.Keys
              && out.1[chat].Keys == p[chat].Keys - {user}
              && (forall u :: u in out.1[chat] ==> out.1[chat][u] == p[chat][u])
              && (forall c :: c in p && c != chat ==> out.1[c] == p[c])
  {
    if chat !in p || user !in p[chat] then (Err, p)
    else (Ok, p[chat := p[chat] - {user}])
  }

  /** Some user of a chat that has users. */
  ghost function PickUser(m: UserNames): (u: int)
    requires |m| != 0
    ensures u in m
  {
    assert |m.Keys| == |m|;
    if forall u :: u !in m then
      assert false; 0
    else
      var u :| u in m; u
  }

  /** Removing a present user leaves one user fewer. */
  lemma RemoveUser(m: UserNames, u: int)
    requires u in m
    ensures |m - {u}| == |m| - 1
  {
  }

  /** The multiset of display names of a chat: each user contributes its name
      once, in no particular order. */
  ghost function Names(m: UserNames): multiset<string>
    decreases |m|
  {
    if |m| == 0 then multiset{}
    else
      var u := PickUser(m);
      RemoveUser(m, u);
      multiset{m[u]} + Names(m - {u})
  }

  /** Some user holds every name among the values of a chat. */
  lemma ValuesWitness(m: UserNames, n: string)
    requires n in m.Values
    ensures exists u :: u in m && m[u] == n
  {
    if forall u :: u in m ==> m[u] != n {
      assert false;
    }
  }

  /** Names may be taken apart at any user, not just the one Names picks. */
  lemma {:induction false} NamesRemove(m: UserNames, u: int)
    requires u in m
    ensures Names(m) == multiset{m[u]} + Names(m - {u})
    decreases |m|
  {
    var v := PickUser(m);
    if v != u {
      RemoveUser(m, u);
      RemoveUser(m, v);
      RemoveUser(m - {v}, u);
      var both := m - {v} - {u};
      assert both == m - {u} - {v};
      NamesRemove(m - {v}, u);
      NamesRemove(m - {u}, v);
      calc {
        Names(m);
        multiset{m[v]} + Names(m - {v});
        multiset{m[v]} + (multiset{m[u]} + Names(both));
        multiset{m[u]} + (multiset{m[v]} + Names(both));
        multiset{m[u]} + Names(m - {u});
      }
    }
  }

  /** Within a chat whose names are distinct, every name of the chat occurs
      exactly once among its Names, and nothing else occurs. */
  lemma {:induction false} NamesOfDistinct(m: UserNames)
    requires DistinctNames(m)
    ensures |Names(m)| == |m|
    ensures forall n :: Names(m)[n] == if n in m.Values then 1 else 0
    decreases |m|
  {
    if |m| != 0 {
      var u := PickUser(m);
      var rest := m - {u};
      RemoveUser(m, u);
      NamesRemove(m, u);
      NamesOfDistinct(rest);
      forall n ensures Names(m)[n] == if n in m.Values then 1 else 0 {
        if n == m[u] {
          assert n in m.Values;
          if n in rest.Values {
            ValuesWitness(rest, n);
            assert false;
          }
        } else if n in m.Values {
          ValuesWitness(m, n);
          var v :| v in m && m[v] == n;
          assert rest[v] == n;
        } else if n in rest.Values {
          ValuesWitness(rest, n);
          assert false;
        }
      }
    }
  }

  /** Two equal elements at different positions give a count of at least two. */
  lemma TwoCopies(names: seq<string>, i: int, j: int)
    requires 0 <= i < j < |names|
    ensures names[i] == names[j] ==> multiset(names)[names[i]] >= 2
  {
    var a, b, c := names[..i], names[i..j], names[j..];
    assert names == a + b + c;
    assert b == [names[i]] + b[1..];
    assert c == [names[j]] + c[1..];
  }

  /** A sequence whose multiset has no element twice has no repeats. */
  lemma NoRepeats(names: seq<string>)
    requires forall n :: multiset(names)[n] <= 1
    ensures forall i, j :: 0 <= i < j < |names| ==> names[i] != names[j]
  {
    forall i, j | 0 <= i < j < |names|
      ensures names[i] != names[j]
    {
      TwoCopies(names, i, j);
    }
  }

  /** Any list whose elements are the Names of a valid chat is that chat's
      names, each exactly once, and its rendering reads back as the list. */
  lemma PlayerListExact(p: Players, chat: int, names: seq<string>)
    requires RegistryInvariant(p)
    requires multiset(names) == Names(ChatUsers(p, chat))
    ensures |names| == |ChatUsers(p, chat)|
    ensures forall n :: n in names <==> n in ChatUsers(p, chat).Values
    ensures forall i, j :: 0 <= i < j < |names| ==> names[i] != names[j]
    ensures Parse(Render(names)) == Some(names)
  {
    var m := ChatUsers(p, chat);
    NamesOfDistinct(m);
    assert |names| == |multiset(names)|;
    forall n ensures n in names <==> n in m.Values {
      assert n in names <==> multiset(names)[n] > 0;
    }
    NoRepeats(names);
    forall i | 0 <= i < |names| ensures QuoteFree(names[i]) {
      var n := names[i];
      assert n in m.Values;
      ValuesWitness(m, n);
      var u :| u in m && m[u] == n;
      assert IsValidUsername(n);
    }
    ParseRender(names);
  }

  lemma RegisterPreservesInvariant(p: Players, chat: int, user: int, name: string)
    requires RegistryInvariant(p)
    ensures RegistryInvariant(Register(p, chat, user, name).1)
  {
  }

  lemma UnregisterPreservesInvariant(p: Players, chat: int, user: int)
    requires RegistryInvariant(p)
    ensures RegistryInvariant(Unregister(p, chat, user).1)
  {
  }

  /** A successful registration undone by unregistering the same user leaves
      the chat's users as they were; a chat created by the registration stays,
      with no users. */
  lemma RegisterThenUnregister(p: Players, chat: int, user: int, name: string)
    requires Register(p, chat, user, name).0 == Registered
    ensures Unregister(Register(p, chat, user, name).1, chat, user) == (Ok, p[chat := ChatUsers(p, chat)])
  {
    var users := ChatUsers(p, chat);
    var q := Register(p, chat, user, name).1;
    assert user !in users;
    assert q == p[chat := users[user := name]];
    assert users[user := name] - {user} == users;
    assert Unregister(q, chat, user).1 == q[chat := users];
    assert q[chat := users] == p[chat := users];
  }

  /** Registering an already registered user again reports the name stored
      first and changes nothing, unless the new name is invalid. */
  lemma RegisterSameUserTwice(p: Players, chat: int, user: int, first: string, second: string)
    requires Register(p, chat, user, first).0 == Registered
    ensures var q := Register(p, chat, user, first).1;
            Register(q, chat, user, second) ==
              (if IsValidUsername(second) then AlreadyRegistered(first) else InvalidUsername, q)
  {
  }

  /** A second user asking for a name already taken in the chat is refused,
      and the first registration stays intact. */
  lemma RegisterSameNameTwice(p: Players, chat: int, first: int, second: int, name: string)
    requires first != second && second !in ChatUsers(p, chat)
    requires Register(p, chat, first, name).0 == Registered
    ensures var q := Register(p, chat, first, name).1;
            Register(q, chat, second, name) == (UsernameTaken, q) && q[chat][first] == name
  {
  }

  /** `HashMapBeerTally`: the registry as the bot holds it, updated in place. */
  class HashMapBeerTally {
    var players: Players

    ghost predicate Valid()
      reads this
    {
      RegistryInvariant(players)
    }

    constructor ()
      ensures Valid() && players == map[]
    {
      players := map[];
    }

    method RegisterPlayer(chatId: int, userId: int, username: string) returns (r: RegisterPlayerResult)
      modifies this
      ensures (r, players) == Register(old(players), chatId, userId, username)
      ensures old(Valid()) ==> Valid()
    {
      assert Valid() ==> RegistryInvariant(Register(players, chatId, userId, username).1) by {
        if Valid() {
          RegisterPreservesInvariant(players, chatId, userId, username);
        }
      }
      if !IsValidUsername(username) {
        return InvalidUsername;
      }
      if chatId !in players {
        var usernames := map[userId := username];
        players := players[chatId := usernames];
        return Registered;
      }
      var usernames := players[chatId];
      if userId in usernames {
        return AlreadyRegistered(usernames[userId]);
      } else if username in usernames.Values {
        return UsernameTaken;
      }
      players := players[chatId := usernames[userId := username]];
      return Registered;
    }

    method UnregisterPlayer(chatId: int, userId: int) returns (r: UnregisterResult)
      modifies this
      ensures (r, players) == Unregister(old(players), chatId, userId)
      ensures old(Valid()) ==> Valid()
    {
      assert Valid() ==> RegistryInvariant(Unregister(players, chatId, userId).1) by {
        if Valid() {
          UnregisterPreservesInvariant(players, chatId, userId);
        }
      }
      if chatId !in players {
        return Err;
      }
      var usernames := players[chatId];
      if userId !in usernames {
        return Err;
      }
      players := players[chatId := usernames - {userId}];
      return Ok;
    }

    /** The Debug rendering of the chat's names in some order; the registry
        is left as it is (no modifies clause). */
    method PlayerList(chatId: int) returns (s: string)
      ensures exists names :: multiset(names) == Names(ChatUsers(players, chatId)) && s == Render(names)
      ensures chatId !in players ==> s == "[]"
    {
      var listOfPlayers: seq<string> := [];
      if chatId in players {
        var usernames := players[chatId];
        var rest := usernames;
        while |rest| != 0
          invariant multiset(listOfPlayers) + Names(rest) == Names(usernames)
          decreases |rest|
        {
          assert PickUser(rest) in rest;
          var u :| u in rest;
          NamesRemove(rest, u);
          assert rest.Keys == (rest - {u}).Keys + {u};
          listOfPlayers := listOfPlayers + [rest[u]];
          rest := rest - {u};
        }
      }
      s := Render(listOfPlayers);
    }
  }
}
