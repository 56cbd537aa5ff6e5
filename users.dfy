/** The chat relay's membership registry: one in-memory list of
    (connection id, username, room) records, appended to on a successful
    join and spliced on a disconnect, with lookups by id and by room. */
module Users {
  import opened Wrappers

  /** A connection id, as the transport hands it out. */
  type Id = string

  /** One registry record. */
  datatype User = User(id: Id, username: string, room: string)

  const MissingFieldsError: string := "Please provide a username and room name!"
  const UsernameTakenError: string := "Username is already taken!"

  /** A join field counts as given when it is present and not the empty
      string; an absent value and "" are both rejected. */
  predicate Given(v: Option<string>)
  {
    v.Some? && v.value != ""
  }

  /** Some record already holds `username` in `room` (exact, case-sensitive). */
  predicate Taken(s: seq<User>, username: string, room: string)
  {
    exists i :: 0 <= i < |s| && s[i].room == room && s[i].username == username
  }

  /** The registry invariant: no two records share both room and username. */
  predicate NamesUnique(s: seq<User>)
  {
    forall i, j :: 0 <= i < j < |s| && s[i].room == s[j].room ==> s[i].username != s[j].username
  }

  /** Index of the first record whose id is `id`, or -1 when there is none. */
  function FindIndex(s: seq<User>, id: Id): (k: int)
    ensures -1 <= k < |s|
    ensures k == -1 <==> forall i :: 0 <= i < |s| ==> s[i].id != id
    ensures 0 <= k ==> s[k].id == id && forall i :: 0 <= i < k ==> s[i].id != id
  {
    if |s| == 0 then -1
    else if s[0].id == id then 0
    else
      var k := FindIndex(s[1..], id);
      if k == -1 then -1 else k + 1
  }

  /** `s` without the element at index `k`: what `splice(k, 1)` leaves behind. */
  function RemoveAt(s: seq<User>, k: nat): (r: seq<User>)
    requires k < |s|
    ensures |r| == |s| - 1
    ensures forall i :: 0 <= i < k ==> r[i] == s[i]
    ensures forall i :: k <= i < |r| ==> r[i] == s[i + 1]
    ensures multiset(r) == multiset(s) - multiset{s[k]}
  {
    assert s == s[..k] + [s[k]] + s[k + 1..];
    s[..k] + s[k + 1..]
  }

  /** The records whose room is `room`, in list order. */
  function InRoom(s: seq<User>, room: string): (r: seq<User>)
    ensures |r| <= |s|
    ensures forall u :: u in r <==> u in s && u.room == room
  {
    if |s| == 0 then []
    else if s[0].room == room then [s[0]] + InRoom(s[1..], room)
    else InRoom(s[1..], room)
  }

  /** Filtering by room distributes over concatenation: the roster lists
      members in the order in which they joined. */
  lemma {:induction false} InRoomAppend(a: seq<User>, b: seq<User>, room: string)
    ensures InRoom(a + b, room) == InRoom(a, room) + InRoom(b, room)
  {
    if |a| == 0 {
      assert a + b == b;
    } else {
      assert (a + b)[1..] == a[1..] + b;
      InRoomAppend(a[1..], b, room);
    }
  }

  /** The roster holds each record of the room exactly as often as the list
      does, and nothing else. */
  lemma {:induction false} InRoomCount(s: seq<User>, room: string, u: User)
    ensures multiset(InRoom(s, room))[u] == if u.room == room then multiset(s)[u] else 0
  {
    if |s| != 0 {
      assert s == [s[0]] + s[1..];
      InRoomCount(s[1..], room, u);
    }
  }

  /** Adding a record that does not clash keeps the invariant. */
  lemma AppendKeepsNamesUnique(s: seq<User>, u: User)
    requires NamesUnique(s)
    requires !Taken(s, u.username, u.room)
    ensures NamesUnique(s + [u])
  {
  }

  /** Splicing out one record keeps the invariant. */
  lemma RemoveKeepsNamesUnique(s: seq<User>, k: nat)
    requires k < |s|
    requires NamesUnique(s)
    ensures NamesUnique(RemoveAt(s, k))
  {
  }

  /** The records of one room, taken from a valid list, carry distinct usernames. */
  lemma {:induction false} RosterNamesDistinct(s: seq<User>, room: string)
    requires NamesUnique(s)
    ensures forall i, j :: 0 <= i < j < |InRoom(s, room)| ==>
      InRoom(s, room)[i].username != InRoom(s, room)[j].username
  {
    if |s| != 0 {
      var t := InRoom(s[1..], room);
      assert NamesUnique(s[1..]) by {
        forall i, j | 0 <= i < j < |s[1..]| && s[1..][i].room == s[1..][j].room
          ensures s[1..][i].username != s[1..][j].username
        {
          assert s[1..][i] == s[i + 1] && s[1..][j] == s[j + 1];
        }
      }
      RosterNamesDistinct(s[1..], room);
      if s[0].room == room {
        forall j | 0 <= j < |t| ensures t[j].username != s[0].username {
          assert t[j] in t;
          var m :| 0 <= m < |s[1..]| && s[1..][m] == t[j];
          assert s[m + 1] == t[j];
        }
      }
    }
  }

  /** After the first record with `id` is spliced out, a lookup of `id`
      finds the next record with that id if one exists, and nothing otherwise. */
  lemma FindAfterRemove(s: seq<User>, id: Id)
    requires FindIndex(s, id) >= 0
    ensures var k := FindIndex(s, id);
      var m := FindIndex(s[k + 1..], id);
      FindIndex(RemoveAt(s, k), id) == if m == -1 then -1 else k + m
  {
    var k := FindIndex(s, id);
    var r := RemoveAt(s, k);
    var m := FindIndex(s[k + 1..], id);
    if m == -1 {
      forall i | 0 <= i < |r| ensures r[i].id != id {
        if i >= k {
          assert r[i] == s[k + 1..][i - k];
        }
      }
    } else {
      assert r[k + m] == s[k + 1..][m];
      forall i | 0 <= i < k + m ensures r[i].id != id {
        if i >= k {
          assert r[i] == s[k + 1..][i - k];
        }
      }
    }
  }

  /** When the spliced record was the only one with its id, the id is gone. */
  lemma RemoveOnlyWithId(s: seq<User>, id: Id)
    requires FindIndex(s, id) >= 0
    requires forall i :: FindIndex(s, id) < i < |s| ==> s[i].id != id
    ensures FindIndex(RemoveAt(s, FindIndex(s, id)), id) == -1
  {
  }

  /** The registry: the module-level list of records, changed in place. */
  class Registry {
    var users: seq<User>

    /** The registry invariant on the current list. */
    ghost predicate Valid()
      reads this
    {
      NamesUnique(users)
    }

    /** The registry starts out empty, which satisfies the invariant. */
    constructor ()
      ensures users == [] && Valid()
    {
      users := [];
    }

    /** Registers a joining connection: rejects a missing field, then a
        username already present in the room, and otherwise appends. */
    method AddUser(id: Id, username: Option<string>, room: Option<string>) returns (r: Result<User, string>)
      modifies this
      ensures !Given(username) || !Given(room) ==>
        r == Failure(MissingFieldsError) && users == old(users)
      ensures Given(username) && Given(room) && Taken(old(users), username.value, room.value) ==>
        r == Failure(UsernameTakenError) && users == old(users)
      ensures Given(username) && Given(room) && !Taken(old(users), username.value, room.value) ==>
        r == Success(User(id, username.value, room.value)) && users == old(users) + [r.value]
      ensures old(Valid()) ==> Valid()
    {
      if !Given(username) || !Given(room) {
        return Failure(MissingFieldsError);
      }
      if Taken(users, username.value, room.value) {
        return Failure(UsernameTakenError);
      }
      var user := User(id, username.value, room.value);
      if Valid() {
        AppendKeepsNamesUnique(users, user);
      }
      users := users + [user];
      r := Success(user);
    }

    /** Removes and returns the first record with `id`, or returns nothing
        and leaves the list alone when no record has it. */
    method RemoveUser(id: Id) returns (r: Option<User>)
      modifies this
      ensures var k := FindIndex(old(users), id);
        if k == -1 then r == None && users == old(users)
        else r == Some(old(users)[k]) && users == RemoveAt(old(users), k)
      ensures old(Valid()) ==> Valid()
    {
      var index := FindIndex(users, id);
      if index != -1 {
        if Valid() {
          RemoveKeepsNamesUnique(users, index);
        }
        r := Some(users[index]);
        users := RemoveAt(users, index);
      } else {
        r := None;
      }
    }

    /** The first record with `id`, or nothing when no record has it. */
    function GetUser(id: Id): (r: Option<User>)
      reads this
      ensures r.None? <==> forall i :: 0 <= i < |users| ==> users[i].id != id
      ensures r.Some? ==> r.value.id == id
      ensures r.Some? ==> exists k :: 0 <= k < |users| && users[k] == r.value && (forall i :: 0 <= i < k ==> users[i].id != id)
    {
      var k := FindIndex(users, id);
      if k == -1 then None else Some(users[k])
    }

    /** The records of `room`, each as often as in the list and nothing
        else; `InRoomAppend` gives their order. In a valid registry their
        usernames are pairwise distinct. */
    function GetUsersInRoom(room: string): (r: seq<User>)
      reads this
      ensures forall u :: u in r <==> u in users && u.room == room
      ensures forall u :: multiset(r)[u] == if u.room == room then multiset(users)[u] else 0
      ensures Valid() ==> forall i, j :: 0 <= i < j < |r| ==> r[i].username != r[j].username
    {
      var r := InRoom(users, room);
      assert forall u :: multiset(r)[u] == if u.room == room then multiset(users)[u] else 0 by {
        forall u { InRoomCount(users, room, u); }
      }
      assert Valid() ==> forall i, j :: 0 <= i < j < |r| ==> r[i].username != r[j].username by {
        if Valid() { RosterNamesDistinct(users, room); }
      }
      r
    }
  }

  /** Two people join one room under one name, then the same name joins
      another room; the first room's roster holds only the first record. */
  method JoinScenario()
  {
    var registry := new Registry();
    var a := registry.AddUser("c1", Some("alice"), Some("lobby"));
    assert a == Success(User("c1", "alice", "lobby"));
    var b := registry.AddUser("c2", Some("alice"), Some("lobby"));
    assert registry.users[0].room == "lobby" && registry.users[0].username == "alice";
    assert b == Failure(UsernameTakenError);
    var c := registry.AddUser("c2", Some("alice"), Some("office"));
    assert "lobby" != "office";
    assert c == Success(User("c2", "alice", "office"));
    var lobby := registry.GetUsersInRoom("lobby");
    assert registry.users == [User("c1", "alice", "lobby"), User("c2", "alice", "office")];
    assert registry.users[1..] == [User("c2", "alice", "office")];
    assert InRoom(registry.users[1..], "lobby") == [];
    assert lobby == [User("c1", "alice", "lobby")];
    var e := registry.AddUser("c3", Some(""), Some("lobby"));
    assert e == Failure(MissingFieldsError);
  }

  /** Ids are not checked for uniqueness: a connection that joins twice has
      two records, and one disconnect removes only the first of them. */
  method DuplicateIdScenario()
  {
    var registry := new Registry();
    var a := registry.AddUser("c1", Some("alice"), Some("lobby"));
    var b := registry.AddUser("c1", Some("bob"), Some("office"));
    assert b == Success(User("c1", "bob", "office"));
    var gone := registry.RemoveUser("c1");
    assert gone == Some(User("c1", "alice", "lobby"));
    assert registry.GetUser("c1") == Some(User("c1", "bob", "office"));
    var again := registry.RemoveUser("c1");
    assert again == Some(User("c1", "bob", "office"));
    var none := registry.RemoveUser("c1");
    assert none == None;
  }
}
