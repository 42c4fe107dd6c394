/** The database handle every operation receives, as an object whose tables
    the operations update in place. */
module Storage {
  import opened Records
  import opened Mailboxes

  class Store {
    var messages: map<nat, Message>
    var nextId: nat
    var users: seq<UserRow>
    var nextUserId: nat
    var memberships: seq<UserGroup>

    /** The tables as a value. */
    ghost function State(): StoreState
      reads this
    {
      StoreState(messages, nextId, users, nextUserId, memberships)
    }

    ghost predicate Valid()
      reads this
    {
      Consistent(State())
    }

    /** An empty messages table and an empty users table over the given
        membership rows (no operation of the service writes membership rows). */
    constructor (rows: seq<UserGroup>)
      ensures Valid()
      ensures messages == map[] && users == [] && memberships == rows
    {
      messages := map[];
      nextId := 1;
      users := [];
      nextUserId := 1;
      memberships := rows;
    }

    /** Inserts `m`, which belongs to no user yet, as a new row and returns
        its key. */
    method Create(m: Message) returns (id: nat)
      requires Valid() && m.owner == 0
      modifies this
      ensures Valid() && Unlisted(State(), id)
      ensures id == old(nextId)
      ensures State() == Created(old(State()), m)
    {
      CreatedConsistent(State(), m);
      id := nextId;
      messages := messages[id := m.(id := id)];
      nextId := nextId + 1;
    }

    /** Appends stored message `id`, which no mailbox holds yet, to the
        mailbox of user row `i`. */
    method Append(i: nat, id: nat)
      requires Valid() && i < |users| && id in messages && Unlisted(State(), id)
      modifies this
      ensures Valid()
      ensures State() == Appended(old(State()), i, id)
    {
      AppendedConsistent(State(), i, id);
      messages := messages[id := messages[id].(owner := users[i].id)];
      users := users[i := users[i].(mailbox := users[i].mailbox + [id])];
    }

    /** Inserts a user row named `name` with an empty mailbox. */
    method CreateUser(name: string) returns (u: UserRow)
      requires Valid()
      modifies this
      ensures Valid()
      ensures u == UserRow(old(nextUserId), name, [])
      ensures users == old(users) + [u] && nextUserId == old(nextUserId) + 1
      ensures messages == old(messages) && nextId == old(nextId) && memberships == old(memberships)
    {
      u := UserRow(nextUserId, name, []);
      users := users + [u];
      nextUserId := nextUserId + 1;
      assert forall j :: 0 <= j < |old(users)| ==> users[j] == old(users)[j];
      assert OwnedListed(messages, u);
    }
  }
}
