/** The store the chat core runs against, as a value: the messages table, the
    users table with each user's mailbox, and the membership rows. The
    database primitives the core uses (insert a row, append a row to a user's
    mailbox, look a row up) are functions from one state to the next, so
    that the imperative operations can be proved against them. */
module Mailboxes {
  import opened Records

  /** A row of the users table together with its mailbox: the ids of the
      messages appended to it, oldest first. */
  datatype UserRow = UserRow(id: nat, userName: string, mailbox: seq<nat>)

  datatype StoreState = StoreState(
    messages: map<nat, Message>, // by primary key
    nextId: nat,                 // the key the next inserted message receives
    users: seq<UserRow>,         // in insertion order; names need not be unique
    nextUserId: nat,             // the key the next inserted user receives
    memberships: seq<UserGroup>)

  /** Every message in `u`'s mailbox is stored and owned by `u`. */
  ghost predicate MailboxOwned(messages: map<nat, Message>, u: UserRow) {
    forall id :: id in u.mailbox ==> id in messages && messages[id].owner == u.id
  }

  /** Every stored message owned by `u` is in `u`'s mailbox. */
  ghost predicate OwnedListed(messages: map<nat, Message>, u: UserRow) {
    forall id :: id in messages && messages[id].owner == u.id ==> id in u.mailbox
  }

  /** No key occurs twice in the mailbox. */
  ghost predicate NoRepeats(mailbox: seq<nat>) {
    forall a, b :: 0 <= a < b < |mailbox| ==> mailbox[a] != mailbox[b]
  }

  /** The store's invariant: keys are positive and below the next key, each
      message knows its own key, user keys are distinct, and a user's mailbox
      holds exactly the messages whose owner is that user, each once. So the
      mailbox, kept here as the list of appended keys, is what a query by
      foreign key returns. */
  ghost predicate Consistent(s: StoreState) {
    && 0 < s.nextId && 0 < s.nextUserId
    && (forall id :: id in s.messages ==>
          0 < id < s.nextId && s.messages[id].id == id && s.messages[id].owner < s.nextUserId)
    && (forall j :: 0 <= j < |s.users| ==>
          && 0 < s.users[j].id < s.nextUserId
          && MailboxOwned(s.messages, s.users[j])
          && OwnedListed(s.messages, s.users[j])
          && NoRepeats(s.users[j].mailbox))
    && (forall a, b :: 0 <= a < b < |s.users| ==> s.users[a].id != s.users[b].id)
  }

  /** In a consistent store a message is in at most one mailbox. */
  lemma MailboxesDisjoint(s: StoreState, a: nat, b: nat, id: nat)
    requires Consistent(s)
    requires a < |s.users| && b < |s.users|
    requires id in s.users[a].mailbox && id in s.users[b].mailbox
    ensures a == b
  {
    assert MailboxOwned(s.messages, s.users[a]) && MailboxOwned(s.messages, s.users[b]);
  }

  /** No mailbox holds message `id`. */
  ghost predicate Unlisted(s: StoreState, id: nat) {
    forall j :: 0 <= j < |s.users| ==> id !in s.users[j].mailbox
  }

  /** The user rows and the membership rows of `t` are those of `s`, up to the
      contents of the mailboxes. */
  ghost predicate SameAccounts(s: StoreState, t: StoreState) {
    && |t.users| == |s.users|
    && (forall j :: 0 <= j < |s.users| ==> t.users[j].id == s.users[j].id && t.users[j].userName == s.users[j].userName)
    && t.nextUserId == s.nextUserId
    && t.memberships == s.memberships
  }

  /** The row a lookup of `name` in the users table finds: the first one with
      that name, or none. */
  function FindUser(users: seq<UserRow>, name: string): (r: Option<nat>)
    ensures r.Some? ==> r.value < |users| && users[r.value].userName == name
    ensures r.Some? ==> forall j :: 0 <= j < r.value ==> users[j].userName != name
    ensures r.None? ==> forall j :: 0 <= j < |users| ==> users[j].userName != name
  {
    if users == [] then None
    else if users[0].userName == name then Some(0)
    else match FindUser(users[1..], name)
      case None => None
      case Some(k) => Some(k + 1)
  }

  /** Row `j` is the row a lookup of its own name finds. */
  ghost predicate FirstOfName(users: seq<UserRow>, j: nat)
    requires j < |users|
  {
    FindUser(users, users[j].userName) == Some(j)
  }

  /** Lookups only depend on the names in the users table. */
  lemma FindUserSameNames(a: seq<UserRow>, b: seq<UserRow>, name: string)
    requires |a| == |b|
    requires forall j :: 0 <= j < |a| ==> a[j].userName == b[j].userName
    ensures FindUser(a, name) == FindUser(b, name)
  {
    var ra, rb := FindUser(a, name), FindUser(b, name);
    if ra.Some? && rb.Some? {
      assert !(ra.value < rb.value) && !(rb.value < ra.value);
    }
  }

  datatype DbError = RecordNotFound | QueryFailed

  /** Fetches the message with key `id`. `fault` stands for the database
      failing for a reason other than a missing row. */
  function GetMessage(messages: map<nat, Message>, id: int, fault: bool): (r: Result<Message, DbError>)
    ensures r.Ok? <==> !fault && 0 <= id && id as nat in messages
    ensures r.Ok? ==> r.value == messages[id as nat]
    ensures r.Err? ==> (r.error == RecordNotFound <==> !fault)
  {
    if fault then Err(QueryFailed)
    else if 0 <= id && id as nat in messages then Ok(messages[id as nat])
    else Err(RecordNotFound)
  }

  /** The state after inserting `m`: it is stored under the next key. */
  function Created(s: StoreState, m: Message): StoreState {
    s.(messages := s.messages[s.nextId := m.(id := s.nextId)], nextId := s.nextId + 1)
  }

  /** The state after appending stored message `id` to the mailbox of user row
      `i`: the message now names that user as its owner. */
  function Appended(s: StoreState, i: nat, id: nat): StoreState
    requires i < |s.users| && id in s.messages
  {
    s.(messages := s.messages[id := s.messages[id].(owner := s.users[i].id)],
       users := s.users[i := s.users[i].(mailbox := s.users[i].mailbox + [id])])
  }

  /** Inserting an unowned message keeps the store consistent, and no
      mailbox holds the new key. */
  lemma CreatedConsistent(s: StoreState, m: Message)
    requires Consistent(s) && m.owner == 0
    ensures Consistent(Created(s, m)) && Unlisted(Created(s, m), s.nextId)
  {
    var t := Created(s, m);
    forall j | 0 <= j < |t.users|
      ensures MailboxOwned(t.messages, t.users[j]) && OwnedListed(t.messages, t.users[j])
      ensures s.nextId !in t.users[j].mailbox
    {
      assert MailboxOwned(s.messages, s.users[j]) && OwnedListed(s.messages, s.users[j]);
    }
  }

  /** Appending a message no mailbox holds keeps the store consistent. */
  lemma AppendedConsistent(s: StoreState, i: nat, id: nat)
    requires Consistent(s) && i < |s.users| && id in s.messages && Unlisted(s, id)
    ensures Consistent(Appended(s, i, id))
  {
    var t := Appended(s, i, id);
    forall j | 0 <= j < |t.users|
      ensures MailboxOwned(t.messages, t.users[j]) && OwnedListed(t.messages, t.users[j])
      ensures NoRepeats(t.users[j].mailbox)
    {
      assert MailboxOwned(s.messages, s.users[j]) && OwnedListed(s.messages, s.users[j]);
      assert NoRepeats(s.users[j].mailbox);
      assert j != i ==> s.users[j].id != s.users[i].id;
    }
  }

  /** The state after handing `m` to `recipient`'s mailbox, as the mailbox
      delivery of the core does it (see `DeliveredSpec`). */
  function Delivered(s: StoreState, recipient: string, m: Message): StoreState {
    match FindUser(s.users, recipient)
    case None => s
    case Some(i) => Appended(Created(s, m), i, s.nextId)
  }

  /** A recipient without an account gets nothing and nothing is stored;
      otherwise one record is stored under the next key, owned by the
      recipient, and its key goes at the end of the recipient's mailbox, every
      other mailbox staying as it was. User rows and membership rows are
      untouched either way. */
  lemma DeliveredSpec(s: StoreState, recipient: string, m: Message)
    ensures var t := Delivered(s, recipient, m);
      && SameAccounts(s, t)
      && (FindUser(s.users, recipient).None? ==> t == s)
      && (FindUser(s.users, recipient).Some? ==>
        var i := FindUser(s.users, recipient).value;
        && t.nextId == s.nextId + 1
        && t.messages == s.messages[s.nextId := m.(id := s.nextId, owner := s.users[i].id)]
        && t.users[i].mailbox == s.users[i].mailbox + [s.nextId]
        && (forall j :: 0 <= j < |s.users| && j != i ==> t.users[j] == s.users[j]))
  {
  }

  /** The state after inserting `m` and then, if `recipient` has an account,
      appending it to that mailbox: the handlers' way, which stores the record
      whatever the lookup finds. */
  function CreatedFor(s: StoreState, m: Message, recipient: string): (t: StoreState)
    ensures SameAccounts(s, t)
    ensures t.nextId == s.nextId + 1
    ensures t.messages.Keys == s.messages.Keys + {s.nextId}
    ensures FindUser(s.users, recipient).None? ==> t == Created(s, m)
  {
    var c := Created(s, m);
    match FindUser(c.users, recipient)
    case None => c
    case Some(i) => Appended(c, i, s.nextId)
  }

  /** The two ways of storing a message agree when the recipient has an
      account, and differ otherwise: the delivery stores nothing, the
      handlers' way stores an unowned record. */
  lemma DeliveredVersusCreatedFor(s: StoreState, recipient: string, m: Message)
    ensures FindUser(s.users, recipient).Some? ==> Delivered(s, recipient, m) == CreatedFor(s, m, recipient)
    ensures FindUser(s.users, recipient).None? ==>
      Delivered(s, recipient, m) == s && CreatedFor(s, m, recipient).messages[s.nextId] == m.(id := s.nextId)
  {
  }

  lemma DeliveredConsistent(s: StoreState, recipient: string, m: Message)
    requires Consistent(s)
    ensures Consistent(Delivered(s, recipient, m))
  {
    if FindUser(s.users, recipient).Some? {
      var i := FindUser(s.users, recipient).value;
      var unowned := m.(owner := 0);
      CreatedConsistent(s, unowned);
      AppendedConsistent(Created(s, unowned), i, s.nextId);
      assert Delivered(s, recipient, m) == Appended(Created(s, unowned), i, s.nextId);
    }
  }

  /** The state after delivering each message of `ms`, in order, to the user
      it names as its recipient. */
  function DeliveredAll(s: StoreState, ms: seq<Message>): StoreState
    decreases |ms|
  {
    if ms == [] then s
    else
      var last := ms[|ms| - 1];
      Delivered(DeliveredAll(s, ms[..|ms| - 1]), last.userRecipient, last)
  }

  /** How many messages of `ms` name `u` as their recipient. */
  function CountTo(ms: seq<Message>, u: string): nat
    decreases |ms|
  {
    if ms == [] then 0
    else CountTo(ms[..|ms| - 1], u) + (if ms[|ms| - 1].userRecipient == u then 1 else 0)
  }

  /** The messages of `ms` whose recipient has an account, in order. */
  function KnownCopies(users: seq<UserRow>, ms: seq<Message>): (r: seq<Message>)
    ensures |r| <= |ms|
    ensures forall x :: x in r ==> FindUser(users, x.userRecipient).Some?
    decreases |ms|
  {
    if ms == [] then []
    else
      var last := ms[|ms| - 1];
      KnownCopies(users, ms[..|ms| - 1]) + (if FindUser(users, last.userRecipient).Some? then [last] else [])
  }

  /** The keys `base + n` of the messages `copies[n]` addressed to `name`
      (see `KeysForSpec`). */
  function KeysFor(copies: seq<Message>, name: string, base: nat): seq<nat>
    decreases |copies|
  {
    if copies == [] then []
    else
      var init := copies[..|copies| - 1];
      KeysFor(init, name, base) + (if copies[|copies| - 1].userRecipient == name then [base + |init|] else [])
  }

  /** `KeysFor` lists, in increasing order, exactly the keys `base + n` of the
      messages `copies[n]` addressed to `name`. */
  lemma {:induction false} KeysForSpec(copies: seq<Message>, name: string, base: nat)
    ensures var r := KeysFor(copies, name, base);
      && (forall k :: 0 <= k < |r| ==>
            base <= r[k] < base + |copies| && copies[r[k] - base].userRecipient == name)
      && (forall n :: 0 <= n < |copies| && copies[n].userRecipient == name ==> base + n in r)
      && (forall a, b :: 0 <= a < b < |r| ==> r[a] < r[b])
    decreases |copies|
  {
    if copies != [] {
      var init := copies[..|copies| - 1];
      KeysForSpec(init, name, base);
      var r, rInit := KeysFor(copies, name, base), KeysFor(init, name, base);
      forall n | 0 <= n < |copies| && copies[n].userRecipient == name
        ensures base + n in r
      {
        if n < |init| {
          assert copies[n] == init[n];
        }
      }
      forall k | 0 <= k < |r|
        ensures base <= r[k] < base + |copies| && copies[r[k] - base].userRecipient == name
      {
        if k < |rInit| {
          assert r[k] == rInit[k];
        }
      }
    }
  }

  lemma KeysForSnoc(init: seq<Message>, last: Message, name: string, base: nat)
    ensures KeysFor(init + [last], name, base)
         == KeysFor(init, name, base) + (if last.userRecipient == name then [base + |init|] else [])
  {
    assert (init + [last])[..|init|] == init;
  }

  /** The keys a name with an account gains from the last message of `ms`. */
  lemma KnownKeysStep(users: seq<UserRow>, ms: seq<Message>, name: string, base: nat)
    requires ms != [] && FindUser(users, name).Some?
    ensures var init, last := ms[..|ms| - 1], ms[|ms| - 1];
      KeysFor(KnownCopies(users, ms), name, base)
        == KeysFor(KnownCopies(users, init), name, base)
           + (if last.userRecipient == name then [base + |KnownCopies(users, init)|] else [])
  {
    var init, last := ms[..|ms| - 1], ms[|ms| - 1];
    if FindUser(users, last.userRecipient).Some? {
      assert KnownCopies(users, ms) == KnownCopies(users, init) + [last];
      KeysForSnoc(KnownCopies(users, init), last, name, base);
    } else {
      assert KnownCopies(users, ms) == KnownCopies(users, init);
    }
  }

  /** When `name` has an account, each message addressed to it gets a key. */
  lemma {:induction false} KeysForCount(users: seq<UserRow>, ms: seq<Message>, name: string, base: nat)
    requires FindUser(users, name).Some?
    ensures |KeysFor(KnownCopies(users, ms), name, base)| == CountTo(ms, name)
    decreases |ms|
  {
    if ms != [] {
      KeysForCount(users, ms[..|ms| - 1], name, base);
      KnownKeysStep(users, ms, name, base);
    }
  }

  /** The row a delivery of `m` stores under key `id`. */
  function Stored(users: seq<UserRow>, m: Message, id: nat): Message
    requires FindUser(users, m.userRecipient).Some?
  {
    m.(id := id, owner := users[FindUser(users, m.userRecipient).value].id)
  }

  lemma {:induction false} DeliveredAllAccounts(s: StoreState, ms: seq<Message>)
    ensures SameAccounts(s, DeliveredAll(s, ms))
    decreases |ms|
  {
    if ms != [] {
      DeliveredAllAccounts(s, ms[..|ms| - 1]);
      DeliveredSpec(DeliveredAll(s, ms[..|ms| - 1]), ms[|ms| - 1].userRecipient, ms[|ms| - 1]);
    }
  }

  lemma {:induction false} DeliveredAllConsistent(s: StoreState, ms: seq<Message>)
    requires Consistent(s)
    ensures Consistent(DeliveredAll(s, ms))
    decreases |ms|
  {
    if ms != [] {
      DeliveredAllConsistent(s, ms[..|ms| - 1]);
      var last := ms[|ms| - 1];
      DeliveredConsistent(DeliveredAll(s, ms[..|ms| - 1]), last.userRecipient, last);
    }
  }

  /** Every stored key is below the next key. */
  ghost predicate KeysBelow(s: StoreState) {
    forall id :: id in s.messages ==> id < s.nextId
  }

  /** What a series of deliveries does to the keys of the messages table:
      every key stays below the next key, rows already stored are left as
      they were, and every new key is at least the old next key. */
  lemma {:induction false} DeliveredAllKeys(s: StoreState, ms: seq<Message>)
    requires KeysBelow(s)
    ensures var r := DeliveredAll(s, ms);
      && s.nextId <= r.nextId
      && KeysBelow(r)
      && (forall id :: id in s.messages ==> id in r.messages && r.messages[id] == s.messages[id])
      && (forall id :: id in r.messages ==> id in s.messages || s.nextId <= id)
    decreases |ms|
  {
    if ms != [] {
      var init, last := ms[..|ms| - 1], ms[|ms| - 1];
      DeliveredAllKeys(s, init);
      DeliveredSpec(DeliveredAll(s, init), last.userRecipient, last);
    }
  }

  /** A delivery leaves every row below the next key as it was. */
  lemma DeliveredKeepsRow(s: StoreState, recipient: string, m: Message, id: nat)
    requires id in s.messages && id < s.nextId
    ensures id in Delivered(s, recipient, m).messages
    ensures Delivered(s, recipient, m).messages[id] == s.messages[id]
  {
    DeliveredSpec(s, recipient, m);
  }

  /** A delivery to an account holder stores its row under the next key; the
      row only depends on the names and keys of the users table. */
  lemma DeliveredNewRow(s: StoreState, p: StoreState, m: Message)
    requires SameAccounts(s, p)
    requires FindUser(s.users, m.userRecipient).Some?
    ensures p.nextId in Delivered(p, m.userRecipient, m).messages
    ensures Delivered(p, m.userRecipient, m).messages[p.nextId] == Stored(s.users, m, p.nextId)
  {
    FindUserSameNames(s.users, p.users, m.userRecipient);
    DeliveredSpec(p, m.userRecipient, m);
  }

  /** The next key moves on by one per message whose recipient has an account. */
  lemma {:induction false} DeliveredAllNextId(s: StoreState, ms: seq<Message>)
    ensures DeliveredAll(s, ms).nextId == s.nextId + |KnownCopies(s.users, ms)|
    decreases |ms|
  {
    if ms != [] {
      var init, last := ms[..|ms| - 1], ms[|ms| - 1];
      DeliveredAllNextId(s, init);
      DeliveredAllAccounts(s, init);
      DeliveredSpec(DeliveredAll(s, init), last.userRecipient, last);
      FindUserSameNames(s.users, DeliveredAll(s, init).users, last.userRecipient);
    }
  }

  /** What a series of deliveries writes: the n-th message whose recipient
      has an account is stored under the n-th new key, owned by its
      recipient; messages for unknown recipients are never written. */
  lemma {:induction false} DeliveredAllRow(s: StoreState, ms: seq<Message>, n: nat)
    requires n < |KnownCopies(s.users, ms)|
    ensures s.nextId + n in DeliveredAll(s, ms).messages
    ensures DeliveredAll(s, ms).messages[s.nextId + n] == Stored(s.users, KnownCopies(s.users, ms)[n], s.nextId + n)
    decreases |ms|
  {
    assert ms != [];
    var init, last := ms[..|ms| - 1], ms[|ms| - 1];
    var p := DeliveredAll(s, init);
    assert DeliveredAll(s, ms) == Delivered(p, last.userRecipient, last);
    var k, kInit := KnownCopies(s.users, ms), KnownCopies(s.users, init);
    assert k == kInit + (if FindUser(s.users, last.userRecipient).Some? then [last] else []);
    DeliveredAllNextId(s, init);
    if n < |kInit| {
      DeliveredAllRow(s, init, n);
      DeliveredKeepsRow(p, last.userRecipient, last, s.nextId + n);
      assert k[n] == kInit[n];
    } else {
      assert FindUser(s.users, last.userRecipient).Some? && k[n] == last;
      DeliveredAllAccounts(s, init);
      DeliveredNewRow(s, p, last);
    }
  }

  /** What one delivery does to one mailbox: the new key is appended to the
      mailbox the lookup of the recipient finds, and to no other. */
  lemma DeliveredMailbox(s: StoreState, p: StoreState, m: Message, j: nat)
    requires SameAccounts(s, p) && j < |s.users|
    ensures var t := Delivered(p, m.userRecipient, m);
      && |t.users| == |p.users|
      && t.users[j].mailbox == p.users[j].mailbox +
        (if FirstOfName(s.users, j) && m.userRecipient == s.users[j].userName then [p.nextId] else [])
  {
    FindUserSameNames(s.users, p.users, m.userRecipient);
    DeliveredSpec(p, m.userRecipient, m);
  }

  /** The keys a series of deliveries `ms` appends to mailbox `j` of `s`. */
  ghost function MailboxGain(s: StoreState, ms: seq<Message>, j: nat): seq<nat>
    requires j < |s.users|
  {
    if FirstOfName(s.users, j) then KeysFor(KnownCopies(s.users, ms), s.users[j].userName, s.nextId) else []
  }

  lemma MailboxGainStep(s: StoreState, p: StoreState, ms: seq<Message>, j: nat)
    requires ms != [] && j < |s.users| && SameAccounts(s, p)
    requires p.nextId == s.nextId + |KnownCopies(s.users, ms[..|ms| - 1])|
    requires p.users[j].mailbox == s.users[j].mailbox + MailboxGain(s, ms[..|ms| - 1], j)
    ensures var last := ms[|ms| - 1];
      Delivered(p, last.userRecipient, last).users[j].mailbox == s.users[j].mailbox + MailboxGain(s, ms, j)
  {
    var last := ms[|ms| - 1];
    DeliveredMailbox(s, p, last, j);
    if FirstOfName(s.users, j) {
      KnownKeysStep(s.users, ms, s.users[j].userName, s.nextId);
    }
  }

  /** What a series of deliveries does to one mailbox: it only grows at the
      end, by the keys of the stored messages addressed to its user's name,
      in order, provided that row is the one a lookup of the name finds; any
      other row with the same name gets nothing. */
  lemma {:induction false} DeliveredAllMailbox(s: StoreState, ms: seq<Message>, j: nat)
    requires j < |s.users|
    ensures var r := DeliveredAll(s, ms);
      && |r.users| == |s.users|
      && r.users[j].mailbox == s.users[j].mailbox +
           (if FirstOfName(s.users, j) then KeysFor(KnownCopies(s.users, ms), s.users[j].userName, s.nextId) else [])
    decreases |ms|
  {
    DeliveredAllAccounts(s, ms);
    if ms != [] {
      var init, last := ms[..|ms| - 1], ms[|ms| - 1];
      var p := DeliveredAll(s, init);
      assert DeliveredAll(s, ms) == Delivered(p, last.userRecipient, last);
      DeliveredAllMailbox(s, init, j);
      DeliveredAllAccounts(s, init);
      DeliveredAllNextId(s, init);
      MailboxGainStep(s, p, ms, j);
    }
  }

  /** The keys of the messages below key `n` that answer message `re`, in
      increasing order. */
  function ReplyIds(messages: map<nat, Message>, re: int, n: nat): (r: seq<nat>)
    ensures forall k :: 0 <= k < |r| ==> r[k] < n && r[k] in messages && messages[r[k]].re == re
    ensures forall id :: 0 <= id < n && id in messages && messages[id].re == re ==> id in r
    ensures forall a, b :: 0 <= a < b < |r| ==> r[a] < r[b]
  {
    if n == 0 then []
    else ReplyIds(messages, re, n - 1) + (if n - 1 in messages && messages[n - 1].re == re then [n - 1] else [])
  }

  /** A stored message can be fetched back: after a delivery to an account
      holder the new key yields the stored row, and every key stored before
      yields what it yielded before. */
  lemma GetMessageAfterDelivery(s: StoreState, recipient: string, m: Message, id: int, fault: bool)
    requires Consistent(s)
    requires FindUser(s.users, recipient).Some?
    ensures GetMessage(Delivered(s, recipient, m).messages, s.nextId, false)
         == Ok(m.(id := s.nextId, owner := s.users[FindUser(s.users, recipient).value].id))
    ensures 0 <= id && id as nat in s.messages ==>
      GetMessage(Delivered(s, recipient, m).messages, id, fault) == GetMessage(s.messages, id, fault)
  {
    DeliveredSpec(s, recipient, m);
  }
}
