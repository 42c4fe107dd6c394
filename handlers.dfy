/** The HTTP handlers of the service, reduced to what they do to the store
    and the status they answer with. They build and store records inline and
    do not go through `Send` or `Reply`. */
module Handlers {
  import opened Records
  import opened Mailboxes
  import opened Storage

  datatype Status = StatusOK | StatusUnauthorized | StatusNotFound | StatusInternalServerError

  /** The record POST /messages builds: a non-empty username wins and the
      group name is then dropped, so at most one recipient field is set. It
      differs from `FromComposedMessage` exactly when the request names both
      a user and a group. */
  function ComposeRecord(cm: ComposedMessage, now: Time): (m: Message)
    ensures m.userRecipient == cm.recipient.username
    ensures m.groupRecipient == if cm.recipient.username != "" then "" else cm.recipient.groupname
    ensures m.userRecipient == "" || m.groupRecipient == ""
    ensures m == FromComposedMessage(cm, now) <==> cm.recipient.username == "" || cm.recipient.groupname == ""
    ensures m == FromComposedMessage(cm, now).(groupRecipient := if cm.recipient.username != "" then "" else cm.recipient.groupname)
  {
    var m := Blank.(body := cm.body, subject := cm.subject, sender := cm.sender, sentAt := now);
    if cm.recipient.username != "" then m.(userRecipient := cm.recipient.username)
    else m.(groupRecipient := cm.recipient.groupname)
  }

  /** The record POST /messages/:id/replies builds: the reply body and the
      parent id, with neither the sender nor the subject of the request. */
  function ReplyRecord(req: ReplyMessage, parent: int, now: Time): (m: Message)
    ensures m == FromReplyMessage(req, parent, now).(sender := "")
  {
    Blank.(body := req.body, re := parent, sentAt := now)
  }

  /** POST /users: inserts a user row with an empty mailbox. */
  method PostUsers(db: Store, req: User) returns (status: Status, u: UserRow)
    requires db.Valid()
    modifies db
    ensures db.Valid()
    ensures status == StatusOK
    ensures u.userName == req.username && u.mailbox == [] && u.id == old(db.nextUserId)
    ensures db.State() == old(db.State()).(users := old(db.users) + [u], nextUserId := old(db.nextUserId) + 1)
  {
    u := db.CreateUser(req.username);
    status := StatusOK;
  }

  /** POST /groups: only the group name "group1" is accepted; in either case
      nothing is written (the method may not modify the store). */
  method PostGroups(db: Store, req: GroupCreation) returns (status: Status)
    ensures status == StatusOK <==> req.groupName == "group1"
    ensures status == StatusOK || status == StatusUnauthorized
  {
    if req.groupName != "group1" {
      return StatusUnauthorized;
    }
    return StatusOK;
  }

  /** POST /messages: stores exactly one record. It is appended to a mailbox
      only when it names a user who has an account; a group-addressed record
      is stored but reaches no mailbox. A user recipient without an account
      is answered with an error, after the record was stored. */
  method PostMessages(db: Store, cm: ComposedMessage, now: Time) returns (status: Status, m: Message)
    requires db.Valid()
    modifies db
    ensures db.Valid()
    ensures var draft := ComposeRecord(cm, now);
      && (draft.userRecipient != "" ==> db.State() == CreatedFor(old(db.State()), draft, draft.userRecipient))
      && (draft.userRecipient == "" ==> db.State() == Created(old(db.State()), draft))
      && status == (if draft.userRecipient != "" && FindUser(old(db.users), draft.userRecipient).None?
                    then StatusInternalServerError else StatusOK)
    ensures m.id == old(db.nextId) && m.id in db.messages && db.messages[m.id] == m
    ensures db.messages.Keys == old(db.messages).Keys + {m.id}
  {
    m := ComposeRecord(cm, now);
    var id := db.Create(m);
    m := m.(id := id);
    status := StatusOK;
    if m.userRecipient != "" {
      var user := FindUser(db.users, m.userRecipient);
      if user.None? {
        return StatusInternalServerError, m;
      }
      db.Append(user.value, id);
      m := m.(owner := db.users[user.value].id);
    }
  }

  /** POST /messages/:id/replies: stores one record answering message `id`
      (whether or not that message exists) and appends it to the mailbox of
      the replier, not of the original's sender. */
  method PostReplies(db: Store, id: int, req: ReplyMessage, now: Time) returns (status: Status, m: Message)
    requires db.Valid()
    modifies db
    ensures db.Valid()
    ensures db.State() == CreatedFor(old(db.State()), ReplyRecord(req, id, now), req.sender)
    ensures status == StatusOK <==> FindUser(old(db.users), req.sender).Some?
    ensures status != StatusOK ==> status == StatusInternalServerError
    ensures m.id == old(db.nextId) && m.id in db.messages && db.messages[m.id] == m
    ensures m.re == id && m.body == req.body
  {
    m := ReplyRecord(req, id, now);
    var mid := db.Create(m);
    m := m.(id := mid);
    var user := FindUser(db.users, req.sender);
    if user.None? {
      return StatusInternalServerError, m;
    }
    db.Append(user.value, mid);
    m := m.(owner := db.users[user.value].id);
    status := StatusOK;
  }

  /** GET /messages/:id: the stored message, a not-found answer when there is
      none, a server error when the database fails. Reads only. */
  method GetMessageById(db: Store, id: int, fault: bool) returns (status: Status, m: Message)
    requires db.Valid()
    ensures status == StatusOK <==> !fault && 0 <= id && id as nat in db.messages
    ensures status == StatusOK ==> m == db.messages[id as nat] && m.id == id
    ensures status == StatusNotFound <==> !fault && !(0 <= id && id as nat in db.messages)
    ensures status == StatusInternalServerError <==> fault
  {
    m := Blank;
    var result := GetMessage(db.messages, id, fault);
    if result.Err? {
      if result.error == RecordNotFound {
        return StatusNotFound, m;
      }
      return StatusInternalServerError, m;
    }
    return StatusOK, result.value;
  }

  /** GET /messages/:id/replies: every stored message answering `id`, each
      once, in key order; an empty list when there is none. Reads only. */
  method GetReplies(db: Store, id: int) returns (replies: seq<Message>)
    requires db.Valid()
    ensures forall r :: r in replies ==> r.re == id && r.id in db.messages && db.messages[r.id] == r
    ensures forall k :: k in db.messages && db.messages[k].re == id ==> db.messages[k] in replies
    ensures forall a, b :: 0 <= a < b < |replies| ==> replies[a].id < replies[b].id
  {
    var ids := ReplyIds(db.messages, id, db.nextId);
    var stored := db.messages;
    replies := seq(|ids|, k requires 0 <= k < |ids| && ids[k] in stored => stored[ids[k]]);
    forall k | k in db.messages && db.messages[k].re == id
      ensures db.messages[k] in replies
    {
      var n :| 0 <= n < |ids| && ids[n] == k;
      assert replies[n] == db.messages[k];
    }
  }

  /** GET /users/:username/mailbox: the messages owned by that user, each
      once, in the order they were appended to the mailbox. A name without an
      account gets a server error (following the comment in the code,
      association mode fails on the unkeyed user). Reads only. */
  method GetMailbox(db: Store, username: string) returns (status: Status, mailbox: seq<Message>)
    requires db.Valid()
    ensures status == StatusOK <==> FindUser(db.users, username).Some?
    ensures status != StatusOK ==> status == StatusInternalServerError && mailbox == []
    ensures status == StatusOK ==>
      var u := db.users[FindUser(db.users, username).value];
      && |mailbox| == |u.mailbox|
      && forall k :: 0 <= k < |mailbox| ==>
           mailbox[k].id == u.mailbox[k] && mailbox[k] == db.messages[u.mailbox[k]] && mailbox[k].owner == u.id
    ensures status == StatusOK ==>
      var u := db.users[FindUser(db.users, username).value];
      forall id :: id in db.messages && db.messages[id].owner == u.id ==> db.messages[id] in mailbox
    ensures forall a, b :: 0 <= a < b < |mailbox| ==> mailbox[a].id != mailbox[b].id
  {
    var user := FindUser(db.users, username);
    if user.None? {
      return StatusInternalServerError, [];
    }
    var u := db.users[user.value];
    assert MailboxOwned(db.messages, u) && OwnedListed(db.messages, u) && NoRepeats(u.mailbox);
    var stored := db.messages;
    mailbox := seq(|u.mailbox|, k requires 0 <= k < |u.mailbox| && u.mailbox[k] in stored => stored[u.mailbox[k]]);
    forall id | id in db.messages && db.messages[id].owner == u.id
      ensures db.messages[id] in mailbox
    {
      var k :| 0 <= k < |u.mailbox| && u.mailbox[k] == id;
      assert mailbox[k] == db.messages[id];
    }
    status := StatusOK;
  }
}
