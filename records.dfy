/** The records of the chat store and the request bodies its handlers bind.

    A `Message` is one row of the messages table; `UserGroup` is one
    (group, username) membership row. The request types are the JSON bodies
    of the HTTP handlers, reduced to their fields. */
module Records {

  datatype Option<T> = None | Some(value: T)

  datatype Result<T, E> = Ok(value: T) | Err(error: E)

  /** A point in time. 0 stands for the zero time a fresh record carries. */
  type Time = int

  /** One row of the messages table. */
  datatype Message = Message(
    id: nat,                // primary key, assigned by the store on insert; 0 before
    createdAt: Time,        // creation timestamp of the row
    re: int,                // id of the message this one answers, 0 for none
    sender: string,
    userRecipient: string,
    groupRecipient: string, // only set when the message was group-addressed
    subject: string,
    body: string,
    sentAt: Time,
    owner: nat)             // id of the user whose mailbox holds the row, 0 for none

  /** A freshly declared, zero-valued record. */
  const Blank: Message := Message(0, 0, 0, "", "", "", "", "", 0, 0)

  /** One membership row; rows are not deduplicated. */
  datatype UserGroup = UserGroup(groupName: string, username: string)

  /** A catch-all recipient: either field may be empty. */
  datatype Recipient = Recipient(username: string, groupname: string)

  datatype ComposedMessage = ComposedMessage(sender: string, recipient: Recipient, subject: string, body: string)

  datatype ReplyMessage = ReplyMessage(sender: string, subject: string, body: string)

  datatype User = User(username: string)

  datatype GroupCreation = GroupCreation(groupName: string, usernames: seq<string>)

  /** The compose request a record still carries: its sender, both recipient
      fields, its subject and its body. */
  function Composed(m: Message): ComposedMessage {
    ComposedMessage(m.sender, Recipient(m.userRecipient, m.groupRecipient), m.subject, m.body)
  }

  /** Builds the record for a compose request. Both recipient fields are copied
      as given; choosing between them is left to `Send`. */
  function FromComposedMessage(cm: ComposedMessage, now: Time): (m: Message)
    ensures Composed(m) == cm
    ensures m.re == 0 && m.sentAt == now
    ensures m.id == 0 && m.owner == 0 && m.createdAt == 0
  {
    Blank.(body := cm.body, subject := cm.subject, sender := cm.sender,
           userRecipient := cm.recipient.username, groupRecipient := cm.recipient.groupname,
           sentAt := now)
  }

  /** Builds the record for a reply to message `originalMessageID`. Only the
      body and the sender of the request are kept: its subject is dropped and
      the record is addressed to nobody. */
  function FromReplyMessage(response: ReplyMessage, originalMessageID: int, now: Time): (m: Message)
    ensures m.re == originalMessageID && m.sentAt == now
    ensures m.body == response.body && m.sender == response.sender
    ensures m.subject == "" && m.userRecipient == "" && m.groupRecipient == ""
    ensures m.id == 0 && m.owner == 0 && m.createdAt == 0
  {
    Blank.(body := response.body, re := originalMessageID, sentAt := now, sender := response.sender)
  }

  /** The membership rows of `group`, in table order: every matching row,
      duplicates included, and nothing else. */
  function FindGroupMembers(rows: seq<UserGroup>, group: string): (members: seq<UserGroup>)
    ensures |members| <= |rows|
    ensures forall x :: x in members ==> x.groupName == group
    ensures forall x :: multiset(members)[x] == if x.groupName == group then multiset(rows)[x] else 0
  {
    if rows == [] then []
    else
      assert rows == [rows[0]] + rows[1..];
      (if rows[0].groupName == group then [rows[0]] else []) + FindGroupMembers(rows[1..], group)
  }
}
