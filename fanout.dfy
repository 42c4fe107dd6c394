/** Who receives what: the copies a compose fans out into, the set of users a
    reply goes back to, and what that does to each mailbox. */
module FanOut {
  import opened Records
  import opened Mailboxes

  /** The copy a group-addressed message gives one member: sender, subject,
      body and creation time of the original, addressed to the member alone.
      The sent time, the reply reference and the group are not carried over. */
  function GroupCopy(m: Message, username: string): Message {
    Blank.(sender := m.sender, subject := m.subject, body := m.body, createdAt := m.createdAt,
           userRecipient := username)
  }

  function GroupCopies(m: Message, members: seq<UserGroup>): seq<Message> {
    seq(|members|, k requires 0 <= k < |members| => GroupCopy(m, members[k].username))
  }

  /** The messages a send hands to mailboxes, in order: the message itself
      when it names a user, else one copy per membership row of its group,
      else nothing. */
  function SendCopies(rows: seq<UserGroup>, m: Message): seq<Message> {
    if m.userRecipient != "" then [m]
    else if m.groupRecipient != "" then GroupCopies(m, FindGroupMembers(rows, m.groupRecipient))
    else []
  }

  /** How many copies a send gives user `u`, read off the store directly. */
  function SendShare(rows: seq<UserGroup>, m: Message, u: string): nat {
    if m.userRecipient != "" then (if u == m.userRecipient then 1 else 0)
    else if m.groupRecipient != "" then multiset(rows)[UserGroup(m.groupRecipient, u)]
    else 0
  }

  function Usernames(rows: seq<UserGroup>): set<string> {
    set r | r in rows :: r.username
  }

  /** The users a reply to `orig` goes to: its sender and, when it was
      group-addressed, every member of that group. */
  function ReplyTargets(rows: seq<UserGroup>, orig: Message): set<string> {
    (if orig.groupRecipient != "" then Usernames(FindGroupMembers(rows, orig.groupRecipient)) else {})
    + {orig.sender}
  }

  /** The copy of reply `m` that user `u` receives: sender, subject, body,
      creation and sent time of the reply, addressed to `u` alone. */
  function ReplyCopy(m: Message, u: string): Message {
    Blank.(sender := m.sender, subject := m.subject, body := m.body, createdAt := m.createdAt,
           sentAt := m.sentAt, userRecipient := u)
  }

  function ReplyCopies(m: Message, order: seq<string>): seq<Message> {
    seq(|order|, k requires 0 <= k < |order| => ReplyCopy(m, order[k]))
  }

  predicate Distinct(order: seq<string>) {
    forall a, b :: 0 <= a < b < |order| ==> order[a] != order[b]
  }

  /** A user is a reply target exactly when they sent the original, or the
      original was group-addressed and some membership row puts them in that
      group. */
  lemma ReplyTargetsMembers(rows: seq<UserGroup>, orig: Message, u: string)
    ensures u in ReplyTargets(rows, orig) <==>
      u == orig.sender || (orig.groupRecipient != "" && UserGroup(orig.groupRecipient, u) in rows)
  {
    var g := orig.groupRecipient;
    if g != "" {
      var members := FindGroupMembers(rows, g);
      if u in Usernames(members) {
        var r :| r in members && r.username == u;
        assert r == UserGroup(g, u);
        assert multiset(members)[r] > 0;
      }
      if UserGroup(g, u) in rows {
        assert multiset(rows)[UserGroup(g, u)] > 0;
        assert UserGroup(g, u) in members;
      }
    }
  }

  lemma {:induction false} GroupCopiesCount(m: Message, members: seq<UserGroup>, g: string, u: string)
    requires forall x :: x in members ==> x.groupName == g
    ensures CountTo(GroupCopies(m, members), u) == multiset(members)[UserGroup(g, u)]
    decreases |members|
  {
    if members != [] {
      var init := members[..|members| - 1];
      var last := members[|members| - 1];
      assert GroupCopies(m, members)[..|members| - 1] == GroupCopies(m, init);
      assert members == init + [last];
      assert last == UserGroup(g, last.username);
      GroupCopiesCount(m, init, g, u);
    }
  }

  /** The copies of a send: a message naming a user goes to that user alone,
      even when it names a group too; a group-addressed one gives each user
      one copy per membership row pairing them with the group, so duplicate
      rows give duplicate copies and a group without rows gives none; a
      message naming neither goes nowhere. Group copies carry the original's
      sender, subject, body and creation time and nothing else. */
  lemma SendCopiesSpec(rows: seq<UserGroup>, m: Message)
    ensures m.userRecipient != "" ==> SendCopies(rows, m) == [m]
    ensures m.userRecipient == "" && m.groupRecipient == "" ==> SendCopies(rows, m) == []
    ensures forall u :: CountTo(SendCopies(rows, m), u) == SendShare(rows, m, u)
    ensures m.userRecipient == "" ==> forall c :: c in SendCopies(rows, m) ==>
      && c.sender == m.sender && c.subject == m.subject && c.body == m.body && c.createdAt == m.createdAt
      && c.re == 0 && c.groupRecipient == "" && c.sentAt == 0 && c.id == 0 && c.owner == 0
  {
    forall u ensures CountTo(SendCopies(rows, m), u) == SendShare(rows, m, u) {
      if m.userRecipient != "" {
        assert [m][..0] == [];
      } else if m.groupRecipient != "" {
        var g := m.groupRecipient;
        GroupCopiesCount(m, FindGroupMembers(rows, g), g, u);
      }
    }
  }

  /** The copies of a reply: one per target, in the order taken, so a user
      served once gets exactly one copy. Each carries the reply's sender,
      subject, body, creation and sent time; neither the reply reference nor
      a group is copied onto it. */
  lemma {:induction false} ReplyCopiesSpec(m: Message, order: seq<string>, u: string)
    requires Distinct(order)
    ensures CountTo(ReplyCopies(m, order), u) == if u in order then 1 else 0
    ensures |ReplyCopies(m, order)| == |order|
    ensures forall k :: 0 <= k < |order| ==>
      var c := ReplyCopies(m, order)[k];
      && c.userRecipient == order[k]
      && c.sender == m.sender && c.subject == m.subject && c.body == m.body
      && c.createdAt == m.createdAt && c.sentAt == m.sentAt
      && c.re == 0 && c.groupRecipient == "" && c.id == 0 && c.owner == 0
    decreases |order|
  {
    if order != [] {
      var init := order[..|order| - 1];
      assert ReplyCopies(m, order)[..|order| - 1] == ReplyCopies(m, init);
      assert order == init + [order[|order| - 1]];
      ReplyCopiesSpec(m, init, u);
    }
  }

  /** What a send does to a mailbox: it only grows at the end, by the number
      of copies addressed to its user, provided that user row is the one a
      lookup of the name finds; every other row gets nothing. */
  lemma SendMailboxGrowth(s: StoreState, m: Message, j: nat)
    requires j < |s.users|
    ensures var t := DeliveredAll(s, SendCopies(s.memberships, m));
      && |t.users| == |s.users|
      && s.users[j].mailbox <= t.users[j].mailbox
      && |t.users[j].mailbox| == |s.users[j].mailbox| +
           (if FirstOfName(s.users, j) then SendShare(s.memberships, m, s.users[j].userName) else 0)
  {
    DeliveredAllMailbox(s, SendCopies(s.memberships, m), j);
    if FirstOfName(s.users, j) {
      KeysForCount(s.users, SendCopies(s.memberships, m), s.users[j].userName, s.nextId);
    }
    SendCopiesSpec(s.memberships, m);
  }

  /** What a reply does to a mailbox: when every target is served once, each
      target's mailbox grows by exactly one message, even if the target both
      sent the original and belongs to its group; nobody else's grows. */
  lemma ReplyMailboxGrowth(s: StoreState, m: Message, orig: Message, order: seq<string>, j: nat)
    requires Distinct(order) && (set u | u in order) == ReplyTargets(s.memberships, orig)
    requires j < |s.users|
    ensures var t := DeliveredAll(s, ReplyCopies(m, order));
      && |t.users| == |s.users|
      && s.users[j].mailbox <= t.users[j].mailbox
      && |t.users[j].mailbox| == |s.users[j].mailbox| +
           (if FirstOfName(s.users, j) && s.users[j].userName in ReplyTargets(s.memberships, orig) then 1 else 0)
  {
    var name := s.users[j].userName;
    DeliveredAllMailbox(s, ReplyCopies(m, order), j);
    if FirstOfName(s.users, j) {
      KeysForCount(s.users, ReplyCopies(m, order), name, s.nextId);
    }
    ReplyCopiesSpec(m, order, name);
    assert name in order <==> name in (set u | u in order);
  }

  /** A sent message with no recipient field set, such as a bare reply
      record, changes nothing. */
  lemma SendToNobody(s: StoreState, m: Message)
    requires m.userRecipient == "" && m.groupRecipient == ""
    ensures DeliveredAll(s, SendCopies(s.memberships, m)) == s
  {
  }
}
