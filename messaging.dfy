/** The delivery operations: hand a message to one user's mailbox, send a
    composed message to its user or to every member of its group, and send a
    reply back to the original's sender and group. */
module Messaging {
  import opened Records
  import opened Mailboxes
  import opened FanOut
  import opened Storage

  /** Stores `m` in `recipient`'s mailbox. A recipient without an account
      leaves the lookup with an unkeyed user; following the comment in the
      code, association mode then fails and nothing is stored. The
      association append inserts the row with its owner set to the user, so
      whatever owner `m` carried is overwritten: the row is inserted unowned
      and then appended. */
  method CreateMessageForUser(recipient: string, db: Store, m: Message)
    requires db.Valid()
    modifies db
    ensures db.Valid()
    ensures db.State() == Delivered(old(db.State()), recipient, m)
  {
    var user := FindUser(db.users, recipient);
    if user.None? {
      return;
    }
    var id := db.Create(m.(owner := 0));
    db.Append(user.value, id);
  }

  /** Sends `m`: to its user recipient when it names one, otherwise one copy
      to each membership row of its group recipient. */
  method Send(m: Message, db: Store)
    requires db.Valid()
    modifies db
    ensures db.Valid()
    ensures db.State() == DeliveredAll(old(db.State()), SendCopies(old(db.memberships), m))
  {
    if m.userRecipient != "" {
      CreateMessageForUser(m.userRecipient, db, m);
      assert [m][..0] == [];
    } else if m.groupRecipient != "" {
      var members := FindGroupMembers(db.memberships, m.groupRecipient);
      ghost var copies := GroupCopies(m, members);
      for k := 0 to |members|
        invariant db.Valid()
        invariant db.memberships == old(db.memberships)
        invariant db.State() == DeliveredAll(old(db.State()), copies[..k])
      {
        var userMessage := GroupCopy(m, members[k].username);
        CreateMessageForUser(members[k].username, db, userMessage);
        assert copies[..k + 1][..k] == copies[..k];
      }
      assert copies[..|members|] == copies;
    }
  }

  /** The users a reply to `orig` goes to, gathered from the membership
      rows of its group and then its sender. */
  method CollectReplyTargets(db: Store, orig: Message) returns (replyTo: set<string>)
    ensures replyTo == ReplyTargets(db.memberships, orig)
  {
    replyTo := {};
    if orig.groupRecipient != "" {
      var groupMembers := FindGroupMembers(db.memberships, orig.groupRecipient);
      for k := 0 to |groupMembers|
        invariant replyTo == Usernames(groupMembers[..k])
      {
        assert groupMembers[..k + 1] == groupMembers[..k] + [groupMembers[k]];
        replyTo := replyTo + {groupMembers[k].username};
      }
      assert groupMembers[..|groupMembers|] == groupMembers;
    }
    replyTo := replyTo + {orig.sender};
  }

  /** Hands one copy of reply `m` to each user of `replyTo`, in an order the
      method chooses; `order` is the one taken. */
  method DeliverReplyCopies(m: Message, db: Store, replyTo: set<string>) returns (ghost order: seq<string>)
    requires db.Valid()
    modifies db
    ensures db.Valid()
    ensures Distinct(order) && (set u | u in order) == replyTo
    ensures db.State() == DeliveredAll(old(db.State()), ReplyCopies(m, order))
  {
    order := [];
    var remaining := replyTo;
    while remaining != {}
      invariant db.Valid()
      invariant remaining <= replyTo
      invariant forall u :: u in order ==> u in replyTo && u !in remaining
      invariant forall u :: u in replyTo ==> u in order || u in remaining
      invariant Distinct(order)
      invariant db.State() == DeliveredAll(old(db.State()), ReplyCopies(m, order))
      decreases remaining
    {
      var replyToUser :| replyToUser in remaining;
      var userMessage := ReplyCopy(m, replyToUser);
      CreateMessageForUser(replyToUser, db, userMessage);
      assert ReplyCopies(m, order + [replyToUser])[..|order|] == ReplyCopies(m, order);
      order := order + [replyToUser];
      remaining := remaining - {replyToUser};
    }
  }

  /** Sends reply `m` to the users of `ReplyTargets`: the sender of the
      message it answers and, for a group-addressed original, every member of
      that group, each exactly once. When the original cannot be fetched
      nothing happens. The copies go out in no particular order; `order` is
      the one taken. */
  method Reply(m: Message, db: Store, fault: bool) returns (ghost order: seq<string>)
    requires db.Valid()
    modifies db
    ensures db.Valid()
    ensures GetMessage(old(db.messages), m.re, fault).Err? ==> db.State() == old(db.State())
    ensures GetMessage(old(db.messages), m.re, fault).Ok? ==>
      var orig := GetMessage(old(db.messages), m.re, fault).value;
      && Distinct(order)
      && (set u | u in order) == ReplyTargets(old(db.memberships), orig)
      && db.State() == DeliveredAll(old(db.State()), ReplyCopies(m, order))
  {
    order := [];
    var original := GetMessage(db.messages, m.re, fault);
    if original.Err? {
      return;
    }
    var replyTo := CollectReplyTargets(db, original.value);
    order := DeliverReplyCopies(m, db, replyTo);
  }
}
