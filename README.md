# Chat API message fan-out and reply routing, in Dafny

This project models the core of a small chat service. A message store holds
three tables:

- messages, keyed by id;
- users, each with a mailbox of message ids;
- (group, username) membership rows, which are not deduplicated.

On top of that store sit these operations:

- building a message record from a compose or a reply request;
- resolving a group to its membership rows;
- `Send`: a compose goes to its named user, or one copy goes to each membership row of its group;
- `Reply`: a reply goes once to each name in {original sender} ∪ {members of the original's group};
- mailbox delivery (`CreateMessageForUser`) and lookup by id (`GetMessage`);
- the HTTP handlers, which build and store records inline and never call `Send` or `Reply`.

Both variants are modelled as written and are not reconciled.

The store is modelled at two levels:

- `Mailboxes` treats it as a value (`StoreState`). Each database primitive is a function from state to state: `Created` inserts a row and `Appended` appends a row to a mailbox.
- `Storage.Store` is the same store as an object whose tables the operations update in place.

The imperative operations (`Messaging`, `Handlers`) are methods on that object. Each is proved against the value-level functions (`Delivered`, `DeliveredAll`, `CreatedFor`). The properties the service promises are lemmas about those functions: how many copies are made, who receives them, what each mailbox gains, and what is left untouched.

Modules, one per file:

- `records.dfy` (`Records`): the message record, membership rows, request bodies, `FromComposedMessage`, `FromReplyMessage` and `FindGroupMembers`.
- `mailboxes.dfy` (`Mailboxes`): the store as a value, its invariant, user lookup, `GetMessage`, single and repeated delivery, and the handlers' create-then-append.
- `fanout.dfy` (`FanOut`): the copies a send and a reply produce, and what they do to each mailbox.
- `storage.dfy` (`Storage`): the `Store` class with its insert and append primitives.
- `messaging.dfy` (`Messaging`): `CreateMessageForUser`, `Send` and `Reply` as methods on the store.
- `handlers.dfy` (`Handlers`): the HTTP handlers.

Behaviour of the code as written that the model keeps:

- A compose that names both a user and a group goes only to the user in `Send`. `FromComposedMessage` keeps both fields. The POST /messages handler drops the group.
- Group copies made by `Send` have a zero sent time. Reply copies keep the reply's sent time.
- `FromReplyMessage` drops the request's subject. When the reply record comes from `FromReplyMessage`, every copy that `Reply` makes therefore has an empty subject. `Reply` itself copies the subject of whatever record it is given.
- The reply handler stores a record without a sender. It appends that record to the replier's own mailbox, not to the mailbox of the original's sender. It does not check that the parent message exists.
- POST /messages stores a group-addressed message but delivers it to no mailbox.
- POST /groups writes nothing, whatever the name. No operation of the service writes membership rows, so the `Store` constructor takes them as given.
- A lookup by username finds the first user row with that name. Names are not unique.
- Looking up a name with no account leaves a user record with no key. Following the code's own comments (message.go:67-69, main.go:95-97), association mode then fails:
  - `CreateMessageForUser` stores nothing;
  - the handlers have already stored the record, and they answer with a server error;
  - GET /users/:username/mailbox answers with a server error.

## Model

| member | source | states |
|---|---|---|
| `Records.FromComposedMessage` | db.go:99-109 | Body, subject and sender are copied verbatim. Both recipient fields are copied without choosing between them (the request can be read back with `Composed`). The reply reference is 0 and the sent time is the given time. |
| `Records.FromReplyMessage` | db.go:111-120 | The reply reference is the given original id. Body and sender come from the request. Subject, user recipient and group recipient stay empty. |
| `Records.FindGroupMembers` | db.go:89-97 | Returns every membership row of the group and no other row. Each row appears as often as in the table, so duplicates stay duplicated. |
| `Mailboxes.FindUser` | message.go:62-63 | The lookup of a name finds the first user row with that name. When no row has that name, the result is none. |
| `Mailboxes.GetMessage` | message.go:81-93 | Returns the stored message when the id exists and the database does not fail. Otherwise returns an error, which is record-not-found exactly when the database did not fail. It is a function of the table, so it changes nothing and two calls agree. |
| `Mailboxes.GetMessageAfterDelivery` | message.go:81-92 | After a delivery to an account holder, the new id fetches the stored row. Every id stored before fetches what it fetched before. |
| `Mailboxes.DeliveredSpec` | message.go:61-78 | Unknown recipient: the state is unchanged and nothing is stored. Known recipient: one row is stored under the next id and owned by the recipient. Its id goes at the end of that recipient's mailbox. Every other mailbox is unchanged, and so are users and memberships. |
| `Mailboxes.CreatedFor` | main.go:132-148 | The handlers' way: the record is always stored under the next id. An append happens only if the lookup finds a user. |
| `Mailboxes.DeliveredVersusCreatedFor` | message.go:62-75 | Delivery and the handlers' create-then-append agree for an account holder. For an unknown name, delivery stores nothing while the handlers store an unowned record. |
| `Mailboxes.DeliveredConsistent` | message.go:61-78 | A delivery preserves the store invariant: ids are positive and below the next id, each row knows its id, user ids are distinct, and a user's mailbox holds exactly the rows that user owns, each once. |
| `Mailboxes.MailboxesDisjoint` | message.go:74-75 | In a consistent store a message is in at most one mailbox. |
| `Mailboxes.DeliveredAllConsistent` | db.go:42-52 | A series of deliveries preserves the store invariant. |
| `Mailboxes.DeliveredAllKeys` | db.go:42-52 | A series of deliveries keeps every key below the next id. Rows already stored stay as they were, and no key below the old next id is added. |
| `Mailboxes.DeliveredAllNextId` | db.go:42-52 | A series of deliveries moves the next id on by exactly one per copy whose recipient has an account. |
| `Mailboxes.DeliveredKeepsRow` | message.go:61-78 | A delivery leaves every row stored under a key below the next id as it was. |
| `Mailboxes.DeliveredNewRow` | message.go:62-75 | A delivery to an account holder stores its row under the next id, owned by the user the lookup finds. |
| `Mailboxes.DeliveredAllRow` | db.go:42-52 | The n-th copy with a known recipient is stored under the n-th new id, owned by its recipient. Copies for unknown recipients are never written. |
| `Mailboxes.DeliveredAllMailbox` | message.go:74-76 | A mailbox only grows at its end. Provided its row is the one the lookup of its name finds, it gains, in order, the key of every stored copy addressed to that name, and nothing else. A row the lookup does not find gains nothing. |
| `Mailboxes.KeysForSpec` | message.go:74-75 | The keys a mailbox gains are exactly the keys `next id + n` of the n-th stored copies addressed to its name, in increasing order. |
| `Mailboxes.KeysForCount` | db.go:42-52 | For a name with an account, the number of keys gained is the number of copies addressed to that name. |
| `Mailboxes.DeliveredMailbox` | message.go:62-75 | One delivery appends the new key to the mailbox the lookup of the recipient finds, and to no other mailbox. |
| `Mailboxes.ReplyIds` | main.go:187-188 | Returns exactly the ids below the given bound of stored messages whose reply reference is the given id, in increasing order, each once. `GetReplies` passes the next id, which covers every stored row under the store invariant. |
| `FanOut.ReplyTargetsMembers` | db.go:62-73 | A user is a reply target exactly when they sent the original, or the original was group-addressed and a membership row puts them in that group. |
| `FanOut.GroupCopiesCount` | db.go:42-51 | One copy per membership row: a user gets as many copies as there are rows pairing them with the group. |
| `FanOut.SendCopiesSpec` | db.go:36-54 | A non-empty user recipient gets exactly one copy, the message itself, even if a group is also named. Otherwise each user gets one copy per matching membership row: duplicates give duplicates, zero rows give zero copies, and no error is raised. No recipient gives no copies. Group copies carry sender, subject, body and creation time, with a zero sent time, no reply reference and no group. |
| `FanOut.ReplyCopiesSpec` | db.go:76-86 | One copy per target, addressed to it, so a user served once gets exactly one copy. Each copy carries the reply's sender, subject, body, creation time and sent time. The reply reference and group are not copied. |
| `FanOut.SendMailboxGrowth` | db.go:36-54 | A send grows each mailbox at its end by exactly the number of copies addressed to its user. Other rows gain nothing. |
| `FanOut.ReplyMailboxGrowth` | db.go:62-86 | A reply grows each target's mailbox by exactly one message, even when the target both sent the original and belongs to its group (names compared exactly). Other mailboxes are unchanged. |
| `FanOut.SendToNobody` | db.go:38-53 | A message with both recipient fields empty changes nothing. |
| `Storage.Store.constructor` | db.go:142-154 | A freshly set-up database: empty messages and users tables over the given membership rows, and the store invariant holds. |
| `Storage.Store.Create` | main.go:85 | Inserts the unowned record under the next id, which no mailbox holds yet. Nothing else changes. |
| `Storage.Store.Append` | message.go:75 | Sets the row's owner to the user and appends its id to the end of that user's mailbox. Nothing else changes. |
| `Storage.Store.CreateUser` | main.go:33-36 | Appends one user row with a fresh id and an empty mailbox. The next user id moves on by one and nothing else changes. |
| `Messaging.CreateMessageForUser` | message.go:61-78 | The new store is `Delivered(old store, recipient, m)`. Unknown names cause no insert and no append. The row is stored owned by the recipient, whatever owner `m` carried. |
| `Messaging.Send` | db.go:36-54 | The new store is the old one after delivering `SendCopies`, in membership-row order. Its properties are the `SendCopiesSpec` and `SendMailboxGrowth` lemmas. |
| `Messaging.CollectReplyTargets` | db.go:62-73 | The set built from the group's membership rows and the original's sender is exactly `ReplyTargets`. |
| `Messaging.DeliverReplyCopies` | db.go:75-86 | Each name of the set gets one reply copy, each exactly once, in some order. The new store is the old one after delivering those copies in that order, and the store invariant holds. |
| `Messaging.Reply` | db.go:56-87 | If the original cannot be fetched, nothing changes. Otherwise one copy goes to each name of `ReplyTargets`, each exactly once (names compared exactly), in some order. |
| `Handlers.ComposeRecord` | main.go:73-83 | A non-empty username sets the user recipient and leaves the group empty. Otherwise the group recipient is the request's group name. The two fields are never both set. The record is `FromComposedMessage`'s with the group dropped when a username is given, so body, subject, sender and sent time are always copied from the request. It equals `FromComposedMessage`'s exactly when the request does not name both. |
| `Handlers.ReplyRecord` | main.go:126-130 | The record is `FromReplyMessage`'s with the sender dropped: only body, parent id and sent time are set. |
| `Handlers.PostUsers` | main.go:26-48 | Inserts one user row named as requested, with a fresh id and an empty mailbox. The next user id moves on by one; messages, the next message id and memberships are unchanged. |
| `Handlers.PostGroups` | main.go:50-63 | Accepts exactly the name "group1" and answers unauthorized otherwise. The store is not written in either case. |
| `Handlers.PostMessages` | main.go:66-109 | Inserts exactly one record under the next id. It is appended to a mailbox only when it names a user with an account. A group-addressed record is stored but never delivered. An unknown user gets a server error after the insert. |
| `Handlers.PostReplies` | main.go:112-151 | Stores one record with the parsed parent id and the request body, and appends it to the replier's mailbox. A replier without an account gets a server error. |
| `Handlers.GetMessageById` | main.go:155-176 | Answers 200 with the stored message, 404 exactly when the database works but the id is absent, and 500 exactly when the database fails. Reads only. |
| `Handlers.GetReplies` | main.go:179-191 | Returns exactly the stored messages whose reply reference is the id, each once, in id order. Returns an empty list when there are none. Reads only. |
| `Handlers.GetMailbox` | main.go:194-214 | Returns exactly the stored messages owned by the user the lookup finds, each once, in the order they were appended. A name without an account gets a server error. Reads only. |

## Left out

- HTTP routing, JSON binding and the JSON responses. Outcomes are a `Status` value. The repeated responses written inside the fan-out loops (message.go:71,77) are not modelled, and neither are the 400 answers for malformed bodies or ids.
- Id parsing (`strconv.Atoi`): handlers take integer ids.
- The clock: the current time is a parameter (`now`). Automatic filling of creation and update timestamps on insert, and soft deletion, are not modelled. Records are stored as given, apart from their id.
- Database failures: only `GetMessage` and GET /messages/:id take a `fault` flag. For every other query the model assumes success. In particular, a failing membership query, which the source reports and then continues past with whatever rows it read, is not modelled.
- Two column names differ: `user_name` in message.go:63 and `username` in main.go:91,136,200. Both are modelled as a lookup of the user row by name.
- The association machinery. Appending is modelled as setting the row's owner and adding its id to the end of the mailbox.
- The order in which the store returns rows of an unordered query is taken to be table order for membership rows, id order for replies, and append order for a user's mailbox (main.go:211).
- Handlers.PostUsers: leaves out the users-table conflict check (main.go:37-39). That check depends on the driver's affected-rows count, and no uniqueness constraint exists, so the model always inserts and answers 200.
- Messaging.Reply: the order in which the copies go out, which comes from map iteration, is left unspecified and returned as a ghost sequence.
- The database connection, its connection string and the driver (db.go:142-149). Schema migration (db.go:151) is taken to give the empty tables the `Store` constructor starts from.
- Names are compared exactly, as Go compares strings. The database's lookups by user name (message.go:63, main.go:91,136,200) and by group name (db.go:91) use the collation of the utf8mb4 connection (db.go:144), which by default ignores case, while `Reply` removes duplicate targets with a Go map that compares keys exactly (db.go:62-73). With case-variant names, such as a sender "Alice" and a membership row for "alice", the source can deliver two copies to one user; the once-per-target results (`Messaging.Reply`, `Messaging.DeliverReplyCopies`, `FanOut.ReplyMailboxGrowth`) hold for exact name comparison only.
- The `db.Save(&user)` after each append (message.go:76) and after creating a user (main.go:45): it writes back the user row and its already appended messages, which changes nothing in the model.
- The association failure for a name without an account follows the code's comments (message.go:67-69, main.go:95-97). What the driver does for a user record with no key is not modelled beyond that.
- The `/ping` route and the test file that exercises it.
- The duplicate declarations of the request types in main.go and message.go: one copy is modelled.
- Concurrency: each operation runs alone against the store.
