# TerminalChat server core in Dafny

TerminalChat is a small Java chat system: clients connect to a server over
sockets, send direct messages to user names or posts to named groups, and
poll the server for the messages waiting for them. This project models the
server's in-memory core, which is where all the routing logic lives:

- the **directory** `userIDs` (user name to numeric id), fed by connecting
  users and by the pre-provisioning of names the server has never seen,
  which take the next value of the id counter;
- the **groups**, each a `Group` object holding an id-to-name membership
  map, among them the group `"all"` that every connected user joins and
  leaves again on disconnect;
- the **mailboxes** `messages` (id to the list of messages waiting), filled
  by `addMessage` and emptied by `getMessagesForUser`;
- the **routing rules** of `addMessage`. A group post from a non-member is
  answered by a `SERVER` permission notice. A permitted group post is
  copied, with its sender rewritten to `"[group] sender"`, to every member
  not named like the sender. Anything else is a direct message, appended to
  the receiver's mailbox.

Files:

- `message.dfy` (module `Messages`): the `Message` record, the `SERVER`
  sender name, the group rewrite of the sender and the two notices the
  server writes itself.
- `group.dfy` (module `Groups`): class `Group`, whose membership map is
  changed in place.
- `server_model.dfy` (module `ServerModel`): the server state as a value
  `ServerState`, and each server operation as a function from the state
  before to the state after. `Inv` is the invariant that makes every
  mailbox lookup of the server succeed: `"all"` exists, every known user has
  a mailbox, every group member is a known user under its own id, and every
  id in use is below the counter (`IdsIssued`). Every operation is proved
  to keep it. A new name's id always comes from the counter: the accept
  loop draws one per connection (`Accept`), and pre-provisioning takes the
  counter value itself. `UniqueIds` (no id shared by two names) is not part
  of `Inv`, because the Java server does not guarantee it: a connection can
  register a second name under the id it already holds. It is kept when
  each connection registers once under the id `Accept` drew for it
  (`ConnectKeepsIdsUnique`), and by pre-provisioning, routing and group
  creation (see "Left out").
- `server.dfy` (module `ChatServer`): class `Server`, with the directory,
  a map from group names to `Group` objects, the mailboxes and the counter
  as fields. Each operation method (the constructor, `Accept`, `AddUser`,
  `AddGroup`, `AddListedMembers`, `AddListedMember`, `AddOneMember`,
  `RemoveUser`, `AddMessage`, `PostToGroup`, `PostDirect` and
  `GetMessagesForUser`) is proved to keep `Valid()` and to move `State()`
  exactly as the matching `ServerModel` function does. `JoinAll`,
  `StoreGroup` and `DeliverToMembers` are internal steps of those
  operations: they state only the change they make to the group table or
  the mailboxes.
- `server_properties.dfy` (module `ServerProperties`): lemmas about the
  model. They cover where a post goes, what an operation leaves untouched,
  and what reconnecting, disconnecting twice and draining twice do.

## Model

| member | source | states |
|---|---|---|
| Messages.TagWithGroup | Server.java:98-99 | the delivered copy keeps receiver and text; its sender is exactly `"[" + group + "] "` followed by the original sender |
| Messages.AddedNotice | Server.java:64-66 | the group-creation notice comes from `SERVER` and is addressed to the listed member |
| Messages.DeniedNotice | Server.java:90-94 | the permission notice comes from `SERVER` and is addressed to the sender of the refused post |
| Groups.Group.constructor | Group.java:10-14 | a new group holds exactly the given name and membership map |
| Groups.Group.GetName | Group.java:16-19 | returns the name given at construction, which no method can change |
| Groups.Group.GetMembers | Group.java:21-24 | returns the current membership, so changes made by AddMember/RemoveMember are visible through it |
| Groups.Group.AddMember | Group.java:26-29 | binds the id to the name, overwriting any earlier name of that id, and changes no other entry |
| Groups.Group.RemoveMember | Group.java:31-34 | deletes only that id; an absent id leaves the membership unchanged |
| ServerModel.Initial | Server.java:21-27 | a fresh server knows no user, has no mailbox, and has only the empty `"all"` group; it satisfies the invariant, and its ids are unique |
| ServerModel.IsMember | Server.java:91 | the permission test of a group post; a sender that is not a known user belongs to no group |
| ServerModel.IsMemberIffListed | Server.java:91 | when ids are unique, the lookup by the sender's id holds exactly when the sender is listed by name in the group |
| ServerModel.Accept | Server.java:155 | the accept loop hands a new connection the current counter value, which no user holds yet, and advances the counter by one; the invariant is kept |
| ServerModel.Register | Server.java:29-51 | a new name is bound to the given id with an empty mailbox; a known name keeps its id and mailbox; the user joins `"all"` under its effective id exactly when a handler is given; no other group changes, and the invariant is kept |
| ServerModel.Provision | Server.java:114 | an unknown name is bound to the current counter value with an empty mailbox and the counter advances by one; a known name changes nothing |
| ServerModel.Deliver | Server.java:102-107 | the group fan-out keeps exactly the same set of mailboxes |
| ServerModel.DeliverOneMore | Server.java:103-107 | handling one more member extends the fan-out by that member's mailbox, unless its name is the sender's |
| ServerModel.MemberHasMailbox | Server.java:106 | under the invariant, every id a group lists has a mailbox, so the fan-out lookup never fails |
| ServerModel.Route | Server.java:80-120 | routing terminates (the permission notice is sent by `SERVER`, which is never refused), keeps the invariant, never changes a group, never forgets a user or a mailbox, and never lowers the counter |
| ServerModel.RegisterKeepsIdsUnique | Server.java:32-35 | registering a new name under an id no user holds keeps ids unique |
| ServerModel.ConnectKeepsIdsUnique | Server.java:155 | a connection that registers under the id the accept loop just drew keeps ids unique, and ends up with its old id if the name was known and with the drawn id otherwise |
| ServerModel.ProvisionKeepsIdsUnique | Server.java:114 | pre-provisioning keeps ids unique, and the new id differs from every id already known |
| ServerModel.RouteKeepsIdsUnique | Server.java:80-120 | routing any message keeps ids unique |
| ServerModel.NoticeAddsNoUser | Server.java:111-117 | a `SERVER` notice to a known user or to a group provisions nobody and leaves the counter as it was |
| ServerModel.AddOne | Server.java:59-67 | one round of addGroup leaves the listed name known and enters it into the new membership under its id; it keeps the invariant and changes no stored group |
| ServerModel.AddOneBindsName | Server.java:61-62 | one round extends "the first k listed names are members under their ids, and no other name is" from k - 1 names to k |
| ServerModel.AddOneNumbersName | Server.java:61 | one round extends "every name that became known is one of the first k listed names, with an id the counter issued meanwhile" from k - 1 names to k: the round makes at most its own name known, under the counter value it takes |
| ServerModel.AddOneKeepsIdsUnique | Server.java:61-66 | a round keeps ids unique |
| ServerModel.AddMembers | Server.java:57-67 | after the loop, every listed name is a known user whose id is in the new membership; the membership holds no other name; every name that was unknown before is a listed name with an id the counter issued during the loop; unique ids stay unique |
| ServerModel.CreateGroup | Server.java:53-71 | the named group is added or replaced, every other group is kept, no user or mailbox is lost, and the invariant is kept |
| ServerModel.Disconnect | Server.java:73-78 | the id leaves `"all"`, the other members of `"all"` keep their names, and names, ids, mailboxes, the counter and all other groups are untouched |
| ServerModel.Drain | Server.java:122-131 | returns the whole mailbox in order and leaves it empty; every other mailbox, the directory, the groups and the counter are untouched |
| ServerProperties.ReconnectKeepsId | Server.java:38-50 | a user who connects again keeps the id it was first given, whatever id the new connection brought, and the second connect changes nothing; that id is the one the name already had, or else the first connection's |
| ServerProperties.DeniedPostOnlyNotifiesSender | Server.java:86-96 | a group post from a sender that is neither `SERVER` nor a member puts exactly one permission notice at the end of the sender's mailbox (provisioning an unknown sender first); no other mailbox, and no group member, receives anything |
| ServerProperties.GroupPostFansOut | Server.java:98-107 | a permitted group post puts the one rewritten copy at the end of the mailbox of every member whose name differs from the sender, and changes nothing else |
| ServerProperties.GroupPostSkipsSender | Server.java:103-106 | when no two names share an id, the sender's own mailbox never receives its group post |
| ServerProperties.DirectMessageAppends | Server.java:111-119 | a message to a non-group name is appended unmodified at the end of that user's mailbox (a new empty one for an unknown name); no other mailbox and no group changes |
| ServerProperties.AddOneNotifiesMember | Server.java:64-66 | in each round of addGroup the listed name gets one `SERVER` notice, naming the first listed name as the one who added it, at the end of its mailbox; no other mailbox changes |
| ServerProperties.CreateGroupMembersExact | Server.java:58-68 | when ids are unique, the stored group is exactly {id(n) -> n} over the listed names n, and ids stay unique |
| ServerProperties.DisconnectIdempotent | Server.java:73-78 | removing an id that is not in `"all"` changes nothing, so removing the same id twice is the same as removing it once |
| ServerProperties.DrainTwice | Server.java:122-131 | a second drain right after the first returns an empty list and changes nothing |
| ServerProperties.DirectMessageIsDrainedLast | Server.java:116-128 | a direct message is the last message the receiver's next drain returns |
| ChatServer.Server.constructor | Server.java:21-27 | the new server is the initial state: only the empty `"all"` group |
| ChatServer.Server.Accept | Server.java:155 | moves the state as Accept does: returns the counter value and advances the counter |
| ChatServer.Server.AddUser | Server.java:29-51 | moves the state as Register does; returns the id the connection holds afterwards (the given id for a new name, the stored id for a known one) |
| ChatServer.Server.JoinAll | Server.java:45-50 | puts the user into the `"all"` object and changes no other group |
| ChatServer.Server.AddGroup | Server.java:53-71 | moves the state as CreateGroup does |
| ChatServer.Server.AddListedMembers | Server.java:57-67 | the loop over the listed names computes the state and membership of AddMembers |
| ChatServer.Server.AddListedMember | Server.java:58-67 | one pass of the loop takes AddMembers from i names to i + 1 |
| ChatServer.Server.AddOneMember | Server.java:59-66 | provisions, enters and notifies one listed name, as AddOne does |
| ChatServer.Server.StoreGroup | Server.java:68 | stores a new group object under the name, replacing any group of that name, and changes no other group |
| ChatServer.Server.RemoveUser | Server.java:73-78 | moves the state as Disconnect does |
| ChatServer.Server.AddMessage | Server.java:80-120 | moves the state as Route does and keeps the group table |
| ChatServer.Server.PostToGroup | Server.java:98-109 | a permitted group post moves the state as Route does |
| ChatServer.Server.PostDirect | Server.java:111-119 | a direct message moves the state as Route does |
| ChatServer.Server.DeliverToMembers | Server.java:102-107 | the loop over the member ids leaves the mailboxes exactly as Deliver describes, whatever order the ids are taken in |
| ChatServer.Server.GetMessagesForUser | Server.java:122-131 | returns the mailbox and empties it, as Drain does |
| ChatServer.Server.GetConnectedUsers | Server.java:133-136 | a name is in the result exactly when `"all"` lists it under some id; each such name is a known user whose id is in `"all"`; when ids are unique, the result is exactly the known users whose id is in `"all"` |
| ChatServer.Server.GetGroupNames | Server.java:138-141 | the result is exactly the set of group names, `"all"` among them |

The `Message` record of Message.java:6-15 is the datatype `Messages.Message`.
Its constructor stores sender, receiver and content as given.

## Left out

- The sockets of the accept loop, the threads and the start/stop/main entry points of Server.java:143-186 are not modelled. The socket I/O, the sleeping sender thread and the command dispatch of ConnectionHandler.java are not modelled either. The accept loop's draw from the counter (Server.java:155) is modelled as `Accept`; `AddUser` requires a new name's `id` to be below the counter, as it is when the id comes from `Accept`. The member list that ConnectionHandler.java:112 splits off a line arrives as a `seq<string>`.
- Concurrency is not modelled: there are no synchronized maps and no volatile flag, and every operation is one sequential step.
- Logging to standard output is not modelled.
- The id counter is an unbounded integer; the 32-bit wrap-around of the Java `int` is not modelled.
- Polls, name validation, commands to add or remove a group member, and entered/left/welcome broadcasts do not exist in the code, so they are not modelled.
- ChatServer.Server.GetConnectedUsers: returns a set where `Server.getConnectedUsers` returns a list in hash-map order; the order is not modelled. Under the invariant a name is a member of `"all"` under one id only, so the list has no repeated name to lose.
- ChatServer.Server.GetGroupNames: returns a set where `Server.getGroupNames` returns a list in hash-map order; the order is not modelled.
- ChatServer.Server.AddMessage: `Server.addMessage` overwrites the sender field of the caller's message object in place (Server.java:99). The model delivers a rewritten copy and leaves the caller's value unchanged, so that aliasing is not captured. Every mailbox receives the same rewritten value, as in the Java server.
- ChatServer.Server.AddUser: requires a handler (`online`) for a name that is already known. Without one `Server.addUser` dereferences null (Server.java:41). Both internal callers check for this first.
- ChatServer.Server.GetMessagesForUser: requires the id to own a mailbox, because `Server.getMessagesForUser` looks it up unchecked (Server.java:125).
- ServerModel.Register: does not assume ids are distinct. A connection can register a second new name under the id it already holds, which rebinds that id and empties its mailbox. So `UniqueIds` is a hypothesis of the lemmas that need it, not part of the invariant. `Register` does require a new name's id to be below the counter, since every id the Java server hands out comes from the counter.
- ServerProperties.GroupPostSkipsSender: stated only for states whose ids are unique. `Server.addMessage` skips by name, so a member sharing the sender's id under another name would still receive the post.
- ServerProperties.CreateGroupMembersExact: stated only for states whose ids are unique, for the same reason.
- ServerProperties.DeniedPostOnlyNotifiesSender: stated only for a sender name that is not also a group name. When the sender names a group, `Server.addMessage` sends the permission notice to that group, and ServerProperties.GroupPostFansOut describes that case.
- ServerProperties.AddOneNotifiesMember: stated only for a listed name that is not a group name. When the name is a group name, `Server.addGroup` routes the notice to that group, and ServerProperties.GroupPostFansOut describes that case.
- The messages that a user receives over a whole group creation are stated round by round (ServerProperties.AddOneNotifiesMember) and not summed over the loop. A name listed twice is notified twice.
