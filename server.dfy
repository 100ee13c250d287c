/** The server object (Server.java): the name directory, the group table and
    the mailboxes, updated in place. Each operation method (the constructor,
    Accept, AddUser, AddGroup, AddListedMembers, AddListedMember,
    AddOneMember, RemoveUser, AddMessage, PostToGroup, PostDirect and
    GetMessagesForUser) is proved to keep Valid() and to move the abstract
    state State() exactly as the matching function of ServerModel does.
    JoinAll, StoreGroup and DeliverToMembers are internal steps of those
    operations: they state only the change they make to the group table or
    the mailboxes. */
module ChatServer {
  import opened Messages
  import opened Groups
  import opened ServerModel

  /** The membership map of every group, read from the Group objects. */
  ghost function Table(groups: map<string, Group>): map<string, map<int, string>>
    reads groups.Values
  {
    map g | g in groups :: groups[g].members
  }

  class Server {
    var userIDs: map<string, int>
    var groups: map<string, Group>
    var messages: map<int, seq<Message>>
    var nextId: int

    /** The state as a ServerModel value, each group read through its object. */
    ghost function State(): ServerState
      reads this, groups.Values
    {
      ServerState(userIDs, Table(groups), messages, nextId)
    }

    /** Distinct group names hold distinct Group objects, and the state
        satisfies the model's invariant. */
    ghost predicate Valid()
      reads this, groups.Values
    {
      DistinctGroups() && Inv(State())
    }

    ghost predicate DistinctGroups()
      reads this
    {
      forall g, h :: g in groups && h in groups && g != h ==> groups[g] != groups[h]
    }

    constructor ()
      ensures Valid() && State() == Initial()
    {
      var all := new Group(AllGroup, map[]);
      userIDs := map[];
      groups := map[AllGroup := all];
      messages := map[];
      nextId := 0;
    }

    /** The accept loop's draw: a new connection's handler takes the
        counter value and the counter advances. */
    method Accept() returns (id: int)
      requires Valid()
      modifies this`nextId
      ensures Valid()
      ensures (id, State()) == ServerModel.Accept(old(State()))
    {
      id := nextId;
      nextId := nextId + 1;
    }

    /** addUser. `online` stands for a non-null connection handler; the
        returned id is the one the handler holds afterwards. A new name's
        id was issued by the counter. */
    method AddUser(userName: string, online: bool, id: int) returns (effective: int)
      requires Valid()
      requires online || userName !in userIDs
      requires userName !in userIDs ==> id < nextId
      modifies this, if online then {groups[AllGroup]} else {}
      ensures Valid() && groups == old(groups)
      ensures State() == Register(old(State()), userName, online, id)
      ensures userName in userIDs && effective == userIDs[userName]
      ensures userName in old(userIDs) ==> effective == old(userIDs)[userName]
      ensures userName !in old(userIDs) ==> effective == id
    {
      ghost var s := State();
      ghost var r := Register(s, userName, online, id);
      effective := id;
      if userName !in userIDs {
        userIDs := userIDs[userName := id];
        messages := messages[id := []];
      } else {
        effective := userIDs[userName];
      }
      assert userIDs == r.userIDs && messages == r.mailboxes;
      if online {
        JoinAll(userName, effective);
      }
      assert Table(groups) == r.groups;
    }

    /** The step of addUser that puts a connected user into "all". */
    method JoinAll(userName: string, id: int)
      requires DistinctGroups() && AllGroup in groups
      modifies groups[AllGroup]
      ensures Table(groups) == old(Table(groups))[AllGroup := old(Table(groups))[AllGroup][id := userName]]
    {
      var all := groups[AllGroup];
      ghost var t := Table(groups);
      all.AddMember(userName, id);
      forall g | g in groups
        ensures Table(groups)[g] == t[AllGroup := t[AllGroup][id := userName]][g]
      {
        if g != AllGroup {
          assert groups[g] != all;
        }
      }
      assert Table(groups) == t[AllGroup := t[AllGroup][id := userName]];
    }

    /** addGroup. Unknown names are provisioned with counter ids, every
        listed name is notified, and the new group replaces any of that name. */
    method AddGroup(groupName: string, memberNames: seq<string>)
      requires Valid()
      modifies this
      ensures Valid()
      ensures State() == CreateGroup(old(State()), groupName, memberNames)
    {
      ghost var s := State();
      var members := AddListedMembers(groupName, memberNames);
      ghost var s1 := State();
      StoreGroup(groupName, members);
      assert State() == s1.(groups := s1.groups[groupName := members]);
      assert State() == CreateGroup(s, groupName, memberNames);
    }

    /** The loop of addGroup over the listed names, before the group is stored. */
    method AddListedMembers(groupName: string, memberNames: seq<string>) returns (members: map<int, string>)
      requires Valid()
      modifies this
      ensures Valid() && groups == old(groups)
      ensures (State(), members) == AddMembers(old(State()), groupName, memberNames, |memberNames|)
    {
      ghost var s := State();
      members := map[];
      var i := 0;
      while i < |memberNames|
        invariant 0 <= i <= |memberNames|
        invariant Valid() && groups == old(groups)
        invariant (State(), members) == AddMembers(s, groupName, memberNames, i)
      {
        members := AddListedMember(s, groupName, memberNames, i, members);
        i := i + 1;
      }
    }

    /** The i-th round of the addGroup loop, as the step from i rounds to i + 1. */
    method AddListedMember(ghost s: ServerState, groupName: string, memberNames: seq<string>, i: nat,
                              members: map<int, string>) returns (members': map<int, string>)
      requires Valid() && Inv(s) && i < |memberNames|
      requires (State(), members) == AddMembers(s, groupName, memberNames, i)
      modifies this
      ensures Valid() && groups == old(groups)
      ensures (State(), members') == AddMembers(s, groupName, memberNames, i + 1)
    {
      assert AddMembers(s, groupName, memberNames, i + 1)
          == AddOne(State(), members, groupName, memberNames[0], memberNames[i]);
      members' := AddOneMember(groupName, memberNames[0], memberNames[i], members);
    }

    /** One round of the addGroup loop: `name` is provisioned if unknown,
        entered into `members` under its id, and notified that `creator`
        added it to `groupName`. */
    method AddOneMember(groupName: string, creator: string, name: string,
                        members: map<int, string>) returns (members': map<int, string>)
      requires Valid() && MembersKnown(userIDs, members)
      modifies this
      ensures Valid() && groups == old(groups)
      ensures (State(), members') == AddOne(old(State()), members, groupName, creator, name)
    {
      ghost var before := State();
      if name !in userIDs {
        var newId := nextId;
        nextId := nextId + 1;
        var _ := AddUser(name, false, newId);
      }
      assert State() == Provision(before, name);
      members' := members[userIDs[name] := name];
      AddMessage(AddedNotice(groupName, creator, name));
    }

    /** The last step of addGroup: a new Group object under `groupName`,
        replacing any group of that name. */
    method StoreGroup(groupName: string, members: map<int, string>)
      requires DistinctGroups()
      modifies this`groups
      ensures DistinctGroups()
      ensures Table(groups) == old(Table(groups))[groupName := members]
    {
      ghost var t := Table(groups);
      var g := new Group(groupName, members);
      groups := groups[groupName := g];
      forall h | h in groups
        ensures Table(groups)[h] == t[groupName := members][h]
      {
      }
      assert Table(groups) == t[groupName := members];
    }

    /** removeUser: the id leaves "all". */
    method RemoveUser(id: int)
      requires Valid()
      modifies groups[AllGroup]
      ensures Valid()
      ensures State() == Disconnect(old(State()), id)
    {
      var all := groups[AllGroup];
      ghost var t := Table(groups);
      label before:
      all.RemoveMember(id);
      forall g | g in groups
        ensures Table(groups)[g] == t[AllGroup := t[AllGroup] - {id}][g]
      {
        assert t[g] == old@before(groups[g].members);
        if g != AllGroup {
          assert groups[g] != all;
        }
      }
      assert Table(groups) == t[AllGroup := t[AllGroup] - {id}];
    }

    /** addMessage: group posts are checked and fanned out, direct messages
        are appended to the receiver's mailbox. */
    method AddMessage(m: Message)
      requires Valid()
      modifies this
      ensures Valid() && groups == old(groups)
      ensures State() == Route(old(State()), m)
      decreases if m.sender == ServerName then 0 else 1
    {
      var recipient, sender := m.receiver, m.sender;
      if recipient in groups {
        var members := groups[recipient].GetMembers();
        if sender != ServerName && !(sender in userIDs && userIDs[sender] in members) {
          AddMessage(DeniedNotice(sender, recipient));
          return;
        }
        PostToGroup(m);
      } else {
        PostDirect(m);
      }
    }

    /** A permitted group post: the group-tagged copy goes to every member
        not named like the sender. */
    method PostToGroup(m: Message)
      requires Valid() && m.receiver in groups
      requires m.sender == ServerName || IsMember(State(), m.sender, m.receiver)
      modifies this`messages
      ensures Valid() && State() == Route(old(State()), m)
    {
      ghost var s := State();
      var members := groups[m.receiver].GetMembers();
      assert members == s.groups[m.receiver];
      var tagged := TagWithGroup(m, m.receiver);
      forall id | id in members ensures id in messages {
        MemberHasMailbox(s, m.receiver, id);
      }
      DeliverToMembers(members, m.sender, tagged);
      assert State() == s.(mailboxes := Deliver(s.mailboxes, members, m.sender, tagged));
    }

    /** A message to a name that is not a group: the receiver is provisioned
        if unknown, and the message is appended to its mailbox. */
    method PostDirect(m: Message)
      requires Valid() && m.receiver !in groups
      modifies this
      ensures Valid() && groups == old(groups)
      ensures State() == Route(old(State()), m)
    {
      ghost var s := State();
      var recipient := m.receiver;
      if recipient !in userIDs {
        var newId := nextId;
        nextId := nextId + 1;
        var _ := AddUser(recipient, false, newId);
      }
      ghost var s1 := State();
      assert s1 == Provision(s, recipient);
      var receiverId := userIDs[recipient];
      messages := messages[receiverId := messages[receiverId] + [m]];
      assert State() == s1.(mailboxes := s1.mailboxes[receiverId := s1.mailboxes[receiverId] + [m]]);
    }

    /** The loop of addMessage over a group's members: `tagged` is appended
        to the mailbox of every member whose name is not `sender`. */
    method DeliverToMembers(members: map<int, string>, sender: string, tagged: Message)
      requires members.Keys <= messages.Keys
      modifies this`messages
      ensures messages == Deliver(old(messages), members, sender, tagged)
    {
      var ids := members.Keys;
      assert members - ids == map[];
      assert messages == Deliver(old(messages), members - ids, sender, tagged);
      while exists id :: id in ids
        invariant ids <= members.Keys
        invariant messages == Deliver(old(messages), members - ids, sender, tagged)
        decreases ids
      {
        var id :| id in ids;
        DeliverOneMore(old(messages), members, ids, sender, tagged, id);
        if members[id] != sender {
          messages := messages[id := messages[id] + [tagged]];
        }
        ids := ids - {id};
      }
      assert ids == {};
      assert members - ids == members;
    }

    /** getMessagesForUser: hands over the whole mailbox and empties it. The
        id must own a mailbox, as `Server.getMessagesForUser` looks it up unchecked. */
    method GetMessagesForUser(id: int) returns (msgs: seq<Message>)
      requires Valid() && id in messages
      modifies this
      ensures Valid() && groups == old(groups)
      ensures (msgs, State()) == Drain(old(State()), id)
    {
      msgs := [];
      if messages[id] != [] {
        msgs := messages[id];
        messages := messages[id := []];
      } else {
        assert messages == messages[id := []];
      }
    }

    /** getConnectedUsers: exactly the names listed in "all", each a known
        user whose id is in "all". When ids are unique these are exactly the
        known users whose id is in "all". */
    function GetConnectedUsers(): (r: set<string>)
      reads this, groups.Values
      requires Valid()
      ensures forall n :: n in r <==>
                exists id :: id in groups[AllGroup].members && groups[AllGroup].members[id] == n
      ensures forall n :: n in r ==> n in userIDs && userIDs[n] in groups[AllGroup].members
      ensures UniqueIds(State()) ==>
                forall n :: n in r <==> n in userIDs && userIDs[n] in groups[AllGroup].members
    {
      var all := groups[AllGroup].GetMembers();
      assert UniqueIds(State()) ==>
               forall n :: IsMember(State(), n, AllGroup) <==> exists id :: id in all && all[id] == n by {
        if UniqueIds(State()) {
          IsMemberIffListed(State(), AllGroup);
        }
      }
      set id | id in all :: all[id]
    }

    /** getGroupNames: every group name, "all" among them. */
    function GetGroupNames(): (r: set<string>)
      reads this
      requires AllGroup in groups
      ensures AllGroup in r
      ensures forall g :: g in r <==> g in groups
    {
      groups.Keys
    }
  }
}
