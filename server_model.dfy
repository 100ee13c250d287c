/** The server's directory, groups and mailboxes (Server.java) as one value,
    and each server operation as a function from the state before to the
    state after. The class in module ChatServer is proved against these
    functions; module ServerProperties proves what they promise. */
module ServerModel {
  import opened Messages

  /** The group every connected user joins, created with the server. */
  const AllGroup: string := "all"

  /** userIDs: user name to id; groups: group name to its membership map
      (id to name); mailboxes: id to the messages waiting for that user;
      nextId: the id counter. */
  datatype ServerState = ServerState(
    userIDs: map<string, int>,
    groups: map<string, map<int, string>>,
    mailboxes: map<int, seq<Message>>,
    nextId: int)

  /** Every member of `members` is a known user, stored under that user's id. */
  ghost predicate MembersKnown(userIDs: map<string, int>, members: map<int, string>)
  {
    forall id :: id in members ==> members[id] in userIDs && userIDs[members[id]] == id
  }

  /** `b` keeps every binding of `a`. */
  ghost predicate Extends(a: map<string, int>, b: map<string, int>)
  {
    forall n :: n in a ==> n in b && b[n] == a[n]
  }

  /** Every id that is in use is below the counter: every id comes from the
      counter, either drawn by the accept loop for a connection or taken by
      pre-provisioning. */
  ghost predicate IdsIssued(s: ServerState)
  {
    forall id :: id in s.mailboxes ==> id < s.nextId
  }

  /** What makes every mailbox lookup of the server succeed: the "all" group
      exists, every known user's id has a mailbox, and every group member is
      a known user under its own id. Every id in use was issued by the
      counter. */
  ghost predicate Inv(s: ServerState)
  {
    && AllGroup in s.groups
    && (forall n :: n in s.userIDs ==> s.userIDs[n] in s.mailboxes)
    && (forall g :: g in s.groups ==> MembersKnown(s.userIDs, s.groups[g]))
    && IdsIssued(s)
  }

  /** No two known names share an id. */
  ghost predicate UniqueIds(s: ServerState)
  {
    forall a, b :: a in s.userIDs && b in s.userIDs && a != b ==> s.userIDs[a] != s.userIDs[b]
  }

  lemma MemberHasMailbox(s: ServerState, g: string, id: int)
    requires Inv(s) && g in s.groups && id in s.groups[g]
    ensures id in s.mailboxes
  {
    assert MembersKnown(s.userIDs, s.groups[g]);
  }

  lemma MembersKnownExtends(a: map<string, int>, b: map<string, int>, members: map<int, string>)
    requires MembersKnown(a, members) && Extends(a, b)
    ensures MembersKnown(b, members)
  {
  }

  /** The server just after construction: the empty "all" group and nothing else. */
  function Initial(): (s: ServerState)
    ensures Inv(s) && UniqueIds(s)
  {
    ServerState(map[], map[AllGroup := map[]], map[], 0)
  }

  /** Whether `sender` belongs to group `g`, looked up by the sender's id;
      an unknown sender belongs to no group. */
  function IsMember(s: ServerState, sender: string, g: string): (r: bool)
    requires g in s.groups
    ensures sender !in s.userIDs ==> !r
  {
    sender in s.userIDs && s.userIDs[sender] in s.groups[g]
  }

  /** The permission test looks up the sender's id: when ids are unique, that
      is the same as the sender being listed in the group by name. */
  lemma IsMemberIffListed(s: ServerState, g: string)
    requires Inv(s) && UniqueIds(s) && g in s.groups
    ensures forall sender :: IsMember(s, sender, g) <==> exists id :: id in s.groups[g] && s.groups[g][id] == sender
  {
    forall sender | IsMember(s, sender, g)
      ensures exists id :: id in s.groups[g] && s.groups[g][id] == sender
    {
      var id := s.userIDs[sender];
      assert MembersKnown(s.userIDs, s.groups[g]);
      assert s.userIDs[s.groups[g][id]] == id;
    }
  }

  /** addUser(name, handler, id). A new name is bound to `id` with an empty
      mailbox; a known name keeps its id. With a handler (`online`) the user
      joins "all" under the id it ends up with. Without a handler the name
      must be new, since `Server.addUser` would dereference the missing handler.
      A new name's id was issued by the counter: a connection's id is drawn
      by Accept, and a pre-provisioned name takes the counter value. */
  function Register(s: ServerState, name: string, online: bool, id: int): (r: ServerState)
    requires Inv(s)
    requires online || name !in s.userIDs
    requires name !in s.userIDs ==> id < s.nextId
    ensures Inv(r) && name in r.userIDs && Extends(s.userIDs, r.userIDs)
    ensures name !in s.userIDs ==> r.userIDs == s.userIDs[name := id] && r.mailboxes == s.mailboxes[id := []]
    ensures name in s.userIDs ==> r.userIDs == s.userIDs && r.mailboxes == s.mailboxes
    ensures r.groups.Keys == s.groups.Keys && r.nextId == s.nextId
    ensures forall g :: g in s.groups && g != AllGroup ==> r.groups[g] == s.groups[g]
    ensures online ==> r.groups == s.groups[AllGroup := s.groups[AllGroup][r.userIDs[name] := name]]
    ensures !online ==> r.groups == s.groups
  {
    var s1 := if name in s.userIDs then s
              else s.(userIDs := s.userIDs[name := id], mailboxes := s.mailboxes[id := []]);
    if online then
      s1.(groups := s1.groups[AllGroup := s1.groups[AllGroup][s1.userIDs[name] := name]])
    else
      s1
  }

  /** The accept loop's draw for a new connection (Server.java:155): the
      handler takes the counter value, which no user holds yet, and the
      counter advances. */
  function Accept(s: ServerState): (r: (int, ServerState))
    requires Inv(s)
    ensures Inv(r.1) && r.0 !in s.mailboxes && r.0 < r.1.nextId
    ensures r.1 == s.(nextId := s.nextId + 1) && r.0 == s.nextId
  {
    (s.nextId, s.(nextId := s.nextId + 1))
  }

  /** The pre-provisioning step of addGroup and addMessage: an unknown name
      is registered, without a handler, under the next counter value. */
  function Provision(s: ServerState, name: string): (r: ServerState)
    requires Inv(s)
    ensures Inv(r) && name in r.userIDs && Extends(s.userIDs, r.userIDs)
    ensures r.groups == s.groups
    ensures name in s.userIDs ==> r == s
    ensures name !in s.userIDs ==>
              && r.userIDs == s.userIDs[name := s.nextId]
              && r.mailboxes == s.mailboxes[s.nextId := []]
              && r.nextId == s.nextId + 1
  {
    if name in s.userIDs then s
    else Register(s.(nextId := s.nextId + 1), name, false, s.nextId)
  }

  /** The mailboxes after `m` is appended to the mailbox of every member of
      `members` whose name is not `sender`. */
  function Deliver(mailboxes: map<int, seq<Message>>, members: map<int, string>,
                   sender: string, m: Message): (r: map<int, seq<Message>>)
    requires members.Keys <= mailboxes.Keys
    ensures r.Keys == mailboxes.Keys
  {
    map id | id in mailboxes ::
      if id in members && members[id] != sender then mailboxes[id] + [m] else mailboxes[id]
  }

  /** Handling one more member `id` of `pending` extends a partial delivery
      by that member's mailbox, if its name is not the sender's. */
  lemma DeliverOneMore(mailboxes: map<int, seq<Message>>, members: map<int, string>,
                       pending: set<int>, sender: string, m: Message, id: int)
    requires members.Keys <= mailboxes.Keys && pending <= members.Keys && id in pending
    ensures var before := Deliver(mailboxes, members - pending, sender, m);
            Deliver(mailboxes, members - (pending - {id}), sender, m)
              == if members[id] != sender then before[id := before[id] + [m]] else before
  {
    var before := Deliver(mailboxes, members - pending, sender, m);
    var after := Deliver(mailboxes, members - (pending - {id}), sender, m);
    var expected := if members[id] != sender then before[id := before[id] + [m]] else before;
    assert after.Keys == expected.Keys;
    forall k | k in after ensures after[k] == expected[k] {
      if k == id {
        assert k in members - (pending - {id});
      }
    }
  }

  /** addMessage(m). To a group: a sender other than SERVER that is not a
      member gets a permission notice instead (routed the same way);
      otherwise the group-tagged copy goes to every member not named like the
      sender. To anyone else: the receiver is provisioned if unknown and `m`
      is appended to its mailbox. Routing never changes a group. */
  function Route(s: ServerState, m: Message): (r: ServerState)
    requires Inv(s)
    ensures Inv(r) && r.groups == s.groups
    ensures Extends(s.userIDs, r.userIDs) && s.mailboxes.Keys <= r.mailboxes.Keys
    ensures s.nextId <= r.nextId
    decreases if m.sender == ServerName then 0 else 1
  {
    if m.receiver in s.groups then
      if m.sender != ServerName && !IsMember(s, m.sender, m.receiver) then
        Route(s, DeniedNotice(m.sender, m.receiver))
      else
        var members := s.groups[m.receiver];
        assert members.Keys <= s.mailboxes.Keys by {
          forall id | id in members ensures id in s.mailboxes {
            MemberHasMailbox(s, m.receiver, id);
          }
        }
        s.(mailboxes := Deliver(s.mailboxes, members, m.sender, TagWithGroup(m, m.receiver)))
    else
      var s1 := Provision(s, m.receiver);
      var id := s1.userIDs[m.receiver];
      s1.(mailboxes := s1.mailboxes[id := s1.mailboxes[id] + [m]])
  }

  /** Registering a new name with an id no user holds yet keeps ids unique. */
  lemma RegisterKeepsIdsUnique(s: ServerState, name: string, online: bool, id: int)
    requires Inv(s) && UniqueIds(s)
    requires online || name !in s.userIDs
    requires name !in s.userIDs ==> id !in s.mailboxes && id < s.nextId
    ensures UniqueIds(Register(s, name, online, id))
  {
  }

  /** A connection that registers right after the accept loop drew its id
      keeps ids unique: a new name gets the drawn id, which no user holds,
      and a known name keeps its own id. */
  lemma ConnectKeepsIdsUnique(s: ServerState, name: string)
    requires Inv(s) && UniqueIds(s)
    ensures var (id, s1) := Accept(s);
            var r := Register(s1, name, true, id);
            && UniqueIds(r)
            && r.userIDs[name] == (if name in s.userIDs then s.userIDs[name] else id)
  {
    var (id, s1) := Accept(s);
    RegisterKeepsIdsUnique(s1, name, true, id);
  }

  /** A pre-provisioned name gets the counter value, which no known name
      holds, so ids stay unique. */
  lemma ProvisionKeepsIdsUnique(s: ServerState, name: string)
    requires Inv(s) && UniqueIds(s)
    ensures var r := Provision(s, name);
            && UniqueIds(r)
            && (name !in s.userIDs ==> forall n :: n in s.userIDs ==> s.userIDs[n] != r.userIDs[name])
  {
    if name !in s.userIDs {
      assert s.nextId !in s.mailboxes;
      RegisterKeepsIdsUnique(s.(nextId := s.nextId + 1), name, false, s.nextId);
    }
  }

  /** Routing keeps ids unique. */
  lemma {:induction false} RouteKeepsIdsUnique(s: ServerState, m: Message)
    requires Inv(s) && UniqueIds(s)
    ensures UniqueIds(Route(s, m))
    decreases if m.sender == ServerName then 0 else 1
  {
    if m.receiver in s.groups {
      if m.sender != ServerName && !IsMember(s, m.sender, m.receiver) {
        RouteKeepsIdsUnique(s, DeniedNotice(m.sender, m.receiver));
      }
    } else {
      ProvisionKeepsIdsUnique(s, m.receiver);
    }
  }

  /** A SERVER notice to a known user or to a group provisions nobody. */
  lemma NoticeAddsNoUser(s: ServerState, m: Message)
    requires Inv(s) && m.sender == ServerName
    requires m.receiver in s.userIDs || m.receiver in s.groups
    ensures Route(s, m).userIDs == s.userIDs && Route(s, m).nextId == s.nextId
  {
  }

  /** One round of the addGroup loop for `name`: provision it if unknown,
      enter it into `members` under its id, and route it the notice that
      `creator` added it to `group`. */
  function AddOne(s: ServerState, members: map<int, string>, group: string,
                  creator: string, name: string): (r: (ServerState, map<int, string>))
    requires Inv(s) && MembersKnown(s.userIDs, members)
    ensures Inv(r.0) && MembersKnown(r.0.userIDs, r.1)
    ensures name in r.0.userIDs && r.1 == members[r.0.userIDs[name] := name]
    ensures r.0.groups == s.groups && Extends(s.userIDs, r.0.userIDs)
    ensures s.mailboxes.Keys <= r.0.mailboxes.Keys && s.nextId <= r.0.nextId
  {
    var s2 := Provision(s, name);
    MembersKnownExtends(s.userIDs, s2.userIDs, members);
    var members' := members[s2.userIDs[name] := name];
    var s3 := Route(s2, AddedNotice(group, creator, name));
    MembersKnownExtends(s2.userIDs, s3.userIDs, members');
    (s3, members')
  }

  /** Whether the first k listed names are known users entered into
      `members` under their ids, and `members` holds no other name. */
  ghost predicate ListedBound(s: ServerState, members: map<int, string>, names: seq<string>, k: nat)
    requires k <= |names|
  {
    && (forall j :: 0 <= j < k ==> names[j] in s.userIDs && s.userIDs[names[j]] in members)
    && (forall id :: id in members ==> members[id] in names[..k])
  }

  /** One round of addGroup for the k-th listed name extends ListedBound
      from k - 1 names to k. */
  lemma AddOneBindsName(s: ServerState, members: map<int, string>, group: string,
                        creator: string, names: seq<string>, k: nat)
    requires Inv(s) && MembersKnown(s.userIDs, members) && 0 < k <= |names|
    requires ListedBound(s, members, names, k - 1)
    ensures var r := AddOne(s, members, group, creator, names[k - 1]);
            ListedBound(r.0, r.1, names, k)
  {
    var name := names[k - 1];
    var r := AddOne(s, members, group, creator, name);
    forall j | 0 <= j < k
      ensures names[j] in r.0.userIDs && r.0.userIDs[names[j]] in r.1
    {
      if j < k - 1 {
        assert names[j] in s.userIDs && s.userIDs[names[j]] in members;
      }
    }
    assert names[..k] == names[..k - 1] + [name];
    forall id | id in r.1 ensures r.1[id] in names[..k] {
      if r.1[id] != name {
        assert r.1[id] == members[id] && members[id] in names[..k - 1];
      }
    }
  }

  /** Whether every name `r` knows beyond those `s` knows is among the first
      k listed names, with an id the counter issued between the two states. */
  ghost predicate NewNamesNumbered(s: ServerState, r: ServerState, names: seq<string>, k: nat)
    requires k <= |names|
  {
    forall n :: n in r.userIDs && n !in s.userIDs ==>
      n in names[..k] && s.nextId <= r.userIDs[n] < r.nextId
  }

  /** One round of addGroup makes at most its own name known, under the
      counter value it takes, so NewNamesNumbered extends from k - 1 names
      to k. */
  lemma AddOneNumbersName(s0: ServerState, s: ServerState, members: map<int, string>, group: string,
                          creator: string, names: seq<string>, k: nat)
    requires Inv(s) && MembersKnown(s.userIDs, members) && 0 < k <= |names|
    requires s0.nextId <= s.nextId && Extends(s0.userIDs, s.userIDs)
    requires NewNamesNumbered(s0, s, names, k - 1)
    ensures var r := AddOne(s, members, group, creator, names[k - 1]).0;
            NewNamesNumbered(s0, r, names, k)
  {
    var name := names[k - 1];
    var s2 := Provision(s, name);
    NoticeAddsNoUser(s2, AddedNotice(group, creator, name));
    var r := AddOne(s, members, group, creator, name).0;
    assert r.userIDs == s2.userIDs && r.nextId == s2.nextId;
    assert names[..k] == names[..k - 1] + [name];
    forall n | n in r.userIDs && n !in s0.userIDs
      ensures n in names[..k] && s0.nextId <= r.userIDs[n] < r.nextId
    {
      if n in s.userIDs {
        assert n in names[..k - 1] && s0.nextId <= s.userIDs[n] < s.nextId;
      }
    }
  }

  /** One round of addGroup keeps ids unique. */
  lemma AddOneKeepsIdsUnique(s: ServerState, members: map<int, string>, group: string,
                            creator: string, name: string)
    requires Inv(s) && MembersKnown(s.userIDs, members)
    ensures var r := AddOne(s, members, group, creator, name).0;
            UniqueIds(s) ==> UniqueIds(r)
  {
    if UniqueIds(s) {
      ProvisionKeepsIdsUnique(s, name);
      RouteKeepsIdsUnique(Provision(s, name), AddedNotice(group, creator, name));
    }
  }

  /** The addGroup loop over the first `k` listed names, each round naming
      the first listed name as the one who added the member. The state
      carries the routed notices; the map is the new group's members. */
  function AddMembers(s: ServerState, group: string, names: seq<string>, k: nat)
    : (r: (ServerState, map<int, string>))
    requires Inv(s) && k <= |names|
    ensures Inv(r.0) && MembersKnown(r.0.userIDs, r.1)
    ensures r.0.groups == s.groups && Extends(s.userIDs, r.0.userIDs)
    ensures s.mailboxes.Keys <= r.0.mailboxes.Keys && s.nextId <= r.0.nextId
    ensures ListedBound(r.0, r.1, names, k) && NewNamesNumbered(s, r.0, names, k)
    ensures UniqueIds(s) ==> UniqueIds(r.0)
    decreases k
  {
    if k == 0 then (s, map[])
    else
      var p := AddMembers(s, group, names, k - 1);
      AddOneBindsName(p.0, p.1, group, names[0], names, k);
      AddOneNumbersName(s, p.0, p.1, group, names[0], names, k);
      AddOneKeepsIdsUnique(p.0, p.1, group, names[0], names[k - 1]);
      AddOne(p.0, p.1, group, names[0], names[k - 1])
  }

  /** addGroup(group, names): the listed names are processed in order, then
      the group is stored with their membership, replacing any group of that
      name. */
  function CreateGroup(s: ServerState, group: string, names: seq<string>): (r: ServerState)
    requires Inv(s)
    ensures Inv(r) && r.groups.Keys == s.groups.Keys + {group}
    ensures Extends(s.userIDs, r.userIDs) && s.mailboxes.Keys <= r.mailboxes.Keys
    ensures forall g :: g in s.groups && g != group ==> r.groups[g] == s.groups[g]
  {
    var (s1, members) := AddMembers(s, group, names, |names|);
    s1.(groups := s1.groups[group := members])
  }

  /** removeUser(id): the id leaves "all"; nothing else changes. */
  function Disconnect(s: ServerState, id: int): (r: ServerState)
    requires Inv(s)
    ensures Inv(r) && id !in r.groups[AllGroup]
    ensures r.userIDs == s.userIDs && r.mailboxes == s.mailboxes && r.nextId == s.nextId
    ensures r.groups.Keys == s.groups.Keys
    ensures forall g :: g in s.groups && g != AllGroup ==> r.groups[g] == s.groups[g]
    ensures forall k :: k in r.groups[AllGroup] <==> k in s.groups[AllGroup] && k != id
    ensures forall k :: k in r.groups[AllGroup] ==> r.groups[AllGroup][k] == s.groups[AllGroup][k]
  {
    s.(groups := s.groups[AllGroup := s.groups[AllGroup] - {id}])
  }

  /** getMessagesForUser(id): everything in the mailbox, in order; the
      mailbox is left empty. */
  function Drain(s: ServerState, id: int): (r: (seq<Message>, ServerState))
    requires Inv(s) && id in s.mailboxes
    ensures Inv(r.1) && r.0 == s.mailboxes[id]
    ensures r.1.mailboxes.Keys == s.mailboxes.Keys && r.1.mailboxes[id] == []
    ensures forall k :: k in s.mailboxes && k != id ==> r.1.mailboxes[k] == s.mailboxes[k]
    ensures r.1.userIDs == s.userIDs && r.1.groups == s.groups && r.1.nextId == s.nextId
  {
    (s.mailboxes[id], s.(mailboxes := s.mailboxes[id := []]))
  }
}
