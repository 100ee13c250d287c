/** What the server operations promise, stated over the model in
    ServerModel: where each message goes, what is left untouched, what a
    reconnect, a repeated disconnect and a repeated drain do. */
module ServerProperties {
  import opened Messages
  import opened ServerModel

  // ----- addUser -----

  /** A name that reconnects keeps the id it was first given, whatever id
      the new connection brought, and reconnecting changes nothing; the id
      is the one the name already had, or else the first connection's. */
  lemma ReconnectKeepsId(s: ServerState, name: string, firstId: int, laterId: int)
    requires Inv(s) && (name !in s.userIDs ==> firstId < s.nextId)
    ensures var r1 := Register(s, name, true, firstId);
            var r2 := Register(r1, name, true, laterId);
            && r2 == r1
            && r1.userIDs[name] == (if name in s.userIDs then s.userIDs[name] else firstId)
  {
    var r1 := Register(s, name, true, firstId);
    var id := r1.userIDs[name];
    assert r1.groups[AllGroup][id := name] == r1.groups[AllGroup];
    assert r1.groups[AllGroup := r1.groups[AllGroup]] == r1.groups;
  }

  // ----- addMessage -----

  /** A post to a group by a sender that is neither SERVER nor a member
      (nor itself a group name) reaches nobody but the sender, as a single
      permission notice; an unknown sender is provisioned first. */
  lemma DeniedPostOnlyNotifiesSender(s: ServerState, m: Message)
    requires Inv(s) && m.receiver in s.groups
    requires m.sender != ServerName && !IsMember(s, m.sender, m.receiver)
    requires m.sender !in s.groups
    ensures var r := Route(s, m);
            && m.sender in r.userIDs && r.groups == s.groups
            && var id := r.userIDs[m.sender];
               && r.mailboxes.Keys == s.mailboxes.Keys + {id}
               && r.mailboxes[id]
                    == (if m.sender in s.userIDs then s.mailboxes[id] else [])
                       + [DeniedNotice(m.sender, m.receiver)]
               && forall k :: k in s.mailboxes && k != id ==> r.mailboxes[k] == s.mailboxes[k]
  {
    var notice := DeniedNotice(m.sender, m.receiver);
    assert Route(s, m) == Route(s, notice);
    DirectMessageAppends(s, notice);
  }

  /** A permitted group post (from SERVER or from a member) puts one
      group-tagged copy at the end of the mailbox of every member not named
      like the sender, and changes nothing else. */
  lemma GroupPostFansOut(s: ServerState, m: Message)
    requires Inv(s) && m.receiver in s.groups
    requires m.sender == ServerName || IsMember(s, m.sender, m.receiver)
    ensures var r := Route(s, m);
            var members := s.groups[m.receiver];
            var tagged := TagWithGroup(m, m.receiver);
            && r.userIDs == s.userIDs && r.groups == s.groups && r.nextId == s.nextId
            && r.mailboxes.Keys == s.mailboxes.Keys
            && forall k :: k in s.mailboxes ==>
                 r.mailboxes[k] == if k in members && members[k] != m.sender
                                   then s.mailboxes[k] + [tagged] else s.mailboxes[k]
  {
  }

  /** When no two names share an id, a group post never lands in the
      sender's own mailbox. */
  lemma GroupPostSkipsSender(s: ServerState, m: Message)
    requires Inv(s) && UniqueIds(s) && m.receiver in s.groups
    requires m.sender == ServerName || IsMember(s, m.sender, m.receiver)
    requires m.sender in s.userIDs
    ensures var id := s.userIDs[m.sender];
            Route(s, m).mailboxes[id] == s.mailboxes[id]
  {
    var id := s.userIDs[m.sender];
    var members := s.groups[m.receiver];
    GroupPostFansOut(s, m);
    if id in members {
      assert MembersKnown(s.userIDs, members);
      assert s.userIDs[members[id]] == id;
      assert members[id] == m.sender;
    }
  }

  /** A message to a name that is not a group is appended, unmodified, at
      the end of that user's mailbox (a new, empty one for an unknown name);
      no other mailbox and no group changes. */
  lemma DirectMessageAppends(s: ServerState, m: Message)
    requires Inv(s) && m.receiver !in s.groups
    ensures var r := Route(s, m);
            && m.receiver in r.userIDs && r.groups == s.groups
            && var id := r.userIDs[m.receiver];
               && r.mailboxes.Keys == s.mailboxes.Keys + {id}
               && r.mailboxes[id] == (if m.receiver in s.userIDs then s.mailboxes[id] else []) + [m]
               && forall k :: k in s.mailboxes && k != id ==> r.mailboxes[k] == s.mailboxes[k]
  {
  }

  // ----- addGroup -----

  /** In each round of addGroup the listed name, when it is not itself a
      group name, gets one SERVER notice naming `creator` as the one who
      added it, at the end of its mailbox (a new one if the name was
      unknown); no other mailbox changes. */
  lemma AddOneNotifiesMember(s: ServerState, members: map<int, string>, group: string,
                             creator: string, name: string)
    requires Inv(s) && MembersKnown(s.userIDs, members) && name !in s.groups
    ensures var r := AddOne(s, members, group, creator, name).0;
            var id := r.userIDs[name];
            && r.mailboxes.Keys == s.mailboxes.Keys + {id}
            && r.mailboxes[id]
                 == (if name in s.userIDs then s.mailboxes[id] else []) + [AddedNotice(group, creator, name)]
            && forall k :: k in s.mailboxes && k != id ==> r.mailboxes[k] == s.mailboxes[k]
  {
    var s2 := Provision(s, name);
    DirectMessageAppends(s2, AddedNotice(group, creator, name));
  }

  /** When ids are unique, the stored group is exactly {id(n) -> n} for the
      listed names n, replacing whatever group had that name. */
  lemma CreateGroupMembersExact(s: ServerState, group: string, names: seq<string>)
    requires Inv(s) && UniqueIds(s)
    ensures var r := CreateGroup(s, group, names);
            && UniqueIds(r)
            && (forall n :: n in names ==>
                  n in r.userIDs && r.userIDs[n] in r.groups[group] && r.groups[group][r.userIDs[n]] == n)
            && (forall id :: id in r.groups[group] ==> r.groups[group][id] in names)
  {
    var (r, members) := AddMembers(s, group, names, |names|);
    assert names[..|names|] == names;
    forall n | n in names
      ensures members[r.userIDs[n]] == n
    {
      var j :| 0 <= j < |names| && names[j] == n;
      assert r.userIDs[names[j]] in members;
      assert MembersKnown(r.userIDs, members);
    }
  }

  // ----- removeUser -----

  /** Removing an id that is not in "all" changes nothing, so removing the
      same id twice is the same as removing it once. */
  lemma DisconnectIdempotent(s: ServerState, id: int)
    requires Inv(s)
    ensures id !in s.groups[AllGroup] ==> Disconnect(s, id) == s
    ensures Disconnect(Disconnect(s, id), id) == Disconnect(s, id)
  {
    if id !in s.groups[AllGroup] {
      assert s.groups[AllGroup] - {id} == s.groups[AllGroup];
      assert s.groups[AllGroup := s.groups[AllGroup]] == s.groups;
    }
    var r := Disconnect(s, id);
    assert r.groups[AllGroup] - {id} == r.groups[AllGroup];
    assert r.groups[AllGroup := r.groups[AllGroup]] == r.groups;
  }

  // ----- getMessagesForUser -----

  /** Draining is a destructive read: a second drain right after the first
      returns nothing and changes nothing. */
  lemma DrainTwice(s: ServerState, id: int)
    requires Inv(s) && id in s.mailboxes
    ensures var (first, s1) := Drain(s, id);
            var (second, s2) := Drain(s1, id);
            first == s.mailboxes[id] && second == [] && s2 == s1
  {
    var s1 := Drain(s, id).1;
    assert s1.mailboxes[id := []] == s1.mailboxes;
  }

  /** A message sent directly to a user is the last one the user's next
      drain returns. */
  lemma DirectMessageIsDrainedLast(s: ServerState, m: Message)
    requires Inv(s) && m.receiver !in s.groups
    ensures var r := Route(s, m);
            var (msgs, _) := Drain(r, r.userIDs[m.receiver]);
            |msgs| > 0 && msgs[|msgs| - 1] == m
  {
    DirectMessageAppends(s, m);
  }
}
