/** A named chat group and its membership (Group.java). */
module Groups {

  /** A group keeps a map from user id to user name. The name is fixed when
      the group is made; the membership map is changed in place. */
  class Group {
    const name: string
    var members: map<int, string>

    constructor (name: string, members: map<int, string>)
      ensures this.name == name && this.members == members
    {
      this.name := name;
      this.members := members;
    }

    /** The name given to the constructor (a `const`, so no method changes it). */
    function GetName(): (r: string)
      ensures r == name
    {
      name
    }

    /** The current membership: whatever AddMember and RemoveMember have done
        to the group so far is visible here. */
    function GetMembers(): (r: map<int, string>)
      reads this
      ensures r == members
    {
      members
    }

    /** Binds `id` to `userName`, replacing any name `id` had before. */
    method AddMember(userName: string, id: int)
      modifies this
      ensures members == old(members)[id := userName]
      ensures id in members && members[id] == userName
    {
      members := members[id := userName];
    }

    /** Drops key `id` and nothing else; an absent id leaves the group as it was. */
    method RemoveMember(id: int)
      modifies this
      ensures members == old(members) - {id}
      ensures id !in members
      ensures id !in old(members) ==> members == old(members)
    {
      members := members - {id};
    }
  }
}
