/** The message record the server routes (Message.java), and the few messages
    the server itself writes. */
module Messages {

  /** A chat message: who sent it, who it is for (a user name or a group
      name) and its text. The constructor stores the three fields as given. */
  datatype Message = Message(sender: string, receiver: string, content: string)

  /** The sender name of every notice the server generates. Group posts from
      this sender skip the membership check. */
  const ServerName: string := "SERVER"

  /** The copy of `m` that is delivered to the members of `group`: the sender
      becomes "[group] sender", and the receiver and the text stay as they were. */
  function TagWithGroup(m: Message, group: string): (r: Message)
    ensures r.receiver == m.receiver && r.content == m.content
    ensures |r.sender| == |group| + 3 + |m.sender|
    ensures r.sender[..|group| + 3] == "[" + group + "] "
    ensures r.sender[|group| + 3..] == m.sender
  {
    m.(sender := "[" + group + "] " + m.sender)
  }

  /** The notice a listed member receives when a group is created; `creator`
      is the first name of the list. */
  function AddedNotice(group: string, creator: string, member: string): (r: Message)
    ensures r.sender == ServerName && r.receiver == member
  {
    Message(ServerName, member, "you were added to the " + group + " group by " + creator)
  }

  /** The notice sent back to a sender who posted to a group it is not in. */
  function DeniedNotice(sender: string, group: string): (r: Message)
    ensures r.sender == ServerName && r.receiver == sender
  {
    Message(ServerName, sender, "you do not have permission to message the " + group + " group.")
  }
}
