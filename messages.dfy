/** The `Message` record of the chat and the facts about it that the message list relies on. */
module Messages {
  /** A user's UUID; the model only compares user ids for equality. */
  type UserId = int

  /** A `Date`; the model never inspects a timestamp, it only carries it. */
  type Timestamp = int

  /** One row of the `messages` table, or a local placeholder for a send in flight. */
  datatype Message = Message(
    id: int,
    content: string,
    senderId: UserId,
    receiverId: UserId,
    createdAt: Timestamp)

  /** The closed range from which a placeholder id is drawn. */
  const PendingIdMin: int := 1_000_000
  const PendingIdMax: int := 2_000_000

  /** The chat treats every entry whose id reaches the placeholder range as pending,
      whether it is a placeholder or a server row with a large id. */
  predicate IsPending(m: Message)
  {
    m.id >= PendingIdMin
  }

  /** `m` belongs to the two-party conversation of `me` and `peer`, in either direction. */
  predicate InConversation(m: Message, me: UserId, peer: UserId)
  {
    (m.senderId == me && m.receiverId == peer) || (m.senderId == peer && m.receiverId == me)
  }
}
