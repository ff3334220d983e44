/** `getChatMember`: one Bot API lookup whose reply is classified against a
    fixed set of statuses. The HTTP request itself is an input. */
module Membership {
  import opened Base
  import opened JsonValue

  /** What the lookup is asked: `chat_id` and `user_id` under the bot token.
      `userId` is `user.id` as read from the verified payload, possibly
      `undefined`. */
  datatype Query = Query(botToken: Text, chatId: Text, userId: Option<Json>)

  /** The outcome of `fetch` and `response.json()`: `Failed` when either throws,
      otherwise the `ok` flag and `result.status` (`None` when `result` is
      missing or `status` is not a string). */
  datatype Reply = Failed | Reply(ok: bool, status: Option<Text>)

  /** The lookup, supplied by the environment. */
  type Oracle = Query -> Reply

  const Member: Text := Ascii("member")
  const Administrator: Text := Ascii("administrator")
  const Creator: Text := Ascii("creator")
  const Restricted: Text := Ascii("restricted")
  const Left: Text := Ascii("left")
  const Kicked: Text := Ascii("kicked")

  /** The statuses that count as membership, `restricted` included. */
  const MemberStatuses: seq<Text> := [Member, Administrator, Creator, Restricted]

  /** The classification of lines 88-99: `false` on a failed request, on a
      reply that is not `ok`, and on any status outside the accepted set. */
  function IsMember(reply: Reply): (b: bool)
    ensures b ==> reply.Reply? && reply.ok && reply.status.Some?
  {
    match reply
    case Failed => false
    case Reply(ok, status) => ok && status.Some? && status.value in MemberStatuses
  }

  /** `getChatMember(botToken, chatId, userId)`: it never throws, it answers. */
  function GetChatMember(oracle: Oracle, q: Query): bool {
    IsMember(oracle(q))
  }

  /** Exactly the four accepted statuses grant membership on an `ok` reply. */
  lemma StatusClassification(status: Text)
    ensures IsMember(Reply(true, Some(status)))
        <==> status == Member || status == Administrator || status == Creator || status == Restricted
  {
  }

  /** `left` and `kicked` are refused. */
  lemma DepartedRefused(ok: bool)
    ensures !IsMember(Reply(ok, Some(Left)))
    ensures !IsMember(Reply(ok, Some(Kicked)))
  {
    assert Left[0] != Member[0] && Left[0] != Administrator[0] && Left[0] != Creator[0] && Left[0] != Restricted[0];
    assert Kicked[0] != Member[0] && Kicked[0] != Administrator[0] && Kicked[0] != Creator[0] && Kicked[0] != Restricted[0];
  }

  /** Failing soft: a failed request or a reply that is not `ok` means "not a
      member", whatever the status says. */
  lemma FailsClosed(oracle: Oracle, q: Query)
    requires oracle(q).Failed? || !oracle(q).ok
    ensures !GetChatMember(oracle, q)
  {
  }
}
