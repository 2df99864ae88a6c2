/** What one row of the client's conversation list shows: the avatar, the
    title, the preview of the last message and whether a date is shown.
    The row receives the conversation with its participants and last
    message populated, and the signed-in user's id (`None` when nobody is
    signed in). */
module ConversationItem {
  import opened Common
  import opened ChatState

  /** A populated participant: `_id`, `name`, `avatar`. */
  datatype Participant = Participant(id: Id, name: string, avatar: string)

  /** A populated last message; `createdAt` is absent on a message the
      server sent without it. */
  datatype LastMessage = LastMessage(content: Option<string>, attachment: Option<string>, createdAt: Option<nat>)

  /** The `item` prop. */
  datatype Row = Row(kind: ConvType, participants: seq<Participant>, name: Option<string>,
                     avatar: Option<string>, lastMessage: Option<LastMessage>)

  /** The date cell: not rendered at all, or rendered with the message's
      `createdAt` (`None` for the `null` that `getLastMessageDate` returns).
      The formatting of a present date is not modelled. */
  datatype DateSlot = Hidden | Shown(date: Option<nat>)

  const NoMessagesText := " No messages yet"
  const AttachmentText := "\U{1F4CE} Sent an Attachment"

  /** The index of the first participant whose id differs from `me`. */
  function FirstOther(ps: seq<Participant>, me: Option<Id>): (r: Option<nat>)
    ensures r.Some? ==> r.value < |ps| && Some(ps[r.value].id) != me
    ensures r.Some? ==> forall k :: 0 <= k < r.value ==> Some(ps[k].id) == me
    ensures r.None? <==> forall k :: 0 <= k < |ps| ==> Some(ps[k].id) == me
  {
    if ps == [] then None
    else if Some(ps[0].id) != me then Some(0)
    else
      match FirstOther(ps[1..], me)
      case None => None
      case Some(i) => Some(i + 1)
  }

  /** `otherParticipants`: for a direct conversation, the first participant
      that is not the signed-in user (`find` with `!=`); for a group,
      nobody. */
  function OtherParticipant(row: Row, me: Option<Id>): (r: Option<Participant>)
    ensures row.kind == Group ==> r.None?
    ensures r.Some? ==> exists k ::
      && 0 <= k < |row.participants| && row.participants[k] == r.value && Some(r.value.id) != me
      && forall j :: 0 <= j < k ==> Some(row.participants[j].id) == me
    ensures row.kind == Direct && r.None? ==> forall k :: 0 <= k < |row.participants| ==> Some(row.participants[k].id) == me
    ensures row.kind == Direct && me.None? && row.participants != [] ==> r == Some(row.participants[0])
  {
    if row.kind == Direct then
      match FirstOther(row.participants, me)
      case None => None
      case Some(i) => Some(row.participants[i])
    else None
  }

  /** The avatar shown: the other participant's when the conversation is
      direct and one was found, the conversation's own otherwise. */
  function RowAvatar(row: Row, me: Option<Id>): (r: Option<string>)
    ensures OtherParticipant(row, me).Some? ==> r == Some(OtherParticipant(row, me).value.avatar)
    ensures OtherParticipant(row, me).None? ==> r == row.avatar
  {
    match OtherParticipant(row, me)
    case Some(p) => Some(p.avatar)
    case None => row.avatar
  }

  /** The title: for a direct conversation the other participant's name
      (nothing when none was found), for a group the conversation's name. */
  function RowTitle(row: Row, me: Option<Id>): (r: Option<string>)
    ensures row.kind == Group ==> r == row.name
    ensures row.kind == Direct ==>
      r == (if OtherParticipant(row, me).Some? then Some(OtherParticipant(row, me).value.name) else None)
  {
    if row.kind == Direct then
      match OtherParticipant(row, me)
      case Some(p) => Some(p.name)
      case None => None
    else row.name
  }

  /** `getLastMessageContent`: the placeholder without a last message, the
      attachment notice when it carries a truthy attachment whatever its
      text, else its content. */
  function PreviewText(last: Option<LastMessage>): (r: Option<string>)
    ensures last.None? ==> r == Some(NoMessagesText)
    ensures last.Some? && Truthy(last.value.attachment) ==> r == Some(AttachmentText)
    ensures last.Some? && !Truthy(last.value.attachment) ==> r == last.value.content
  {
    match last
    case None => Some(NoMessagesText)
    case Some(m) => if Truthy(m.attachment) then Some(AttachmentText) else m.content
  }

  /** The date cell: rendered only when a last message exists, with `null`
      when that message has no `createdAt`. */
  function DateOf(last: Option<LastMessage>): (r: DateSlot)
    ensures r.Hidden? <==> last.None?
    ensures r.Shown? ==> r.date == last.value.createdAt
  {
    match last
    case None => Hidden
    case Some(m) => Shown(m.createdAt)
  }

  /** A direct conversation between the signed-in user and one other person,
      listed in either order, shows that person's avatar and name. */
  lemma {:induction false} DirectRowShowsPeer(row: Row, me: Participant, peer: Participant)
    requires row.kind == Direct && me.id != peer.id
    requires row.participants == [me, peer] || row.participants == [peer, me]
    ensures OtherParticipant(row, Some(me.id)) == Some(peer)
    ensures RowAvatar(row, Some(me.id)) == Some(peer.avatar)
    ensures RowTitle(row, Some(me.id)) == Some(peer.name)
  {
    if row.participants == [me, peer] {
      assert row.participants[1..] == [peer];
      assert FirstOther([peer], Some(me.id)) == Some(0);
      assert FirstOther(row.participants, Some(me.id)) == Some(1);
    } else {
      assert FirstOther(row.participants, Some(me.id)) == Some(0);
    }
  }

  /** A group row shows the conversation's own avatar and name, whoever is
      signed in. */
  lemma GroupRowShowsConversation(row: Row, me: Option<Id>)
    requires row.kind == Group
    ensures RowAvatar(row, me) == row.avatar && RowTitle(row, me) == row.name
  {
  }

  /** A direct conversation that lists only the signed-in user (a
      conversation with oneself) has no other participant, so its row falls
      back to the conversation's avatar and shows no title. */
  lemma SelfConversationHasNoTitle(row: Row, me: Id)
    requires row.kind == Direct
    requires forall k :: 0 <= k < |row.participants| ==> row.participants[k].id == me
    ensures RowAvatar(row, Some(me)) == row.avatar && RowTitle(row, Some(me)).None?
  {
  }
}
