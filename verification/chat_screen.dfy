/** The records the chat endpoint returns, and the one place the chat screen
    uses the display-name transform: the header title. */
module ChatScreen {

  import opened Chars
  import opened Optional
  import opened HeaderText
  import HeaderTextLemmas

  datatype Sender = Sender(image: string, isKycVerified: bool, isSelf: bool, userId: string)

  datatype Chat = Chat(id: string, message: string, sender: Sender, time: string)

  datatype ChatData = ChatData(
    chats: seq<Chat>, from: string, message: string, name: string, status: string, to: string)

  /** The header shows `removeNo(chat?.name)`; `chat` stays absent until the
      first response has arrived, and then the title is the fallback. */
  function HeaderTitle(chat: Option<ChatData>): (r: string)
    ensures chat.None? ==> r == NameNotFound
    ensures chat.Some? && chat.value.name == "" ==> r == NameNotFound
    ensures chat.Some? && chat.value.name != "" ==>
              |r| <= |chat.value.name| && NoOuterWhitespace(r)
  {
    RemoveNo(if chat.Some? then Some(chat.value.name) else None)
  }

  /** Once a chat whose name is `No. 42 Friends` has arrived, the header
      reads `42 Friends`. */
  lemma LoadedTitle(data: ChatData)
    requires data.name == "No. 42 Friends"
    ensures HeaderTitle(Some(data)) == "42 Friends"
  {
    HeaderTextLemmas.ExampleNumberedName();
  }
}
