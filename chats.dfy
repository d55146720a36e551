/** The client's chat list: the chats kept in the browser, the id of the chat
    on screen, and the operations that create, load, delete and extend chats.
    A chat takes its title from its first message when that message is the
    user's. Clock readings (Date.now() and the ISO creation time) and the
    user's answer to the delete confirmation are parameters. */
module Chats {

  import opened Common
  import opened Strings
  import opened Blocks

  datatype Role = User | Assistant

  /** What a message holds: the blocks the user's text was cut into, or the
      plain text of an answer. */
  datatype Content = Structured(blocks: seq<Block>) | PlainString(text: string)

  datatype Message = Message(role: Role, content: Content, sources: seq<string>, model: Option<string>)

  datatype Chat = Chat(id: string, title: string, messages: seq<Message>, createdAt: string)

  /** the title of a chat that has no user message yet */
  const NewChatTitle: string := "새로운 대화"

  /** the longest title kept without shortening */
  const TitleLimit: nat := 30

  const Ellipsis: string := "..."

  // ---------------------------------------------------------------------
  // Titles

  /** A text block contributes its content, any other block nothing. */
  function BlockText(b: Block): string
  {
    if b.Text? then b.content else ""
  }

  function TextParts(blocks: seq<Block>): (parts: seq<string>)
    ensures |parts| == |blocks|
    ensures forall i :: 0 <= i < |blocks| ==> parts[i] == BlockText(blocks[i])
  {
    if blocks == [] then [] else [BlockText(blocks[0])] + TextParts(blocks[1..])
  }

  /** The title before shortening: the text blocks joined by a space and
      trimmed, or a plain message as it is. */
  function RawTitle(content: Content): string
  {
    match content
    case Structured(blocks) => Trim(Join(TextParts(blocks), " "))
    case PlainString(text) => text
  }

  /** A title longer than the limit is cut to the limit and marked with an
      ellipsis. */
  function Shorten(title: string): (r: string)
    ensures |r| <= TitleLimit + |Ellipsis|
    ensures |title| <= TitleLimit ==> r == title
    ensures |title| > TitleLimit ==> |r| == TitleLimit + |Ellipsis| && r[..TitleLimit] == title[..TitleLimit] && r[TitleLimit..] == Ellipsis
  {
    if |title| > TitleLimit then title[..TitleLimit] + Ellipsis else title
  }

  function TitleOf(content: Content): string
  {
    Shorten(RawTitle(content))
  }

  /** A title built from blocks holds only text-block characters and the
      joining spaces. */
  lemma TitleFromTextBlocks(blocks: seq<Block>, c: char)
    requires c in RawTitle(Structured(blocks))
    ensures c == ' ' || exists i :: 0 <= i < |blocks| && blocks[i].Text? && c in blocks[i].content
  {
    var parts := TextParts(blocks);
    assert c in Join(parts, " ");
    JoinChars(parts, " ", c);
    if c != ' ' {
      var i :| 0 <= i < |parts| && c in parts[i];
      assert blocks[i].Text?;
    }
  }

  /** A title built from blocks is empty exactly when every text block is
      blank. */
  lemma BlankTitle(blocks: seq<Block>)
    ensures RawTitle(Structured(blocks)) == [] <==>
            forall i :: 0 <= i < |blocks| && blocks[i].Text? ==> AllSpace(blocks[i].content)
  {
    var parts := TextParts(blocks);
    var joined := Join(parts, " ");
    if forall i :: 0 <= i < |blocks| && blocks[i].Text? ==> AllSpace(blocks[i].content) {
      forall k | 0 <= k < |joined| ensures IsSpace(joined[k]) {
        var c := joined[k];
        JoinChars(parts, " ", c);
        if c != ' ' {
          var i :| 0 <= i < |parts| && c in parts[i];
          var m :| 0 <= m < |parts[i]| && parts[i][m] == c;
          assert IsSpace(blocks[i].content[m]);
        }
      }
    } else {
      var i :| 0 <= i < |blocks| && blocks[i].Text? && !AllSpace(blocks[i].content);
      var m :| 0 <= m < |blocks[i].content| && !IsSpace(blocks[i].content[m]);
      var c := blocks[i].content[m];
      assert c in parts[i];
      PartInJoin(parts, " ", i, c);
      var k :| 0 <= k < |joined| && joined[k] == c;
      assert !AllSpace(joined);
    }
  }

  /** For blocks the extractor produced (text blocks are never blank), the
      title is empty exactly when the message has no text block. */
  lemma UntitledWithoutText(blocks: seq<Block>)
    requires forall i :: 0 <= i < |blocks| ==> WellFormed(blocks[i])
    ensures RawTitle(Structured(blocks)) == [] <==> forall i :: 0 <= i < |blocks| ==> !blocks[i].Text?
  {
    BlankTitle(blocks);
    forall i | 0 <= i < |blocks| && blocks[i].Text?
      ensures !AllSpace(blocks[i].content)
    {
      assert WellFormed(blocks[i]);
      assert !IsSpace(blocks[i].content[0]);
    }
  }

  // ---------------------------------------------------------------------
  // The list as values

  /** chats.find(c => c.id === id), as the index of the first match */
  function FindChat(chats: seq<Chat>, id: string): (r: Option<nat>)
    ensures r.Some? ==> r.value < |chats| && chats[r.value].id == id &&
                        forall j :: 0 <= j < r.value ==> chats[j].id != id
    ensures r.None? ==> forall j :: 0 <= j < |chats| ==> chats[j].id != id
  {
    if chats == [] then None
    else if chats[0].id == id then Some(0)
    else match FindChat(chats[1..], id)
      case None => None
      case Some(i) => Some(i + 1)
  }

  /** chats.filter(c => c.id !== id) */
  function Without(chats: seq<Chat>, id: string): (r: seq<Chat>)
    ensures |r| <= |chats|
    ensures forall c :: c in r <==> c in chats && c.id != id
  {
    if chats == [] then []
    else if chats[0].id == id then Without(chats[1..], id)
    else [chats[0]] + Without(chats[1..], id)
  }

  /** Filtering keeps the order of what it keeps: it distributes over
      concatenation. */
  lemma {:induction false} WithoutAppend(a: seq<Chat>, b: seq<Chat>, id: string)
    ensures Without(a + b, id) == Without(a, id) + Without(b, id)
  {
    if a != [] {
      assert (a + b)[0] == a[0];
      assert (a + b)[1..] == a[1..] + b;
      WithoutAppend(a[1..], b, id);
    } else {
      assert a + b == b;
    }
  }

  /** Deleting an id no chat has changes nothing. */
  lemma {:induction false} WithoutAbsent(chats: seq<Chat>, id: string)
    requires forall i :: 0 <= i < |chats| ==> chats[i].id != id
    ensures Without(chats, id) == chats
  {
    if chats != [] {
      WithoutAbsent(chats[1..], id);
      assert [chats[0]] + chats[1..] == chats;
    }
  }

  /** Whether a current chat id is set: JavaScript treats null and "" as false. */
  predicate HasCurrent(current: Option<string>)
  {
    current.Some? && current.value != ""
  }

  /** A message added to a chat; the first message, when it is the user's,
      names the chat. */
  function AddMessage(chat: Chat, msg: Message): (r: Chat)
    ensures r.id == chat.id && r.createdAt == chat.createdAt
    ensures r.messages == chat.messages + [msg]
    ensures r.title == (if msg.role == User && chat.messages == [] then TitleOf(msg.content) else chat.title)
  {
    var title := if msg.role == User && |chat.messages| == 0 then TitleOf(msg.content) else chat.title;
    chat.(messages := chat.messages + [msg], title := title)
  }

  /** The list after updateChatWithMessage: the message goes to the first
      chat whose id is current, and every other chat stays as it was. */
  function Appended(chats: seq<Chat>, current: Option<string>, msg: Message): (r: seq<Chat>)
    ensures |r| == |chats|
    ensures forall j :: 0 <= j < |chats| ==> r[j].id == chats[j].id && r[j].createdAt == chats[j].createdAt
    ensures !HasCurrent(current) ==> r == chats
  {
    if !HasCurrent(current) then chats
    else match FindChat(chats, current.value)
      case None => chats
      case Some(i) => chats[i := AddMessage(chats[i], msg)]
  }

  /** Exactly one message is added, to the chat on screen, and nothing else
      changes. */
  lemma AppendedTouchesOnlyCurrent(chats: seq<Chat>, current: Option<string>, msg: Message, j: nat)
    requires j < |chats|
    ensures Appended(chats, current, msg)[j] ==
            if HasCurrent(current) && FindChat(chats, current.value) == Some(j)
            then AddMessage(chats[j], msg) else chats[j]
  {
  }

  /** A user's first message names the chat; no later message renames it. */
  lemma FirstUserMessageNamesChat(chats: seq<Chat>, current: Option<string>, msg: Message, j: nat)
    requires j < |chats|
    requires HasCurrent(current) && FindChat(chats, current.value) == Some(j)
    ensures Appended(chats, current, msg)[j].messages == chats[j].messages + [msg]
    ensures Appended(chats, current, msg)[j].title ==
            if msg.role == User && chats[j].messages == [] then TitleOf(msg.content) else chats[j].title
  {
  }

  // ---------------------------------------------------------------------
  // The list as the page keeps it

  class ChatList {
    var chats: seq<Chat>
    /** the chat on screen; None is JavaScript's null */
    var currentChatId: Option<string>

    /** The stored chats, with no chat on screen yet. */
    constructor (stored: seq<Chat>)
      ensures chats == stored && currentChatId == None
    {
      chats := stored;
      currentChatId := None;
    }

    /** createNewChat(): a fresh untitled chat at the front of the list; the
        caller decides whether it becomes current. */
    method CreateNewChat(now: string, createdAt: string) returns (chatId: string)
      modifies this
      ensures chatId == now
      ensures chats == [Chat(now, NewChatTitle, [], createdAt)] + old(chats)
      ensures currentChatId == old(currentChatId)
    {
      chatId := now;
      var chat := Chat(chatId, NewChatTitle, [], createdAt);
      chats := [chat] + chats;
    }

    /** loadChat(chatId): nothing happens when the chat is already on screen;
        otherwise it becomes current and its chat, if one has the id, is
        shown. */
    method LoadChat(chatId: string) returns (shown: Option<Chat>)
      modifies this
      ensures chats == old(chats)
      ensures old(currentChatId) == Some(chatId) ==> currentChatId == old(currentChatId) && shown == None
      ensures old(currentChatId) != Some(chatId) ==> currentChatId == Some(chatId)
      ensures old(currentChatId) != Some(chatId) ==>
                shown == match FindChat(chats, chatId) case None => None case Some(i) => Some(chats[i])
    {
      if currentChatId == Some(chatId) {
        return None;
      }
      currentChatId := Some(chatId);
      var found := FindChat(chats, chatId);
      shown := match found case None => None case Some(i) => Some(chats[i]);
    }

    /** The delete button of the chat with id chatId: once confirmed, every
        chat with that id goes; if it was on screen, the first remaining chat
        is loaded, or a new chat is created and made current. */
    method DeleteChat(chatId: string, confirmed: bool, now: string, createdAt: string)
      modifies this
      ensures !confirmed ==> chats == old(chats) && currentChatId == old(currentChatId)
      ensures confirmed && old(currentChatId) != Some(chatId) ==>
                chats == Without(old(chats), chatId) && currentChatId == old(currentChatId)
      ensures confirmed && old(currentChatId) == Some(chatId) && Without(old(chats), chatId) != [] ==>
                chats == Without(old(chats), chatId) && currentChatId == Some(chats[0].id)
      ensures confirmed && old(currentChatId) == Some(chatId) && Without(old(chats), chatId) == [] ==>
                chats == [Chat(now, NewChatTitle, [], createdAt)] && currentChatId == Some(now)
      ensures forall i :: 0 <= i < |chats| && chats[i].id == chatId ==>
                !confirmed || (old(currentChatId) == Some(chatId) && chatId == now)
    {
      if confirmed {
        chats := Without(chats, chatId);
        if currentChatId == Some(chatId) {
          if |chats| > 0 {
            assert chats[0] in chats;
            var _ := LoadChat(chats[0].id);
          } else {
            var id := CreateNewChat(now, createdAt);
            currentChatId := Some(id);
          }
        }
      }
    }

    /** updateChatWithMessage(role, content, sources, model) */
    method UpdateChatWithMessage(role: Role, content: Content, sources: seq<string> := [], model: Option<string> := None)
      modifies this
      ensures chats == Appended(old(chats), old(currentChatId), Message(role, content, sources, model))
      ensures currentChatId == old(currentChatId)
    {
      if !HasCurrent(currentChatId) {
        return;
      }
      var found := FindChat(chats, currentChatId.value);
      if found.Some? {
        var i := found.value;
        chats := chats[i := AddMessage(chats[i], Message(role, content, sources, model))];
      }
    }
  }
}
