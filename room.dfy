/** A chat room's in-memory state: its members, its message list, its unread
    buffer and badge, its typing indicator and the guards on its
    subscriptions. Every backend read arrives as a parameter of the method
    that handles it; every backend write is returned as a request. */
module Rooms {

  import opened Wrappers
  import opened Dicts
  import opened Messages
  import opened Members
  import opened Typing

  /** The live message query `messagesOn` opens: its optional lower bound on
      the message time and its page size. */
  datatype MessagesQuery = MessagesQuery(startAt: Option<int>, limit: int)

  /** The history query `loadMoreMessages` sends: the newest `limit`
      messages whose time is at most `endAt`, when there is a bound. */
  datatype HistoryQuery = HistoryQuery(endAt: Option<int>, limit: int)

  /** How far `on()` went. */
  datatype OnResult = NotStarted | MetaOnly | Listening(messages: Option<MessagesQuery>)

  /** What a room writes to the local cache. */
  datatype SerializedRoom = SerializedRoom(
    minimized: bool,
    messages: seq<SerializedMessage>,
    usersMeta: Dict<UserMeta>,
    deleted: bool,
    isOpen: bool,
    associatedUserID: Option<string>,
    readTimestamp: int)

  /** The first time a live query may return: one after the given
      timestamp; with none given, one after the newest held message, if
      its time is truthy; no bound when the candidate is 0. */
  function Watermark(timestamp: Option<int>, lastTime: Option<int>): (r: Option<int>)
    ensures timestamp.Some? && timestamp.value != -1 ==> r == Some(timestamp.value + 1)
    ensures timestamp.None? && Truthy(lastTime) && lastTime.value != -1 ==> r == Some(lastTime.value + 1)
    ensures r.None? <==>
      ((timestamp.Some? && timestamp.value == -1) || (timestamp.None? && (!Truthy(lastTime) || lastTime.value == -1)))
  {
    var start := if timestamp.Some? then Some(timestamp.value + 1)
                 else if Truthy(lastTime) then Some(lastTime.value + 1)
                 else None;
    if Truthy(start) then start else None
  }

  /** Without an explicit timestamp the live query starts after the newest
      held message, so it does not return it again, unless that time is -1:
      then the start is 0, which is falsy, and there is no bound at all. */
  lemma WatermarkAfterNewest(lastTime: Option<int>)
    requires Truthy(lastTime)
    ensures var w := Watermark(None, lastTime); w.Some? ==> w.value > lastTime.value
    ensures Watermark(None, lastTime).Some? <==> lastTime.value != -1
  {
  }

  /** The badge after one more unread message: 1 from 0, then one more each
      time up to 99. */
  function NextBadge(b: nat): (r: nat)
    ensures 1 <= r <= 99
    ensures b < 99 ==> r == b + 1
    ensures b >= 99 ==> r == 99
  {
    if b == 0 then 1 else if b + 1 < 99 then b + 1 else 99
  }

  function BadgeAfter(k: nat): nat {
    if k == 0 then 0 else NextBadge(BadgeAfter(k - 1))
  }

  /** From a cleared badge, k unread messages show min(k, 99). */
  lemma {:induction false} BadgeCountsToCap(k: nat)
    ensures BadgeAfter(k) == if k < 99 then k else 99
  {
    if k > 0 {
      BadgeCountsToCap(k - 1);
    }
  }

  class Room {
    const rid: string
    const config: Config

    var meta: RoomMeta
    var users: Dict<string>
    var usersMeta: Dict<UserMeta>
    var onlineUserCount: nat
    var name: string

    var messages: seq<Message>
    var unreadMessages: seq<Message>
    var badge: nat
    var readTimestamp: int

    var typing: Dict<string>
    var typingMessage: Option<string>

    var isOn: bool
    var messagesAreOn: bool
    var loadingMoreMessages: bool

    var active: bool
    var minimized: bool
    var muted: bool
    var deleted: bool
    var deletedTimestamp: Option<int>
    var isOpen: bool
    var associatedUserID: Option<string>

    /** The member tables list the same uids in the same order, each record
        under its own uid, and the badge stays within its cap. */
    ghost predicate Valid()
      reads this`users, this`usersMeta, this`typing, this`badge
    {
      && Paired(users, usersMeta)
      && Dicts.Valid(typing)
      && badge <= 99
    }

    constructor (rid: string, config: Config, meta: Option<RoomMeta>)
      ensures Valid()
      ensures this.rid == rid && this.config == config
      ensures this.meta == if meta.Some? then meta.value else RoomMeta(None, None, None)
      ensures users == Empty() && usersMeta == Empty() && typing == Empty()
      ensures messages == [] && unreadMessages == [] && badge == 0 && readTimestamp == 0
      ensures typingMessage == Some("") && name == "" && onlineUserCount == 0
      ensures !isOn && !messagesAreOn && !loadingMoreMessages
      ensures active && !minimized && !muted && !deleted && !isOpen
      ensures deletedTimestamp.None? && associatedUserID.None?
    {
      this.rid := rid;
      this.config := config;
      this.meta := if meta.Some? then meta.value else RoomMeta(None, None, None);
      users := Empty();
      usersMeta := Empty();
      typing := Empty();
      messages := [];
      unreadMessages := [];
      badge := 0;
      readTimestamp := 0;
      typingMessage := Some("");
      name := "";
      onlineUserCount := 0;
      isOn := false;
      messagesAreOn := false;
      loadingMoreMessages := false;
      active := true;
      minimized := false;
      muted := false;
      deleted := false;
      deletedTimestamp := None;
      isOpen := false;
      associatedUserID := None;
    }

    /***********************************
     * TYPE
     */

    predicate IsPublic()
      reads this
    {
      TypeOf(meta) == Some(Code(Public))
    }

    function MemberCount(): nat
      reads this
    {
      |users.keys|
    }

    /** A public room is calculated Public, and `updateType()` never asks
        to change it. */
    lemma PublicRoomKeepsType()
      ensures IsPublic() <==> CalculatedType() == Public
      ensures IsPublic() ==> TypeChangeRequest() == None
    {
    }

    /** The type the membership calls for: Public for a public room;
        otherwise Invalid up to one member, OneToOne for two, Group above. */
    function CalculatedType(): (r: RoomType)
      reads this
      ensures r == Public <==> IsPublic()
      ensures r == Invalid <==> !IsPublic() && MemberCount() <= 1
      ensures r == OneToOne <==> !IsPublic() && MemberCount() == 2
      ensures r == Group <==> !IsPublic() && MemberCount() > 2
    {
      if IsPublic() then Public
      else if MemberCount() <= 1 then Invalid
      else if MemberCount() == 2 then OneToOne
      else Group
    }

    /** `updateType()`: the type change it asks the backend for, if any. A
        change is asked for only when the calculated type differs from the
        stored one, and never for a room stored as Group. */
    function TypeChangeRequest(): (r: Option<RoomType>)
      reads this
      ensures r.Some? <==> TypeOf(meta) != Some(Code(CalculatedType())) && TypeOf(meta) != Some(Code(Group))
      ensures r.Some? ==> r.value == CalculatedType()
    {
      var t := CalculatedType();
      if TypeOf(meta) != Some(Code(t)) && TypeOf(meta) != Some(Code(Group)) then Some(t) else None
    }

    /***********************************
     * LAST MESSAGE
     */

    function LastMessage(): (r: Option<Message>)
      reads this
      ensures r.Some? <==> |messages| > 0
      ensures r.Some? ==> r.value == messages[|messages| - 1]
    {
      if |messages| > 0 then Some(messages[|messages| - 1]) else None
    }

    function LastMessageTime(): (r: Option<int>)
      reads this, messages
      ensures r.Some? <==> |messages| > 0
      ensures r.Some? ==> r.value == messages[|messages| - 1].time
    {
      if |messages| > 0 then Some(messages[|messages| - 1].time) else None
    }

    function LastMessageText(): (r: Option<string>)
      reads this, messages
      ensures r.Some? <==> |messages| > 0
      ensures r.Some? ==> r.value == messages[|messages| - 1].text
    {
      if |messages| > 0 then Some(messages[|messages| - 1].text) else None
    }

    /** The sender's display name for the newest message. */
    function LastMessageUserName(s: Session): (r: Option<string>)
      reads this, messages
      ensures r.Some? <==> |messages| > 0
      ensures r.Some? ==> r.value == Info(s, messages[|messages| - 1].sender).name
    {
      if |messages| > 0 then Some(Info(s, messages[|messages| - 1].sender).name) else None
    }

    /** `lastMessageType()` looks the type up but returns nothing, always. */
    function LastMessageType(): (r: Option<MessageType>)
      reads this
      ensures r.None?
    {
      None
    }

    /***********************************
     * MESSAGE LIST
     */

    /** The messages newer than `date`, all of them without a date. */
    method GetMessagesNewerThan(date: Option<int>) returns (r: seq<Message>)
      ensures r == NewerThan(messages, date)
      ensures forall x :: x in r <==> x in messages && (date.None? || x.time > date.value)
    {
      r := [];
      var i := 0;
      while i < |messages|
        invariant 0 <= i <= |messages|
        invariant r == NewerThan(messages[..i], date)
      {
        assert messages[..i + 1][..i] == messages[..i];
        if date.None? || messages[i].time > date.value {
          r := r + [messages[i]];
        }
        i := i + 1;
      }
      assert messages[..i] == messages;
    }

    /** The messages older than `date`, all of them without a date. */
    method GetMessagesOlderThan(date: Option<int>) returns (r: seq<Message>)
      ensures r == OlderThan(messages, date)
      ensures forall x :: x in r <==> x in messages && (date.None? || x.time < date.value)
    {
      r := [];
      var i := 0;
      while i < |messages|
        invariant 0 <= i <= |messages|
        invariant r == OlderThan(messages[..i], date)
      {
        assert messages[..i + 1][..i] == messages[..i];
        if date.None? || messages[i].time < date.value {
          r := r + [messages[i]];
        }
        i := i + 1;
      }
      assert messages[..i] == messages;
    }

    /** Whether an unread-badge increment is due: the room is not active,
        or is minimised, or is not open on screen. */
    predicate ShouldIncrementUnreadMessageBadge(roomIsOpen: bool)
      reads this`active, this`minimized
    {
      !active || minimized || !roomIsOpen
    }

    /** No increment is due, and so no message joins the buffer, while the
        room is active, not minimised and on screen. */
    lemma ForegroundNeverBuffers(read: bool, time: int, roomIsOpen: bool)
      ensures active && !minimized && roomIsOpen ==> !ShouldIncrementUnreadMessageBadge(roomIsOpen)
      ensures active && !minimized && roomIsOpen ==> !BuffersAsUnread(read, time, roomIsOpen)
    {
    }

    /** A message already read never joins the buffer. When an increment
        is due, an unread message joins it exactly when newer than the read
        time or when the room was never read. */
    lemma BufferingConditions(read: bool, time: int, roomIsOpen: bool)
      ensures read ==> !BuffersAsUnread(read, time, roomIsOpen)
      ensures !active || minimized || !roomIsOpen ==>
        (BuffersAsUnread(false, time, roomIsOpen) <==> time > readTimestamp || readTimestamp == 0)
    {
    }

    /** Whether a message goes to the unread buffer: an increment is due,
        the message is unread, and it is newer than the last read time or
        the room was never read. */
    predicate BuffersAsUnread(read: bool, time: int, roomIsOpen: bool)
      reads this`active, this`minimized, this`readTimestamp
    {
      ShouldIncrementUnreadMessageBadge(roomIsOpen) && !read && (time > readTimestamp || readTimestamp == 0)
    }

    /** A message arriving is buffered as unread exactly when it qualifies;
        otherwise it is marked read. The badge is not touched. */
    method UpdateBadgeForMessage(m: Message, roomIsOpen: bool)
      modifies this`unreadMessages, m`read
      ensures old(BuffersAsUnread(m.read, m.time, roomIsOpen)) ==> unreadMessages == old(unreadMessages) + [m] && !m.read
      ensures !old(BuffersAsUnread(m.read, m.time, roomIsOpen)) ==> unreadMessages == old(unreadMessages) && m.read
    {
      if BuffersAsUnread(m.read, m.time, roomIsOpen) {
        unreadMessages := unreadMessages + [m];
      } else {
        m.MarkRead();
      }
    }

    /** Appends a message, links it after the previous last one, and buffers
        it as unread or marks it read. */
    method AddMessageToEnd(m: Message, roomIsOpen: bool)
      modifies this`messages, this`unreadMessages, m, (if |messages| > 0 then {messages[|messages| - 1]} else {})`next
      ensures messages == old(messages) + [m]
      ensures old(|messages|) > 0 ==> old(messages[|messages| - 1]).next == m && m.previous == old(messages[|messages| - 1])
      ensures old(|messages|) == 0 ==> m.previous == old(m.previous)
      ensures m.next == old(m.next) || (old(|messages|) > 0 && m == old(messages[|messages| - 1]))
      // the previous last message gains only its forward link
      ensures old(|messages|) > 0 && m != old(messages[|messages| - 1]) ==>
        old(messages[|messages| - 1]).read == old(messages[|messages| - 1].read)
        && old(messages[|messages| - 1]).previous == old(messages[|messages| - 1].previous)
      ensures old(BuffersAsUnread(m.read, m.time, roomIsOpen)) ==> unreadMessages == old(unreadMessages) + [m] && !m.read
      ensures !old(BuffersAsUnread(m.read, m.time, roomIsOpen)) ==> unreadMessages == old(unreadMessages) && m.read
    {
      if |messages| > 0 {
        var previous := messages[|messages| - 1];
        previous.next := m;
        m.previous := previous;
      }
      UpdateBadgeForMessage(m, roomIsOpen);
      messages := messages + [m];
    }

    /** Prepends a message and links it before the previous first one. */
    method AddMessageToStart(m: Message)
      modifies this`messages, m, if |messages| > 0 then {messages[0]} else {}
      ensures messages == [m] + old(messages)
      ensures old(|messages|) > 0 ==> m.next == old(messages[0]) && old(messages[0]).previous == m
      ensures old(|messages|) == 0 ==> m.next == old(m.next)
      ensures m.read == old(m.read)
      // the previous first message gains only its back link
      ensures old(|messages|) > 0 ==> old(messages[0]).read == old(messages[0].read)
      ensures old(|messages|) > 0 && m != old(messages[0]) ==> old(messages[0]).next == old(messages[0].next)
      ensures old(|messages|) == 0 || m != old(messages[0]) ==> m.previous == old(m.previous)
    {
      if |messages| > 0 {
        var following := messages[0];
        following.previous := m;
        m.next := following;
      }
      messages := [m] + messages;
    }

    /** Sorts the list by time. */
    method SortMessages()
      modifies this`messages
      ensures messages == SortByTime(old(messages))
      ensures SortedByTime(messages) && multiset(messages) == multiset(old(messages))
    {
      messages := SortByTime(messages);
    }

    /** Drops every message whose id equals that of the message before it. */
    method DeduplicateMessages()
      modifies this`messages
      ensures messages == Dedup(old(messages))
      ensures NoAdjacentDuplicates(messages)
    {
      var unique: seq<Message> := [];
      var lastMid: Option<string> := None;
      var i := 0;
      while i < |messages|
        invariant 0 <= i <= |messages|
        invariant messages == old(messages)
        invariant unique == Dedup(messages[..i])
        invariant i == 0 ==> lastMid.None?
        invariant i > 0 ==> lastMid == Some(messages[i - 1].mid)
      {
        var m := messages[i];
        if i > 0 {
          DedupPrefix(messages, i);
        } else {
          assert messages[..1] == [m];
        }
        if lastMid != Some(m.mid) {
          unique := unique + [m];
        }
        lastMid := Some(m.mid);
        i := i + 1;
      }
      assert messages[..i] == messages;
      messages := unique;
    }

    /** Sorts, deduplicates, then drops the oldest entries beyond 100, one at
        a time from the front. */
    method TrimMessageList()
      modifies this`messages
      ensures messages == TrimList(old(messages))
      ensures SortedByTime(messages) && NoAdjacentDuplicates(messages) && |messages| <= RetentionCap
      ensures forall x :: x in messages ==> x in old(messages)
    {
      ghost var original := messages;
      SortMessages();
      DeduplicateMessages();
      ghost var unique := messages;
      var toRemove := |messages| - RetentionCap;
      if toRemove > 0 {
        var j := 0;
        while j < toRemove
          invariant 0 <= j <= toRemove
          invariant messages == unique[j..]
        {
          messages := messages[1..];
          j := j + 1;
        }
      }
      TrimmedList(original);
    }

    /** Empties the message list and the unread buffer. */
    method DeleteMessages()
      modifies this`messages, this`unreadMessages
      ensures messages == [] && unreadMessages == []
    {
      messages := [];
      unreadMessages := [];
    }

    /***********************************
     * UNREAD ACCOUNTING
     */

    /** Marks every buffered message read, empties the buffer and clears the
        badge. The result says whether the read time is recorded for the
        signed-in user, which is so for every room that is not public. */
    method MarkRead() returns (recordsReadTime: bool)
      modifies this`unreadMessages, this`badge, unreadMessages
      ensures forall x :: x in old(unreadMessages) ==> x.read
      ensures forall x :: x in old(unreadMessages) ==> x.previous == old(x.previous) && x.next == old(x.next)
      ensures unreadMessages == [] && badge == 0
      ensures recordsReadTime == !IsPublic()
    {
      var buffer := unreadMessages;
      if |buffer| > 0 {
        var i := 0;
        while i < |buffer|
          invariant 0 <= i <= |buffer|
          invariant unreadMessages == buffer
          invariant forall j :: 0 <= j < i ==> buffer[j].read
          invariant forall x :: x in buffer ==> x.previous == old(x.previous) && x.next == old(x.next)
        {
          buffer[i].MarkRead();
          i := i + 1;
        }
        while |unreadMessages| > 0
          invariant unreadMessages == buffer[..|unreadMessages|]
          invariant forall j :: 0 <= j < |buffer| ==> buffer[j].read
          invariant forall x :: x in buffer ==> x.previous == old(x.previous) && x.next == old(x.next)
        {
          unreadMessages := unreadMessages[..|unreadMessages| - 1];
        }
      }
      badge := 0;
      recordsReadTime := !IsPublic();
    }

    /** Activating a room marks it read; deactivating changes nothing else. */
    method SetActive(a: bool) returns (recordsReadTime: bool)
      modifies this`active, this`unreadMessages, this`badge, unreadMessages
      ensures active == a
      ensures a ==> (forall x :: x in old(unreadMessages) ==> x.read) && unreadMessages == [] && badge == 0
      ensures a ==> recordsReadTime == !IsPublic()
      ensures !a ==> unreadMessages == old(unreadMessages) && badge == old(badge) && !recordsReadTime
      ensures !a ==> forall x :: x in old(unreadMessages) ==> x.read == old(x.read)
    {
      recordsReadTime := false;
      if a {
        recordsReadTime := MarkRead();
      }
      active := a;
    }

    /** One more unread message seen through the room's summary: the badge
        moves to `NextBadge` when an increment is due and the message is
        newer than the last read time or the room was never read. */
    method UpdateUnreadMessageCounter(time: int, roomIsOpen: bool)
      requires Valid()
      modifies this`badge
      ensures Valid()
      ensures ShouldIncrementUnreadMessageBadge(roomIsOpen) && (time > readTimestamp || readTimestamp == 0)
        ==> badge == NextBadge(old(badge))
      ensures !(ShouldIncrementUnreadMessageBadge(roomIsOpen) && (time > readTimestamp || readTimestamp == 0))
        ==> badge == old(badge)
    {
      if ShouldIncrementUnreadMessageBadge(roomIsOpen) && (time > readTimestamp || readTimestamp == 0) {
        if badge == 0 {
          badge := 1;
        } else {
          badge := if badge + 1 < 99 then badge + 1 else 99;
        }
      }
    }

    /***********************************
     * LIVE MESSAGES
     */

    /** Opens the live message query unless it is open already or the room
        has no id: the guard is set and the query starts at the watermark
        and returns at most `maxHistoricMessages` messages. */
    method MessagesOn(timestamp: Option<int>) returns (q: Option<MessagesQuery>)
      modifies this`messagesAreOn
      ensures old(messagesAreOn) || rid == "" ==> q.None? && messagesAreOn == old(messagesAreOn)
      ensures !old(messagesAreOn) && rid != "" ==>
        messagesAreOn && q == Some(MessagesQuery(Watermark(timestamp, LastMessageTime()), config.maxHistoricMessages))
    {
      if messagesAreOn || rid == "" {
        return None;
      }
      messagesAreOn := true;
      var startDate := if timestamp.Some? then Some(timestamp.value + 1)
                       else if Truthy(LastMessageTime()) then Some(LastMessageTime().value + 1)
                       else None;
      var startAt := if Truthy(startDate) then startDate else None;
      q := Some(MessagesQuery(startAt, config.maxHistoricMessages));
    }

    /** Closes the live message query. */
    method MessagesOff()
      modifies this`messagesAreOn
      ensures !messagesAreOn
    {
      messagesAreOn := false;
    }

    /** A message delivered by the live query. One from a blocked sender is
        dropped with nothing changed. Any other is appended, buffered or
        marked read, and the list is trimmed; the arrival sound is due when
        the room is not muted, the window is hidden and the message's time
        is within 30 seconds of the synchronised clock. */
    method OnMessageAdded(mid: string, p: MessagePayload, s: Session, roomIsOpen: bool, hidden: bool, now: Option<int>)
      returns (added: Message?, playSound: bool)
      modifies this`messages, this`unreadMessages, if |messages| > 0 then {messages[|messages| - 1]} else {}
      ensures p.sender in s.blocked ==> added == null && !playSound
      ensures p.sender in s.blocked ==> messages == old(messages) && unreadMessages == old(unreadMessages)
      ensures p.sender in s.blocked ==> unchanged(old(messages))
      ensures p.sender !in s.blocked ==> added != null && fresh(added)
      ensures p.sender !in s.blocked ==> added.mid == mid && added.sender == p.sender && added.time == p.time
      ensures p.sender !in s.blocked ==> added.text == p.text && added.kind == p.kind
      ensures p.sender !in s.blocked ==> messages == TrimList(old(messages) + [added])
      ensures p.sender !in s.blocked ==> added.next == null
      ensures p.sender !in s.blocked && old(|messages|) == 0 ==> added.previous == null
      ensures p.sender !in s.blocked && old(|messages|) > 0 ==>
        added.previous == old(messages[|messages| - 1]) && old(messages[|messages| - 1]).next == added
      ensures p.sender !in s.blocked && old(|messages|) > 0 ==>
        old(messages[|messages| - 1]).read == old(messages[|messages| - 1].read)
        && old(messages[|messages| - 1]).previous == old(messages[|messages| - 1].previous)
      ensures p.sender !in s.blocked && old(BuffersAsUnread(p.read, p.time, roomIsOpen)) ==>
        unreadMessages == old(unreadMessages) + [added] && !added.read
      ensures p.sender !in s.blocked && !old(BuffersAsUnread(p.read, p.time, roomIsOpen)) ==> unreadMessages == old(unreadMessages) && added.read
      ensures playSound <==> p.sender !in s.blocked && !muted && hidden && Abs(ToNumber(now) - p.time) < 30000
    {
      added := null;
      playSound := false;
      if p.sender in s.blocked {
        return;
      }
      added := AcceptMessage(mid, p, roomIsOpen);
      if !muted && hidden && Abs(ToNumber(now) - p.time) < 30000 {
        playSound := true;
      }
    }

    /** A message from a sender who is not blocked: built, appended as a new
        arrival, and the list trimmed. */
    method AcceptMessage(mid: string, p: MessagePayload, roomIsOpen: bool) returns (added: Message)
      modifies this`messages, this`unreadMessages, if |messages| > 0 then {messages[|messages| - 1]} else {}
      ensures fresh(added) && added.mid == mid && added.sender == p.sender && added.time == p.time
      ensures added.text == p.text && added.kind == p.kind
      ensures messages == TrimList(old(messages) + [added])
      // linked after the previous last message, which keeps its read flag and back link
      ensures added.next == null
      ensures old(|messages|) == 0 ==> added.previous == null
      ensures old(|messages|) > 0 ==> added.previous == old(messages[|messages| - 1]) && old(messages[|messages| - 1]).next == added
      ensures old(|messages|) > 0 ==>
        old(messages[|messages| - 1]).read == old(messages[|messages| - 1].read)
        && old(messages[|messages| - 1]).previous == old(messages[|messages| - 1].previous)
      ensures old(BuffersAsUnread(p.read, p.time, roomIsOpen)) ==> unreadMessages == old(unreadMessages) + [added] && !added.read
      ensures !old(BuffersAsUnread(p.read, p.time, roomIsOpen)) ==> unreadMessages == old(unreadMessages) && added.read
    {
      added := new Message(mid, p);
      AddMessageToEnd(added, roomIsOpen);
      TrimMessageList();
    }

    /** A message removed from the backend: the first message with that id
        leaves the list, the others keep their order. */
    method OnMessageRemoved(key: string, hasValue: bool)
      modifies this`messages
      ensures hasValue ==> messages == RemoveFirstMid(old(messages), key)
      ensures !hasValue ==> messages == old(messages)
    {
      if hasValue {
        var i := 0;
        while i < |messages|
          invariant 0 <= i <= |messages|
          invariant messages == old(messages)
          invariant forall j :: 0 <= j < i ==> messages[j].mid != key
        {
          if messages[i].mid == key {
            assert FirstIndexOfMid(messages, key) == Some(i);
            messages := messages[..i] + messages[i + 1..];
            break;
          }
          i := i + 1;
        }
      }
    }

    /***********************************
     * HISTORY
     */

    /** Asks for `n` older messages, unless a request is pending: then
        nothing is asked and nothing changes. The bound is one before the
        time of the oldest held message. */
    method BeginLoadMore(n: int) returns (q: Option<HistoryQuery>)
      modifies this`loadingMoreMessages
      ensures old(loadingMoreMessages) ==> q.None? && loadingMoreMessages
      ensures !old(loadingMoreMessages) ==> loadingMoreMessages
      ensures !old(loadingMoreMessages) ==>
        q == Some(HistoryQuery(if |messages| > 0 then Some(messages[0].time - 1) else None, n))
    {
      if loadingMoreMessages {
        return None;
      }
      loadingMoreMessages := true;
      var date := if |messages| > 0 then Some(messages[0].time) else None;
      q := Some(HistoryQuery(if date.Some? then Some(date.value - 1) else None, n));
    }

    /** The fetched page, oldest first, goes before the held list in the
        order fetched, each message linked to its neighbours, and the pending
        flag is cleared. No read flag changes, and no other link: the held
        messages keep their forward links and, except the old first one,
        their back links, and the first fetched message keeps its back link.
        A failed fetch never gets here, so the flag stays set. */
    method FinishLoadMore(fetched: seq<Message>)
      requires loadingMoreMessages
      modifies this`messages, this`loadingMoreMessages, set x | x in fetched, if |messages| > 0 then {messages[0]} else {}
      ensures messages == fetched + old(messages)
      ensures !loadingMoreMessages
      ensures forall x :: x in messages ==> x.read == old(x.read)
      // the links hold when the page and the held list share no message
      ensures DistinctObjects(messages) ==> forall i :: 0 <= i < |fetched| && i + 1 < |messages| ==>
        messages[i].next == messages[i + 1] && messages[i + 1].previous == messages[i]
      ensures DistinctObjects(messages) ==> forall i :: 0 <= i < old(|messages|) ==> old(messages[i]).next == old(messages[i].next)
      ensures DistinctObjects(messages) ==> forall i :: 0 < i < old(|messages|) ==> old(messages[i]).previous == old(messages[i].previous)
      ensures DistinctObjects(messages) && |fetched| > 0 ==> fetched[0].previous == old(fetched[0].previous)
    {
      ghost var held := messages;
      PrependAll(fetched);
      ghost var r := fetched + held;
      if DistinctObjects(r) {
        forall j | 0 <= j < |held| ensures held[j].next == old(held[j].next) && (j > 0 ==> held[j].previous == old(held[j].previous)) {
          assert r[|fetched| + j] == held[j];
        }
        assert |fetched| > 0 ==> r[0] == fetched[0];
      }
      loadingMoreMessages := false;
    }

    /** The loop of `loadMoreMessages`: the fetched messages go first one by
        one, from the newest back. Of the messages of `fetched` and the held
        list, the fetched ones gain forward links and the ones after them
        back links; no other link and no read flag changes. */
    method PrependAll(fetched: seq<Message>)
      modifies this`messages, set x | x in fetched, if |messages| > 0 then {messages[0]} else {}
      ensures messages == fetched + old(messages)
      ensures forall x :: x in messages ==> x.read == old(x.read)
      ensures var r := fetched + old(messages); DistinctObjects(r) ==>
        && Prepended(r, 0, |fetched|)
        && (forall j :: |fetched| <= j < |r| ==> r[j].next == old(r[j].next))
        && (forall j :: 0 <= j < |r| && (j == 0 || j > |fetched|) ==> r[j].previous == old(r[j].previous))
    {
      ghost var held := messages;
      ghost var r := fetched + held;
      var i := 0;
      while i < |fetched|
        invariant 0 <= i <= |fetched|
        invariant messages == fetched[|fetched| - i..] + held
        invariant forall x :: x in r ==> x.read == old(x.read)
        invariant DistinctObjects(r) ==> Prepended(r, |fetched| - i, |fetched|)
        invariant DistinctObjects(r) ==> forall j :: 0 <= j < |r| && (j < |fetched| - i || j >= |fetched|) ==> r[j].next == old(r[j].next)
        invariant DistinctObjects(r) ==> forall j :: 0 <= j < |r| && (j <= |fetched| - i || j > |fetched|) ==> r[j].previous == old(r[j].previous)
      {
        PrependNext(fetched, |fetched| - 1 - i, held);
        i := i + 1;
      }
    }

    /** From index `lo` up to `hi`, each message's forward link is the next
        message of `r`, whose back link is that message. */
    ghost predicate Prepended(r: seq<Message>, lo: nat, hi: nat)
      reads r
    {
      forall j :: lo <= j < hi && j + 1 < |r| ==> r[j].next == r[j + 1] && r[j + 1].previous == r[j]
    }

    /** One step of that loop: `fetched[k]` goes first. Of the messages of
        `fetched + held`, only it gains a forward link and only the one
        after it a back link; no read flag changes. */
    method PrependNext(fetched: seq<Message>, k: nat, ghost held: seq<Message>)
      requires k < |fetched| && messages == fetched[k + 1..] + held
      modifies this`messages, fetched[k], if |messages| > 0 then {messages[0]} else {}
      ensures messages == fetched[k..] + held
      ensures forall x :: x in fetched + held ==> x.read == old(x.read)
      ensures var r := fetched + held; DistinctObjects(r) ==>
        && (k + 1 < |r| ==> r[k].next == r[k + 1] && r[k + 1].previous == r[k])
        && (forall j :: 0 <= j < |r| && j != k ==> r[j].next == old(r[j].next))
        && (forall j :: 0 <= j < |r| && j != k + 1 ==> r[j].previous == old(r[j].previous))
    {
      ghost var r := fetched + held;
      assert k + 1 < |r| ==> messages[0] == r[k + 1];
      assert fetched[k] == r[k];
      AddMessageToStart(fetched[k]);
      assert fetched[k..] == [fetched[k]] + fetched[k + 1..];
      if DistinctObjects(r) {
        forall j | 0 <= j < |r| && j != k ensures r[j].next == old(r[j].next) {
          assert r[j] != r[k];
        }
        forall j | 0 <= j < |r| && j != k + 1 ensures r[j].previous == old(r[j].previous) {
          assert k + 1 >= |r| || r[j] != r[k + 1];
        }
      }
    }

    /***********************************
     * TYPING
     */

    /** Recomputes the typing line from the typing table, skipping the
        signed-in user's own entry. */
    method UpdateTyping(me: string)
      requires Dicts.Valid(typing)
      modifies this`typingMessage
      ensures typingMessage == TypingSummary(typing, me)
    {
      var count, name := CountTypists(typing, me);
      ghost var others := Typists(typing, me);
      assert TypingSummary(typing, me) ==
        if count == 0 then None else if count == 1 then Some(name + "...") else Some(Decimal(count) + " people typing");
      if count == 1 {
        typingMessage := Some(name + "...");
      } else if count > 1 {
        typingMessage := Some(Decimal(count) + " people typing");
      } else {
        typingMessage := None;
      }
    }

    /** A user started typing: its entry is set and the line recomputed. */
    method OnTypingAdded(key: string, typistName: string, me: string)
      requires Valid()
      modifies this`typing, this`typingMessage
      ensures Valid()
      ensures typing == Put(old(typing), key, typistName)
      ensures typingMessage == TypingSummary(typing, me)
    {
      typing := Put(typing, key, typistName);
      UpdateTyping(me);
    }

    /** A user stopped typing: its entry goes and the line is recomputed. */
    method OnTypingRemoved(key: string, me: string)
      requires Valid()
      modifies this`typing, this`typingMessage
      ensures Valid()
      ensures typing == Delete(old(typing), key)
      ensures typingMessage == TypingSummary(typing, me)
    {
      typing := Delete(typing, key);
      UpdateTyping(me);
    }

    /***********************************
     * MEMBERSHIP
     */

    predicate ContainsUser(uid: string)
      reads this
    {
      uid in users.entries
    }

    /** A member's status, known only once the user's profile has loaded
        and the member has a record. */
    function UserStatusOf(uid: string, s: Session): (r: Option<UserStatus>)
      reads this
      ensures r.Some? ==> Info(s, uid).hasMeta && uid in usersMeta.entries && r == usersMeta.entries[uid].status
      ensures Info(s, uid).hasMeta && uid in usersMeta.entries ==> r == usersMeta.entries[uid].status
    {
      if Info(s, uid).hasMeta && uid in usersMeta.entries then usersMeta.entries[uid].status else None
    }

    /** A user is a member when its status is Member or Owner. */
    predicate UserIsMember(uid: string, s: Session)
      reads this
    {
      UserStatusOf(uid, s) == Some(UserStatus.Member) || UserStatusOf(uid, s) == Some(Owner)
    }

    /** A user is in the room exactly when it has a member record. */
    lemma UserIffRecord(uid: string)
      requires Valid()
      ensures ContainsUser(uid) <==> uid in usersMeta.entries
    {
      assert uid in users.entries <==> uid in users.keys;
      assert uid in usersMeta.entries <==> uid in usersMeta.keys;
    }

    /** A member is a user whose profile has loaded and whose record has
        Member or Owner status. */
    lemma MemberHasMemberRecord(uid: string, s: Session)
      ensures UserIsMember(uid, s) <==>
        Info(s, uid).hasMeta && uid in usersMeta.entries && usersMeta.entries[uid].status in {Some(UserStatus.Member), Some(Owner)}
    {
    }

    /** Every member with a member status is one of the room's users. */
    lemma MembersAreUsers(uid: string, s: Session)
      requires Valid()
      ensures UserIsMember(uid, s) ==> ContainsUser(uid)
    {
      if UserIsMember(uid, s) {
        assert uid in usersMeta.keys;
      }
    }

    method UserCount() returns (n: nat)
      requires Dicts.Valid(users)
      ensures n == MemberCount() && n == |users.entries|
    {
      n := 0;
      var i := 0;
      while i < |users.keys|
        invariant 0 <= i <= |users.keys| && n == i
      {
        n := n + 1;
        i := i + 1;
      }
      KeyCountIsSize(users);
    }

    /** Whether the given users, counted with repeats, are all members and
        as many as the members. */
    method ContainsOnlyUsers(list: seq<string>) returns (b: bool)
      requires Dicts.Valid(users)
      ensures b <==> CountMembers(list, users.entries.Keys) == |list| && |list| == |users.entries|
      ensures b <==> (forall u :: u in list ==> u in users.entries) && |list| == |users.entries|
      ensures Distinct(list) ==> (b <==> (set u | u in list) == users.entries.Keys)
    {
      var usersInRoom := 0;
      var totalUsers := UserCount();
      var i := 0;
      while i < |list|
        invariant 0 <= i <= |list|
        invariant usersInRoom == CountMembers(list[..i], users.entries.Keys)
      {
        assert list[..i + 1][..i] == list[..i];
        if list[i] in users.entries {
          usersInRoom := usersInRoom + 1;
        }
        i := i + 1;
      }
      assert list[..i] == list;
      b := usersInRoom == |list| && usersInRoom == totalUsers;
      if Distinct(list) {
        OnlyMembersIsSameSet(list, users.entries.Keys);
      }
    }

    /** The members other than the signed-in user whose profiles have
        loaded, in enumeration order. */
    method GetUsers(s: Session) returns (r: seq<string>)
      ensures r == OtherUsers(users.keys, s)
      ensures forall k :: k in r <==> k in users.keys && IsOtherUser(k, s)
    {
      r := [];
      var i := 0;
      while i < |users.keys|
        invariant 0 <= i <= |users.keys|
        invariant r == OtherUsers(users.keys[..i], s)
      {
        var key := users.keys[i];
        assert users.keys[..i + 1][..i] == users.keys[..i];
        if IsOtherUser(key, s) {
          r := r + [key];
        }
        i := i + 1;
      }
      assert users.keys[..i] == users.keys;
    }

    /** The owner's uid: the first record with status Owner, or else the
        last record, walking the records in enumeration order. */
    method GetOwner() returns (owner: Option<string>)
      requires Dicts.Valid(usersMeta)
      ensures owner == OwnerOf(usersMeta)
    {
      var data: Option<UserMeta> := None;
      var i := 0;
      while i < |usersMeta.keys|
        invariant 0 <= i <= |usersMeta.keys|
        invariant forall j :: 0 <= j < i ==> usersMeta.entries[usersMeta.keys[j]].status != Some(Owner)
        invariant i == 0 <==> data.None?
        invariant i > 0 ==> data == Some(usersMeta.entries[usersMeta.keys[i - 1]])
      {
        data := Some(usersMeta.entries[usersMeta.keys[i]]);
        if data.value.status == Some(Owner) {
          assert FirstOwnerIndex(usersMeta.keys, usersMeta.entries) == Some(i);
          break;
        }
        i := i + 1;
      }
      owner := if data.Some? then Some(data.value.uid) else None;
    }

    /** How many members are online, as the signed-in user sees it. */
    method GetOnlineUserCount(s: Session) returns (n: nat)
      requires Dicts.Valid(usersMeta)
      ensures n == OnlineCount(usersMeta.keys, usersMeta.entries, s)
      ensures n <= |usersMeta.keys|
    {
      n := 0;
      var i := 0;
      while i < |usersMeta.keys|
        invariant 0 <= i <= |usersMeta.keys|
        invariant forall k :: k in usersMeta.keys[..i] ==> k in usersMeta.entries
        invariant n == OnlineCount(usersMeta.keys[..i], usersMeta.entries, s)
      {
        PrefixKeys(usersMeta, i + 1);
        assert usersMeta.keys[..i + 1][..i] == usersMeta.keys[..i];
        var user := usersMeta.entries[usersMeta.keys[i]];
        if CurrentHasMeta(s) {
          if Info(s, user.uid).online || s.current.value.uid == user.uid {
            n := n + 1;
          }
        }
        i := i + 1;
      }
      assert usersMeta.keys[..i] == usersMeta.keys;
    }

    /** Recomputes the display name from the room's name, its members'
        names and the defaults. */
    method UpdateName(s: Session)
      modifies this`name
      ensures name == DisplayName(meta, users.keys, s, config.names)
    {
      if meta.name.Some? && |meta.name.value| > 0 {
        name := meta.name.value;
        return;
      }
      var keys := users.keys;
      var joined := JoinedMemberNames(keys, s);
      if |joined| == 0 {
        if IsPublic() {
          joined := config.names.publicRoom;
        } else if |keys| == 1 {
          joined := config.names.emptyRoom;
        } else if TypeOf(meta) == Some(Code(Group)) {
          joined := config.names.group;
        } else {
          joined := config.names.oneToOne;
        }
      }
      name := joined;
    }

    /** The loop of `updateName`: each other member's non-empty name followed
        by ", ", with the last separator cut off. */
    method JoinedMemberNames(keys: seq<string>, s: Session) returns (joined: string)
      ensures joined == Joined(MemberNames(keys, s))
    {
      joined := "";
      var i := 0;
      while i < |keys|
        invariant 0 <= i <= |keys|
        invariant joined == Accumulated(MemberNames(keys[..i], s))
      {
        AccumulatedStep(keys, i, s);
        var userName := Info(s, keys[i]).name;
        if !IsMe(s, keys[i]) && |userName| > 0 {
          joined := joined + userName + ", ";
        }
        i := i + 1;
      }
      assert keys[..i] == keys;
      AccumulatedIsJoined(MemberNames(keys, s));
      if |joined| >= 2 {
        joined := joined[..|joined| - 2];
      }
    }

    /** The derived display fields agree with the membership. */
    ghost predicate Refreshed(s: Session)
      reads this`usersMeta, this`users, this`meta, this`name, this`onlineUserCount
    {
      && Dicts.Valid(usersMeta)
      && name == DisplayName(meta, users.keys, s, config.names)
      && onlineUserCount == OnlineCount(usersMeta.keys, usersMeta.entries, s)
    }

    /** `update()`: refreshes the name and the online count. */
    method Update(s: Session)
      requires Valid()
      modifies this`name, this`onlineUserCount
      ensures Valid() && Refreshed(s)
    {
      ghost var u, um, t, b := users, usersMeta, typing, badge;
      assert Paired(u, um) && Dicts.Valid(t) && b <= 99;
      UpdateName(s);
      onlineUserCount := GetOnlineUserCount(s);
      assert users == u && usersMeta == um && typing == t && badge == b;
    }

    /** A membership record arrived: it is filed under its uid, the user is
        added, and the display fields are refreshed. */
    method AddUserMeta(m: UserMeta, s: Session)
      requires Valid()
      modifies this`usersMeta, this`users, this`name, this`onlineUserCount
      ensures Valid() && Refreshed(s)
      ensures usersMeta == Put(old(usersMeta), m.uid, m)
      ensures users == Put(old(users), m.uid, m.uid)
    {
      FileUserMeta(m);
      Update(s);
    }

    /** Files a record under its uid and adds its user. */
    method FileUserMeta(m: UserMeta)
      requires Valid()
      modifies this`usersMeta, this`users
      ensures Valid()
      ensures usersMeta == Put(old(usersMeta), m.uid, m)
      ensures users == Put(old(users), m.uid, m.uid)
    {
      PairedPut(users, usersMeta, m);
      usersMeta := Put(usersMeta, m.uid, m);
      users := Put(users, m.uid, m.uid);
    }

    /** A membership record was removed: the record and the user go, and
        the display fields are refreshed. */
    method RemoveUserMeta(uid: string, s: Session)
      requires Valid()
      modifies this`usersMeta, this`users, this`name, this`onlineUserCount
      ensures Valid() && Refreshed(s)
      ensures usersMeta == Delete(old(usersMeta), uid)
      ensures users == Delete(old(users), uid)
    {
      PairedDelete(users, usersMeta, uid);
      usersMeta := Delete(usersMeta, uid);
      users := Delete(users, uid);
      Update(s);
    }

    /** New room details: a present value replaces the meta and refreshes
        the display fields; an empty one is ignored. */
    method OnMetaValue(value: Option<RoomMeta>, s: Session)
      requires Valid()
      modifies this`meta, this`name, this`onlineUserCount
      ensures Valid()
      ensures value.Some? ==> meta == value.value && Refreshed(s)
      ensures value.None? ==> meta == old(meta) && name == old(name) && onlineUserCount == old(onlineUserCount)
    {
      if value.Some? {
        meta := value.value;
        Update(s);
      }
    }

    /** A user's online state or profile changed: a member's change
        refreshes the display fields, anyone else's is ignored. */
    method OnUserChanged(uid: string, s: Session)
      requires Valid()
      modifies this`name, this`onlineUserCount
      ensures Valid()
      ensures ContainsUser(uid) ==> Refreshed(s)
      ensures !ContainsUser(uid) ==> name == old(name) && onlineUserCount == old(onlineUserCount)
    {
      if ContainsUser(uid) {
        Update(s);
      }
    }

    /***********************************
     * LIFECYCLE: on -> open -> close -> off
     */

    /** Starts listening, unless listening already or the room has no id.
        The first meta value is applied; then a one-to-one room takes its
        deleted state from the signed-in user's own record, and a
        one-to-one, public or group room opens the live message query from
        its deleted time. A room of any other type stops there. */
    method On(metaValue: Option<RoomMeta>, ownRecord: Option<UserMeta>, s: Session) returns (r: OnResult)
      requires Valid()
      modifies this`isOn, this`meta, this`name, this`onlineUserCount, this`deleted, this`deletedTimestamp, this`messagesAreOn
      ensures Valid()
      ensures old(isOn) || rid == "" ==> r == NotStarted && unchanged(this)
      ensures !old(isOn) && rid != "" ==> isOn && meta == (if metaValue.Some? then metaValue.value else old(meta))
      ensures !old(isOn) && rid != "" && TypeOf(meta) == Some(Code(OneToOne)) ==>
        deleted == Truthy(UserDeletedDate(ownRecord))
        && deletedTimestamp == (if deleted then UserDeletedDate(ownRecord) else old(deletedTimestamp))
      ensures !old(isOn) && rid != "" && ListenedType(TypeOf(meta)) ==>
        r == Listening(if old(messagesAreOn) then None
                       else Some(MessagesQuery(Watermark(deletedTimestamp, LastMessageTime()), config.maxHistoricMessages)))
      ensures !old(isOn) && rid != "" && !ListenedType(TypeOf(meta)) ==>
        r == MetaOnly && deleted == old(deleted) && deletedTimestamp == old(deletedTimestamp) && messagesAreOn == old(messagesAreOn)
    {
      if isOn || rid == "" {
        return NotStarted;
      }
      isOn := true;
      OnMetaValue(metaValue, s);
      r := StartListening(ownRecord);
    }

    /** The types whose messages `on()` starts listening to: one-to-one,
        public and group rooms. */
    static predicate ListenedType(t: Option<int>) {
      t == Some(Code(OneToOne)) || t == Some(Code(Public)) || t == Some(Code(Group))
    }

    /** What `on()` does once the details are in, by the room's type. */
    method StartListening(ownRecord: Option<UserMeta>) returns (r: OnResult)
      requires rid != ""
      modifies this`deleted, this`deletedTimestamp, this`messagesAreOn
      ensures TypeOf(meta) == Some(Code(OneToOne)) ==>
        deleted == Truthy(UserDeletedDate(ownRecord))
        && deletedTimestamp == (if deleted then UserDeletedDate(ownRecord) else old(deletedTimestamp))
      ensures ListenedType(TypeOf(meta)) ==>
        r == Listening(if old(messagesAreOn) then None
                       else Some(MessagesQuery(Watermark(deletedTimestamp, LastMessageTime()), config.maxHistoricMessages)))
      ensures !ListenedType(TypeOf(meta)) ==>
        r == MetaOnly && deleted == old(deleted) && deletedTimestamp == old(deletedTimestamp) && messagesAreOn == old(messagesAreOn)
    {
      var t := TypeOf(meta);
      if t == Some(Code(OneToOne)) {
        deleted := false;
        var timestamp := UserDeletedDate(ownRecord);
        if Truthy(timestamp) {
          deleted := true;
          deletedTimestamp := timestamp;
        }
        var q := MessagesOn(deletedTimestamp);
        r := Listening(q);
      } else if t == Some(Code(Public)) || t == Some(Code(Group)) {
        var q := MessagesOn(deletedTimestamp);
        r := Listening(q);
      } else {
        r := MetaOnly;
      }
    }

    /** Stops listening to the room's details and members. The live
        message query is left as it is. */
    method Off()
      modifies this`isOn
      ensures !isOn
    {
      isOn := false;
    }

    /** Puts the room on screen: a public room once joining it succeeded, a
        group or one-to-one room at once, a room of any other type never.
        Opening opens the live message query from the deleted time. */
    method Open(joined: bool) returns (shown: bool, q: Option<MessagesQuery>)
      modifies this`messagesAreOn
      ensures shown <==> TypeOf(meta) in {Some(Code(Group)), Some(Code(OneToOne))} || (IsPublic() && joined)
      ensures shown && !old(messagesAreOn) && rid != "" ==>
        messagesAreOn && q == Some(MessagesQuery(Watermark(deletedTimestamp, LastMessageTime()), config.maxHistoricMessages))
      ensures shown && (old(messagesAreOn) || rid == "") ==> q.None? && messagesAreOn == old(messagesAreOn)
      ensures !shown ==> q.None? && messagesAreOn == old(messagesAreOn)
    {
      var t := TypeOf(meta);
      shown := false;
      q := None;
      if t == Some(Code(Public)) {
        if joined {
          shown := true;
          q := MessagesOn(deletedTimestamp);
        }
      } else if t == Some(Code(Group)) || t == Some(Code(OneToOne)) {
        shown := true;
        q := MessagesOn(deletedTimestamp);
      }
    }

    /** Takes the room off screen and closes the live message query; the
        result says whether the signed-in user is removed from the room,
        which happens for a public room only. */
    method Close() returns (removesMembership: bool)
      modifies this`messagesAreOn
      ensures !messagesAreOn
      ensures removesMembership == IsPublic()
    {
      MessagesOff();
      removesMembership := IsPublic();
    }

    /** Leaves the room: the messages go, the room is marked deleted, and
        once the removal from the backend succeeded the room stops
        listening. */
    method Leave(removalSucceeded: bool)
      modifies this`messages, this`unreadMessages, this`deleted, this`isOn
      ensures messages == [] && unreadMessages == [] && deleted
      ensures removalSucceeded ==> !isOn
      ensures !removalSucceeded ==> isOn == old(isOn)
    {
      DeleteMessages();
      deleted := true;
      if removalSucceeded {
        Off();
      }
    }

    /***********************************
     * SERIALIZATION
     */

    /** The cached form: the flags, every message in order, and the member
        records. */
    method Serialize() returns (r: SerializedRoom)
      ensures r.minimized == minimized && r.deleted == deleted && r.isOpen == isOpen
      ensures r.associatedUserID == associatedUserID && r.readTimestamp == readTimestamp
      ensures r.usersMeta == usersMeta
      ensures |r.messages| == |messages|
      ensures forall i :: 0 <= i < |messages| ==> r.messages[i] == Serialized(messages[i])
    {
      var m: seq<SerializedMessage> := [];
      var i := 0;
      while i < |messages|
        invariant 0 <= i <= |messages|
        invariant |m| == i
        invariant forall j :: 0 <= j < i ==> m[j] == Serialized(messages[j])
      {
        m := m + [Serialized(messages[i])];
        i := i + 1;
      }
      r := SerializedRoom(minimized, m, usersMeta, deleted, isOpen, associatedUserID, readTimestamp);
    }

    /** Restores a cached form: the flags are copied, the member records are
        added in their order, and the cached messages are appended. An
        absent form changes nothing. */
    method Deserialize(sr: Option<SerializedRoom>, s: Session, roomIsOpen: bool) returns (ghost restored: seq<Message>)
      requires Valid()
      requires sr.Some? ==> Dicts.Valid(sr.value.usersMeta)
      modifies this`minimized, this`deleted, this`isOpen, this`associatedUserID, this`readTimestamp
      modifies this`usersMeta, this`users, this`name, this`onlineUserCount, this`messages, this`unreadMessages
      modifies (if |messages| > 0 then {messages[|messages| - 1]} else {})`next
      ensures Valid()
      ensures sr.None? ==> unchanged(this) && restored == []
      ensures sr.Some? ==> minimized == sr.value.minimized && deleted == sr.value.deleted && isOpen == sr.value.isOpen
      ensures sr.Some? ==> associatedUserID == sr.value.associatedUserID && readTimestamp == sr.value.readTimestamp
      ensures sr.Some? ==> usersMeta == AddRecords(old(usersMeta), sr.value.usersMeta, |sr.value.usersMeta.keys|)
      ensures sr.Some? ==> |sr.value.usersMeta.keys| > 0 ==> Refreshed(s)
      ensures messages == old(messages) + restored
      ensures forall x :: x in restored ==> fresh(x)
      ensures sr.Some? ==> RestoredRun(restored, sr.value.messages, roomIsOpen)
      ensures sr.Some? ==> unreadMessages == old(unreadMessages) + BufferedOf(restored, sr.value.messages, roomIsOpen)
      ensures ChainedAfter(old(messages), restored)
      ensures old(|messages|) > 0 ==> KeepsFlagAndBackLink(old(messages[|messages| - 1]), old(messages[|messages| - 1].read), old(messages[|messages| - 1].previous))
    {
      if sr.None? {
        return [];
      }
      restored := RestoreRoom(sr.value, s, roomIsOpen);
    }

    /** The flags, then the member records and messages, of a cached form. */
    method RestoreRoom(v: SerializedRoom, s: Session, roomIsOpen: bool) returns (ghost restored: seq<Message>)
      requires Valid() && Dicts.Valid(v.usersMeta)
      modifies this`minimized, this`deleted, this`isOpen, this`associatedUserID, this`readTimestamp
      modifies this`usersMeta, this`users, this`name, this`onlineUserCount, this`messages, this`unreadMessages
      modifies (if |messages| > 0 then {messages[|messages| - 1]} else {})`next
      ensures Valid()
      ensures minimized == v.minimized && deleted == v.deleted && isOpen == v.isOpen
      ensures associatedUserID == v.associatedUserID && readTimestamp == v.readTimestamp
      ensures usersMeta == AddRecords(old(usersMeta), v.usersMeta, |v.usersMeta.keys|)
      ensures |v.usersMeta.keys| > 0 ==> Refreshed(s)
      ensures messages == old(messages) + restored
      ensures forall x :: x in restored ==> fresh(x)
      ensures RestoredRun(restored, v.messages, roomIsOpen)
      ensures unreadMessages == old(unreadMessages) + BufferedOf(restored, v.messages, roomIsOpen)
      ensures ChainedAfter(old(messages), restored)
      ensures old(|messages|) > 0 ==> KeepsFlagAndBackLink(old(messages[|messages| - 1]), old(messages[|messages| - 1].read), old(messages[|messages| - 1].previous))
    {
      RestoreFlags(v);
      assert messages == old(messages) && unreadMessages == old(unreadMessages) && usersMeta == old(usersMeta);
      restored := RestoreContents(v, s, roomIsOpen);
    }

    /** The window and membership flags of a cached form. */
    method RestoreFlags(v: SerializedRoom)
      modifies this`minimized, this`deleted, this`isOpen, this`associatedUserID, this`readTimestamp
      ensures minimized == v.minimized && deleted == v.deleted && isOpen == v.isOpen
      ensures associatedUserID == v.associatedUserID && readTimestamp == v.readTimestamp
    {
      minimized, deleted, isOpen := v.minimized, v.deleted, v.isOpen;
      associatedUserID, readTimestamp := v.associatedUserID, v.readTimestamp;
    }

    /** The member records and then the messages of a cached form. */
    method RestoreContents(v: SerializedRoom, s: Session, roomIsOpen: bool) returns (ghost restored: seq<Message>)
      requires Valid() && Dicts.Valid(v.usersMeta)
      modifies this`usersMeta, this`users, this`name, this`onlineUserCount, this`messages, this`unreadMessages
      modifies (if |messages| > 0 then {messages[|messages| - 1]} else {})`next
      ensures Valid()
      ensures usersMeta == AddRecords(old(usersMeta), v.usersMeta, |v.usersMeta.keys|)
      ensures |v.usersMeta.keys| > 0 ==> Refreshed(s)
      ensures messages == old(messages) + restored
      ensures forall x :: x in restored ==> fresh(x)
      ensures RestoredRun(restored, v.messages, roomIsOpen)
      ensures unreadMessages == old(unreadMessages) + BufferedOf(restored, v.messages, roomIsOpen)
      ensures ChainedAfter(old(messages), restored)
      ensures old(|messages|) > 0 ==> KeepsFlagAndBackLink(old(messages[|messages| - 1]), old(messages[|messages| - 1].read), old(messages[|messages| - 1].previous))
    {
      AddUserMetas(v.usersMeta, s);
      restored := RestoreMessages(v.messages, s, roomIsOpen);
    }

    /** The messages half of restoring: the member tables, and so the
        display fields derived from them, stay as they were. */
    method RestoreMessages(sm: seq<SerializedMessage>, ghost s: Session, roomIsOpen: bool) returns (ghost restored: seq<Message>)
      requires Valid()
      modifies this`messages, this`unreadMessages, (if |messages| > 0 then {messages[|messages| - 1]} else {})`next
      ensures Valid() && usersMeta == old(usersMeta)
      ensures old(Refreshed(s)) ==> Refreshed(s)
      ensures messages == old(messages) + restored
      ensures forall x :: x in restored ==> fresh(x)
      ensures RestoredRun(restored, sm, roomIsOpen)
      ensures unreadMessages == old(unreadMessages) + BufferedOf(restored, sm, roomIsOpen)
      ensures ChainedAfter(old(messages), restored)
      ensures old(|messages|) > 0 ==> KeepsFlagAndBackLink(old(messages[|messages| - 1]), old(messages[|messages| - 1].read), old(messages[|messages| - 1].previous))
    {
      restored := AddMessagesFromSerialization(sm, roomIsOpen);
    }

    /** Adds the cached member records one at a time, in their order, and
        refreshes the display fields when there were any. */
    method AddUserMetas(src: Dict<UserMeta>, s: Session)
      requires Valid() && Dicts.Valid(src)
      modifies this`usersMeta, this`users, this`name, this`onlineUserCount
      ensures Valid()
      ensures usersMeta == AddRecords(old(usersMeta), src, |src.keys|)
      ensures |src.keys| > 0 ==> Refreshed(s)
    {
      FileUserMetas(src);
      if |src.keys| > 0 {
        Update(s);
      }
    }

    /** The loop over the cached records: each is filed under its uid. */
    method FileUserMetas(src: Dict<UserMeta>)
      requires Valid() && Dicts.Valid(src)
      modifies this`usersMeta, this`users
      ensures Valid()
      ensures usersMeta == AddRecords(old(usersMeta), src, |src.keys|)
    {
      ghost var initial := usersMeta;
      assert Dicts.Valid(initial);
      var k := 0;
      while k < |src.keys|
        invariant 0 <= k <= |src.keys|
        invariant Valid()
        invariant usersMeta == AddRecords(initial, src, k)
      {
        var m := src.entries[src.keys[k]];
        AddRecordsStep(initial, src, k);
        FileUserMeta(m);
        k := k + 1;
      }
    }

    /** A cached message rebuilt: same id, sender, time, text and type. Its
        read flag is that of the cache, or set on arrival. */
    predicate Restores(m: Message, sm: SerializedMessage) {
      m.mid == sm.mid && m.sender == sm.payload.sender && m.time == sm.payload.time
      && m.text == sm.payload.text && m.kind == sm.payload.kind
    }

    /** The restored messages that join the unread buffer: those whose
        cached payload qualifies, in order. */
    function BufferedOf(ms: seq<Message>, sm: seq<SerializedMessage>, roomIsOpen: bool): (r: seq<Message>)
      requires |ms| == |sm|
      reads this`active, this`minimized, this`readTimestamp
      ensures |r| <= |ms|
    {
      if |ms| == 0 then []
      else
        var last := |ms| - 1;
        BufferedOf(ms[..last], sm[..last], roomIsOpen) + (if BuffersAsUnread(sm[last].payload.read, sm[last].payload.time, roomIsOpen) then [ms[last]] else [])
    }

    /** One more restored message extends the buffered ones by itself or
        by nothing. */
    lemma BufferedOfAppend(ms: seq<Message>, sm: seq<SerializedMessage>, m: Message, x: SerializedMessage, roomIsOpen: bool)
      requires |ms| == |sm|
      ensures BufferedOf(ms + [m], sm + [x], roomIsOpen) ==
        BufferedOf(ms, sm, roomIsOpen) + (if BuffersAsUnread(x.payload.read, x.payload.time, roomIsOpen) then [m] else [])
    {
      assert (ms + [m])[..|ms|] == ms;
      assert (sm + [x])[..|sm|] == sm;
    }

    /** Each restored message rebuilds its cached message, and is unread
        exactly when it qualified for the unread buffer. */
    ghost predicate RestoredRun(ms: seq<Message>, sm: seq<SerializedMessage>, roomIsOpen: bool)
      reads this`active, this`minimized, this`readTimestamp, ms`read
    {
      && |ms| == |sm|
      && (forall j :: 0 <= j < |ms| ==>
            Restores(ms[j], sm[j]) && (ms[j].read <==> !BuffersAsUnread(sm[j].payload.read, sm[j].payload.time, roomIsOpen)))
    }

    lemma RestoredRunAppend(ms: seq<Message>, sm: seq<SerializedMessage>, m: Message, x: SerializedMessage, roomIsOpen: bool)
      requires RestoredRun(ms, sm, roomIsOpen) && Restores(m, x)
      requires m.read <==> !BuffersAsUnread(x.payload.read, x.payload.time, roomIsOpen)
      ensures RestoredRun(ms + [m], sm + [x], roomIsOpen)
    {
    }

    /** One more restored message, buffered exactly when it qualifies,
        extends both the restored run and the buffer equation. */
    lemma RunStep(ms: seq<Message>, sm: seq<SerializedMessage>, m: Message, x: SerializedMessage, roomIsOpen: bool,
                  unread: seq<Message>, before: seq<Message>, after: seq<Message>)
      requires RestoredRun(ms, sm, roomIsOpen) && Restores(m, x)
      requires m.read <==> !BuffersAsUnread(x.payload.read, x.payload.time, roomIsOpen)
      requires before == unread + BufferedOf(ms, sm, roomIsOpen)
      requires BuffersAsUnread(x.payload.read, x.payload.time, roomIsOpen) ==> after == before + [m]
      requires !BuffersAsUnread(x.payload.read, x.payload.time, roomIsOpen) ==> after == before
      ensures RestoredRun(ms + [m], sm + [x], roomIsOpen)
      ensures after == unread + BufferedOf(ms + [m], sm + [x], roomIsOpen)
    {
      BufferedOfAppend(ms, sm, m, x, roomIsOpen);
      RestoredRunAppend(ms, sm, m, x, roomIsOpen);
    }

    /** Rebuilds each cached message and appends it as a new arrival: the
        qualifying ones join the unread buffer, the others are marked read. */
    method AddMessagesFromSerialization(sm: seq<SerializedMessage>, roomIsOpen: bool) returns (ghost restored: seq<Message>)
      requires Valid()
      modifies this`messages, this`unreadMessages, (if |messages| > 0 then {messages[|messages| - 1]} else {})`next
      ensures Valid()
      ensures messages == old(messages) + restored
      ensures forall x :: x in restored ==> fresh(x)
      ensures RestoredRun(restored, sm, roomIsOpen)
      ensures unreadMessages == old(unreadMessages) + BufferedOf(restored, sm, roomIsOpen)
      ensures ChainedAfter(old(messages), restored)
      ensures old(|messages|) > 0 ==> KeepsFlagAndBackLink(old(messages[|messages| - 1]), old(messages[|messages| - 1].read), old(messages[|messages| - 1].previous))
    {
      restored := AppendRestored(sm, roomIsOpen);
    }

    /** The loop of `addMessagesFromSerialization`. */
    method AppendRestored(sm: seq<SerializedMessage>, roomIsOpen: bool) returns (ghost restored: seq<Message>)
      modifies this`messages, this`unreadMessages, (if |messages| > 0 then {messages[|messages| - 1]} else {})`next
      ensures messages == old(messages) + restored
      ensures forall x :: x in restored ==> fresh(x)
      ensures RestoredRun(restored, sm, roomIsOpen)
      ensures unreadMessages == old(unreadMessages) + BufferedOf(restored, sm, roomIsOpen)
      ensures ChainedAfter(old(messages), restored)
      ensures old(|messages|) > 0 ==> KeepsFlagAndBackLink(old(messages[|messages| - 1]), old(messages[|messages| - 1].read), old(messages[|messages| - 1].previous))
    {
      ghost var before := messages;
      restored := [];
      var i := 0;
      while i < |sm|
        invariant 0 <= i <= |sm| && |restored| == i
        invariant messages == before + restored
        invariant forall x :: x in restored ==> fresh(x)
        invariant RestoredRun(restored, sm[..i], roomIsOpen)
        invariant unreadMessages == old(unreadMessages) + BufferedOf(restored, sm[..i], roomIsOpen)
        invariant LastIsNew(Tail(before) + restored)
        invariant ChainedAfter(before, restored)
      {
        assert |restored| > 0 ==> messages[|messages| - 1] == restored[|restored| - 1] && restored[|restored| - 1] in restored;
        restored := RestoreNext(sm, i, roomIsOpen, before, restored, old(unreadMessages));
        i := i + 1;
      }
      assert sm[..i] == sm;
    }

    /** The old last message still has the given read flag and back link. */
    ghost predicate KeepsFlagAndBackLink(x: Message, read: bool, previous: Message?)
      reads x
    {
      x.read == read && x.previous == previous
    }

    /** One step of that loop: the restored run and the buffer grow by the
        next cached message, which is chained after the run; the message
        before the run keeps its read flag and back link. */
    method RestoreNext(sm: seq<SerializedMessage>, i: nat, roomIsOpen: bool, ghost prefix: seq<Message>, ghost restored: seq<Message>,
                       ghost unread: seq<Message>) returns (ghost run: seq<Message>)
      requires i < |sm| && |restored| == i
      requires messages == prefix + restored
      requires RestoredRun(restored, sm[..i], roomIsOpen)
      requires unreadMessages == unread + BufferedOf(restored, sm[..i], roomIsOpen)
      requires LastIsNew(Tail(prefix) + restored) && ChainedAfter(prefix, restored)
      modifies this`messages, this`unreadMessages, (if |messages| > 0 then {messages[|messages| - 1]} else {})`next
      ensures |run| == i + 1 && messages == prefix + run
      ensures forall x :: x in run ==> x in restored || fresh(x)
      ensures RestoredRun(run, sm[..i + 1], roomIsOpen)
      ensures unreadMessages == unread + BufferedOf(run, sm[..i + 1], roomIsOpen)
      ensures LastIsNew(Tail(prefix) + run) && ChainedAfter(prefix, run)
    {
      ghost var done := sm[..i];
      var x := sm[i];
      assert sm[..i + 1] == done + [x];
      var m := AppendLinked(x, roomIsOpen, prefix, restored);
      LastIsNewSnoc(Tail(prefix), restored, m);
      run := restored + [m];
      RunStep(restored, done, m, x, roomIsOpen, unread, old(unreadMessages), unreadMessages);
    }

    /** Appends one cached message, as `AddMessageFromSerialization` does,
        and keeps the restored run chained: only the run's last message
        gains a link, its forward one. */
    method AppendLinked(x: SerializedMessage, roomIsOpen: bool, ghost prefix: seq<Message>, ghost restored: seq<Message>)
      returns (ghost m: Message)
      requires messages == prefix + restored
      requires LastIsNew(Tail(prefix) + restored) && ChainedAfter(prefix, restored)
      modifies this`messages, this`unreadMessages, (if |messages| > 0 then {messages[|messages| - 1]} else {})`next
      ensures messages == old(messages) + [m] && fresh(m) && Restores(m, x)
      ensures BuffersAsUnread(x.payload.read, x.payload.time, roomIsOpen) ==> unreadMessages == old(unreadMessages) + [m] && !m.read
      ensures !BuffersAsUnread(x.payload.read, x.payload.time, roomIsOpen) ==> unreadMessages == old(unreadMessages) && m.read
      ensures messages == prefix + (restored + [m])
      ensures ChainedAfter(prefix, restored + [m]) && m !in Tail(prefix) + restored
    {
      ghost var chain := Tail(prefix) + restored;
      assert |chain| > 0 ==> chain[|chain| - 1] == messages[|messages| - 1];
      assert old(Linked(chain));
      AddMessageFromSerialization(x, roomIsOpen);
      m := messages[|messages| - 1];
      assert messages == old(messages) + [m];
      assert Linked(chain) by {
        forall j | 0 < j < |chain| ensures chain[j].previous == chain[j - 1] && chain[j - 1].next == chain[j] {
          assert chain[j - 1] != chain[|chain| - 1];
        }
      }
      ChainedSnoc(prefix, restored, m);
      assert prefix + (restored + [m]) == (prefix + restored) + [m];
    }

    /** Rebuilds one cached message and appends it as a new arrival: it
        joins the unread buffer when it qualifies and is marked read
        otherwise. */
    method AddMessageFromSerialization(sm: SerializedMessage, roomIsOpen: bool)
      modifies this`messages, this`unreadMessages, (if |messages| > 0 then {messages[|messages| - 1]} else {})`next
      ensures |messages| == old(|messages|) + 1 && messages[..old(|messages|)] == old(messages)
      ensures fresh(messages[|messages| - 1]) && Restores(messages[|messages| - 1], sm)
      ensures BuffersAsUnread(sm.payload.read, sm.payload.time, roomIsOpen) ==>
        unreadMessages == old(unreadMessages) + [messages[|messages| - 1]] && !messages[|messages| - 1].read
      ensures !BuffersAsUnread(sm.payload.read, sm.payload.time, roomIsOpen) ==>
        unreadMessages == old(unreadMessages) && messages[|messages| - 1].read
      ensures forall x :: x in old(messages) ==> x.read == old(x.read)
      // linked after the previous last message, which keeps its back link
      ensures messages[|messages| - 1].next == null
      ensures old(|messages|) == 0 ==> messages[|messages| - 1].previous == null
      ensures old(|messages|) > 0 ==>
        old(messages[|messages| - 1]).next == messages[|messages| - 1]
        && messages[|messages| - 1].previous == old(messages[|messages| - 1])
        && old(messages[|messages| - 1]).previous == old(messages[|messages| - 1].previous)
    {
      var m := new Message(sm.mid, sm.payload);
      AddMessageToEnd(m, roomIsOpen);
      assert messages[..old(|messages|)] == old(messages);
    }

  }

}
