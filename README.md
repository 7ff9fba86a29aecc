# Chat room state and clock offset, modelled in Dafny

This project models two parts of a browser chat client built on a realtime
backend.

- **The `Room` entity** (`src/angularjs/entities/room.ts`) is the room's
  in-memory state:
  - the member tables and what is derived from them: type, display name,
    online count and owner;
  - the message list: after each live arrival it is sorted by time, has no
    two neighbouring entries with the same id, and holds at most 100
    entries;
  - the unread buffer and the badge, capped at 99;
  - the typing table and its summary line;
  - the guards on the room's subscriptions (`isOn`, `messagesAreOn`,
    `loadingMoreMessages`);
  - the cached form of the room.
- **The `Time` service** (`app/js/services/time.ts`) estimates the
  backend's clock from a single write and read-back of a server timestamp.

The backend is not modelled as a service:

- every backend read arrives as a parameter of the method that handles it
  (a snapshot value, whether a write failed, the read-back value);
- every backend write or query the room would open is returned as a value
  (`MessagesQuery`, `HistoryQuery`, `TypeChangeRequest`, `recordsReadTime`,
  `removesMembership`, `playSound`).

The room's other collaborators are folded into one `Session` value and a
few parameters:

- the signed-in user, the user directory (names, online flags, loaded
  profiles) and the blocked list make up the `Session`;
- whether the room is on screen, whether the window is hidden, and the
  synchronised clock are parameters.

Files:

- `wrappers.dfy`: `Option`, and JavaScript truthiness of a number.
- `dicts.dfy`: a JavaScript plain object used as a dictionary. Keys are
  enumerated in first-assignment order; `d[k] = v` and `delete d[k]` are
  modelled.
- `messages.dfy`: the message object and the pure list operations (sort
  by time, collapse of repeated ids, eviction, the time filters, removal
  by id), with their lemmas.
- `members.dfy`: member records, room type, display name, online count,
  owner, and restoring records from the cache.
- `typing.dfy`: the typing summary and the decimal rendering of a count.
- `room.dfy`: the `Room` class; its methods change its fields in place.
- `clock.dfy`: the `TimeService` class.

## Model

| member | source | states |
|---|---|---|
| Clock.TimeService.constructor | app/js/services/time.ts:12-15 | The service starts with no local time, no remote time, no uid and not working. |
| Clock.TimeService.Start | app/js/services/time.ts:17-50 | A truthy cached remote time for the same uid resolves at once and changes nothing. Otherwise the local reading is always taken, even when the write fails. A truthy read-back records the remote time and the uid, resolves with that value, and from then on `now()` is the local clock minus the local reading plus the remote reading. A failed write or an empty read-back rejects and leaves the remote time and uid as they were. Every path that settles clears `working`. |
| Clock.TimeService.SetTime | app/js/services/time.ts:52-56 | Records the remote time and the uid, and clears `working`. |
| Clock.TimeService.Now | app/js/services/time.ts:58-63 | Defined exactly when the remote time is truthy. When defined, it differs from the local clock by the fixed offset remote minus local reading. |
| Clock.NowAdvances | app/js/services/time.ts:60 | Advancing the local clock by d advances `now()` by exactly d, and does not change whether it is defined. |
| Clock.TimeService.SecondsSince | app/js/services/time.ts:65-67 | Never negative, and 1000 times it is \|now() − t\|, with an undefined `now()` counting as 0. |
| Clock.FreshWithinThirtySeconds | src/angularjs/entities/room.ts:1300 | The arrival-sound test `secondsSince(t) < 30` holds exactly when \|now() − t\| < 30000 ms. |
| Dicts.Put | src/angularjs/entities/room.ts:1173-1177 | Assigning a key gives it the new value and leaves every other key's value alone. An existing key keeps its place in the enumeration order; a new key goes last. |
| Dicts.Delete | src/angularjs/entities/room.ts:1184-1185 | Deleting a key removes it and leaves every other key's value and relative order alone. |
| Members.TypeOf | src/angularjs/entities/room.ts:403-409 | The type field when it is truthy; otherwise the older type field. |
| Members.AccumulatedIsJoined | src/angularjs/entities/room.ts:245-256 | Appending each name followed by ", " and then cutting the last two characters, when there are at least two, gives exactly the names joined by ", ". |
| Members.MemberNamesHas | src/angularjs/entities/room.ts:245-252 | Every member other than the signed-in user whose name is non-empty contributes that name to the list that gets joined. |
| Members.JoinedHas | src/angularjs/entities/room.ts:245-256 | Every name in the list appears, as a contiguous piece, in the names joined by ", ". |
| Members.NamedMemberShown | src/angularjs/entities/room.ts:235-256 | In a room without a non-empty name of its own, the display name contains the name of every other member whose name is non-empty. |
| Members.NoNamedMemberShowsDefault | src/angularjs/entities/room.ts:235-274 | In a room without a non-empty name of its own, where no other member has a non-empty name, the display name is the default for a public room, a one-member room, a group, or a one-to-one room, tried in that order. |
| Members.DisplayNameNonEmpty | src/angularjs/entities/room.ts:235-274 | When the four default names are non-empty, a room's display name is never empty. |
| Members.SelfCountsOnline | src/angularjs/entities/room.ts:677-690 | Once the signed-in user's profile has loaded, a room holding that user's record counts at least one online member. |
| Members.OwnerOf | src/angularjs/entities/room.ts:636-652 | None for a room without records. Otherwise the uid of the first record, in enumeration order, whose status is Owner; with no owner, the uid of the last record. |
| Members.UserDeletedDate | src/angularjs/entities/room.ts:1214-1223 | The time on the signed-in user's record exactly when that record exists and says Closed; otherwise none. |
| Members.CountMembers | src/angularjs/entities/room.ts:702-712 | The count of listed users who are members never exceeds the list's length. It equals the length exactly when every listed user is a member. |
| Members.OnlyMembersIsSameSet | src/angularjs/entities/room.ts:702-712 | For a list without repeats, "every listed user is a member and the list is as long as the membership" holds exactly when the list names the members. |
| Members.RecordsRestore | src/angularjs/entities/room.ts:1110-1140 | Replaying a room's serialized member records into an empty table, in their order, gives back the same table with the same enumeration order. |
| Members.PairedPut | src/angularjs/entities/room.ts:1169-1181 | Filing a record and its user under the record's uid keeps the two member tables listing the same uids in the same order. |
| Members.PairedDelete | src/angularjs/entities/room.ts:1183-1187 | Deleting a uid from both member tables keeps them paired. |
| Messages.SortByTime | src/angularjs/entities/room.ts:988-992 | The comparator sort by time gives a list ordered by time that is a permutation of its input. |
| Messages.Dedup | src/angularjs/entities/room.ts:965-979 | Collapsing repeated ids leaves no two neighbours with the same id. It keeps only input entries and never lengthens the list. It keeps the last entry's id. |
| Messages.DedupKeepsOrder | src/angularjs/entities/room.ts:965-979 | Collapsing repeated ids keeps a time-ordered list time-ordered. |
| Messages.DedupKeepsEveryMid | src/angularjs/entities/room.ts:965-979 | Collapsing repeated ids drops no id: the set of ids is unchanged. |
| Messages.DedupOfDistinct | src/angularjs/entities/room.ts:965-979 | A list whose ids are all distinct is left as it is. |
| Messages.SortKeepsDistinct | src/angularjs/entities/room.ts:988-992 | Sorting keeps the ids distinct. |
| Messages.Evict | src/angularjs/entities/room.ts:1327-1333 | Keeps the last 100 entries, or all of them when there are at most 100. It removes entries from the front only. |
| Messages.TrimmedList | src/angularjs/entities/room.ts:1324-1335 | After trimming, the list is ordered by time, no two neighbours share an id, and there are at most 100 entries. It is a suffix of the sorted and collapsed list, and it holds nothing the input did not. |
| Messages.TrimDistinct | src/angularjs/entities/room.ts:1324-1335 | With distinct ids, trimming keeps exactly the newest 100 entries in time order. |
| Messages.NewerThan | src/angularjs/entities/room.ts:822-830 | Selects exactly the messages newer than the date, or all of them without a date. |
| Messages.OlderThan | src/angularjs/entities/room.ts:878-886 | Selects exactly the messages older than the date, or all of them without a date. |
| Messages.NewerThanAppend | src/angularjs/entities/room.ts:822-830 | Filtering a concatenation gives the filtered parts in the same order, so the selected messages keep their relative order. |
| Messages.OlderThanAppend | src/angularjs/entities/room.ts:878-886 | Filtering a concatenation gives the filtered parts in the same order, so the selected messages keep their relative order. |
| Messages.FiltersWithoutDate | src/angularjs/entities/room.ts:822-886 | Without a date, both filters return the whole list in order. |
| Messages.RemoveFirstMid | src/angularjs/entities/room.ts:1308-1316 | A list with no entry of that id is unchanged. Otherwise exactly the first entry with that id is removed, and the others keep their order. |
| Typing.CountTypists | src/angularjs/entities/room.ts:206-218 | The loop counts the typing entries other than the signed-in user's, and keeps the name in the last of them. |
| Typing.DecimalRoundTrip | src/angularjs/entities/room.ts:225 | The count rendered in the summary line reads back as that count. |
| Typing.TypistCount | src/angularjs/entities/room.ts:206-229 | The count in the summary is the number of distinct users other than the signed-in user who have an entry. |
| Typing.OwnEntryIgnored | src/angularjs/entities/room.ts:206-229 | Adding or removing the signed-in user's own entry never changes the summary. |
| Typing.TypistStops | src/angularjs/entities/room.ts:1361-1368 | Removing another user's entry takes exactly that user out of the typists, and the count drops by one. |
| Typing.TwoTypistsOneStops | src/angularjs/entities/room.ts:206-229 | With two other users typing the line is "2 people typing". When one of them stops, the line is the other's name followed by "...". |
| Rooms.Watermark | src/angularjs/entities/room.ts:1258-1276 | The start of the live query is one after the given timestamp. Without a timestamp it is one after the newest held message's time, when that time is truthy. There is no bound when the candidate is 0. |
| Rooms.WatermarkAfterNewest | src/angularjs/entities/room.ts:1258-1276 | Without a timestamp and with a truthy newest time, a start bound exists exactly when that time is not -1, and then it lies after the newest held time. A newest time of -1 gives no bound, so the query may return that message again. |
| Rooms.NextBadge | src/angularjs/entities/room.ts:1233-1237 | The badge goes from 0 to 1, and otherwise to min(badge + 1, 99). It always lies between 1 and 99. |
| Rooms.BadgeCountsToCap | src/angularjs/entities/room.ts:1229-1241 | From a cleared badge, k increments show min(k, 99). |
| Rooms.Room.constructor | src/angularjs/entities/room.ts:99-174 | A new room has empty member, typing and message tables and a zero badge. No subscription is open, and the room is active. |
| Rooms.Room.CalculatedType | src/angularjs/entities/room.ts:411-431 | Public exactly for a public room. Otherwise Invalid for at most one member, OneToOne for exactly two, and Group for more. |
| Rooms.Room.PublicRoomKeepsType | src/angularjs/entities/room.ts:488-490 | `isPublic()` holds exactly when the calculated type is Public, and a public room never asks for a type change. |
| Rooms.Room.TypeChangeRequest | src/angularjs/entities/room.ts:433-441 | A change is requested exactly when the calculated type differs from the stored type and the stored type is not Group. The request carries the calculated type. |
| Rooms.Room.LastMessage | src/angularjs/entities/room.ts:511-516 | The last entry of the list, or none for an empty list. |
| Rooms.Room.LastMessageTime | src/angularjs/entities/room.ts:525-530 | The last entry's time, or none for an empty list. |
| Rooms.Room.LastMessageText | src/angularjs/entities/room.ts:539-544 | The last entry's text, or none for an empty list. |
| Rooms.Room.LastMessageUserName | src/angularjs/entities/room.ts:518-523 | The name of the last entry's sender, or none for an empty list. |
| Rooms.Room.LastMessageType | src/angularjs/entities/room.ts:504-509 | Always none, even when a message exists. |
| Rooms.Room.GetMessagesNewerThan | src/angularjs/entities/room.ts:822-830 | The loop returns exactly the messages newer than the date, in list order, or all of them without a date. |
| Rooms.Room.GetMessagesOlderThan | src/angularjs/entities/room.ts:878-886 | The loop returns exactly the messages older than the date, in list order, or all of them without a date. |
| Rooms.Room.UpdateBadgeForMessage | src/angularjs/entities/room.ts:862-876 | The message joins the unread buffer exactly when all three hold: an increment is due (inactive, minimised or not on screen), the message is unread, and it is newer than the read time or the room was never read. Otherwise the message is marked read and the buffer is unchanged. |
| Rooms.Room.ForegroundNeverBuffers | src/angularjs/entities/room.ts:1243-1245 | `shouldIncrementUnreadMessageBadge()` is false while the room is active, not minimised and on screen, so no message joins the unread buffer then. |
| Rooms.Room.BufferingConditions | src/angularjs/entities/room.ts:862-876 | A read message never joins the unread buffer. When an increment is due, an unread message joins it exactly when newer than the read time or when the room was never read. |
| Rooms.Room.AddMessageToEnd | src/angularjs/entities/room.ts:844-860 | The message goes last and is linked after the previous last message. It is then buffered or marked read as `UpdateBadgeForMessage` says. The previous last message keeps its read flag and its back link. |
| Rooms.Room.AddMessageToStart | src/angularjs/entities/room.ts:832-842 | The message goes first and is linked before the previous first message. Its read flag is untouched. The previous first message keeps its read flag and its forward link. |
| Rooms.Room.SortMessages | src/angularjs/entities/room.ts:960-963 | The list becomes ordered by time and is a permutation of the old list. |
| Rooms.Room.DeduplicateMessages | src/angularjs/entities/room.ts:965-979 | The loop keeps a message exactly when its id differs from the id of the message before it. No two neighbours then share an id. |
| Rooms.Room.TrimMessageList | src/angularjs/entities/room.ts:1324-1335 | After trimming, the list is ordered by time, has no neighbouring repeated ids and at most 100 entries, and holds only messages it held before. |
| Rooms.Room.DeleteMessages | src/angularjs/entities/room.ts:981-986 | The message list and the unread buffer become empty. |
| Rooms.Room.MarkRead | src/angularjs/entities/room.ts:994-1019 | Every buffered message is marked read, the buffer empties, and the badge becomes 0. The read time is recorded exactly when the room is not public. A second call finds an empty buffer and leaves the same state. |
| Rooms.Room.SetActive | src/angularjs/entities/room.ts:554-559 | Activating marks the room read. Deactivating changes nothing but the flag. |
| Rooms.Room.UpdateUnreadMessageCounter | src/angularjs/entities/room.ts:1229-1245 | When an increment is due and the message is newer than the read time, or the room was never read, the badge moves to `NextBadge`. Otherwise it stays. The badge never exceeds 99. |
| Rooms.Room.MessagesOn | src/angularjs/entities/room.ts:1247-1276 | Does nothing while the query is open or the room has no id. Otherwise it sets the guard and opens the query at the watermark, with the configured page size. |
| Rooms.Room.MessagesOff | src/angularjs/entities/room.ts:1337-1345 | Clears the guard. |
| Rooms.Room.OnMessageAdded | src/angularjs/entities/room.ts:1279-1306 | A message from a blocked sender changes nothing and plays no sound. Any other message is built with the delivered id, text and type, linked after the previous last message, buffered (and left unread) or marked read, and the list is trimmed. The previous last message keeps its read flag and back link. The sound is due exactly when the room is not muted, the window is hidden, and the message is within 30 s of the synchronised clock. |
| Rooms.Room.AcceptMessage | src/angularjs/entities/room.ts:1285-1290 | A new message with the delivered id, text and type is linked after the previous last message, with no successor. It joins the unread buffer, left unread, exactly when `UpdateBadgeForMessage` says so, and is marked read otherwise. The previous last message keeps its read flag and back link, and the list is trimmed. |
| Rooms.Room.OnMessageRemoved | src/angularjs/entities/room.ts:1308-1320 | When the snapshot has a value, exactly the first message with that id is removed and the others keep their order. Otherwise nothing changes. |
| Rooms.Room.BeginLoadMore | src/angularjs/entities/room.ts:918-930 | While a load is pending, nothing is asked and nothing changes. Otherwise the flag is set, and the request asks for n messages ending one before the oldest held message's time. |
| Rooms.Room.FinishLoadMore | src/angularjs/entities/room.ts:930-958 | The fetched page goes before the held list in its fetched order, and the pending flag clears. No message's read flag changes. When no message object appears twice: each fetched message is linked forward to the next one in the new list and that one back to it; every held message keeps its forward link; every held message but the first keeps its back link; and the first fetched message keeps its back link. |
| Rooms.Room.PrependAll | src/angularjs/entities/room.ts:933-936 | The prepending loop: the list becomes the page followed by the held list. When no message object appears twice, each fetched message and its successor are linked both ways, the held messages keep their forward links, and only the successors of fetched messages gain new back links. |
| Rooms.Room.PrependNext | src/angularjs/entities/room.ts:934-935 | One iteration: the next fetched message goes first and is linked both ways with the previous first message. No other forward link, and no other back link, changes. |
| Rooms.Room.UpdateTyping | src/angularjs/entities/room.ts:206-229 | The typing line becomes the summary that ignores the signed-in user: none for nobody, the name followed by "..." for one user, and the count followed by " people typing" for more. |
| Rooms.Room.OnTypingAdded | src/angularjs/entities/room.ts:1352-1359 | The typist's entry is set and the line recomputed. |
| Rooms.Room.OnTypingRemoved | src/angularjs/entities/room.ts:1361-1368 | The typist's entry is removed and the line recomputed. |
| Rooms.Room.UserStatusOf | src/angularjs/entities/room.ts:583-604 | A member's status is known exactly when the user's profile has loaded and the member has a record. It is then that record's status. |
| Rooms.Room.MembersAreUsers | src/angularjs/entities/room.ts:1411-1414 | A user whose status is Member or Owner is one of the room's users. |
| Rooms.Room.UserIffRecord | src/angularjs/entities/room.ts:658-660 | `containsUser()`: a user is in the room exactly when it has a member record. |
| Rooms.Room.MemberHasMemberRecord | src/angularjs/entities/room.ts:1411-1414 | `userIsMember()`: true exactly when the user's profile has loaded and its record has Member or Owner status. |
| Rooms.Room.UserCount | src/angularjs/entities/room.ts:692-700 | The loop counts the member table's keys, which is the number of its entries. |
| Rooms.Room.ContainsOnlyUsers | src/angularjs/entities/room.ts:702-712 | True exactly when every listed user is a member and the list is as long as the membership. For a list without repeats, that means the list names exactly the members. |
| Rooms.Room.GetUsers | src/angularjs/entities/room.ts:606-619 | Exactly the members whose profiles have loaded, other than the signed-in user, and only once that user's profile has loaded. |
| Rooms.Room.GetOwner | src/angularjs/entities/room.ts:636-652 | The loop finds the owner as `OwnerOf` says: the first Owner record, or else the last record. |
| Rooms.Room.GetOnlineUserCount | src/angularjs/entities/room.ts:677-690 | The loop counts the members who are online, or who are the signed-in user, once that user's profile has loaded. The count never exceeds the number of records. |
| Rooms.Room.UpdateName | src/angularjs/entities/room.ts:235-274 | The display name becomes the room's own name, or else its other members' names joined by ", ", or else the default for its type and size. |
| Rooms.Room.JoinedMemberNames | src/angularjs/entities/room.ts:245-256 | The loop gives exactly the other members' non-empty names joined by ", ". |
| Rooms.Room.Update | src/angularjs/entities/room.ts:196-204 | The display name and the online count agree with the membership afterwards. |
| Rooms.Room.AddUserMeta | src/angularjs/entities/room.ts:1169-1181 | The record is filed under its uid and the user is added, both tables keeping one order. The display fields are refreshed. |
| Rooms.Room.FileUserMeta | src/angularjs/entities/room.ts:1173-1177 | The record and its user are filed under the record's uid. |
| Rooms.Room.RemoveUserMeta | src/angularjs/entities/room.ts:1183-1187 | The record and the user are deleted, and the display fields are refreshed. |
| Rooms.Room.OnMetaValue | src/angularjs/entities/room.ts:1156-1163 | A present value replaces the meta and refreshes the display fields. An empty value is ignored. |
| Rooms.Room.OnUserChanged | src/angularjs/entities/room.ts:287-298 | A change to a member refreshes the display fields; a change to anyone else is ignored. |
| Rooms.Room.On | src/angularjs/entities/room.ts:280-335 | Does nothing while on or without an id. Otherwise it sets `isOn` and applies the meta. A one-to-one room then takes its deleted state and time from the signed-in user's Closed record. A one-to-one, public or group room opens the live query from its deleted time. Any other type stops after the meta. |
| Rooms.Room.StartListening | src/angularjs/entities/room.ts:310-327 | The dispatch on the room's type that follows the meta, as described for `On`. |
| Rooms.Room.Off | src/angularjs/entities/room.ts:392-401 | Clears `isOn`. |
| Rooms.Room.Open | src/angularjs/entities/room.ts:337-362 | A group or one-to-one room is shown at once, a public room once joining succeeded, and any other type never. Showing the room opens the live query from its deleted time. |
| Rooms.Room.Close | src/angularjs/entities/room.ts:368-382 | Closes the live query. The signed-in user is removed from the room exactly when it is public. |
| Rooms.Room.Leave | src/angularjs/entities/room.ts:384-390 | The messages go and the room is marked deleted. The room stops listening once the removal succeeded. |
| Rooms.Room.Serialize | src/angularjs/entities/room.ts:1097-1119 | The cached form holds the flags, the read time, the member records, and every message in order. |
| Rooms.Room.Deserialize | src/angularjs/entities/room.ts:1121-1146 | No cached form changes nothing. Otherwise the flags and the read time are copied and the records are added one by one in their order; when there were records, the display fields agree with the membership. The cached messages are appended, in order, as new messages with the cached id, sender, time, text and type. Each is unread exactly when it joined the unread buffer, and the buffer grows by exactly the qualifying ones, in order. The restored messages are linked to each other and to the previous last message as `AddMessagesFromSerialization` says. |
| Rooms.Room.RestoreRoom | src/angularjs/entities/room.ts:1124-1143 | The same state as `Deserialize` for a present cached form. The restored messages are linked to each other and to the previous last message as `AddMessagesFromSerialization` says. |
| Rooms.Room.RestoreFlags | src/angularjs/entities/room.ts:1124-1132 | The flags and the read time are copied from the cached form. |
| Rooms.Room.RestoreContents | src/angularjs/entities/room.ts:1136-1143 | The records are added in their order, with the display fields refreshed when there were any, then the cached messages are appended and buffered as `Deserialize` says. The restored messages are linked to each other and to the previous last message as `AddMessagesFromSerialization` says. |
| Rooms.Room.RestoreMessages | src/angularjs/entities/room.ts:1143 | The cached messages are appended and buffered as `AddMessagesFromSerialization` says, and display fields that agreed with the membership still do. The restored messages are linked to each other and to the previous last message as `AddMessagesFromSerialization` says. |
| Rooms.Room.AddUserMetas | src/angularjs/entities/room.ts:1136-1140 | Each cached record is added under its uid, in the cache's order. The display fields are refreshed when there was any record. |
| Rooms.Room.FileUserMetas | src/angularjs/entities/room.ts:1136-1140 | The loop files each cached record, in the cache's order. |
| Rooms.Room.AddMessagesFromSerialization | src/angularjs/entities/room.ts:804-810 | Each cached message is rebuilt and appended in order, after the held messages. A rebuilt message is unread exactly when its cached payload qualifies for the unread buffer, and the buffer grows by exactly those messages, in order. The restored messages form a chain: the first is linked both ways with the previous last message (or, in an empty list, has no back link), each is linked both ways with the next one, and the last has no forward link. The previous last message keeps its read flag and back link. |
| Rooms.Room.AppendRestored | src/angularjs/entities/room.ts:804-810 | The loop of `AddMessagesFromSerialization`, with the same contract, chain included. |
| Rooms.Room.RestoreNext | src/angularjs/entities/room.ts:806-808 | One iteration: the restored run and the buffer each grow by the next cached message, as the whole loop promises. The grown run is still chained after the held messages. Among the held messages only the previous last one may change, and only its forward link. |
| Rooms.Room.AddMessageFromSerialization | src/angularjs/entities/room.ts:812-816 | One cached message is rebuilt and appended. When its payload qualifies it joins the end of the unread buffer and stays unread; otherwise it is marked read and the buffer is unchanged. The new message has no forward link. In a non-empty list it is linked both ways with the previous last message; in an empty list it has no back link. Of the held messages only the previous last one changes, and only its forward link. |
| Rooms.Room.AppendLinked | src/angularjs/entities/room.ts:812-816 | Appending one cached message keeps the restored run chained: the new message is linked both ways with the run's last message, or with the previous last message when the run is empty, and it has no forward link. |
| Rooms.Room.RunStep | src/angularjs/entities/room.ts:806-808 | One more restored message, unread exactly when it qualifies for the buffer, extends the restored run, and the buffer grows by it exactly when it qualifies. |
| Messages.ChainedSnoc | src/angularjs/entities/room.ts:845-848 | A message linked both ways after the last of a chained run, with no forward link, leaves the run chained. |

## Left out

- Backend I/O (`push`, `set`, `setWithPriority`, `once`, `on`, `off`, `onDisconnect`, `pushMeta`, `removeFromPublicRooms`, `markRoomReadTime`, `addUserToRoom`, `removeUserFromRoom`, `updateRoomType`). These are asynchronous foreign calls: their results arrive as parameters and their requests are returned as values.
- `sendMessage`, `sendTextMessage`, `sendImageMessage`, `sendFileMessage` and the retry in `sendMessage`. They are asynchronous writes, and the retry's promise is not returned, so there is no contract to state.
- Message flagging (`toggleMessageFlag`, `flagMessage`, `unflagMessage`). These are backend writes only.
- `startTyping` and `finishTyping`. These are backend writes; their effect comes back through the typing handlers, which are modelled.
- `$rootScope.$broadcast`, sound effects, the marquee, the room position manager, `setImage` and the image URL, and the layout getters and setters (`getCenterX`, `setOffset`, `setSlot` and the like). These are UI work. Whether the room is on screen and whether the window is hidden are parameters.
- The `width`, `height` and `offset` fields of the cached form, which are layout only.
- The part of `serialize`/`deserialize` that belongs to the entity base class, which is not part of this model.
- `formatTimestamp` in time.ts, and therefore `transcript`. These use date formatting through a library.
- The real `Date.now()` is not modelled. The local clock is a parameter of `Start` and `Now`, and the synchronised clock is a parameter of `OnMessageAdded`.
- `loadLocalMessages` always returns an empty list, and nothing in the room depends on it.
- `getUserIDs`, `getRID`, `created`, `lastMessageDate` and `lastMessageExists` are plain accessors. `lastMessageExists` appears as `|messages| > 0`.
- The `date()` of a message is taken to be its `time()`. The filters compare the dates; the model compares the times.
- `Messages.SortByTime` is a stable insertion sort. `Array.prototype.sort` is stable in current engines, so the model fixes the order of equal times that way.
- JavaScript objects enumerate integer-like keys first, in numeric order. The model enumerates every key in first-assignment order, which is what it does for uids and message ids.
- `update()` after `addMessageToEnd`, `addMessageToStart` and `child_removed` is not modelled: message events do not refresh the name or the online count. The membership and meta handlers do refresh them.
- A uid that the user directory has never seen is modelled as a default user: no profile, no name, offline. The source creates the user, or, in `getOnlineUserCount`, would throw.
- The asynchronous order of `on()` is fixed. One call receives the first meta value and the signed-in user's own record, and the `UserOnlineStateChanged`/`UserValueChanged` listeners become `OnUserChanged`.
- The numeric room-type codes (Invalid 0, Group 1, OneToOne 2, Public 4) and the default room names are configuration constants defined outside room.ts, which is not part of this model. The names are a field of the room's configuration, and the codes are an assumption.
- Rooms.Room.FinishLoadMore: the links are stated only when no message object appears twice in the new list. When the page repeats a held object, the links the source ends with depend on that aliasing, and the model does not state them.
- `updateDisplay()` on a message, called when messages are linked, is display work and is not modelled.
- Rooms.Room.FinishLoadMore: a failed history query yields no messages, and the source then dereferences the missing list and never clears `loadingMoreMessages`. The model has no failure step, so a failed load leaves the flag set.
- `unreadMessages` starts as an empty list; the source leaves it undefined until first use. The guards in `updateBadgeForMessage`, `deleteMessages` and `markRead` make the two behave the same.
- The badge is changed only by `updateUnreadMessageCounter` and `markRead`. `updateBadgeForMessage` fills the unread buffer but does not touch the badge, as the code is written.
- Rooms.Room.AddUserMetas: the source refreshes the display fields after every restored record. The model refreshes once after the last record, which gives the same final state.
- Rooms.Room.Restores: does not state the restored message's read flag, which the arrival path sets afterwards. `RestoredRun` states the flag for each restored message. The message class's own `deserialize` is not part of this model.
- Rooms.Room.Off: the listener detachments (`metaOff`, `usersMetaOff` and the online-state listener) are backend and UI calls, so only the `isOn` flag is modelled.
- Clock.TimeService.Start: modelled as one atomic step from call to settlement. In the source the write callback and the read-back are separate asynchronous steps, and the `working` flag is never checked. Overlapping calls can therefore pair one call's local reading with another call's remote time; the model does not capture that interleaving.
- Rooms.Room.BeginLoadMore: the page size is a required parameter. The source's default of 10 messages (room.ts:918) is left to the caller.
