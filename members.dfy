/** Membership of a room and what the room derives from it: the user
    records, the collaborators the room asks about users, the room's type
    and its display name. */
module Members {

  import opened Wrappers
  import opened Dicts

  datatype UserStatus = Owner | Member | Invited | Closed

  /** A membership record as kept under the room's users path. */
  datatype UserMeta = UserMeta(uid: string, status: Option<UserStatus>, time: Option<int>)

  /** What the user directory knows of a user: whether its profile has
      loaded, its display name, and whether it is online. */
  datatype UserInfo = UserInfo(hasMeta: bool, name: string, online: bool)

  datatype CurrentUser = CurrentUser(uid: string, hasMeta: bool)

  /** The collaborators a room consults: the signed-in user, the user
      directory and the list of blocked users. */
  datatype Session = Session(current: Option<CurrentUser>, directory: map<string, UserInfo>, blocked: set<string>)

  /** The directory's user for `uid`; one it has not seen is created empty. */
  function Info(s: Session, uid: string): UserInfo {
    if uid in s.directory then s.directory[uid] else UserInfo(false, "", false)
  }

  predicate IsMe(s: Session, uid: string) {
    s.current.Some? && s.current.value.uid == uid
  }

  predicate CurrentHasMeta(s: Session) {
    s.current.Some? && s.current.value.hasMeta
  }

  /***********************************
   * ROOM TYPE AND META
   */

  datatype RoomType = Invalid | Group | OneToOne | Public

  /** The number stored for each room type. */
  function Code(t: RoomType): int {
    match t
    case Invalid => 0
    case Group => 1
    case OneToOne => 2
    case Public => 4
  }

  /** The room's meta fields the core reads; a type field is the result of
      `parseInt` on the stored value, None standing for NaN. */
  datatype RoomMeta = RoomMeta(name: Option<string>, typeCode: Option<int>, typeCodeV4: Option<int>)

  /** The name given to a room that has no name and no other named member. */
  datatype DefaultNames = DefaultNames(publicRoom: string, emptyRoom: string, group: string, oneToOne: string)

  /** Configuration: the page size of the live message query and the
      default names. */
  datatype Config = Config(maxHistoricMessages: int, names: DefaultNames)

  /** `getType()`: the type field, or the older type field when the first is
      missing, NaN or 0. */
  function TypeOf(meta: RoomMeta): (r: Option<int>)
    ensures Truthy(meta.typeCode) ==> r == meta.typeCode
    ensures !Truthy(meta.typeCode) ==> r == meta.typeCodeV4
  {
    if Truthy(meta.typeCode) then meta.typeCode else meta.typeCodeV4
  }

  /** Codes are distinct, so a stored code names one type. */
  lemma CodeInjective(t: RoomType, u: RoomType)
    ensures Code(t) == Code(u) <==> t == u
  {
  }

  /***********************************
   * NAMES
   */

  function LastName(names: seq<string>): string
    requires |names| > 0
  {
    names[|names| - 1]
  }

  /** The names of the members other than the signed-in user that have a
      non-empty name, in enumeration order. */
  function MemberNames(keys: seq<string>, s: Session): (r: seq<string>)
    ensures forall i :: 0 <= i < |r| ==> |r[i]| > 0
    ensures |r| <= |keys|
  {
    if |keys| == 0 then []
    else
      var k := keys[|keys| - 1];
      var p := MemberNames(keys[..|keys| - 1], s);
      p + (if !IsMe(s, k) && |Info(s, k).name| > 0 then [Info(s, k).name] else [])
  }

  /** The names separated by ", ". */
  function Joined(names: seq<string>): (r: string)
    ensures (forall i :: 0 <= i < |names| ==> |names[i]| > 0) ==> (|r| == 0 <==> |names| == 0)
  {
    if |names| == 0 then ""
    else if |names| == 1 then names[0]
    else Joined(names[..|names| - 1]) + ", " + LastName(names)
  }

  /** What the loop of `updateName` accumulates: every name followed by ", ". */
  function Accumulated(names: seq<string>): string {
    if |names| == 0 then "" else Accumulated(names[..|names| - 1]) + LastName(names) + ", "
  }

  /** Cutting the last two characters off the accumulation, when it has
      them, leaves exactly the names joined by ", ". */
  lemma {:induction false} AccumulatedIsJoined(names: seq<string>)
    ensures var a := Accumulated(names); (if |a| >= 2 then a[..|a| - 2] else a) == Joined(names)
  {
    if |names| > 0 {
      var p := names[..|names| - 1];
      AccumulatedIsJoined(p);
      var a := Accumulated(names);
      var ap := Accumulated(p);
      assert a == ap + LastName(names) + ", ";
      assert a[..|a| - 2] == ap + LastName(names);
      if |names| > 1 {
        AccumulatedEndsWithSeparator(p);
        assert ap[..|ap| - 2] + ", " == ap;
      } else {
        assert p == [];
      }
    }
  }

  lemma {:induction false} AccumulatedEndsWithSeparator(names: seq<string>)
    requires |names| > 0
    ensures var a := Accumulated(names); |a| >= 2 && a[|a| - 2..] == ", "
  {
  }

  /** One more key adds that member's name and a separator to the
      accumulation, or nothing. */
  lemma AccumulatedStep(keys: seq<string>, i: nat, s: Session)
    requires i < |keys|
    ensures Accumulated(MemberNames(keys[..i + 1], s)) == Accumulated(MemberNames(keys[..i], s))
      + (if !IsMe(s, keys[i]) && |Info(s, keys[i]).name| > 0 then Info(s, keys[i]).name + ", " else "")
  {
    var before := MemberNames(keys[..i], s);
    var userName := Info(s, keys[i]).name;
    assert keys[..i + 1][..i] == keys[..i];
    assert MemberNames(keys[..i + 1], s) == before + (if !IsMe(s, keys[i]) && |userName| > 0 then [userName] else []);
    if !IsMe(s, keys[i]) && |userName| > 0 {
      assert (before + [userName])[..|before|] == before;
    } else {
      assert before + [] == before;
    }
  }

  /** The display name `updateName` gives a room: its own name when it has a
      non-empty one; otherwise the other members' names joined by ", ";
      otherwise the default for a public room, a room with one member, a
      group, or a direct conversation, tried in that order. */
  function DisplayName(meta: RoomMeta, memberKeys: seq<string>, s: Session, names: DefaultNames): string {
    if meta.name.Some? && |meta.name.value| > 0 then meta.name.value
    else
      var joined := Joined(MemberNames(memberKeys, s));
      if |joined| > 0 then joined else DefaultName(meta, |memberKeys|, names)
  }

  /** The default for a public room, a room with one member, a group, or a
      direct conversation, tried in that order. */
  function DefaultName(meta: RoomMeta, memberCount: nat, names: DefaultNames): string {
    if TypeOf(meta) == Some(Code(Public)) then names.publicRoom
    else if memberCount == 1 then names.emptyRoom
    else if TypeOf(meta) == Some(Code(Group)) then names.group
    else names.oneToOne
  }

  /** `w` appears in `r` as a contiguous piece. */
  predicate Occurs(w: string, r: string) {
    exists i :: 0 <= i <= |r| && w <= r[i..]
  }

  /** Every other member with a non-empty name contributes that name. */
  lemma {:induction false} MemberNamesHas(keys: seq<string>, s: Session, k: string)
    requires k in keys && !IsMe(s, k) && |Info(s, k).name| > 0
    ensures Info(s, k).name in MemberNames(keys, s)
  {
    var last := |keys| - 1;
    if keys[last] != k {
      assert k in keys[..last];
      MemberNamesHas(keys[..last], s, k);
    }
  }

  /** When no other member has a non-empty name there is nothing to join. */
  lemma {:induction false} MemberNamesNone(keys: seq<string>, s: Session)
    requires forall k :: k in keys ==> IsMe(s, k) || |Info(s, k).name| == 0
    ensures MemberNames(keys, s) == []
  {
    if |keys| > 0 {
      var last := |keys| - 1;
      assert keys[last] in keys;
      assert forall k :: k in keys[..last] ==> k in keys;
      MemberNamesNone(keys[..last], s);
    }
  }

  /** Each joined name appears in the joined string. */
  lemma {:induction false} JoinedHas(names: seq<string>, w: string)
    requires w in names
    ensures Occurs(w, Joined(names))
  {
    var r := Joined(names);
    if |names| == 1 {
      assert w <= r[0..];
    } else {
      var p := names[..|names| - 1];
      var head := Joined(p);
      assert r == head + ", " + LastName(names);
      if w == LastName(names) {
        var i := |head| + 2;
        assert r[i..] == w;
      } else {
        assert w in p;
        JoinedHas(p, w);
        var i :| 0 <= i <= |head| && w <= head[i..];
        assert r[i..] == head[i..] + ", " + LastName(names);
      }
    }
  }

  /** Without a name of its own, a room's display name contains the name of
      every other member that has a non-empty one. */
  lemma NamedMemberShown(meta: RoomMeta, memberKeys: seq<string>, s: Session, names: DefaultNames, k: string)
    requires !(meta.name.Some? && |meta.name.value| > 0)
    requires k in memberKeys && !IsMe(s, k) && |Info(s, k).name| > 0
    ensures Occurs(Info(s, k).name, DisplayName(meta, memberKeys, s, names))
  {
    MemberNamesHas(memberKeys, s, k);
    JoinedHas(MemberNames(memberKeys, s), Info(s, k).name);
  }

  /** Without a name of its own, and with no other member that has a
      non-empty name, a room shows the default for its type and size. */
  lemma NoNamedMemberShowsDefault(meta: RoomMeta, memberKeys: seq<string>, s: Session, names: DefaultNames)
    requires !(meta.name.Some? && |meta.name.value| > 0)
    requires forall k :: k in memberKeys ==> IsMe(s, k) || |Info(s, k).name| == 0
    ensures DisplayName(meta, memberKeys, s, names) == DefaultName(meta, |memberKeys|, names)
  {
    MemberNamesNone(memberKeys, s);
  }

  /** With non-empty defaults a room's display name is never empty. */
  lemma DisplayNameNonEmpty(meta: RoomMeta, memberKeys: seq<string>, s: Session, names: DefaultNames)
    requires |names.publicRoom| > 0 && |names.emptyRoom| > 0 && |names.group| > 0 && |names.oneToOne| > 0
    ensures |DisplayName(meta, memberKeys, s, names)| > 0
  {
  }

  /***********************************
   * ONLINE COUNT, OTHER USERS, OWNER
   */

  /** A member counts as online when the signed-in user's profile has loaded
      and the member is online in the directory or is the signed-in user. */
  predicate CountsOnline(m: UserMeta, s: Session) {
    CurrentHasMeta(s) && (Info(s, m.uid).online || s.current.value.uid == m.uid)
  }

  function OnlineCount(keys: seq<string>, entries: map<string, UserMeta>, s: Session): (r: nat)
    requires forall k :: k in keys ==> k in entries
    ensures r <= |keys|
    ensures !CurrentHasMeta(s) ==> r == 0
  {
    if |keys| == 0 then 0
    else
      var k := keys[|keys| - 1];
      OnlineCount(keys[..|keys| - 1], entries, s) + (if CountsOnline(entries[k], s) then 1 else 0)
  }

  /** The signed-in user, once loaded, is always online to itself: a room it
      is a member of has at least one online member. */
  lemma {:induction false} SelfCountsOnline(keys: seq<string>, entries: map<string, UserMeta>, s: Session, k: string)
    requires forall x :: x in keys ==> x in entries
    requires CurrentHasMeta(s) && k in keys && entries[k].uid == s.current.value.uid
    ensures OnlineCount(keys, entries, s) >= 1
  {
    var p := keys[..|keys| - 1];
    if keys[|keys| - 1] != k {
      assert k in p by {
        var i :| 0 <= i < |keys| && keys[i] == k;
        assert p[i] == k;
      }
      SelfCountsOnline(p, entries, s, k);
    }
  }

  /** The keys `getUsers` returns: members whose profile has loaded, other
      than the signed-in user, when the signed-in user's profile has loaded. */
  predicate IsOtherUser(k: string, s: Session) {
    Info(s, k).hasMeta && CurrentHasMeta(s) && k != s.current.value.uid
  }

  function OtherUsers(keys: seq<string>, s: Session): (r: seq<string>)
    ensures forall k :: k in r ==> k in keys && IsOtherUser(k, s)
    ensures forall k :: k in keys && IsOtherUser(k, s) ==> k in r
    ensures |r| <= |keys|
  {
    if |keys| == 0 then []
    else
      var p := keys[..|keys| - 1];
      var k := keys[|keys| - 1];
      assert keys == p + [k];
      OtherUsers(p, s) + (if IsOtherUser(k, s) then [k] else [])
  }

  function FirstOwnerIndex(keys: seq<string>, entries: map<string, UserMeta>): (r: Option<nat>)
    requires forall k :: k in keys ==> k in entries
    ensures r.Some? ==> r.value < |keys| && entries[keys[r.value]].status == Some(Owner)
    ensures r.Some? ==> forall j :: 0 <= j < r.value ==> entries[keys[j]].status != Some(Owner)
    ensures r.None? ==> forall j :: 0 <= j < |keys| ==> entries[keys[j]].status != Some(Owner)
  {
    if |keys| == 0 then None
    else if entries[keys[0]].status == Some(Owner) then Some(0)
    else
      match FirstOwnerIndex(keys[1..], entries)
      case None => None
      case Some(i) => Some(i + 1)
  }

  /** The uid `getOwner` looks up: that of the first record, in enumeration
      order, whose status is Owner; when there is none, that of the last
      record; none for a room without records. */
  function OwnerOf(d: Dict<UserMeta>): (r: Option<string>)
    requires Valid(d)
    ensures |d.keys| == 0 <==> r.None?
    ensures (exists i :: 0 <= i < |d.keys| && d.entries[d.keys[i]].status == Some(Owner)) ==>
      exists j :: (0 <= j < |d.keys| && d.entries[d.keys[j]].status == Some(Owner)
        && (forall l :: 0 <= l < j ==> d.entries[d.keys[l]].status != Some(Owner))
        && r == Some(d.entries[d.keys[j]].uid))
    ensures |d.keys| > 0 && (forall i :: 0 <= i < |d.keys| ==> d.entries[d.keys[i]].status != Some(Owner))
      ==> r == Some(d.entries[d.keys[|d.keys| - 1]].uid)
  {
    match FirstOwnerIndex(d.keys, d.entries)
    case Some(i) => Some(d.entries[d.keys[i]].uid)
    case None => if |d.keys| == 0 then None else Some(d.entries[d.keys[|d.keys| - 1]].uid)
  }

  /** `userDeletedDate()`: the time on the signed-in user's own record when
      that record says Closed. */
  function UserDeletedDate(record: Option<UserMeta>): (r: Option<int>)
    ensures r.Some? ==> record.Some? && record.value.status == Some(Closed) && r == record.value.time
    ensures record.Some? && record.value.status == Some(Closed) ==> r == record.value.time
  {
    if record.Some? && record.value.status == Some(Closed) then record.value.time else None
  }


  /***********************************
   * COUNTING AND RESTORING MEMBERS
   */

  /** How many entries of `list` are members (duplicates count twice). */
  function CountMembers(list: seq<string>, members: set<string>): (r: nat)
    ensures r <= |list|
    ensures r == |list| <==> forall u :: u in list ==> u in members
  {
    if |list| == 0 then 0
    else
      var p := list[..|list| - 1];
      var u := list[|list| - 1];
      assert list == p + [u];
      CountMembers(p, members) + (if u in members then 1 else 0)
  }

  /** For a list without repeats, "every entry is a member and there are as
      many entries as members" means the list names exactly the members. */
  lemma OnlyMembersIsSameSet(list: seq<string>, members: set<string>)
    requires Distinct(list)
    ensures (CountMembers(list, members) == |list| && |list| == |members|) <==> (set u | u in list) == members
  {
    var l := set u | u in list;
    DistinctCardinality(list);
    if CountMembers(list, members) == |list| && |list| == |members| {
      assert l <= members;
      SubsetSameSize(l, members);
    }
  }

  lemma {:induction false} SubsetSameSize(a: set<string>, b: set<string>)
    requires a <= b && |a| == |b|
    ensures a == b
  {
    if a != b {
      var x :| x in b && x !in a;
      SubsetSize(a, b - {x});
    }
  }

  lemma {:induction false} SubsetSize(a: set<string>, b: set<string>)
    requires a <= b
    ensures |a| <= |b|
    decreases |a|
  {
    if a != {} {
      var y :| y in a;
      SubsetSize(a - {y}, b - {y});
    }
  }

  /** The records of `src` under its first `n` keys, added to `d` one at a
      time in that order, each under its own uid. */
  function AddRecords(d: Dict<UserMeta>, src: Dict<UserMeta>, n: nat): (r: Dict<UserMeta>)
    requires Valid(src) && n <= |src.keys|
  {
    if n == 0 then d
    else
      var m := src.entries[src.keys[n - 1]];
      var r := AddRecords(d, src, n - 1);
      Dict(if m.uid in r.entries then r.keys else r.keys + [m.uid], r.entries[m.uid := m])
  }

  /** Adding records to a well-formed table gives a well-formed table. */
  lemma {:induction false} AddRecordsValid(d: Dict<UserMeta>, src: Dict<UserMeta>, n: nat)
    requires Valid(d) && Valid(src) && n <= |src.keys|
    ensures Valid(AddRecords(d, src, n))
  {
    if n > 0 {
      AddRecordsValid(d, src, n - 1);
      var m := src.entries[src.keys[n - 1]];
      assert AddRecords(d, src, n) == Put(AddRecords(d, src, n - 1), m.uid, m);
    }
  }

  /** One more record is one more `Put`. */
  lemma AddRecordsStep(d: Dict<UserMeta>, src: Dict<UserMeta>, n: nat)
    requires Valid(d) && Valid(src) && n < |src.keys|
    ensures Valid(AddRecords(d, src, n))
    ensures AddRecords(d, src, n + 1) == Put(AddRecords(d, src, n), src.entries[src.keys[n]].uid, src.entries[src.keys[n]])
  {
    AddRecordsValid(d, src, n);
  }

  /** Records filed under their own uid. */
  predicate KeyedByUid(d: Dict<UserMeta>) {
    forall k :: k in d.entries ==> d.entries[k].uid == k
  }

  /** Adding all of a table's records, in its order, to an empty table
      rebuilds the same table, keys in the same order. */
  lemma RecordsRestore(d: Dict<UserMeta>)
    requires Valid(d) && KeyedByUid(d)
    ensures AddRecords(Empty(), d, |d.keys|) == d
  {
    var r := AddRecords(Empty(), d, |d.keys|);
    RestoredEntries(d, |d.keys|);
    RestoredKeys(d, |d.keys|);
    assert d.keys[..|d.keys|] == d.keys;
    assert r.entries == d.entries;
  }

  /** The first `n` records restored: exactly the first `n` keys, each with
      its own record. */
  lemma {:induction false} RestoredEntries(d: Dict<UserMeta>, n: nat)
    requires Valid(d) && KeyedByUid(d) && n <= |d.keys|
    ensures forall k :: k in AddRecords(Empty(), d, n).entries <==> k in d.keys[..n]
    ensures forall k :: k in AddRecords(Empty(), d, n).entries ==> AddRecords(Empty(), d, n).entries[k] == d.entries[k]
  {
    if n > 0 {
      RestoredEntries(d, n - 1);
      assert d.keys[..n] == d.keys[..n - 1] + [d.keys[n - 1]];
    }
  }

  /** The first `n` records restored keep the first `n` keys in order. */
  lemma {:induction false} RestoredKeys(d: Dict<UserMeta>, n: nat)
    requires Valid(d) && KeyedByUid(d) && n <= |d.keys|
    ensures AddRecords(Empty(), d, n).keys == d.keys[..n]
  {
    if n > 0 {
      RestoredKeys(d, n - 1);
      AddRecordsValid(Empty(), d, n - 1);
      LastNotInPrefix(d.keys, n);
      assert d.keys[..n] == d.keys[..n - 1] + [d.keys[n - 1]];
    }
  }

  lemma LastNotInPrefix(s: seq<string>, n: nat)
    requires Distinct(s) && 0 < n <= |s|
    ensures s[n - 1] !in s[..n - 1]
  {
    forall j | 0 <= j < n - 1 ensures s[j] != s[n - 1] {
    }
  }


  /** The two member tables of a room: the same uids in the same order,
      each user under its own uid, each record under its own uid. */
  predicate Paired(users: Dict<string>, usersMeta: Dict<UserMeta>) {
    && Valid(users) && Valid(usersMeta)
    && users.keys == usersMeta.keys
    && (forall k :: k in users.entries ==> users.entries[k] == k)
    && KeyedByUid(usersMeta)
  }

  /** Filing a record and its user under the record's uid keeps the tables paired. */
  lemma PairedPut(users: Dict<string>, usersMeta: Dict<UserMeta>, m: UserMeta)
    requires Paired(users, usersMeta)
    ensures Paired(Put(users, m.uid, m.uid), Put(usersMeta, m.uid, m))
  {
    assert m.uid in users.entries <==> m.uid in usersMeta.entries by {
      assert m.uid in users.entries <==> m.uid in users.keys;
    }
    var u := Put(users, m.uid, m.uid);
    var um := Put(usersMeta, m.uid, m);
    forall k | k in u.entries ensures u.entries[k] == k {
      assert Get(u, k) == Some(u.entries[k]);
      if k != m.uid {
        assert Get(u, k) == Get(users, k);
      }
    }
    forall k | k in um.entries ensures um.entries[k].uid == k {
      assert Get(um, k) == Some(um.entries[k]);
      if k != m.uid {
        assert Get(um, k) == Get(usersMeta, k);
      }
    }
  }

  /** Removing a uid from both tables keeps them paired. */
  lemma PairedDelete(users: Dict<string>, usersMeta: Dict<UserMeta>, uid: string)
    requires Paired(users, usersMeta)
    ensures Paired(Delete(users, uid), Delete(usersMeta, uid))
  {
    var u := Delete(users, uid);
    var um := Delete(usersMeta, uid);
    forall k | k in u.entries ensures u.entries[k] == k {
      assert Get(u, k) == Some(u.entries[k]);
      assert Get(u, k) == Get(users, k);
    }
    forall k | k in um.entries ensures um.entries[k].uid == k {
      assert Get(um, k) == Some(um.entries[k]);
      assert Get(um, k) == Get(usersMeta, k);
    }
  }

}
