/** Messages of a room and the operations on the room's message list that
    do not depend on the rest of the room: ordering by time, collapsing
    repeated ids, eviction of the oldest entries, the time filters and the
    search by id. */
module Messages {

  import opened Wrappers

  datatype MessageType = Text | Image | File

  /** The fields of a message node in the room's message log. */
  datatype MessagePayload = MessagePayload(sender: string, time: int, text: string, kind: MessageType, read: bool)

  /** A message as kept in the serialized room. */
  datatype SerializedMessage = SerializedMessage(mid: string, payload: MessagePayload)

  /** A message object. Its id, sender, time and content never change; the
      read flag and the display links to its neighbours do. */
  class Message {
    const mid: string
    const sender: string
    const time: int
    const text: string
    const kind: MessageType
    var read: bool
    var previous: Message?
    var next: Message?

    constructor (mid: string, p: MessagePayload)
      ensures this.mid == mid && sender == p.sender && time == p.time
      ensures text == p.text && kind == p.kind && read == p.read
      ensures previous == null && next == null
    {
      this.mid, sender, time, text, kind := mid, p.sender, p.time, p.text, p.kind;
      read := p.read;
      previous, next := null, null;
    }

    method MarkRead()
      modifies this`read
      ensures read
    {
      read := true;
    }
  }

  function Serialized(m: Message): (r: SerializedMessage)
    reads m
    ensures r.mid == m.mid && r.payload.time == m.time && r.payload.read == m.read
  {
    SerializedMessage(m.mid, MessagePayload(m.sender, m.time, m.text, m.kind, m.read))
  }

  /***********************************
   * ORDER BY TIME
   */

  predicate SortedByTime(s: seq<Message>) {
    forall i, j :: 0 <= i < j < |s| ==> s[i].time <= s[j].time
  }

  /** Inserts `x` before the first entry that is not older than it. */
  function Insert(x: Message, s: seq<Message>): (r: seq<Message>)
    ensures multiset(r) == multiset(s) + multiset{x}
    ensures SortedByTime(s) ==> SortedByTime(r)
  {
    if s == [] || x.time <= s[0].time then
      assert SortedByTime(s) ==> SortedByTime([x] + s) by {
        if SortedByTime(s) {
          ConsSorted(x, s);
        }
      }
      [x] + s
    else
      assert s == [s[0]] + s[1..];
      var t := Insert(x, s[1..]);
      assert SortedByTime(s) ==> SortedByTime([s[0]] + t) by {
        if SortedByTime(s) {
          TailSorted(s);
          forall y | y in t ensures s[0].time <= y.time {
            assert y in multiset(t);
            if y != x {
              var k :| 0 <= k < |s[1..]| && s[1..][k] == y;
              assert s[k + 1] == y;
            }
          }
          ConsSorted(s[0], t);
        }
      }
      [s[0]] + t
  }

  lemma TailSorted(s: seq<Message>)
    requires |s| > 0 && SortedByTime(s)
    ensures SortedByTime(s[1..])
  {
    forall i, j | 0 <= i < j < |s[1..]| ensures s[1..][i].time <= s[1..][j].time {
      assert s[1..][i] == s[i + 1] && s[1..][j] == s[j + 1];
    }
  }

  lemma ConsSorted(a: Message, t: seq<Message>)
    requires SortedByTime(t)
    requires forall y :: y in t ==> a.time <= y.time
    ensures SortedByTime([a] + t)
  {
    var u := [a] + t;
    forall i, j | 0 <= i < j < |u| ensures u[i].time <= u[j].time {
      if i == 0 {
        assert u[j] == t[j - 1] && t[j - 1] in t;
      } else {
        assert u[i] == t[i - 1] && u[j] == t[j - 1];
      }
    }
  }

  /** The order `Array.prototype.sort` gives the list under the comparator
      `a.time() - b.time()`: a stable insertion sort. */
  function SortByTime(s: seq<Message>): (r: seq<Message>)
    ensures multiset(r) == multiset(s)
    ensures SortedByTime(r)
  {
    if s == [] then []
    else
      assert s == [s[0]] + s[1..];
      Insert(s[0], SortByTime(s[1..]))
  }

  /***********************************
   * COLLAPSING REPEATED IDS
   */

  predicate NoAdjacentDuplicates(s: seq<Message>) {
    forall i :: 0 <= i < |s| - 1 ==> s[i].mid != s[i + 1].mid
  }

  predicate DistinctMids(s: seq<Message>) {
    forall i, j :: 0 <= i < j < |s| ==> s[i].mid != s[j].mid
  }

  /** No message object appears twice. */
  predicate DistinctObjects(s: seq<Message>) {
    forall i, j :: 0 <= i < j < |s| ==> s[i] != s[j]
  }

  function Last(s: seq<Message>): Message
    requires |s| > 0
  {
    s[|s| - 1]
  }

  /** Each message's back link is the message before it, whose forward
      link is that message. */
  ghost predicate Linked(s: seq<Message>)
    reads s
  {
    forall j :: 0 < j < |s| ==> s[j].previous == s[j - 1] && s[j - 1].next == s[j]
  }

  /** A message linked after the last of a linked list extends it. */
  lemma LinkedSnoc(s: seq<Message>, m: Message)
    requires Linked(s)
    requires |s| > 0 ==> m.previous == Last(s) && Last(s).next == m
    ensures Linked(s + [m])
  {
    var t := s + [m];
    forall j | 0 < j < |t| ensures t[j].previous == t[j - 1] && t[j - 1].next == t[j] {
      if j < |s| {
        assert t[j] == s[j] && t[j - 1] == s[j - 1];
      }
    }
  }

  /** The last message of a list appears nowhere earlier in it. */
  predicate LastIsNew(s: seq<Message>) {
    forall k :: 0 <= k < |s| - 1 ==> s[k] != s[|s| - 1]
  }

  /** A message appended to a list that does not hold it is new there. */
  lemma LastIsNewSnoc(t: seq<Message>, s: seq<Message>, m: Message)
    requires m !in t + s
    ensures LastIsNew(t + (s + [m]))
  {
    assert t + (s + [m]) == (t + s) + [m];
  }

  /** The last message of a list, as a list of at most one. */
  function Tail(s: seq<Message>): (r: seq<Message>)
    ensures |s| > 0 ==> r == [Last(s)]
    ensures |s| == 0 ==> r == []
  {
    if |s| > 0 then [s[|s| - 1]] else []
  }

  /** Messages appended one by one after `before`, each linked to its
      neighbours: the first after the old last message (or with no back
      link in an empty list), the last with no forward link. */
  ghost predicate ChainedAfter(before: seq<Message>, added: seq<Message>)
    reads before, added
  {
    && Linked(Tail(before) + added)
    && (|added| > 0 ==> Last(added).next == null)
    && (|before| == 0 && |added| > 0 ==> added[0].previous == null)
  }

  /** A chained run stays chained when one more message is linked after
      its last message, or after the old last one when the run is empty. */
  lemma ChainedSnoc(before: seq<Message>, added: seq<Message>, m: Message)
    requires Linked(Tail(before) + added)
    requires |before| == 0 && |added| > 0 ==> added[0].previous == null
    requires |Tail(before) + added| > 0 ==> m.previous == Last(Tail(before) + added) && Last(Tail(before) + added).next == m
    requires |before| == 0 && |added| == 0 ==> m.previous == null
    requires m.next == null
    ensures ChainedAfter(before, added + [m])
  {
    LinkedSnoc(Tail(before) + added, m);
    assert Tail(before) + (added + [m]) == (Tail(before) + added) + [m];
  }

  /** `deduplicateMessages`: an entry is kept when its id differs from the
      id of the entry just before it in the input. */
  function Dedup(s: seq<Message>): (r: seq<Message>)
    ensures |r| <= |s|
    ensures |s| > 0 ==> |r| > 0 && Last(r).mid == Last(s).mid
    ensures forall x :: x in r ==> x in s
    ensures NoAdjacentDuplicates(r)
  {
    if |s| == 0 then []
    else
      var p := s[..|s| - 1];
      var d := Dedup(p);
      assert forall x :: x in d ==> x in s by {
        forall x | x in d ensures x in s {
          assert x in p;
        }
      }
      if |s| == 1 || Last(s).mid != s[|s| - 2].mid then
        assert |s| > 1 ==> Last(d).mid == s[|s| - 2].mid by {
          if |s| > 1 { assert Last(p) == s[|s| - 2]; }
        }
        d + [Last(s)]
      else
        assert Last(p) == s[|s| - 2];
        d
  }

  lemma {:induction false} DedupPrefix(s: seq<Message>, i: nat)
    requires 0 < i < |s|
    ensures Dedup(s[..i + 1]) ==
      Dedup(s[..i]) + (if s[i].mid != s[i - 1].mid then [s[i]] else [])
  {
    var q := s[..i + 1];
    assert q[..|q| - 1] == s[..i];
    assert Last(q) == s[i] && q[|q| - 2] == s[i - 1];
  }

  /** Sorting survives the collapse of repeated ids. */
  lemma {:induction false} DedupKeepsOrder(s: seq<Message>)
    requires SortedByTime(s)
    ensures SortedByTime(Dedup(s))
  {
    if |s| > 0 {
      var p := s[..|s| - 1];
      assert SortedByTime(p);
      DedupKeepsOrder(p);
      var d := Dedup(p);
      forall x | x in d ensures x.time <= Last(s).time {
        assert x in p;
        var k :| 0 <= k < |p| && p[k] == x;
        assert s[k] == x;
      }
    }
  }

  /** Only repeated ids are dropped: every id of the input is still present. */
  lemma {:induction false} DedupKeepsEveryMid(s: seq<Message>)
    ensures Mids(Dedup(s)) == Mids(s)
  {
    if |s| > 0 {
      var p := s[..|s| - 1];
      DedupKeepsEveryMid(p);
      assert s == p + [Last(s)];
      MidsAppend(p, Last(s));
      var d := Dedup(p);
      if |s| > 1 && Last(s).mid == s[|s| - 2].mid {
        assert Last(p) == s[|s| - 2];
        assert Last(d) in d;
        assert Last(s).mid in Mids(d);
      } else {
        MidsAppend(d, Last(s));
      }
    }
  }

  /** The ids of a list of messages. */
  ghost function Mids(s: seq<Message>): set<string> {
    set x | x in s :: x.mid
  }

  lemma MidsAppend(p: seq<Message>, m: Message)
    ensures Mids(p + [m]) == Mids(p) + {m.mid}
  {
    assert forall x :: x in p + [m] <==> x in p || x == m;
  }

  /** With distinct ids there is nothing to collapse. */
  lemma {:induction false} DedupOfDistinct(s: seq<Message>)
    requires DistinctMids(s)
    ensures Dedup(s) == s
  {
    if |s| > 0 {
      var p := s[..|s| - 1];
      assert DistinctMids(p);
      DedupOfDistinct(p);
      assert s == p + [Last(s)];
      if |s| > 1 {
        assert s[|s| - 2].mid != Last(s).mid;
      }
    }
  }

  lemma TailDistinct(s: seq<Message>)
    requires |s| > 0 && DistinctMids(s)
    ensures DistinctMids(s[1..])
    ensures forall y :: y in s[1..] ==> y.mid != s[0].mid
  {
    var t := s[1..];
    forall i, j | 0 <= i < j < |t| ensures t[i].mid != t[j].mid {
      assert t[i] == s[i + 1] && t[j] == s[j + 1];
    }
    forall y | y in t ensures y.mid != s[0].mid {
      var k :| 0 <= k < |t| && t[k] == y;
      assert s[k + 1] == y;
    }
  }

  lemma ConsDistinct(a: Message, t: seq<Message>)
    requires DistinctMids(t)
    requires forall y :: y in t ==> y.mid != a.mid
    ensures DistinctMids([a] + t)
  {
    var u := [a] + t;
    forall i, j | 0 <= i < j < |u| ensures u[i].mid != u[j].mid {
      if i == 0 {
        assert u[j] == t[j - 1] && t[j - 1] in t;
      } else {
        assert u[i] == t[i - 1] && u[j] == t[j - 1];
      }
    }
  }

  lemma {:induction false} InsertKeepsDistinct(x: Message, s: seq<Message>)
    requires DistinctMids(s)
    requires forall y :: y in s ==> y.mid != x.mid
    ensures DistinctMids(Insert(x, s))
  {
    if s != [] && x.time > s[0].time {
      TailDistinct(s);
      var t := s[1..];
      InsertKeepsDistinct(x, t);
      var r := Insert(x, t);
      forall y | y in r ensures y.mid != s[0].mid {
        assert y in multiset(r);
      }
      ConsDistinct(s[0], r);
    } else {
      ConsDistinct(x, s);
    }
  }

  lemma {:induction false} SortKeepsDistinct(s: seq<Message>)
    requires DistinctMids(s)
    ensures DistinctMids(SortByTime(s))
  {
    if s != [] {
      TailDistinct(s);
      var t := s[1..];
      SortKeepsDistinct(t);
      forall y | y in SortByTime(t) ensures y.mid != s[0].mid {
        assert y in multiset(SortByTime(t));
      }
      InsertKeepsDistinct(s[0], SortByTime(t));
    }
  }

  /***********************************
   * RETENTION
   */

  const RetentionCap: nat := 100

  /** Shifting entries off the front until at most `RetentionCap` remain. */
  function Evict(s: seq<Message>): (r: seq<Message>)
    ensures |r| <= RetentionCap
    ensures |s| <= RetentionCap ==> r == s
    ensures |s| > RetentionCap ==> |r| == RetentionCap
    ensures r == s[|s| - |r|..]
  {
    if |s| > RetentionCap then s[|s| - RetentionCap..] else s
  }

  /** `trimMessageList`: sort by time, collapse repeated ids, evict the oldest. */
  function TrimList(s: seq<Message>): seq<Message> {
    Evict(Dedup(SortByTime(s)))
  }

  /** After trimming, the list is ordered by time, no two neighbours share an
      id, it holds at most `RetentionCap` entries, it is what sorting and
      collapsing gave with entries removed from the front only, and it holds
      nothing the input did not. */
  lemma {:induction false} TrimmedList(s: seq<Message>)
    ensures var d := Dedup(SortByTime(s)); var r := TrimList(s);
      && SortedByTime(r)
      && NoAdjacentDuplicates(r)
      && |r| <= RetentionCap
      && r == d[|d| - |r|..]
      && (forall x :: x in r ==> x in s)
  {
    var sorted := SortByTime(s);
    var d := Dedup(sorted);
    DedupKeepsOrder(sorted);
    var r := TrimList(s);
    var k := |d| - |r|;
    assert r == d[k..];
    SuffixKeepsOrder(d, k);
    forall x | x in r ensures x in s {
      assert x in d;
      assert x in multiset(sorted);
    }
  }

  /** Dropping entries from the front keeps a list ordered by time and
      without neighbouring repeated ids. */
  lemma SuffixKeepsOrder(d: seq<Message>, k: nat)
    requires k <= |d| && SortedByTime(d) && NoAdjacentDuplicates(d)
    ensures SortedByTime(d[k..]) && NoAdjacentDuplicates(d[k..])
  {
    var r := d[k..];
    forall i, j | 0 <= i < j < |r| ensures r[i].time <= r[j].time {
      assert r[i] == d[k + i] && r[j] == d[k + j];
    }
    forall i | 0 <= i < |r| - 1 ensures r[i].mid != r[i + 1].mid {
      assert r[i] == d[k + i] && r[i + 1] == d[k + i + 1];
    }
  }

  /** Delivered out of order with distinct ids, the list keeps the newest
      `RetentionCap` messages in time order. */
  lemma {:induction false} TrimDistinct(s: seq<Message>)
    requires DistinctMids(s)
    ensures TrimList(s) == Evict(SortByTime(s))
  {
    SortKeepsDistinct(s);
    DedupOfDistinct(SortByTime(s));
  }

  /***********************************
   * TIME FILTERS
   */

  /** `getMessagesNewerThan(date)`; no date selects every message. */
  function NewerThan(s: seq<Message>, date: Option<int>): (r: seq<Message>)
    ensures forall x :: x in r ==> x in s && (date.None? || x.time > date.value)
    ensures forall x :: x in s && (date.None? || x.time > date.value) ==> x in r
    ensures |r| <= |s|
  {
    if |s| == 0 then []
    else
      var p := s[..|s| - 1];
      assert s == p + [Last(s)];
      NewerThan(p, date) + (if date.None? || Last(s).time > date.value then [Last(s)] else [])
  }

  /** `getMessagesOlderThan(date)`; no date selects every message. */
  function OlderThan(s: seq<Message>, date: Option<int>): (r: seq<Message>)
    ensures forall x :: x in r ==> x in s && (date.None? || x.time < date.value)
    ensures forall x :: x in s && (date.None? || x.time < date.value) ==> x in r
    ensures |r| <= |s|
  {
    if |s| == 0 then []
    else
      var p := s[..|s| - 1];
      assert s == p + [Last(s)];
      OlderThan(p, date) + (if date.None? || Last(s).time < date.value then [Last(s)] else [])
  }

  /** Without a date both filters return the list unchanged. */
  lemma {:induction false} FiltersWithoutDate(s: seq<Message>)
    ensures NewerThan(s, None) == s && OlderThan(s, None) == s
  {
    if |s| > 0 {
      var p := s[..|s| - 1];
      FiltersWithoutDate(p);
      assert s == p + [Last(s)];
    }
  }

  /** Filtering a concatenation filters each part and keeps them in order,
      so the selected messages keep their relative order. */
  lemma {:induction false} NewerThanAppend(s: seq<Message>, t: seq<Message>, date: Option<int>)
    ensures NewerThan(s + t, date) == NewerThan(s, date) + NewerThan(t, date)
  {
    if |t| == 0 {
      assert s + t == s;
    } else {
      var q, m := t[..|t| - 1], Last(t);
      var tail := if date.None? || m.time > date.value then [m] else [];
      assert t == q + [m] && s + t == (s + q) + [m];
      calc {
        NewerThan(s + t, date);
        == { NewerThanSnoc(s + q, m, date); }
        NewerThan(s + q, date) + tail;
        == { NewerThanAppend(s, q, date); }
        (NewerThan(s, date) + NewerThan(q, date)) + tail;
        == NewerThan(s, date) + (NewerThan(q, date) + tail);
        == { NewerThanSnoc(q, m, date); }
        NewerThan(s, date) + NewerThan(t, date);
      }
    }
  }

  lemma NewerThanSnoc(p: seq<Message>, m: Message, date: Option<int>)
    ensures NewerThan(p + [m], date) == NewerThan(p, date) + (if date.None? || m.time > date.value then [m] else [])
  {
    assert (p + [m])[..|p|] == p;
  }

  lemma {:induction false} OlderThanAppend(s: seq<Message>, t: seq<Message>, date: Option<int>)
    ensures OlderThan(s + t, date) == OlderThan(s, date) + OlderThan(t, date)
  {
    if |t| == 0 {
      assert s + t == s;
    } else {
      var q, m := t[..|t| - 1], Last(t);
      var tail := if date.None? || m.time < date.value then [m] else [];
      assert t == q + [m] && s + t == (s + q) + [m];
      calc {
        OlderThan(s + t, date);
        == { OlderThanSnoc(s + q, m, date); }
        OlderThan(s + q, date) + tail;
        == { OlderThanAppend(s, q, date); }
        (OlderThan(s, date) + OlderThan(q, date)) + tail;
        == OlderThan(s, date) + (OlderThan(q, date) + tail);
        == { OlderThanSnoc(q, m, date); }
        OlderThan(s, date) + OlderThan(t, date);
      }
    }
  }

  lemma OlderThanSnoc(p: seq<Message>, m: Message, date: Option<int>)
    ensures OlderThan(p + [m], date) == OlderThan(p, date) + (if date.None? || m.time < date.value then [m] else [])
  {
    assert (p + [m])[..|p|] == p;
  }

  /***********************************
   * SEARCH BY ID
   */

  function FirstIndexOfMid(s: seq<Message>, key: string): (r: Option<nat>)
    ensures r.Some? ==> r.value < |s| && s[r.value].mid == key
    ensures r.Some? ==> forall j :: 0 <= j < r.value ==> s[j].mid != key
    ensures r.None? ==> forall j :: 0 <= j < |s| ==> s[j].mid != key
  {
    if s == [] then None
    else if s[0].mid == key then Some(0)
    else
      match FirstIndexOfMid(s[1..], key)
      case None => None
      case Some(i) => Some(i + 1)
  }

  /** The list without its first entry whose id is `key`; the other entries
      keep their order. */
  function RemoveFirstMid(s: seq<Message>, key: string): (r: seq<Message>)
    ensures (forall j :: 0 <= j < |s| ==> s[j].mid != key) ==> r == s
    ensures (exists j :: 0 <= j < |s| && s[j].mid == key) ==>
      exists i :: 0 <= i < |s| && s[i].mid == key && (forall j :: 0 <= j < i ==> s[j].mid != key)
        && r == s[..i] + s[i + 1..]
  {
    match FirstIndexOfMid(s, key)
    case None => s
    case Some(i) => s[..i] + s[i + 1..]
  }

}
