/** The typing indicator of a room: the set of users whose typing entry is
    present, and the summary line derived from it. */
module Typing {

  import opened Wrappers
  import opened Dicts

  function Digit(d: nat): char
    requires d < 10
  {
    "0123456789"[d]
  }

  predicate IsDigit(c: char) {
    '0' as int <= c as int <= '9' as int
  }

  /** The decimal numeral JavaScript gives a count in string concatenation. */
  function Decimal(n: nat): (r: string)
    ensures |r| >= 1
    ensures forall i :: 0 <= i < |r| ==> IsDigit(r[i])
    decreases n
  {
    if n < 10 then [Digit(n)] else Decimal(n / 10) + [Digit(n % 10)]
  }

  function ParseDecimal(s: string): nat
    requires forall i :: 0 <= i < |s| ==> IsDigit(s[i])
  {
    if s == [] then 0
    else
      assert IsDigit(s[|s| - 1]);
      ParseDecimal(s[..|s| - 1]) * 10 + (s[|s| - 1] as int - '0' as int)
  }

  /** The numeral reads back as the count it was made from. */
  lemma {:induction false} DecimalRoundTrip(n: nat)
    ensures ParseDecimal(Decimal(n)) == n
    decreases n
  {
    var r := Decimal(n);
    if n >= 10 {
      DecimalRoundTrip(n / 10);
      assert r[..|r| - 1] == Decimal(n / 10);
    }
  }

  /** The other users typing, in enumeration order. */
  function Typists(t: Dict<string>, me: string): seq<string> {
    RemoveKey(t.keys, me)
  }

  /** The summary `updateTyping` computes: nobody else typing gives no line,
      one other user gives that user's name followed by "...", several give
      their count followed by " people typing". */
  function TypingSummary(t: Dict<string>, me: string): Option<string>
    requires Valid(t)
  {
    var others := Typists(t, me);
    if |others| == 0 then None
    else if |others| == 1 then
      assert others[0] in others;
      Some(t.entries[others[0]] + "...")
    else Some(Decimal(|others|) + " people typing")
  }

  /** The loop of `updateTyping`: the number of entries other than the
      signed-in user's, and the name in the last of them. */
  method CountTypists(t: Dict<string>, me: string) returns (count: nat, name: string)
    requires forall k :: k in t.keys ==> k in t.entries
    ensures count == |Typists(t, me)|
    ensures count > 0 ==> Typists(t, me)[count - 1] in t.entries && name == t.entries[Typists(t, me)[count - 1]]
  {
    count := 0;
    name := "";
    var n := 0;
    ghost var seen: seq<string> := [];
    while n < |t.keys|
      invariant 0 <= n <= |t.keys|
      invariant seen == RemoveKey(t.keys[..n], me)
      invariant count == |seen|
      invariant count > 0 ==> seen[count - 1] in t.entries && name == t.entries[seen[count - 1]]
    {
      var key := t.keys[n];
      TypistsStep(t, me, n);
      if key != me {
        name := t.entries[key];
        count := count + 1;
        seen := seen + [key];
      }
      n := n + 1;
    }
    assert t.keys[..n] == t.keys;
  }

  /** The count in the summary is the number of distinct other users with an entry. */
  lemma TypistCount(t: Dict<string>, me: string)
    requires Valid(t)
    ensures |Typists(t, me)| == |t.entries.Keys - {me}|
  {
    RemoveKeyDistinct(t.keys, me);
    DistinctCardinality(Typists(t, me));
    assert (set x | x in Typists(t, me)) == t.entries.Keys - {me};
  }

  /** The current user's own entry, whether it is added or removed, never
      changes the summary. */
  lemma {:induction false} OwnEntryIgnored(t: Dict<string>, me: string, name: string)
    requires Valid(t)
    ensures TypingSummary(Put(t, me, name), me) == TypingSummary(t, me)
    ensures TypingSummary(Delete(t, me), me) == TypingSummary(t, me)
  {
    var p := Put(t, me, name);
    if me !in t.entries {
      RemoveKeyAppend(t.keys, me, me);
    }
    assert Typists(p, me) == Typists(t, me);
    var others := Typists(t, me);
    if |others| == 1 {
      assert others[0] in others;
      assert Get(p, others[0]) == Get(t, others[0]);
    }
    var d := Delete(t, me);
    RemoveKeyDistinct(t.keys, me);
    assert d.keys == others;
    RemoveKeyIdempotent(others, me);
    if |others| == 1 {
      assert others[0] in others;
      assert Get(d, others[0]) == Get(t, others[0]);
    }
  }

  lemma {:induction false} RemoveKeyIdempotent(s: seq<string>, k: string)
    ensures RemoveKey(RemoveKey(s, k), k) == RemoveKey(s, k)
  {
    if s != [] {
      RemoveKeyIdempotent(s[1..], k);
    }
  }

  /** When another user's entry is removed, that user leaves the list of
      typists and nobody else does. */
  lemma TypistStops(t: Dict<string>, me: string, a: string)
    requires Valid(t)
    requires a != me && a in t.entries
    ensures Typists(Delete(t, a), me) == RemoveKey(Typists(t, me), a)
    ensures |Typists(Delete(t, a), me)| == |Typists(t, me)| - 1
  {
    RemoveKeyCommutes(t.keys, a, me);
    RemoveKeyDistinct(t.keys, me);
    RemoveKeyDistinct(Typists(t, me), a);
  }

  /** Two other users typing, one of whom stops: the summary goes from
      "2 people typing" to the remaining user's name followed by "...". */
  lemma TwoTypistsOneStops(t: Dict<string>, me: string, a: string, b: string)
    requires Valid(t)
    requires (set x | x in Typists(t, me)) == {a, b} && a != b
    ensures TypingSummary(t, me) == Some("2 people typing")
    ensures TypingSummary(Delete(t, a), me) == Some(t.entries[b] + "...")
  {
    TwoTypists(t, me, a, b);
    assert Decimal(2) + " people typing" == "2 people typing";
    TypistStops(t, me, a);
    OneLeft(Typists(t, me), a, b);
  }

  /** Exactly two distinct other users typing: two entries in the list. */
  lemma TwoTypists(t: Dict<string>, me: string, a: string, b: string)
    requires Valid(t)
    requires (set x | x in Typists(t, me)) == {a, b} && a != b
    ensures |Typists(t, me)| == 2 && a != me && a in t.entries && b in t.entries
  {
    RemoveKeyDistinct(t.keys, me);
    DistinctCardinality(Typists(t, me));
    assert |{a, b}| == 2;
    assert a in Typists(t, me) && b in Typists(t, me);
  }

  /** Of two distinct names, removing one leaves the other. */
  lemma OneLeft(others: seq<string>, a: string, b: string)
    requires (set x | x in others) == {a, b} && a != b
    requires |RemoveKey(others, a)| == 1
    ensures RemoveKey(others, a)[0] == b
  {
    var rest := RemoveKey(others, a);
    assert rest[0] in rest;
    assert rest[0] in others;
  }

  /** The typists among the first n keys, extended by one more key. */
  lemma TypistsStep(t: Dict<string>, me: string, n: nat)
    requires n < |t.keys|
    ensures RemoveKey(t.keys[..n + 1], me) == RemoveKey(t.keys[..n], me) + (if t.keys[n] == me then [] else [t.keys[n]])
  {
    assert t.keys[..n + 1] == t.keys[..n] + [t.keys[n]];
    RemoveKeyAppend(t.keys[..n], t.keys[n], me);
  }

}
