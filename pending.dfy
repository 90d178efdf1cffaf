/**
 * The table of pending custom-timer requests (`awaiting_custom_timer`): a
 * dictionary from boss name to the request, kept here as the sequence of its
 * items in insertion order, which is the order Python iterates it in.
 */
module Pending {
  import opened Wrappers

  /** One request: the clan to credit, the awaiting flag and the menu message to edit. */
  datatype Request = Request(clan: string, awaitingMinutes: bool, messageId: int, chatId: int)

  type Entries = seq<(string, Request)>

  /** A dictionary holds each key once. */
  predicate UniqueKeys(e: Entries)
  {
    forall i, j | 0 <= i < j < |e| :: e[i].0 != e[j].0
  }

  /** The position of `key` among the items, if present. */
  function KeyIndex(e: Entries, key: string): (r: Option<nat>)
    ensures r.Some? ==> r.value < |e| && e[r.value].0 == key && forall j | 0 <= j < r.value :: e[j].0 != key
    ensures r.None? ==> forall j | 0 <= j < |e| :: e[j].0 != key
    decreases |e|
  {
    if |e| == 0 then None
    else if e[0].0 == key then Some(0)
    else match KeyIndex(e[1..], key)
      case None => None
      case Some(j) => Some(j + 1)
  }

  /** `d.get(key)`. */
  function Get(e: Entries, key: string): Option<Request>
  {
    match KeyIndex(e, key)
    case None => None
    case Some(i) => Some(e[i].1)
  }

  /**
   * `d[key] = value`: an existing key keeps its position and takes the new
   * value; a new key is appended.
   */
  function Put(e: Entries, key: string, value: Request): (r: Entries)
    ensures UniqueKeys(e) ==> UniqueKeys(r)
    ensures Get(r, key) == Some(value)
    ensures forall other | other != key :: Get(r, other) == Get(e, other)
    ensures |r| == if KeyIndex(e, key).Some? then |e| else |e| + 1
    ensures forall i | 0 <= i < |e| :: r[i].0 == e[i].0
  {
    match KeyIndex(e, key)
    case None =>
      PutNewFacts(e, key, value);
      e + [(key, value)]
    case Some(i) =>
      PutExistingFacts(e, key, value, i);
      e[i := (key, value)]
  }

  lemma PutNewFacts(e: Entries, key: string, value: Request)
    requires KeyIndex(e, key).None?
    ensures var r := e + [(key, value)];
      KeyIndex(r, key) == Some(|e|) && forall other | other != key :: Get(r, other) == Get(e, other)
  {
    var r := e + [(key, value)];
    KeyIndexOfLast(e, key, value);
    forall other | other != key ensures Get(r, other) == Get(e, other) {
      KeyIndexAppendOther(e, key, value, other);
    }
  }

  lemma PutExistingFacts(e: Entries, key: string, value: Request, i: nat)
    requires KeyIndex(e, key) == Some(i)
    ensures var r := e[i := (key, value)];
      KeyIndex(r, key) == Some(i) && forall other :: Get(r, other) == if other == key then Some(value) else Get(e, other)
  {
    var r := e[i := (key, value)];
    forall other ensures KeyIndex(r, other) == KeyIndex(e, other) {
      KeyIndexSameKeys(e, r, other);
    }
  }

  /** `del d[key]`, for a key that is present: the item goes, the others keep their order. */
  function Remove(e: Entries, key: string): (r: Entries)
    requires KeyIndex(e, key).Some?
    ensures UniqueKeys(e) ==> UniqueKeys(r) && Get(r, key) == None
    ensures UniqueKeys(e) ==> forall other | other != key :: Get(r, other) == Get(e, other)
    ensures |r| == |e| - 1
    ensures var i := KeyIndex(e, key).value;
      forall j | 0 <= j < |r| :: r[j] == if j < i then e[j] else e[j + 1]
  {
    var i := KeyIndex(e, key).value;
    RemoveShape(e, i);
    RemoveFacts(e, key, i);
    e[..i] + e[i + 1..]
  }

  lemma RemoveFacts(e: Entries, key: string, i: nat)
    requires KeyIndex(e, key) == Some(i)
    ensures var r := e[..i] + e[i + 1..];
      UniqueKeys(e) ==> UniqueKeys(r) && Get(r, key) == None && forall other | other != key :: Get(r, other) == Get(e, other)
  {
    var r := e[..i] + e[i + 1..];
    RemoveShape(e, i);
    if UniqueKeys(e) {
      assert UniqueKeys(r) by {
        forall a, b | 0 <= a < b < |r| ensures r[a].0 != r[b].0 {
          var a', b' := if a < i then a else a + 1, if b < i then b else b + 1;
          assert r[a] == e[a'] && r[b] == e[b'];
        }
      }
      assert KeyIndex(r, key).None? by {
        forall j | 0 <= j < |r| ensures r[j].0 != key {
          var j' := if j < i then j else j + 1;
          assert r[j] == e[j'];
        }
      }
      forall other | other != key ensures Get(r, other) == Get(e, other) {
        RemoveOther(e, i, other);
      }
    }
  }

  lemma RemoveShape(e: Entries, i: nat)
    requires i < |e|
    ensures var r := e[..i] + e[i + 1..];
      |r| == |e| - 1 && forall j | 0 <= j < |r| :: r[j] == if j < i then e[j] else e[j + 1]
  {
  }

  lemma RemoveOther(e: Entries, i: nat, other: string)
    requires i < |e| && UniqueKeys(e) && e[i].0 != other
    ensures Get(e[..i] + e[i + 1..], other) == Get(e, other)
  {
    var r := e[..i] + e[i + 1..];
    RemoveShape(e, i);
    match KeyIndex(e, other)
    case None =>
      forall j | 0 <= j < |r| ensures r[j].0 != other {
        var j' := if j < i then j else j + 1;
        assert r[j] == e[j'];
      }
    case Some(k) =>
      var k' := if k < i then k else k - 1;
      assert r[k'] == e[k];
      forall j | 0 <= j < k' ensures r[j].0 != other {
        var j' := if j < i then j else j + 1;
        assert r[j] == e[j'];
      }
      assert KeyIndex(r, other) == Some(k');
  }

  /** Two item lists with the same keys position by position find a key at the same place. */
  lemma {:induction false} KeyIndexSameKeys(e: Entries, f: Entries, key: string)
    requires |e| == |f| && forall i | 0 <= i < |e| :: e[i].0 == f[i].0
    ensures KeyIndex(e, key) == KeyIndex(f, key)
    decreases |e|
  {
    if |e| > 0 && e[0].0 != key {
      KeyIndexSameKeys(e[1..], f[1..], key);
    }
  }

  lemma KeyIndexOfLast(e: Entries, key: string, value: Request)
    requires KeyIndex(e, key).None?
    ensures KeyIndex(e + [(key, value)], key) == Some(|e|)
  {
    var r := e + [(key, value)];
    var k := KeyIndex(r, key);
    assert r[|e|].0 == key;
  }

  lemma KeyIndexAppendOther(e: Entries, key: string, value: Request, other: string)
    requires other != key
    ensures KeyIndex(e + [(key, value)], other) == KeyIndex(e, other)
  {
    var r := e + [(key, value)];
    assert forall j | 0 <= j < |e| :: r[j] == e[j];
  }

  /** Position `i` holds the first request still awaiting its minutes. */
  predicate IsFirstAwaiting(e: Entries, i: nat)
  {
    i < |e| && e[i].1.awaitingMinutes && forall j | 0 <= j < i :: !e[j].1.awaitingMinutes
  }

  /** The request the custom-timer handler consumes: the first one awaiting minutes. */
  function FirstAwaiting(e: Entries): (r: Option<nat>)
    ensures r.Some? ==> IsFirstAwaiting(e, r.value)
    ensures r.None? ==> forall j | 0 <= j < |e| :: !e[j].1.awaitingMinutes
    decreases |e|
  {
    if |e| == 0 then None
    else if e[0].1.awaitingMinutes then Some(0)
    else match FirstAwaiting(e[1..])
      case None => None
      case Some(j) => Some(j + 1)
  }

  /** The scan of `list(awaiting_custom_timer.items())` up to its first awaiting item. */
  method FindFirstAwaiting(e: Entries) returns (found: Option<nat>)
    ensures found.Some? ==> IsFirstAwaiting(e, found.value)
    ensures found.None? ==> forall j | 0 <= j < |e| :: !e[j].1.awaitingMinutes
    ensures found == FirstAwaiting(e)
  {
    var i := 0;
    while i < |e|
      invariant 0 <= i <= |e|
      invariant forall j | 0 <= j < i :: !e[j].1.awaitingMinutes
    {
      if e[i].1.awaitingMinutes {
        found := Some(i);
        FirstAwaitingUnique(e, i);
        return;
      }
      i := i + 1;
    }
    found := None;
  }

  /** Only one position can be the first awaiting one. */
  lemma FirstAwaitingUnique(e: Entries, i: nat)
    requires IsFirstAwaiting(e, i)
    ensures FirstAwaiting(e) == Some(i)
  {
  }
}
