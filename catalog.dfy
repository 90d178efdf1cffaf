/**
 * The fixed configuration of the bot: the owner, the two clans, the boss
 * catalog with its respawn intervals, and the queue clan derived from the
 * last killer.
 */
module Catalog {
  import opened Wrappers

  /** The Telegram id of the owner, always treated as an admin. */
  const OWNER_ID: int := 1850766719

  /** The two contending clans, in catalog order. */
  const CLANS: seq<string> := ["BALDEG", "AlterEgo"]

  /** The boss catalog: name and respawn interval in hours, in dictionary order. */
  const BOSSES: seq<(string, nat)> := [
    ("02.Map ", 2),
    ("03.Map ", 2),
    ("05.Map ", 3),
    ("06.Map ", 3),
    ("08.Map ", 3),
    ("10.Map ", 3),
    ("12.Map ", 4),
    ("14.Map ", 4),
    ("17.Map ", 5),
    ("18.Map ", 5),
    ("19.Map ", 5)
  ]

  /** Seconds between the warning and the respawn (ten minutes). */
  const WARNING_LEAD: int := 10 * 60

  const SECONDS_PER_HOUR: int := 3600
  const SECONDS_PER_MINUTE: int := 60

  /** The set of names of a catalog. */
  function Names(catalog: seq<(string, nat)>): set<string>
  {
    set i | 0 <= i < |catalog| :: catalog[i].0
  }

  /** `catalog.get(name)`: the interval of the first entry with that name. */
  function HoursIn(catalog: seq<(string, nat)>, name: string): (h: Option<nat>)
    ensures h.None? <==> name !in Names(catalog)
    ensures h.Some? ==>
      exists i | 0 <= i < |catalog| :: catalog[i] == (name, h.value) && forall j | 0 <= j < i :: catalog[j].0 != name
    decreases |catalog|
  {
    if |catalog| == 0 then None
    else if catalog[0].0 == name then Some(catalog[0].1)
    else
      var rest := HoursIn(catalog[1..], name);
      assert Names(catalog) == {catalog[0].0} + Names(catalog[1..]) by {
        forall n | n in Names(catalog) ensures n in {catalog[0].0} + Names(catalog[1..]) {
          var i :| 0 <= i < |catalog| && catalog[i].0 == n;
          if i > 0 { assert catalog[1..][i - 1].0 == n; }
        }
        forall n | n in Names(catalog[1..]) ensures n in Names(catalog) {
          var i :| 0 <= i < |catalog[1..]| && catalog[1..][i].0 == n;
          assert catalog[i + 1].0 == n;
        }
      }
      if rest.Some? then
        var i :| 0 <= i < |catalog[1..]| && catalog[1..][i] == (name, rest.value)
                 && forall j | 0 <= j < i :: catalog[1..][j].0 != name;
        assert catalog[i + 1] == (name, rest.value);
        assert forall j | 0 <= j < i + 1 :: catalog[j].0 != name by {
          forall j | 0 <= j < i + 1 ensures catalog[j].0 != name {
            if j > 0 { assert catalog[j] == catalog[1..][j - 1]; }
          }
        }
        rest
      else rest
  }

  /** `[c for c in clans if c != last]`. */
  function OthersThan(clans: seq<string>, last: string): (r: seq<string>)
    ensures forall c :: c in r <==> c in clans && c != last
    ensures |r| <= |clans|
  {
    if |clans| == 0 then []
    else if clans[0] == last then OthersThan(clans[1..], last)
    else [clans[0]] + OthersThan(clans[1..], last)
  }

  /**
   * The clan next in queue: the clan of CLANS that is not the last killer,
   * or nothing when the killer is absent or is not one of the two clans.
   */
  function QueueClan(lastKiller: Option<string>): (q: Option<string>)
    ensures q.Some? <==> lastKiller.Some? && lastKiller.value in CLANS
    ensures q.Some? ==> q.value in CLANS && q.value != lastKiller.value
  {
    if lastKiller.Some? && lastKiller.value in CLANS then
      var others := OthersThan(CLANS, lastKiller.value);
      assert CLANS[0] in others || CLANS[1] in others;
      Some(others[0])
    else None
  }

  /** Each clan's kill puts the other clan in queue. */
  lemma QueueClanAlternates()
    ensures QueueClan(Some(CLANS[0])) == Some(CLANS[1])
    ensures QueueClan(Some(CLANS[1])) == Some(CLANS[0])
  {
    assert OthersThan(CLANS, CLANS[0]) == [CLANS[1]];
    assert OthersThan(CLANS, CLANS[1]) == [CLANS[0]];
  }
}
