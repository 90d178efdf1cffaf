/**
 * The SQLite store: the `bosses` table (one row per boss name) and the
 * `users` table (one role per Telegram id), held as maps, with the seeding
 * done at start-up and the three writes the bot performs.
 */
module Database {
  import opened Wrappers
  import opened Catalog

  datatype Role = User | Admin

  /** A `bosses` row: respawn_hours, last_killer (nullable), respawn_end_ts (nullable). */
  datatype BossRow = BossRow(respawnHours: int, lastKiller: Option<string>, respawnEndTs: Option<int>)

  type BossTable = map<string, BossRow>
  type UserTable = map<int, Role>

  /** `get_boss_info(name)`: the row, or nothing for a name with no row. */
  function Lookup(t: BossTable, name: string): (r: Option<BossRow>)
    ensures r.Some? <==> name in t
    ensures r.Some? ==> r.value == t[name]
  {
    if name in t then Some(t[name]) else None
  }

  /** The row a seeding insert creates: the catalog interval, no killer, no due time. */
  function FreshRow(hours: nat): BossRow
  {
    BossRow(hours, None, None)
  }

  /** One `INSERT OR IGNORE INTO bosses (name, respawn_hours)`. */
  function InsertOrIgnore(t: BossTable, entry: (string, nat)): (r: BossTable)
    ensures r.Keys == t.Keys + {entry.0}
    ensures forall name | name in t :: r[name] == t[name]
    ensures entry.0 !in t ==> r[entry.0] == FreshRow(entry.1)
  {
    if entry.0 in t then t else t[entry.0 := FreshRow(entry.1)]
  }

  /**
   * The seeding loop over a catalog: every catalog name gets a row, existing
   * rows are kept as they are, and a new row takes the interval of the
   * first catalog entry with its name.
   */
  function SeedBosses(t: BossTable, catalog: seq<(string, nat)>): (r: BossTable)
    ensures r.Keys == t.Keys + Names(catalog)
    ensures forall name | name in t :: r[name] == t[name]
    ensures forall name | name in r && name !in t :: r[name] == FreshRow(HoursIn(catalog, name).value)
    decreases |catalog|
  {
    if |catalog| == 0 then t
    else
      assert Names(catalog) == {catalog[0].0} + Names(catalog[1..]) by {
        forall n | n in Names(catalog) ensures n in {catalog[0].0} + Names(catalog[1..]) {
          var i :| 0 <= i < |catalog| && catalog[i].0 == n;
          if i > 0 { assert catalog[1..][i - 1].0 == n; }
        }
        forall n | n in Names(catalog[1..]) ensures n in Names(catalog) {
          var i :| 0 <= i < |catalog[1..]| && catalog[1..][i].0 == n;
          assert catalog[i + 1].0 == n;
        }
      }
      SeedBosses(InsertOrIgnore(t, catalog[0]), catalog[1..])
  }

  /** The seeding of a catalog suffix is one insert followed by the seeding of the rest. */
  lemma SeedUnfold(t: BossTable, catalog: seq<(string, nat)>, i: nat)
    requires i < |catalog|
    ensures SeedBosses(t, catalog[i..]) == SeedBosses(InsertOrIgnore(t, catalog[i]), catalog[i + 1..])
  {
    assert catalog[i..][1..] == catalog[i + 1..];
  }

  /** Seeding a table that already has a row for every catalog name changes nothing. */
  lemma SeedCoveredIsNoop(t: BossTable, catalog: seq<(string, nat)>)
    requires Names(catalog) <= t.Keys
    ensures SeedBosses(t, catalog) == t
  {
    var r := SeedBosses(t, catalog);
    assert r.Keys == t.Keys;
    assert forall name | name in r :: r[name] == t[name];
  }

  /** Running the seeding twice leaves the table as running it once. */
  lemma SeedIdempotent(t: BossTable, catalog: seq<(string, nat)>)
    ensures SeedBosses(SeedBosses(t, catalog), catalog) == SeedBosses(t, catalog)
  {
    SeedCoveredIsNoop(SeedBosses(t, catalog), catalog);
  }

  /** `INSERT OR IGNORE INTO users (telegram_id, role) VALUES (OWNER_ID, 'admin')`. */
  function SeedOwner(users: UserTable): (r: UserTable)
    ensures OWNER_ID in r && r.Keys == users.Keys + {OWNER_ID}
    ensures forall id | id in users :: r[id] == users[id]
    ensures OWNER_ID !in users ==> r[OWNER_ID] == Admin
  {
    if OWNER_ID in users then users else users[OWNER_ID := Admin]
  }

  /**
   * `UPDATE bosses SET last_killer = ?, respawn_end_ts = ? WHERE name = ?`:
   * the named row gets both new values and keeps its interval; no other row
   * changes, and a name with no row changes nothing.
   */
  function UpdateRow(t: BossTable, name: string, killer: Option<string>, due: Option<int>): (r: BossTable)
    ensures r.Keys == t.Keys
    ensures name in t ==> r[name] == BossRow(t[name].respawnHours, killer, due)
    ensures forall other | other in t && other != name :: r[other] == t[other]
  {
    if name in t then t[name := t[name].(lastKiller := killer, respawnEndTs := due)] else t
  }

  /** Reading a row back after writing it gives the written values. */
  lemma ReadAfterUpdate(t: BossTable, name: string, killer: Option<string>, due: Option<int>, other: string)
    ensures var r := UpdateRow(t, name, killer, due);
      Lookup(r, other) == if other == name && name in t then Some(BossRow(t[name].respawnHours, killer, due))
                          else Lookup(t, other)
  {
  }

  /** The open database connection: the two tables, updated in place. */
  class Database {
    var bosses: BossTable
    var users: UserTable

    /** Connecting to the database file, whose tables hold what earlier runs left. */
    constructor (persistedBosses: BossTable, persistedUsers: UserTable)
      ensures bosses == persistedBosses && users == persistedUsers
    {
      bosses := persistedBosses;
      users := persistedUsers;
    }

    /**
     * `init_db` over the catalog it is given (the program passes `BOSSES`):
     * one INSERT OR IGNORE per catalog entry in order, then the owner as admin.
     */
    method InitDb(catalog: seq<(string, nat)>)
      modifies this
      ensures bosses == SeedBosses(old(bosses), catalog)
      ensures users == SeedOwner(old(users))
    {
      var i := 0;
      while i < |catalog|
        invariant 0 <= i <= |catalog|
        invariant SeedBosses(bosses, catalog[i..]) == SeedBosses(old(bosses), catalog)
        invariant users == old(users)
      {
        SeedUnfold(bosses, catalog, i);
        bosses := InsertOrIgnore(bosses, catalog[i]);
        i := i + 1;
      }
      users := SeedOwner(users);
    }

    /** `add_user_if_not_exists`: a new id becomes a plain user; a known id keeps its role. */
    method AddUserIfNotExists(id: int)
      modifies this
      ensures users == if id in old(users) then old(users) else old(users)[id := User]
      ensures bosses == old(bosses)
      ensures forall other :: IsAdmin(other) == old(IsAdmin(other))
    {
      if id !in users {
        users := users[id := User];
      }
    }

    /** `set_admin` (INSERT OR REPLACE): the id becomes an admin whatever it was. */
    method SetAdmin(id: int)
      modifies this
      ensures users == old(users)[id := Admin]
      ensures IsAdmin(id)
      ensures bosses == old(bosses)
    {
      users := users[id := Admin];
    }

    /** `is_admin`: the owner, or an id whose stored role is admin. */
    predicate IsAdmin(id: int)
      reads this
      ensures id == OWNER_ID ==> IsAdmin(id)
      ensures id != OWNER_ID && id !in users ==> !IsAdmin(id)
      ensures id != OWNER_ID && id in users ==> (IsAdmin(id) <==> users[id] == Admin)
    {
      id == OWNER_ID || (id in users && users[id] == Admin)
    }

    /** `set_boss_killer_and_respawn`. */
    method SetBossKillerAndRespawn(name: string, killer: Option<string>, due: Option<int>)
      modifies this
      ensures bosses == UpdateRow(old(bosses), name, killer, due)
      ensures users == old(users)
    {
      bosses := UpdateRow(bosses, name, killer, due);
    }
  }

  /** `is_admin` answers yes for the owner whatever the users table holds. */
  lemma OwnerIsAdmin(d: Database)
    ensures d.IsAdmin(OWNER_ID)
  {
  }
}
