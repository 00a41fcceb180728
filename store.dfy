/** db.rs: the local store. The four SQLite tables become the fields of a
    `Database` object; each SQL statement becomes a method that updates or
    reads them. Row order in `messages` is insertion (rowid) order. */
module Store {
  import opened Base
  import Hex
  import opened Foreign

  /** `LIMIT 100` in save_transit's eviction. */
  const TRANSIT_CAPACITY: nat := 100
  /** `LIMIT 500` in get_messages. */
  const MESSAGE_PAGE: nat := 500
  /** resolve_sender shortens unknown keys to this many bytes. */
  const SHORT_NAME_BYTES: nat := 8

  /** A row of the `messages` table. */
  datatype MessageRow = MessageRow(id: string, sender: string, content: string, timestamp: U64, isMe: bool)

  /** A row of the `transit` table, keyed by the hex MD5 of its packet. */
  datatype TransitEntry = TransitEntry(packet: Bytes, receivedAt: U64)

  // ---------------------------------------------------------------- messages

  predicate IdTaken(log: seq<MessageRow>, id: string) {
    exists i :: 0 <= i < |log| && log[i].id == id
  }

  ghost predicate UniqueIds(log: seq<MessageRow>) {
    forall i, j :: 0 <= i < j < |log| ==> log[i].id != log[j].id
  }

  /** The log after a plain `INSERT` of `row`: refused when the primary key
      `id` is already present. */
  function InsertRow(log: seq<MessageRow>, row: MessageRow): (r: seq<MessageRow>)
    ensures IdTaken(log, row.id) ==> r == log
    ensures !IdTaken(log, row.id) ==> r == log + [row]
    ensures UniqueIds(log) ==> UniqueIds(r)
  {
    if IdTaken(log, row.id) then log else log + [row]
  }

  predicate ByTimestamp(rows: seq<MessageRow>) {
    forall i, j :: 0 <= i < j < |rows| ==> rows[i].timestamp <= rows[j].timestamp
  }

  /** Every row of `rest` is a row of `sorted` or `row`: none comes before
      the head of `sorted` when `row` does not. */
  lemma HeadStaysFirst(sorted: seq<MessageRow>, row: MessageRow, rest: seq<MessageRow>)
    requires sorted != [] && ByTimestamp(sorted) && sorted[0].timestamp < row.timestamp
    requires ByTimestamp(rest) && multiset(rest) == multiset(sorted[1..]) + multiset{row}
    ensures ByTimestamp([sorted[0]] + rest)
  {
    forall j | 0 <= j < |rest|
      ensures sorted[0].timestamp <= rest[j].timestamp
    {
      assert rest[j] in multiset(rest);
      if rest[j] != row {
        assert rest[j] in multiset(sorted[1..]);
        var i :| 0 <= i < |sorted[1..]| && sorted[1..][i] == rest[j];
        assert sorted[i + 1] == rest[j];
      }
    }
  }

  function InsertByTimestamp(sorted: seq<MessageRow>, row: MessageRow): (r: seq<MessageRow>)
    requires ByTimestamp(sorted)
    ensures ByTimestamp(r)
    ensures multiset(r) == multiset(sorted) + multiset{row}
  {
    if sorted == [] then [row]
    else if row.timestamp <= sorted[0].timestamp then [row] + sorted
    else
      var rest := InsertByTimestamp(sorted[1..], row);
      assert sorted == [sorted[0]] + sorted[1..];
      HeadStaysFirst(sorted, row, rest);
      [sorted[0]] + rest
  }

  /** `ORDER BY timestamp ASC` (an insertion sort; SQLite leaves the order of
      equal timestamps open, and so does every contract that uses this). */
  function SortByTimestamp(rows: seq<MessageRow>): (r: seq<MessageRow>)
    ensures ByTimestamp(r)
    ensures multiset(r) == multiset(rows)
  {
    if rows == [] then []
    else
      assert rows == [rows[0]] + rows[1..];
      InsertByTimestamp(SortByTimestamp(rows[1..]), rows[0])
  }

  /** What `SELECT ... ORDER BY timestamp ASC LIMIT 500` may return: up to
      500 rows of the log, in nondecreasing timestamp order, none of them
      later than a row left out. */
  ghost predicate IsPage(log: seq<MessageRow>, rows: seq<MessageRow>) {
    && |rows| == Min(|log|, MESSAGE_PAGE)
    && ByTimestamp(rows)
    && multiset(rows) <= multiset(log)
    && forall i, m :: 0 <= i < |rows| && m in log && m !in rows ==> rows[i].timestamp <= m.timestamp
  }

  /** The first n rows of a sorted permutation of the log form a page. */
  lemma TailNotEarlier(sorted: seq<MessageRow>, n: nat, i: nat, m: MessageRow)
    requires ByTimestamp(sorted) && i < n <= |sorted| && m in multiset(sorted[n..])
    ensures sorted[i].timestamp <= m.timestamp
  {
    var tail := sorted[n..];
    assert m in tail;
    var j :| 0 <= j < |tail| && tail[j] == m;
    assert sorted[n + j] == m;
  }

  lemma SortedPrefixIsPage(log: seq<MessageRow>, sorted: seq<MessageRow>, n: nat)
    requires ByTimestamp(sorted) && multiset(sorted) == multiset(log) && |sorted| == |log|
    requires n == Min(|log|, MESSAGE_PAGE)
    ensures IsPage(log, sorted[..n])
  {
    var rows, tail := sorted[..n], sorted[n..];
    assert multiset(log) == multiset(rows) + multiset(tail) by {
      assert sorted == rows + tail;
    }
    assert ByTimestamp(rows) by {
      assert forall i :: 0 <= i < n ==> rows[i] == sorted[i];
    }
    forall i, m | 0 <= i < |rows| && m in log && m !in rows
      ensures rows[i].timestamp <= m.timestamp
    {
      assert m in multiset(log) && m !in multiset(rows);
      TailNotEarlier(sorted, n, i, m);
    }
  }

  // ---------------------------------------------------------------- contacts

  /** SQLite's BINARY collation on UTF-8 text: lexicographic order of code
      points (UTF-8 preserves it). */
  predicate AliasLe(a: string, b: string) {
    a == [] || (b != [] && (a[0] < b[0] || (a[0] == b[0] && AliasLe(a[1..], b[1..]))))
  }

  lemma {:induction false} AliasLeTotal(a: string, b: string)
    ensures AliasLe(a, b) || AliasLe(b, a)
  {
    if a != [] && b != [] && a[0] == b[0] {
      AliasLeTotal(a[1..], b[1..]);
    }
  }

  lemma {:induction false} AliasLeTransitive(a: string, b: string, c: string)
    requires AliasLe(a, b) && AliasLe(b, c)
    ensures AliasLe(a, c)
  {
    if a != [] && a[0] == b[0] && b[0] == c[0] {
      AliasLeTransitive(a[1..], b[1..], c[1..]);
    }
  }

  /** `ORDER BY alias ASC` */
  predicate ByAlias(cs: seq<(string, string)>) {
    forall i, j :: 0 <= i < j < |cs| ==> AliasLe(cs[i].1, cs[j].1)
  }

  /** The position at which `c` goes into a list sorted by alias. */
  function AliasSlot(cs: seq<(string, string)>, c: (string, string)): (k: nat)
    ensures k <= |cs|
    ensures forall i :: 0 <= i < k ==> !AliasLe(c.1, cs[i].1)
    ensures k < |cs| ==> AliasLe(c.1, cs[k].1)
  {
    if cs == [] || AliasLe(c.1, cs[0].1) then 0 else 1 + AliasSlot(cs[1..], c)
  }

  lemma InsertKeepsOrder(cs: seq<(string, string)>, c: (string, string))
    requires ByAlias(cs)
    ensures ByAlias(cs[..AliasSlot(cs, c)] + [c] + cs[AliasSlot(cs, c)..])
  {
    var k := AliasSlot(cs, c);
    var r := cs[..k] + [c] + cs[k..];
    forall i | 0 <= i < k
      ensures AliasLe(cs[i].1, c.1)
    {
      AliasLeTotal(c.1, cs[i].1);
    }
    forall i | k <= i < |cs|
      ensures AliasLe(c.1, cs[i].1)
    {
      if i > k {
        AliasLeTransitive(c.1, cs[k].1, cs[i].1);
      }
    }
    forall i, j | 0 <= i < j < |r|
      ensures AliasLe(r[i].1, r[j].1)
    {
      if i < k && j > k {
        AliasLeTransitive(cs[i].1, c.1, cs[j - 1].1);
      }
    }
  }

  function InsertByAlias(cs: seq<(string, string)>, c: (string, string)): seq<(string, string)> {
    cs[..AliasSlot(cs, c)] + [c] + cs[AliasSlot(cs, c)..]
  }

  /** The state of get_contacts' copy loop: `cs` lists, in alias order and
      once each, exactly the contacts whose keys are not in `todo`. */
  ghost predicate Listed(cs: seq<(string, string)>, contacts: map<string, string>, todo: set<string>) {
    && todo <= contacts.Keys
    && ByAlias(cs)
    && |cs| + |todo| == |contacts|
    && (forall i :: 0 <= i < |cs| ==> cs[i].0 in contacts && cs[i].0 !in todo && contacts[cs[i].0] == cs[i].1)
    && (forall i, j :: 0 <= i < j < |cs| ==> cs[i].0 != cs[j].0)
    && (forall k :: k in contacts && k !in todo ==> exists i :: 0 <= i < |cs| && cs[i].0 == k)
  }

  lemma InsertByAliasAt(cs: seq<(string, string)>, c: (string, string), i: nat)
    requires i <= |cs|
    ensures |InsertByAlias(cs, c)| == |cs| + 1
    ensures InsertByAlias(cs, c)[i] ==
              if i < AliasSlot(cs, c) then cs[i] else if i == AliasSlot(cs, c) then c else cs[i - 1]
  {
  }

  lemma InsertedEntries(cs: seq<(string, string)>, contacts: map<string, string>, todo: set<string>, k: string)
    requires Listed(cs, contacts, todo) && k in todo
    ensures var next := InsertByAlias(cs, (k, contacts[k]));
            forall i :: 0 <= i < |next| ==> next[i].0 in contacts && next[i].0 !in todo - {k} && contacts[next[i].0] == next[i].1
  {
    var c := (k, contacts[k]);
    var next := InsertByAlias(cs, c);
    forall i | 0 <= i < |next|
      ensures next[i].0 in contacts && next[i].0 !in todo - {k} && contacts[next[i].0] == next[i].1
    {
      InsertByAliasAt(cs, c, i);
    }
  }

  lemma InsertedDistinct(cs: seq<(string, string)>, contacts: map<string, string>, todo: set<string>, k: string)
    requires Listed(cs, contacts, todo) && k in todo
    ensures var next := InsertByAlias(cs, (k, contacts[k]));
            forall i, j :: 0 <= i < j < |next| ==> next[i].0 != next[j].0
  {
    var c := (k, contacts[k]);
    var next := InsertByAlias(cs, c);
    forall i, j | 0 <= i < j < |next|
      ensures next[i].0 != next[j].0
    {
      InsertByAliasAt(cs, c, i);
      InsertByAliasAt(cs, c, j);
    }
  }

  lemma InsertedCovers(cs: seq<(string, string)>, contacts: map<string, string>, todo: set<string>, k: string)
    requires Listed(cs, contacts, todo) && k in todo
    ensures var next := InsertByAlias(cs, (k, contacts[k]));
            forall q :: q in contacts && q !in todo - {k} ==> exists i :: 0 <= i < |next| && next[i].0 == q
  {
    var c := (k, contacts[k]);
    var at := AliasSlot(cs, c);
    var next := InsertByAlias(cs, c);
    forall q | q in contacts && q !in todo - {k}
      ensures exists i :: 0 <= i < |next| && next[i].0 == q
    {
      if q == k {
        InsertByAliasAt(cs, c, at);
      } else {
        var i :| 0 <= i < |cs| && cs[i].0 == q;
        if i < at {
          InsertByAliasAt(cs, c, i);
        } else {
          InsertByAliasAt(cs, c, i + 1);
        }
      }
    }
  }

  lemma ListedStep(cs: seq<(string, string)>, contacts: map<string, string>, todo: set<string>, k: string)
    requires Listed(cs, contacts, todo) && k in todo
    ensures Listed(InsertByAlias(cs, (k, contacts[k])), contacts, todo - {k})
  {
    var c := (k, contacts[k]);
    InsertByAliasAt(cs, c, 0);
    InsertKeepsOrder(cs, c);
    assert |todo - {k}| == |todo| - 1;
    InsertedEntries(cs, contacts, todo, k);
    InsertedDistinct(cs, contacts, todo, k);
    InsertedCovers(cs, contacts, todo, k);
  }

  // ------------------------------------------------------------ sender names

  /** Bytes of a character in UTF-8 (Dafny characters are scalar values). */
  function Utf8Width(c: char): nat {
    if c as int < 0x80 then 1
    else if c as int < 0x800 then 2
    else if c as int < 0x10000 then 3
    else 4
  }

  /** `str::len`: the length in UTF-8 bytes. */
  function Utf8Len(s: string): nat {
    if s == [] then 0 else Utf8Width(s[0]) + Utf8Len(s[1..])
  }

  /** `&s[0..n]`: the characters filling exactly the first n bytes, or None
      when byte n falls inside a character (the slice panics). */
  function BytePrefix(s: string, n: nat): Option<string> {
    if n == 0 then Some([])
    else if s == [] || Utf8Width(s[0]) > n then None
    else
      match BytePrefix(s[1..], n - Utf8Width(s[0]))
      case Some(rest) => Some([s[0]] + rest)
      case None => None
  }

  /** A byte prefix that exists is a prefix of the string filling exactly n bytes. */
  lemma {:induction false} BytePrefixCuts(s: string, n: nat)
    ensures BytePrefix(s, n).Some? ==> BytePrefix(s, n).value <= s && Utf8Len(BytePrefix(s, n).value) == n
    decreases n
  {
    if n != 0 && s != [] && Utf8Width(s[0]) <= n {
      BytePrefixCuts(s[1..], n - Utf8Width(s[0]));
      var rest := BytePrefix(s[1..], n - Utf8Width(s[0]));
      if rest.Some? {
        var head := [s[0]] + rest.value;
        assert head[1..] == rest.value;
      }
    }
  }

  /** resolve_sender's fallback for a key with no contact: a key longer than
      8 bytes is cut to its first 8 bytes followed by "...". */
  function Fallback(pubkey: string): (r: Res<string>)
    ensures !r.Err?
    ensures Utf8Len(pubkey) <= SHORT_NAME_BYTES ==> r == Ok(pubkey)
    ensures r.Panic? <==> Utf8Len(pubkey) > SHORT_NAME_BYTES && BytePrefix(pubkey, SHORT_NAME_BYTES).None?
    ensures r.Ok? && Utf8Len(pubkey) > SHORT_NAME_BYTES ==>
              && |r.value| >= 3 && r.value[|r.value| - 3..] == "..."
              && r.value[..|r.value| - 3] <= pubkey
              && Utf8Len(r.value[..|r.value| - 3]) == SHORT_NAME_BYTES
  {
    BytePrefixCuts(pubkey, SHORT_NAME_BYTES);
    if Utf8Len(pubkey) > SHORT_NAME_BYTES then
      match BytePrefix(pubkey, SHORT_NAME_BYTES)
      case Some(head) => Ok(head + "...")
      case None => Panic("byte index 8 is not a char boundary")
    else Ok(pubkey)
  }

  /** resolve_sender over the contacts table. */
  function Resolve(contacts: map<string, string>, pubkey: string): (r: Res<string>)
    ensures !r.Err?
    ensures pubkey in contacts ==> r == Ok(contacts[pubkey])
    ensures pubkey !in contacts ==> r == Fallback(pubkey)
  {
    if pubkey in contacts then Ok(contacts[pubkey]) else Fallback(pubkey)
  }

  predicate IsAscii(s: string) {
    forall i :: 0 <= i < |s| ==> s[i] as int < 0x80
  }

  lemma {:induction false} AsciiLen(s: string)
    requires IsAscii(s)
    ensures Utf8Len(s) == |s|
  {
    if s != [] {
      assert IsAscii(s[1..]) by { assert forall i :: 0 <= i < |s| - 1 ==> s[1..][i] == s[i + 1]; }
      AsciiLen(s[1..]);
    }
  }

  lemma {:induction false} AsciiPrefix(s: string, n: nat)
    requires IsAscii(s) && n <= |s|
    ensures BytePrefix(s, n) == Some(s[..n])
  {
    if n > 0 {
      assert IsAscii(s[1..]) by { assert forall i :: 0 <= i < |s| - 1 ==> s[1..][i] == s[i + 1]; }
      AsciiPrefix(s[1..], n - 1);
      assert [s[0]] + s[1..][..n - 1] == s[..n];
    }
  }

  /** For ASCII keys (such as hex) the fallback is the first 8 characters
      plus "..." when the key is longer than 8, and the key itself
      otherwise; it never panics. */
  lemma FallbackAscii(pubkey: string)
    requires IsAscii(pubkey)
    ensures Fallback(pubkey) == Ok(if |pubkey| > SHORT_NAME_BYTES then pubkey[..SHORT_NAME_BYTES] + "..." else pubkey)
  {
    AsciiLen(pubkey);
    if |pubkey| > SHORT_NAME_BYTES {
      AsciiPrefix(pubkey, SHORT_NAME_BYTES);
    }
  }

  /** A 9-byte key whose 8th byte ends inside a two-byte character makes the
      fallback panic instead of shortening it. */
  lemma FallbackMultibytePanics()
    ensures Fallback("aéééé").Panic?
  {
    var s := "aéééé";
    assert Utf8Len(s[4..]) == 2;
    assert Utf8Len(s[3..]) == 4;
    assert Utf8Len(s[2..]) == 6;
    assert Utf8Len(s[1..]) == 8;
    assert BytePrefix(s[4..], 1) == None;
    assert BytePrefix(s[3..], 3) == None;
    assert BytePrefix(s[2..], 5) == None;
    assert BytePrefix(s[1..], 7) == None;
  }

  /** After an upsert the key resolves to its new alias; other keys resolve
      as before. */
  lemma ResolveAfterUpsert(contacts: map<string, string>, pubkey: string, alias: string, q: string)
    ensures Resolve(contacts[pubkey := alias], q) == if q == pubkey then Ok(alias) else Resolve(contacts, q)
  {
  }

  // ----------------------------------------------------------------- transit

  predicate IsOldest(m: map<string, TransitEntry>, k: string) {
    k in m && forall j :: j in m ==> m[k].receivedAt <= m[j].receivedAt
  }

  lemma {:induction false} OldestExists(m: map<string, TransitEntry>)
    requires m != map[]
    ensures exists k :: IsOldest(m, k)
    decreases |m|
  {
    var k :| k in m;
    var rest := m - {k};
    assert forall j :: j in m ==> j == k || j in rest;
    if rest == map[] {
      assert IsOldest(m, k);
    } else {
      assert |rest| < |m| by { assert rest.Keys == m.Keys - {k}; }
      OldestExists(rest);
      var j :| IsOldest(rest, j);
      if m[k].receivedAt <= m[j].receivedAt {
        assert IsOldest(m, k);
      } else {
        assert IsOldest(m, j);
      }
    }
  }

  /** The table after `INSERT OR IGNORE` of the packet under its hash, before eviction. */
  function TransitPool(p: Primitives, transit: map<string, TransitEntry>, packet: Bytes, now: U64): map<string, TransitEntry> {
    var key := Hex.Encode(p.md5(packet));
    if key in transit then transit else transit[key := TransitEntry(packet, now)]
  }

  // ---------------------------------------------------------------- database

  class Database {
    var messages: seq<MessageRow>
    var identity: Option<Bytes>          // the row with key 'main'
    var contacts: map<string, string>    // pubkey -> alias
    var transit: map<string, TransitEntry>

    ghost predicate Valid()
      reads this
    {
      UniqueIds(messages) && |transit| <= TRANSIT_CAPACITY
    }

    /** Database::init on a fresh file: the four tables exist and are empty. */
    constructor ()
      ensures Valid()
      ensures messages == [] && identity == None && contacts == map[] && transit == map[]
    {
      messages, identity, contacts, transit := [], None, map[], map[];
    }

    /** save_message: `now` is the wall-clock second stored as the timestamp. */
    method SaveMessage(id: string, sender: string, content: string, isMe: bool, now: U64) returns (r: Res<()>)
      requires Valid()
      modifies this
      ensures Valid()
      ensures messages == InsertRow(old(messages), MessageRow(id, sender, content, now, isMe))
      ensures r == if IdTaken(old(messages), id) then Err(UniqueViolation) else Ok(())
      ensures identity == old(identity) && contacts == old(contacts) && transit == old(transit)
    {
      if IdTaken(messages, id) {
        r := Err(UniqueViolation);
      } else {
        messages := messages + [MessageRow(id, sender, content, now, isMe)];
        r := Ok(());
      }
    }

    /** get_messages: the query sorts and limits; the loop copies the rows out. */
    method GetMessages() returns (rows: seq<MessageRow>)
      requires Valid()
      ensures IsPage(messages, rows)
    {
      var sorted := SortByTimestamp(messages);
      assert |sorted| == |messages| by { assert |multiset(sorted)| == |multiset(messages)|; }
      var n := Min(|sorted|, MESSAGE_PAGE);
      rows := [];
      var i := 0;
      while i < n
        invariant 0 <= i <= n
        invariant rows == sorted[..i]
      {
        rows := rows + [sorted[i]];
        i := i + 1;
      }
      SortedPrefixIsPage(messages, sorted, n);
    }

    /** get_identity */
    method GetIdentity() returns (r: Option<Bytes>)
      ensures r == identity
    {
      r := identity;
    }

    /** save_identity: `INSERT OR REPLACE` of the single 'main' row. */
    method SaveIdentity(secret: Bytes)
      requires Valid()
      modifies this
      ensures Valid()
      ensures identity == Some(secret)
      ensures messages == old(messages) && contacts == old(contacts) && transit == old(transit)
    {
      identity := Some(secret);
    }

    /** resolve_sender */
    method ResolveSender(pubkey: string) returns (r: Res<string>)
      ensures r == Resolve(contacts, pubkey)
      ensures pubkey in contacts ==> r == Ok(contacts[pubkey])
      ensures pubkey !in contacts && IsAscii(pubkey) ==>
                r == Ok(if |pubkey| > SHORT_NAME_BYTES then pubkey[..SHORT_NAME_BYTES] + "..." else pubkey)
    {
      if pubkey !in contacts && IsAscii(pubkey) {
        FallbackAscii(pubkey);
      }
      r := Resolve(contacts, pubkey);
    }

    /** add_contact: `INSERT OR REPLACE`, an upsert keyed by pubkey. */
    method AddContact(pubkey: string, alias: string)
      requires Valid()
      modifies this
      ensures Valid()
      ensures contacts == old(contacts)[pubkey := alias]
      ensures messages == old(messages) && identity == old(identity) && transit == old(transit)
    {
      contacts := contacts[pubkey := alias];
    }

    /** get_contacts: every contact exactly once, in ascending alias order
        (the order of equal aliases is left open, as in SQL). */
    method GetContacts() returns (cs: seq<(string, string)>)
      ensures ByAlias(cs)
      ensures |cs| == |contacts|
      ensures forall i :: 0 <= i < |cs| ==> cs[i].0 in contacts && contacts[cs[i].0] == cs[i].1
      ensures forall i, j :: 0 <= i < j < |cs| ==> cs[i].0 != cs[j].0
      ensures forall k :: k in contacts ==> exists i :: 0 <= i < |cs| && cs[i].0 == k
    {
      var todo := contacts.Keys;
      cs := [];
      while todo != {}
        invariant Listed(cs, contacts, todo)
        decreases |todo|
      {
        var k :| k in todo;
        ListedStep(cs, contacts, todo, k);
        cs := InsertByAlias(cs, (k, contacts[k]));
        todo := todo - {k};
      }
    }

    /** save_transit: `INSERT OR IGNORE` under the hex MD5 of the packet,
        then delete every row outside the 100 latest by `received_at`;
        which of several equally old rows goes is left open. */
    method SaveTransit(p: Primitives, packet: Bytes, now: U64)
      requires Valid()
      modifies this
      ensures Valid()
      ensures var pool := TransitPool(p, old(transit), packet, now);
              && transit.Keys <= pool.Keys
              && (forall k :: k in transit ==> transit[k] == pool[k])
              && |transit| == Min(|pool|, TRANSIT_CAPACITY)
              && (forall k, j :: k in pool && k !in transit && j in transit ==> pool[k].receivedAt <= transit[j].receivedAt)
      ensures Hex.Encode(p.md5(packet)) in old(transit) ==> transit == old(transit)
      ensures messages == old(messages) && identity == old(identity) && contacts == old(contacts)
    {
      var pool := TransitPool(p, transit, packet, now);
      if |pool| > TRANSIT_CAPACITY {
        OldestExists(pool);
        var victim :| IsOldest(pool, victim);
        var kept := pool - {victim};
        assert kept.Keys == pool.Keys - {victim};
        transit := kept;
      } else {
        transit := pool;
      }
    }

    /** get_random_transit: `ORDER BY RANDOM() LIMIT 1`, a choice of any row. */
    method GetRandomTransit() returns (r: Option<Bytes>)
      ensures r.None? <==> transit == map[]
      ensures r.Some? ==> exists k :: k in transit && transit[k].packet == r.value
    {
      if transit == map[] {
        r := None;
      } else {
        var k :| k in transit;
        r := Some(transit[k].packet);
      }
    }
  }
}
