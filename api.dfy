/** api.rs: the entry points the app calls. Each opens the store (the
    `Database` object passed in), and sequences the core operations. */
module Api {
  import opened Base
  import opened Foreign
  import Json
  import Hex
  import Crypto
  import Store
  import Mesh
  import Net

  const UNKNOWN_SENDER: string := "Unknown"
  const SELF_SENDER: string := "Me"

  /** A message as the app receives it. */
  datatype ChatMessage = ChatMessage(id: string, sender: string, text: string, time: U64, isMe: bool)

  function RowOf(m: ChatMessage): Store.MessageRow {
    Store.MessageRow(m.id, m.sender, m.text, m.time, m.isMe)
  }

  function RowsOf(ms: seq<ChatMessage>): (rows: seq<Store.MessageRow>)
    ensures |rows| == |ms| && forall i :: 0 <= i < |ms| ==> rows[i] == RowOf(ms[i])
  {
    seq(|ms|, i requires 0 <= i < |ms| => RowOf(ms[i]))
  }

  // --------------------------------------------------------------- payloads

  /** What send_message and prepare_mesh_packet encrypt: a JSON object with
      the sender's identity in hex and the content. */
  function Payload(p: Primitives, senderHex: string, content: string): (r: string)
    ensures Foreign.Sound(p) ==>
              && p.jsonParse(r).Some?
              && Json.AsStr(Json.Get(p.jsonParse(r).value, "sender")) == Some(senderHex)
              && Json.AsStr(Json.Get(p.jsonParse(r).value, "content")) == Some(content)
  {
    p.jsonWrite(Json.Object(map["sender" := Json.String(senderHex), "content" := Json.String(content)]))
  }

  /** sync_messages' reading of one relay result as (sender, content). */
  function Classify(p: Primitives, raw: string): (r: (string, string))
    ensures p.jsonParse(raw).None? ==> r == (UNKNOWN_SENDER, raw)
    ensures p.jsonParse(raw).Some? ==>
              && r.0 == Json.AsStr(Json.Get(p.jsonParse(raw).value, "sender")).GetOr(UNKNOWN_SENDER)
              && r.1 == Json.AsStr(Json.Get(p.jsonParse(raw).value, "content")).GetOr("")
  {
    match p.jsonParse(raw)
    case Some(v) => (Json.AsStr(Json.Get(v, "sender")).GetOr(UNKNOWN_SENDER), Json.AsStr(Json.Get(v, "content")).GetOr(""))
    case None => (UNKNOWN_SENDER, raw)
  }

  /** A result that is not JSON is kept whole as the content of an unknown sender. */
  lemma ClassifyNotJson(p: Primitives, raw: string)
    requires p.jsonParse(raw).None?
    ensures Classify(p, raw) == (UNKNOWN_SENDER, raw)
  {
  }

  /** A JSON result gives its "sender" and "content" strings, when they are
      strings, and "Unknown" and "" otherwise. */
  lemma ClassifyJson(p: Primitives, raw: string)
    requires p.jsonParse(raw).Some?
    ensures var v := p.jsonParse(raw).value;
            && Classify(p, raw).0 == (if Json.Get(v, "sender").String? then Json.Get(v, "sender").str else UNKNOWN_SENDER)
            && Classify(p, raw).1 == (if Json.Get(v, "content").String? then Json.Get(v, "content").str else "")
  {
  }

  /** Reading a payload gives back its sender and content. */
  lemma ClassifyPayload(p: Primitives, senderHex: string, content: string)
    requires Sound(p)
    ensures Classify(p, Payload(p, senderHex, content)) == (senderHex, content)
  {
    var v := Json.Object(map["sender" := Json.String(senderHex), "content" := Json.String(content)]);
    assert p.jsonParse(p.jsonWrite(v)) == Some(v);
  }

  // ------------------------------------------------------------------- init

  /** init_core: an identity is generated only when none is stored. */
  method InitCore(db: Store.Database, freshSecret: Bytes)
    requires db.Valid()
    modifies db
    ensures db.Valid()
    ensures db.identity == if old(db.identity).Some? then old(db.identity) else Some(freshSecret)
    ensures db.messages == old(db.messages) && db.contacts == old(db.contacts) && db.transit == old(db.transit)
  {
    var identity := db.GetIdentity();
    if identity.None? {
      db.SaveIdentity(freshSecret);
    }
  }

  // ------------------------------------------------------------------- send

  /** send_message: hex and identity are checked before anything else; the
      relay send's failure is only logged, and the message is stored as sent
      by "Me" either way. `wire` is the frame that reached the relay. */
  method SendMessage(db: Store.Database, p: Primitives, destHex: string, content: string, now: U64,
                     entropy: Crypto.Entropy, signer: Bytes, link: Net.Link, freshId: string)
    returns (wire: Option<string>, r: Res<()>)
    requires db.Valid()
    modifies db
    ensures db.Valid()
    ensures Hex.Decode(destHex).None? ==> wire == None && r == Err(InvalidHex) && db.messages == old(db.messages)
    ensures Hex.Decode(destHex).Some? && old(db.identity).None? ==>
              wire == None && r == Err(NoIdentity) && db.messages == old(db.messages)
    ensures Hex.Decode(destHex).Some? && old(db.identity).Some? ==>
              && wire == Net.SendToRelay(p, Hex.Decode(destHex).value, Payload(p, Hex.Encode(old(db.identity).value), content),
                                         now, entropy, signer, link).wire
              && db.messages == Store.InsertRow(old(db.messages), Store.MessageRow(freshId, SELF_SENDER, content, now, true))
              && r == if Store.IdTaken(old(db.messages), freshId) then Err(UniqueViolation) else Ok(())
    ensures db.identity == old(db.identity) && db.contacts == old(db.contacts) && db.transit == old(db.transit)
  {
    var dest := Hex.Decode(destHex);
    if dest.None? {
      return None, Err(InvalidHex);
    }
    var identity := db.GetIdentity();
    if identity.None? {
      return None, Err(NoIdentity);
    }
    var payload := Payload(p, Hex.Encode(identity.value), content);
    var report := Net.SendToRelay(p, dest.value, payload, now, entropy, signer, link);
    wire := report.wire;
    r := db.SaveMessage(freshId, SELF_SENDER, content, true, now);
  }

  // ------------------------------------------------------------------- sync

  /** The row sync_messages stores for one relay result, or the panic of
      resolve_sender. */
  function SyncRow(p: Primitives, contacts: map<string, string>, raw: string, id: string, now: U64): (r: Res<Store.MessageRow>)
    ensures !r.Err?
    ensures r.Ok? ==> r.value.id == id && r.value.content == Classify(p, raw).1 && r.value.timestamp == now && !r.value.isMe
    ensures r.Ok? <==> Store.Resolve(contacts, Classify(p, raw).0).Ok?
    ensures r.Ok? ==> r.value.sender == Store.Resolve(contacts, Classify(p, raw).0).value
    ensures r.Panic? <==> Store.Resolve(contacts, Classify(p, raw).0).Panic?
  {
    var (sender, content) := Classify(p, raw);
    match Store.Resolve(contacts, sender)
    case Ok(alias) => Ok(Store.MessageRow(id, alias, content, now, false))
    case Err(e) => Err(e)
    case Panic(m) => Panic(m)
  }

  /** The log after saving each of `raws` in turn, the k-th under the id
      `ids[k]`; a save that hits a taken id is ignored. */
  function SyncedLog(p: Primitives, contacts: map<string, string>, log: seq<Store.MessageRow>, raws: seq<string>,
                     ids: seq<string>, now: U64): (r: Res<seq<Store.MessageRow>>)
    requires |ids| == |raws|
    ensures !r.Err?
    ensures r.Ok? ==> log <= r.value && |r.value| <= |log| + |raws|
    ensures r.Ok? && Store.UniqueIds(log) ==> Store.UniqueIds(r.value)
    decreases |raws|
  {
    if raws == [] then Ok(log)
    else
      match SyncRow(p, contacts, raws[0], ids[0], now)
      case Ok(row) => SyncedLog(p, contacts, Store.InsertRow(log, row), raws[1..], ids[1..], now)
      case Err(e) => Err(e)
      case Panic(m) => Panic(m)
  }

  /** No relay result makes resolve_sender panic. */
  ghost predicate NoPanic(p: Primitives, contacts: map<string, string>, raws: seq<string>) {
    forall k :: 0 <= k < |raws| ==> Store.Resolve(contacts, Classify(p, raws[k]).0).Ok?
  }

  lemma NoPanicTail(p: Primitives, contacts: map<string, string>, raws: seq<string>)
    requires raws != [] && NoPanic(p, contacts, raws)
    ensures NoPanic(p, contacts, raws[1..])
  {
    forall k | 0 <= k < |raws| - 1 ensures Store.Resolve(contacts, Classify(p, raws[1..][k]).0).Ok? {
      assert raws[1..][k] == raws[k + 1];
    }
  }

  /** The rows of `raws` when none of them panics, the k-th under `ids[k]`. */
  function Fresh(p: Primitives, contacts: map<string, string>, raws: seq<string>, ids: seq<string>, now: U64): (rows: seq<Store.MessageRow>)
    requires |ids| == |raws| && NoPanic(p, contacts, raws)
    ensures |rows| == |raws|
    ensures forall k :: 0 <= k < |rows| ==> rows[k].id == ids[k]
    decreases |raws|
  {
    if raws == [] then []
    else
      NoPanicTail(p, contacts, raws);
      [SyncRow(p, contacts, raws[0], ids[0], now).value] + Fresh(p, contacts, raws[1..], ids[1..], now)
  }

  /** The k-th fresh row is the row of the k-th result. */
  lemma {:induction false} FreshAt(p: Primitives, contacts: map<string, string>, raws: seq<string>, ids: seq<string>, now: U64, k: nat)
    requires |ids| == |raws| && NoPanic(p, contacts, raws) && k < |raws|
    ensures Fresh(p, contacts, raws, ids, now)[k] == SyncRow(p, contacts, raws[k], ids[k], now).value
    decreases k
  {
    if k > 0 {
      NoPanicTail(p, contacts, raws);
      FreshAt(p, contacts, raws[1..], ids[1..], now, k - 1);
      assert raws[1..][k - 1] == raws[k] && ids[1..][k - 1] == ids[k];
    }
  }

  /** Plain `INSERT`s of `rows`, one after the other. */
  function InsertAll(log: seq<Store.MessageRow>, rows: seq<Store.MessageRow>): seq<Store.MessageRow>
    decreases |rows|
  {
    if rows == [] then log else InsertAll(Store.InsertRow(log, rows[0]), rows[1..])
  }

  /** Each row's id is free when its turn to be inserted comes. */
  predicate FreshIds(log: seq<Store.MessageRow>, rows: seq<Store.MessageRow>)
    decreases |rows|
  {
    rows == [] || (!Store.IdTaken(log, rows[0].id) && FreshIds(log + [rows[0]], rows[1..]))
  }

  /** Ids absent from the log and pairwise distinct are fresh in turn. */
  lemma {:induction false} DistinctIdsFresh(log: seq<Store.MessageRow>, rows: seq<Store.MessageRow>)
    requires forall k :: 0 <= k < |rows| ==> !Store.IdTaken(log, rows[k].id)
    requires forall j, k :: 0 <= j < k < |rows| ==> rows[j].id != rows[k].id
    ensures FreshIds(log, rows)
    decreases |rows|
  {
    if rows != [] {
      var log' := log + [rows[0]];
      forall k | 0 <= k < |rows| - 1 ensures !Store.IdTaken(log', rows[1..][k].id) {
        assert rows[1..][k] == rows[k + 1] && rows[0].id != rows[k + 1].id;
        assert !Store.IdTaken(log, rows[k + 1].id);
      }
      forall j, k | 0 <= j < k < |rows| - 1 ensures rows[1..][j].id != rows[1..][k].id {
        assert rows[1..][j] == rows[j + 1] && rows[1..][k] == rows[k + 1];
      }
      DistinctIdsFresh(log', rows[1..]);
      assert !Store.IdTaken(log, rows[0].id);
    }
  }

  /** Rows whose ids are fresh in turn are all appended, in order. */
  lemma {:induction false} InsertAllFresh(log: seq<Store.MessageRow>, rows: seq<Store.MessageRow>)
    requires FreshIds(log, rows)
    ensures InsertAll(log, rows) == log + rows
    decreases |rows|
  {
    if rows == [] {
      assert log + [] == log;
    } else {
      InsertAllFresh(log + [rows[0]], rows[1..]);
      assert (log + [rows[0]]) + rows[1..] == log + rows by {
        assert rows == [rows[0]] + rows[1..];
      }
    }
  }

  /** Without a panic, sync saves the results' rows one after the other. */
  lemma {:induction false} SyncedLogInserts(p: Primitives, contacts: map<string, string>, log: seq<Store.MessageRow>,
                                            raws: seq<string>, ids: seq<string>, now: U64)
    requires |ids| == |raws| && NoPanic(p, contacts, raws)
    ensures SyncedLog(p, contacts, log, raws, ids, now) == Ok(InsertAll(log, Fresh(p, contacts, raws, ids, now)))
    decreases |raws|
  {
    if raws != [] {
      var row := SyncRow(p, contacts, raws[0], ids[0], now).value;
      NoPanicTail(p, contacts, raws);
      SyncedLogInserts(p, contacts, Store.InsertRow(log, row), raws[1..], ids[1..], now);
      var rows := Fresh(p, contacts, raws, ids, now);
      assert rows[0] == row && rows[1..] == Fresh(p, contacts, raws[1..], ids[1..], now);
    }
  }

  /** With ids that are fresh and distinct and no panic, every relay result
      is stored once, in arrival order, behind the existing log. */
  lemma SyncedLogAppends(p: Primitives, contacts: map<string, string>, log: seq<Store.MessageRow>,
                         raws: seq<string>, ids: seq<string>, now: U64)
    requires |ids| == |raws| && NoPanic(p, contacts, raws)
    requires forall k :: 0 <= k < |ids| ==> !Store.IdTaken(log, ids[k])
    requires forall j, k :: 0 <= j < k < |ids| ==> ids[j] != ids[k]
    ensures SyncedLog(p, contacts, log, raws, ids, now) == Ok(log + Fresh(p, contacts, raws, ids, now))
  {
    SyncedLogInserts(p, contacts, log, raws, ids, now);
    var rows := Fresh(p, contacts, raws, ids, now);
    DistinctIdsFresh(log, rows);
    InsertAllFresh(log, rows);
  }

  /** The uuid drawn for each of `raws`, in order. */
  function FreshIdsFor(raws: seq<string>, freshId: nat -> string): (ids: seq<string>)
    ensures |ids| == |raws| && forall k :: 0 <= k < |raws| ==> ids[k] == freshId(k)
  {
    seq(|raws|, k requires 0 <= k < |raws| => freshId(k))
  }

  /** The message log sync_messages leaves behind: nothing is fetched
      without an identity or when the relay call fails; otherwise
      the collected results are stored in order. */
  function SyncOutcome(p: Primitives, identity: Option<Bytes>, contacts: map<string, string>, log: seq<Store.MessageRow>,
                       now: U64, link: Net.Link, frames: seq<Net.Frame>, freshId: nat -> string): (r: Res<seq<Store.MessageRow>>)
    ensures !r.Err?
    ensures identity.None? || !link.connects || !link.transmits ==> r == Ok(log)
  {
    if identity.None? || !link.connects || !link.transmits then Ok(log)
    else
      match Net.Collect(p, identity.value, frames)
      case Ok(raws) => SyncedLog(p, contacts, log, raws, FreshIdsFor(raws, freshId), now)
      case Err(_) => Ok(log)
      case Panic(m) => Panic(m)
  }

  /** sync_messages' loop over the relay results: classify, resolve the
      sender, save under a fresh id, ignoring a refused save. */
  method StoreResults(db: Store.Database, p: Primitives, raws: seq<string>, ids: seq<string>, now: U64)
    returns (r: Res<()>)
    requires |ids| == |raws|
    requires db.Valid()
    modifies db
    ensures db.Valid()
    ensures var out := SyncedLog(p, old(db.contacts), old(db.messages), raws, ids, now);
            && (out.Panic? ==> r == Panic(out.reason))
            && (out.Ok? ==> r == Ok(()) && db.messages == out.value)
    ensures db.identity == old(db.identity) && db.contacts == old(db.contacts) && db.transit == old(db.transit)
  {
    var i := 0;
    while i < |raws|
      invariant 0 <= i <= |raws|
      invariant db.Valid()
      invariant db.identity == old(db.identity) && db.contacts == old(db.contacts) && db.transit == old(db.transit)
      invariant SyncedLog(p, db.contacts, old(db.messages), raws, ids, now)
             == SyncedLog(p, db.contacts, db.messages, raws[i..], ids[i..], now)
    {
      assert raws[i..][0] == raws[i] && raws[i..][1..] == raws[i + 1..];
      assert ids[i..][0] == ids[i] && ids[i..][1..] == ids[i + 1..];
      var (sender, content) := Classify(p, raws[i]);
      var alias := db.ResolveSender(sender);
      if alias.Panic? {
        return Panic(alias.reason);
      }
      var _ := db.SaveMessage(ids[i], alias.value, content, false, now);
      i := i + 1;
    }
    assert raws[i..] == [];
    r := Ok(());
  }

  /** sync_messages: fetch, store each result under a fresh id, then return
      the page of get_messages converted field by field. */
  method SyncMessages(db: Store.Database, p: Primitives, now: U64, link: Net.Link, frames: seq<Net.Frame>, freshId: nat -> string)
    returns (r: Res<seq<ChatMessage>>)
    requires db.Valid()
    modifies db
    ensures db.Valid()
    ensures var outcome := SyncOutcome(p, old(db.identity), old(db.contacts), old(db.messages), now, link, frames, freshId);
            && (outcome.Panic? ==> r == Panic(outcome.reason))
            && (outcome.Ok? ==> db.messages == outcome.value && r.Ok? && Store.IsPage(db.messages, RowsOf(r.value)))
    ensures db.identity == old(db.identity) && db.contacts == old(db.contacts) && db.transit == old(db.transit)
  {
    var identity := db.GetIdentity();
    if identity.Some? {
      var _, fetched := Net.CheckRelay(p, identity.value, now, link, frames);
      if fetched.Panic? {
        return Panic(fetched.reason);
      }
      if fetched.Ok? {
        var stored := StoreResults(db, p, fetched.value, FreshIdsFor(fetched.value, freshId), now);
        if stored.Panic? {
          return Panic(stored.reason);
        }
      }
    }
    var rows := db.GetMessages();
    var chats: seq<ChatMessage> := [];
    var j := 0;
    while j < |rows|
      invariant 0 <= j <= |rows|
      invariant RowsOf(chats) == rows[..j]
    {
      chats := chats + [ChatMessage(rows[j].id, rows[j].sender, rows[j].content, rows[j].timestamp, rows[j].isMe)];
      j := j + 1;
    }
    assert rows[..j] == rows;
    r := Ok(chats);
  }

  /** A hex key never makes resolve_sender panic. */
  lemma HexResolves(contacts: map<string, string>, bs: Bytes)
    ensures Store.Resolve(contacts, Hex.Encode(bs)).Ok?
  {
    var h := Hex.Encode(bs);
    assert Store.IsAscii(h) by {
      forall i | 0 <= i < |h| ensures h[i] as int < 0x80 { assert Hex.IsLowerHexDigit(h[i]); }
    }
    Store.FallbackAscii(h);
  }

  /** End to end over the relay: what Alice sends to Bob's root, when the
      relay forwards it, is stored by Bob's sync with Alice's alias (or
      shortened key) as sender and the content as text. */
  lemma RelayedMessageSynced(p: Primitives, aliceRoot: Bytes, bobRoot: Bytes, content: string, sentAt: U64,
                             entropy: Crypto.Entropy, signer: Bytes, subscription: string,
                             contacts: map<string, string>, log: seq<Store.MessageRow>, now: U64, link: Net.Link,
                             freshId: nat -> string)
    requires Sound(p)
    requires Net.BuildEvent(p, bobRoot, Payload(p, Hex.Encode(aliceRoot), content), sentAt, entropy, signer).Ok?
    requires link.connects && link.transmits
    requires !Store.IdTaken(log, freshId(0))
    ensures Store.Resolve(contacts, Hex.Encode(aliceRoot)).Ok?
    ensures SyncOutcome(p, Some(bobRoot), contacts, log, now, link,
                        [Net.RelayedFrame(p, subscription, Net.BuildEvent(p, bobRoot, Payload(p, Hex.Encode(aliceRoot), content), sentAt, entropy, signer).value)],
                        freshId)
         == Ok(log + [Store.MessageRow(freshId(0), Store.Resolve(contacts, Hex.Encode(aliceRoot)).value, content, now, false)])
  {
    var payload := Payload(p, Hex.Encode(aliceRoot), content);
    var ev := Net.BuildEvent(p, bobRoot, payload, sentAt, entropy, signer).value;
    Net.PublishedEventCollected(p, bobRoot, payload, sentAt, entropy, signer, subscription);
    Net.CollectOne(p, bobRoot, Net.RelayedFrame(p, subscription, ev));
    ClassifyPayload(p, Hex.Encode(aliceRoot), content);
    HexResolves(contacts, aliceRoot);
    var ids := FreshIdsFor([payload], freshId);
    SyncedOne(p, contacts, log, payload, ids, now);
    assert SyncRow(p, contacts, payload, ids[0], now).value
        == Store.MessageRow(freshId(0), Store.Resolve(contacts, Hex.Encode(aliceRoot)).value, content, now, false);
    assert Net.Collect(p, bobRoot, [Net.RelayedFrame(p, subscription, ev)]) == Ok([payload]);
  }

  /** One result under a fresh id, resolving without a panic, is appended. */
  lemma SyncedOne(p: Primitives, contacts: map<string, string>, log: seq<Store.MessageRow>, raw: string, ids: seq<string>, now: U64)
    requires |ids| == 1 && !Store.IdTaken(log, ids[0])
    requires Store.Resolve(contacts, Classify(p, raw).0).Ok?
    ensures SyncedLog(p, contacts, log, [raw], ids, now) == Ok(log + [SyncRow(p, contacts, raw, ids[0], now).value])
  {
    SyncedLogSingle(p, contacts, log, raw, ids, now);
  }

  lemma SyncedLogSingle(p: Primitives, contacts: map<string, string>, log: seq<Store.MessageRow>, raw: string, ids: seq<string>, now: U64)
    requires |ids| == 1 && SyncRow(p, contacts, raw, ids[0], now).Ok?
    ensures SyncedLog(p, contacts, log, [raw], ids, now) == Ok(Store.InsertRow(log, SyncRow(p, contacts, raw, ids[0], now).value))
  {
    assert [raw][0] == raw && [raw][1..] == [] && ids[1..] == [];
  }

  // ------------------------------------------------------------------- mesh

  /** prepare_mesh_packet: the same checks as send_message, then an
      advertisement of the payload for the destination. */
  method PrepareMeshPacket(db: Store.Database, p: Primitives, serde: Mesh.Serde, destHex: string, content: string,
                           now: U64, entropy: Crypto.Entropy)
    returns (r: Res<Bytes>)
    ensures Hex.Decode(destHex).None? ==> r == Err(InvalidHex)
    ensures Hex.Decode(destHex).Some? && db.identity.None? ==> r == Err(NoIdentity)
    ensures Hex.Decode(destHex).Some? && db.identity.Some? ==>
              r == Mesh.Advertise(p, serde, Hex.Decode(destHex).value, Payload(p, Hex.Encode(db.identity.value), content), now, entropy)
    ensures !r.Panic?
  {
    var dest := Hex.Decode(destHex);
    if dest.None? {
      return Err(InvalidHex);
    }
    var identity := db.GetIdentity();
    if identity.None? {
      return Err(NoIdentity);
    }
    r := Mesh.Advertise(p, serde, dest.value, Payload(p, Hex.Encode(identity.value), content), now, entropy);
  }

  /** Unlike sync, the mesh path does not read the payload: the receiver of
      a prepared packet stores the whole JSON payload as the text, with
      sender "Nearby Peer". */
  lemma MeshDeliversPayloadUnparsed(p: Primitives, serde: Mesh.Serde, aliceRoot: Bytes, bobRoot: Bytes, content: string,
                                    now: U64, entropy: Crypto.Entropy)
    requires Sound(p) && Mesh.SerdeSound(serde)
    requires now >= Crypto.SLOT_SECONDS
    requires Mesh.Advertise(p, serde, bobRoot, Payload(p, Hex.Encode(aliceRoot), content), now, entropy).Ok?
    ensures Mesh.Route(p, serde, Some(bobRoot), Mesh.Advertise(p, serde, bobRoot, Payload(p, Hex.Encode(aliceRoot), content), now, entropy).value, now)
         == Mesh.Deliver(Payload(p, Hex.Encode(aliceRoot), content))
  {
    Mesh.AdvertisementDelivered(p, serde, bobRoot, Payload(p, Hex.Encode(aliceRoot), content), now, now, entropy);
  }

  /** get_transit_packet: some stored packet, or no bytes when none is. */
  method GetTransitPacket(db: Store.Database) returns (packet: Bytes)
    ensures db.transit == map[] ==> packet == []
    ensures db.transit != map[] ==> exists k :: k in db.transit && db.transit[k].packet == packet
  {
    var chosen := db.GetRandomTransit();
    packet := chosen.GetOr([]);
  }
}
