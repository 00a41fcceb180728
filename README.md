# Gossamer core, modelled in Dafny

Gossamer is a messaging engine with two transports.

- **Relay.** Messages are end-to-end encrypted and published to a Nostr relay as kind-1 events (NIP-01). The single `t` tag of each event is an hourly "mailbox": the hex of HMAC-SHA256 over the recipient's root secret and the hour slot. Recipients subscribe to their own mailbox and decrypt what comes back.
- **Mesh.** A separate packet travels over a local broadcast mesh. It is a JSON `MeshPacket` holding the mailbox, a ciphertext and a nonce, made by its own call to `encrypt`; it is not the relay event. A node delivers a packet whose mailbox is its own for the current or the previous hour.

Everything lives in a local SQLite store:
- the message log;
- the node's identity (its root secret);
- contacts (pubkey to alias);
- a bounded transit table of packets to rebroadcast.

The project has one module per source file, plus four shared modules.

- **Shared:**
  - `Base`: bytes, `u64`, `Option`, and `Res`. `Res` is `Ok`, `Err` or `Panic`, so a Rust panic is a value here.
  - `Json`: the parts of `serde_json::Value` the core indexes into. Numbers are integers in the range of `i64` or `u64`, the ones serde_json keeps exactly.
  - `Hex`: the `hex` crate, concrete, with its round-trip proved.
  - `Foreign`: the cryptographic and encoding primitives as uninterpreted functions. The predicate `Sound` collects the only facts taken as given about them: output lengths, and the inverse pairs (seal/open, sign/verify, base64, UTF-8, JSON).
- **`Crypto`** (crypto.rs):
  - the hour slot as 8 big-endian bytes;
  - the mailbox;
  - XChaCha20-Poly1305 under an HKDF key with the nonce as salt;
  - Argon2 key derivation.
- **`Store`** (db.rs): a class `Database` whose fields are the four tables. Its methods are the SQL statements. Orders SQL leaves open stay open in the contracts: equal timestamps, equal aliases, `ORDER BY RANDOM()`, and which of several equally old transit rows is evicted.
- **`Mesh`** (mesh.rs): the routing decision for incoming bytes, the advertisement packet, and the method that stores a delivered packet.
- **`Net`** (net.rs):
  - the NIP-01 event built by `send_to_relay`: content, id, signature and frame;
  - the subscription of `check_relay`;
  - its frame-collection loop over a finite sequence of frames.
- **`Api`** (api.rs): `init_core`, `send_message`, `sync_messages`, `prepare_mesh_packet` and `get_transit_packet` as methods over a `Store.Database`, with specification functions for what sync stores.

Clocks, randomness, uuids and network outcomes are parameters:
- `now`;
- the 24 bytes of `entropy`;
- `freshId`;
- a `Link` saying which WebSocket steps succeed;
- the frames the relay delivers.

Three panics of the source are modelled as `Panic` results:
- `XNonce::from_slice` on a nonce that is not 24 bytes;
- the `u64` subtraction `now - 3600` before 01:00 on 1 January 1970 (overflow check);
- `&pubkey[0..8]` when byte 8 falls inside a multi-byte character.

Where the callers and the callee disagree, the model follows the callee: api.rs passes a relay URL that net.rs does not take.

## Model

| member | source | states |
|---|---|---|
| Hex.Encode | native/src/core/crypto.rs:23 | two lower-case hex digits per byte |
| Hex.Decode | native/src/api.rs:36 | a successful decode has half as many bytes as the text has characters |
| Hex.DecodeEncode | native/src/api.rs:36 | decoding the encoding of any bytes gives those bytes back |
| Hex.DecodeDefined | native/src/api.rs:36 | decoding succeeds exactly when the text has even length and every character is a hex digit of either case |
| Crypto.SlotBytes | native/src/core/crypto.rs:20-22 | the MAC input is 8 bytes whose big-endian value is `time / 3600` |
| Crypto.BigEndianRoundTrip | native/src/core/crypto.rs:22 | `to_be_bytes` is inverted by reading the bytes back big-endian, for every value below 256^n |
| Crypto.Mailbox | native/src/core/crypto.rs:19-24 | the mailbox is lower-case hex, twice as long as the MAC, and decodes back to the HMAC of the slot bytes under the root |
| Crypto.MailboxSlotInvariant | native/src/core/crypto.rs:19-24 | two times in the same hour slot give the same mailbox |
| Crypto.MailboxShape | native/src/core/crypto.rs:19-24 | a mailbox is 64 lower-case hex characters |
| Crypto.Encrypt | native/src/core/crypto.rs:26-36 | does not panic; a success returns the 24 random bytes as the nonce; the only error is an encryption failure |
| Crypto.Decrypt | native/src/core/crypto.rs:38-44 | panics exactly when the nonce is not 24 bytes; the only error is a decryption failure |
| Crypto.DecryptEncrypt | native/src/core/crypto.rs:26-44 | whatever encrypt returns decrypts under the same root to the original data |
| Crypto.DeriveKey | native/src/core/crypto.rs:12-17 | does not panic, and succeeds exactly when Argon2 succeeds on the pin's bytes and the fixed salt |
| Crypto.DeriveKeyDeterministic | native/src/core/crypto.rs:12-17 | pins with the same bytes derive the same key, because no per-call salt enters it |
| Store.InsertRow | native/src/core/db.rs:47-54 | an insert is refused exactly when the id is taken; otherwise the row is appended; unique ids are preserved |
| Store.SortByTimestamp | native/src/core/db.rs:57 | `ORDER BY timestamp ASC` yields a nondecreasing permutation of the log |
| Store.SortedPrefixIsPage | native/src/core/db.rs:57 | the first `min(n, 500)` rows of a sorted permutation are a page: sorted, drawn from the log, and no row left out is earlier than one returned |
| Store.Database.constructor | native/src/core/db.rs:12-45 | a fresh store has four empty tables |
| Store.Database.SaveMessage | native/src/core/db.rs:47-54 | appends the row stamped `now`, or returns the primary-key error when the id is taken; other tables are unchanged |
| Store.Database.GetMessages | native/src/core/db.rs:56-64 | returns a page of the log (`LIMIT 500`, ascending timestamps) |
| Store.Database.GetIdentity | native/src/core/db.rs:66-71 | returns the stored root secret, if any |
| Store.Database.SaveIdentity | native/src/core/db.rs:73-76 | replaces the single identity row; nothing else changes |
| Store.Fallback | native/src/core/db.rs:88-92 | a key of at most 8 bytes is returned as is; a longer key panics exactly when byte 8 is not a character boundary, and otherwise gives a prefix of the key filling exactly 8 bytes, followed by "..." |
| Store.Resolve | native/src/core/db.rs:78-93 | the stored alias when the key is a contact, otherwise the fallback; never an error |
| Store.Database.ResolveSender | native/src/core/db.rs:78-93 | a contact's alias when one is stored; otherwise an ASCII key longer than 8 is cut to 8 characters plus "...", and a shorter key is returned as is |
| Store.FallbackAscii | native/src/core/db.rs:88-92 | for ASCII keys the byte cut is a character cut |
| Store.FallbackMultibytePanics | native/src/core/db.rs:89-90 | a 9-byte key whose 8th byte ends inside a character panics |
| Store.ResolveAfterUpsert | native/src/core/db.rs:78-98 | after adding a contact, that key resolves to the new alias and every other key resolves as before |
| Store.Database.AddContact | native/src/core/db.rs:95-98 | upserts the alias under the pubkey; nothing else changes |
| Store.AliasLeTotal | native/src/core/db.rs:101 | the alias order is total |
| Store.AliasLeTransitive | native/src/core/db.rs:101 | the alias order is transitive |
| Store.Database.GetContacts | native/src/core/db.rs:100-106 | every contact exactly once, with its alias, in ascending alias order |
| Store.OldestExists | native/src/core/db.rs:113 | a non-empty table has an entry no newer than any other |
| Store.Database.SaveTransit | native/src/core/db.rs:108-115 | inserts under the hex MD5 unless that hash is present; keeps the 100 latest by `received_at`; no evicted entry is newer than a kept one; other tables are unchanged |
| Store.Database.GetRandomTransit | native/src/core/db.rs:117-122 | none exactly when the table is empty, otherwise the packet of some stored row |
| Mesh.Route | native/src/core/mesh.rs:19-42 | unparseable bytes or no identity are dropped; a delivery needs a parsed packet, an identity and a time from 01:00 of 1970 on; a decryption failure is dropped, so the call returns `Ok(())`; it crashes exactly before 01:00 of 1970, or on a packet addressed to us whose nonce is not 24 bytes |
| Mesh.RouteDelivers | native/src/core/mesh.rs:19-36 | delivered exactly when the bytes parse, an identity is stored, the mailbox is ours for the current or previous slot, and decrypt succeeds; the text is the plaintext read as UTF-8 |
| Mesh.RouteDropsUnreadable | native/src/core/mesh.rs:19-24 | bytes that are not a packet, or a missing identity, are dropped |
| Mesh.RouteDropsForeign | native/src/core/mesh.rs:30 | a packet with another mailbox is dropped |
| Mesh.RouteDropsUndecryptable | native/src/core/mesh.rs:32-42 | a packet whose decryption fails is dropped silently, whatever its mailbox |
| Mesh.RouteCrashesOnShortNonce | native/src/core/mesh.rs:28-32 | a packet addressed to us whose nonce is not 24 bytes panics |
| Mesh.Advertise | native/src/core/mesh.rs:45-52 | does not panic; the only error is an encryption failure |
| Mesh.AdvertisementDelivered | native/src/core/mesh.rs:15-52 | an advertisement for a root is delivered as the message to a node holding that root, at a time in the same or the next hour slot |
| Mesh.HandleIncomingBytes | native/src/core/mesh.rs:15-43 | stores a delivered text as a message from "Nearby Peer"; a dropped packet leaves the store as it was; a crash returns the panic; identity, contacts and transit never change |
| Net.EnvelopeJson | native/src/core/net.rs:24-27 | the content object carries base64 of the ciphertext under "p" and base64 of the nonce under "n" |
| Net.Commitment | native/src/core/net.rs:32 | the hashed array is `[0, pubkey, created_at, kind, tags, content]` |
| Net.BuildEvent | native/src/core/net.rs:19-41 | does not panic; errors are an encryption failure or a digest that is not 32 bytes; a built event has `created_at = now`, kind 1, the tag `["t", mailbox(dest, now)]`, and the signer's public key as pubkey |
| Net.EventJson | native/src/core/net.rs:43-53 | the sent object carries the event's id, pubkey, `created_at`, kind, tags, content and sig, so its hashed fields agree with the commitment |
| Net.PublishFrame | native/src/core/net.rs:43-55 | under sound primitives, the sent text parses back to `["EVENT", event object]` |
| Net.BuiltEventIsValid | native/src/core/net.rs:29-41 | the id is the hex of SHA-256 over the commitment, and the signature over the id bytes verifies under the pubkey (NIP-01) |
| Net.SendToRelay | native/src/core/net.rs:14-60 | a failed connect fails first; the EVENT frame goes out exactly when connect, event building and send succeed; the result is Ok exactly when the frame went out and close succeeded |
| Net.SubscriptionFilter | native/src/core/net.rs:66-70 | kinds `[1]`, `#t` is the mailbox of the current slot only, limit 50 |
| Net.SubscriptionRequest | native/src/core/net.rs:66-71 | under sound primitives, the sent text parses back to `["REQ", "gossamer_sub", filter]`, whose filter has kinds `[1]`, `#t` the current slot's mailbox and limit 50 |
| Net.SameSlotEventMatches | native/src/core/net.rs:14-70 | an event sent to a root in some hour matches the subscription of that root's holder in the same hour |
| Net.FrameStep | native/src/core/net.rs:79-103 | a frame that is not text, and a JSON text whose element 0 is "EOSE", stop the loop; text that is not JSON, and JSON whose element 0 is neither "EOSE" nor "EVENT", is skipped; an EVENT is judged by its string content, "" when missing |
| Net.EnvelopeStep | native/src/core/net.rs:85-95 | an EVENT's content never stops the loop; it is skipped when it lacks a string "p" or "n" or when decrypt fails; it crashes with decrypt's panic; it is kept, as the plaintext read as UTF-8, exactly when decrypt succeeds |
| Net.CheckRelay | native/src/core/net.rs:62-106 | fails on connect or send; otherwise the REQ frame is sent and the result is the collection of the frames |
| Net.Collect | native/src/core/net.rs:73-105 | at most one plaintext per frame; a first frame that stops the loop gives no results; the outcome is the results or a panic, never an error |
| Net.CollectIgnoresAfterStop | native/src/core/net.rs:77-104 | no frame after an EOSE, a non-text frame or a stream error contributes |
| Net.CollectAppend | native/src/core/net.rs:77-104 | frames that neither stop nor crash contribute their plaintexts in arrival order, ahead of later frames |
| Net.EnvelopeOpens | native/src/core/net.rs:85-93 | the content of a built event decrypts under the destination root to the message |
| Net.PublishedEventCollected | native/src/core/net.rs:14-95 | an event built for a root, forwarded by the relay, is kept by that root's holder as the message |
| Net.InvalidNonceBase64Panics | native/src/core/net.rs:90-92 | an "n" that is not valid base64 becomes the empty nonce and panics in decrypt instead of being skipped |
| Api.Payload | native/src/api.rs:43-46 | under sound primitives, the payload parses back to an object whose "sender" and "content" are the given strings |
| Api.Classify | native/src/api.rs:67-73 | text that is not JSON gives ("Unknown", the whole text); JSON gives its "sender" string or "Unknown" and its "content" string or "" |
| Api.ClassifyNotJson | native/src/api.rs:71-72 | a result that is not JSON is stored whole as content, with sender "Unknown" |
| Api.ClassifyJson | native/src/api.rs:67-70 | a JSON result gives its "sender" string or "Unknown", and its "content" string or "" |
| Api.ClassifyPayload | native/src/api.rs:43-46 | reading the payload that send_message encrypts gives back its sender and content |
| Api.InitCore | native/src/api.rs:7-17 | an identity is saved only when none is stored; an existing one is never replaced |
| Api.SendMessage | native/src/api.rs:35-57 | invalid hex and a missing identity fail before sending or storing; otherwise the payload goes to the relay, and the content is stored as sent by "Me" whether the send failed or not |
| Api.SyncRow | native/src/api.rs:67-76 | a relay result becomes a row with the fresh id, resolve_sender's alias of the classified sender, the classified content, `now` and `is_me` false; it panics exactly when resolve_sender does |
| Api.SyncedLog | native/src/api.rs:66-77 | sync only appends to the log, at most one row per result, and keeps ids unique |
| Api.FreshAt | native/src/api.rs:75-76 | the k-th row stored is the row of the k-th result under the k-th id |
| Api.SyncedLogAppends | native/src/api.rs:66-77 | with ids that are fresh and distinct and no panic, every result is stored once, in arrival order, after the existing log |
| Api.StoreResults | native/src/api.rs:66-77 | the loop leaves exactly the log that `SyncedLog` describes, or returns its panic |
| Api.SyncOutcome | native/src/api.rs:63-79 | without an identity, or when the relay call fails, nothing is stored |
| Api.SyncMessages | native/src/api.rs:59-87 | stores what `SyncOutcome` describes and returns a page of the resulting log, converted field by field |
| Api.HexResolves | native/src/api.rs:75 | a hex sender never makes resolve_sender panic |
| Api.RelayedMessageSynced | native/src/api.rs:35-87 | what one node sends to another node's root, once forwarded by the relay, is stored by the receiver's sync under the sender's alias (or shortened key), with the content as text |
| Api.PrepareMeshPacket | native/src/api.rs:107-115 | the same hex and identity checks as send_message, then an advertisement of the payload |
| Api.MeshDeliversPayloadUnparsed | native/src/api.rs:107-120 | the mesh receiver stores the whole JSON payload as text; unlike sync, it does not read sender and content out of it |
| Api.GetTransitPacket | native/src/api.rs:122-128 | empty bytes when the transit table is empty, otherwise the packet of some stored row |

## Left out

- Opening SQLite, the WAL and busy-timeout pragmas, and the `?` on every SQL error (native/src/core/db.rs:12-18). The open store is the `Store.Database` object handed to each operation.
- The wall clock is the parameter `now`. The error of `duration_since(UNIX_EPOCH)` for a clock set before 1970 is not modelled.
- The source reads the clock more than once in three places, and the model uses one `now` for each:
  - send_message reads it in send_to_relay and again in save_message.
  - handle_incoming_bytes reads it for the mailbox check (native/src/core/mesh.rs:26) and again in save_message (native/src/core/db.rs:48, called at native/src/core/mesh.rs:35).
  - sync_messages reads it in check_relay for the subscription mailbox (native/src/core/net.rs:66) and again in save_message for every row stored (native/src/core/db.rs:48, called at native/src/api.rs:76). Those saves come after up to 2 seconds of frame collection, so the source's row timestamps can be later than the model's `now`.
- `uuid::new_v4`, `OsRng`, `crypto::generate_identity` and `crypto::get_ephemeral_signer` are parameters: `freshId`, `entropy`, `freshSecret` and the signer's secret key. The last two functions are not part of this model.
- HMAC-SHA256, HKDF, XChaCha20-Poly1305, Argon2, SHA-256, MD5, Schnorr signatures, base64, UTF-8 and serde_json are uninterpreted. Only what `Foreign.Sound` and `Mesh.SerdeSound` state is known of them. In particular, no collision resistance is stated, so the model cannot show that a packet for another slot or another root is never delivered.
- WebSocket I/O is reduced to the `Link` outcomes and a finite sequence of frames. Its end stands for the end of the stream or the 2-second timer. The 100 ms settle sleep and the `tokio::select!` race are not modelled.
- The relay's own selection of events (filter matching, `limit`) is not modelled: `check_relay` is verified for any sequence of frames. `Net.Matches` states NIP-01 matching on kind and `#t` only.
- The relay URL: api.rs passes `state::get_relay()` to `send_to_relay` and `check_relay` (native/src/api.rs:51, 65), but net.rs takes no URL and always uses wss://relay.damus.io. The model follows net.rs. `set_relay_url`, `get_relay_url` and native/src/core/state.rs are not part of this model.
- `mesh::get_next_packet_to_broadcast`, called by get_transit_packet, is defined nowhere. `Api.GetTransitPacket` uses `get_random_transit` in its place.
- The wrappers `get_my_identity`, `add_contact` and `get_contacts` (native/src/api.rs:28-33, 89-105) add nothing beyond `Store.Database.GetIdentity`, `AddContact`, `GetContacts` and `Hex.Encode`, and are not modelled separately. `ingest_mesh_packet` (native/src/api.rs:117-120) is `Mesh.HandleIncomingBytes`.
- The `println!` of a relay send error.
- serde_json refuses input nested more than 128 levels deep. `Foreign.Sound` states the JSON round trip for every value regardless of depth. The values the core builds nest at most four containers deep.
- Schnorr signing is a deterministic function of the message and the secret key. secp256k1's `sign_schnorr` may mix in auxiliary randomness, so the model's signature is one of the valid ones, not necessarily the one the source produces. Only verification of the signature is relied on.
- Api.SyncMessages: after a panic the contract does not state which rows were already stored.
- Mesh.Route: the subtraction `now - 3600` is modelled as the panic of a debug build. A release build's wrap-around is not modelled.
- native/src/core/types.rs is not part of this model.
