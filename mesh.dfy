/** mesh.rs: packets exchanged over the local broadcast mesh. A packet is
    accepted when it carries the local mailbox of the current or the
    previous hour slot and decrypts under the local root; it is then saved
    as a message from "Nearby Peer". Everything else is dropped: nothing is
    saved and nothing enters the transit table. */
module Mesh {
  import opened Base
  import opened Foreign
  import Crypto
  import Store

  const PEER_SENDER: string := "Nearby Peer"

  /** `MeshPacket::Msg`, the only variant. */
  datatype MeshPacket = Msg(mailbox: string, ct: Bytes, nonce: Bytes)

  /** serde_json's `to_vec` and `from_slice` at type `MeshPacket`. */
  datatype Serde = Serde(toVec: MeshPacket -> Bytes, fromSlice: Bytes -> Option<MeshPacket>)

  ghost predicate SerdeSound(serde: Serde) {
    forall m :: serde.fromSlice(serde.toVec(m)) == Some(m)
  }

  /** What handle_incoming_bytes does with the bytes it is given. */
  datatype Routing = Drop | Deliver(text: string) | Crash(reason: string)

  /** The mailboxes a packet may carry to reach `root` at time `now`: those
      of the current and of the previous hour slot. */
  predicate ForUs(p: Primitives, root: Bytes, now: U64, mailbox: string)
    requires now >= Crypto.SLOT_SECONDS
  {
    mailbox == Crypto.Mailbox(p, root, now) || mailbox == Crypto.Mailbox(p, root, now - Crypto.SLOT_SECONDS)
  }

  /** The routing decision of handle_incoming_bytes. `now - 3600` is a `u64`
      subtraction, which panics (overflow check) before 01:00 of 1970. */
  function Route(p: Primitives, serde: Serde, identity: Option<Bytes>, data: Bytes, now: U64): (r: Routing)
    ensures serde.fromSlice(data).None? || identity.None? ==> r == Drop
    ensures serde.fromSlice(data).Some? && identity.Some? && now < Crypto.SLOT_SECONDS ==> r.Crash?
    ensures r.Deliver? ==> serde.fromSlice(data).Some? && identity.Some? && now >= Crypto.SLOT_SECONDS
    ensures serde.fromSlice(data).Some? && identity.Some? && now >= Crypto.SLOT_SECONDS ==>
              var pkt := serde.fromSlice(data).value;
              Crypto.Decrypt(p, identity.value, pkt.nonce, pkt.ct).Err? ==> r == Drop
    ensures r.Crash? <==>
              && serde.fromSlice(data).Some? && identity.Some?
              && (now < Crypto.SLOT_SECONDS ||
                  (ForUs(p, identity.value, now, serde.fromSlice(data).value.mailbox)
                   && |serde.fromSlice(data).value.nonce| != Crypto.NONCE_LEN))
  {
    match serde.fromSlice(data)
    case None => Drop
    case Some(Msg(mailbox, ct, nonce)) =>
      match identity
      case None => Drop
      case Some(root) =>
        if now < Crypto.SLOT_SECONDS then Crash("attempt to subtract with overflow")
        else if ForUs(p, root, now, mailbox) then
          match Crypto.Decrypt(p, root, nonce, ct)
          case Ok(plain) => Deliver(p.utf8Lossy(plain))
          case Err(_) => Drop
          case Panic(m) => Crash(m)
        else Drop
  }

  /** A packet is delivered exactly when it parses, an identity is stored,
      its mailbox is the local one of the current or previous slot, and
      it decrypts; the text delivered is the decrypted bytes as text. */
  lemma RouteDelivers(p: Primitives, serde: Serde, identity: Option<Bytes>, data: Bytes, now: U64)
    ensures Route(p, serde, identity, data, now).Deliver? <==>
              && serde.fromSlice(data).Some?
              && identity.Some?
              && now >= Crypto.SLOT_SECONDS
              && ForUs(p, identity.value, now, serde.fromSlice(data).value.mailbox)
              && Crypto.Decrypt(p, identity.value, serde.fromSlice(data).value.nonce, serde.fromSlice(data).value.ct).Ok?
    ensures Route(p, serde, identity, data, now).Deliver? ==>
              var pkt := serde.fromSlice(data).value;
              Route(p, serde, identity, data, now).text ==
                p.utf8Lossy(Crypto.Decrypt(p, identity.value, pkt.nonce, pkt.ct).value)
  {
  }

  /** Bytes that are not a packet, or a missing identity, are dropped. */
  lemma RouteDropsUnreadable(p: Primitives, serde: Serde, identity: Option<Bytes>, data: Bytes, now: U64)
    requires serde.fromSlice(data).None? || identity.None?
    ensures Route(p, serde, identity, data, now) == Drop
  {
  }

  /** A packet for another mailbox is dropped, whatever its nonce. */
  lemma RouteDropsForeign(p: Primitives, serde: Serde, root: Bytes, data: Bytes, now: U64)
    requires now >= Crypto.SLOT_SECONDS
    requires serde.fromSlice(data).Some? && !ForUs(p, root, now, serde.fromSlice(data).value.mailbox)
    ensures Route(p, serde, Some(root), data, now) == Drop
  {
  }

  /** A packet addressed to us that fails to decrypt is dropped, so
      handle_incoming_bytes still returns `Ok(())`. */
  lemma RouteDropsUndecryptable(p: Primitives, serde: Serde, root: Bytes, data: Bytes, now: U64)
    requires now >= Crypto.SLOT_SECONDS && serde.fromSlice(data).Some?
    requires Crypto.Decrypt(p, root, serde.fromSlice(data).value.nonce, serde.fromSlice(data).value.ct).Err?
    ensures Route(p, serde, Some(root), data, now) == Drop
  {
  }

  /** The nonce comes from the packet: a packet addressed to us whose nonce
      is not 24 bytes reaches decrypt's panic. */
  lemma RouteCrashesOnShortNonce(p: Primitives, serde: Serde, root: Bytes, data: Bytes, now: U64)
    requires now >= Crypto.SLOT_SECONDS
    requires serde.fromSlice(data).Some?
    requires ForUs(p, root, now, serde.fromSlice(data).value.mailbox)
    requires |serde.fromSlice(data).value.nonce| != Crypto.NONCE_LEN
    ensures Route(p, serde, Some(root), data, now).Crash?
  {
  }

  /** generate_advertisement_packet: one encrypt under the destination root
      and the destination's mailbox for `now`. */
  function Advertise(p: Primitives, serde: Serde, destRoot: Bytes, msg: string, now: U64, entropy: Crypto.Entropy): (r: Res<Bytes>)
    ensures !r.Panic?
    ensures r.Err? ==> r.error == EncryptionFailed
  {
    match Crypto.Encrypt(p, destRoot, p.utf8Encode(msg), entropy)
    case Ok((ct, nonce)) => Ok(serde.toVec(Msg(Crypto.Mailbox(p, destRoot, now), ct, nonce)))
    case Err(e) => Err(e)
    case Panic(m) => Panic(m)
  }

  /** An advertisement built for `root` at `sentAt` is delivered as `msg` to
      a node holding `root` in the same or the next hour slot. */
  lemma AdvertisementDelivered(p: Primitives, serde: Serde, root: Bytes, msg: string, sentAt: U64, now: U64, entropy: Crypto.Entropy)
    requires Sound(p) && SerdeSound(serde)
    requires Advertise(p, serde, root, msg, sentAt, entropy).Ok?
    requires now >= Crypto.SLOT_SECONDS
    requires now / Crypto.SLOT_SECONDS == sentAt / Crypto.SLOT_SECONDS
          || now / Crypto.SLOT_SECONDS == sentAt / Crypto.SLOT_SECONDS + 1
    ensures Route(p, serde, Some(root), Advertise(p, serde, root, msg, sentAt, entropy).value, now) == Deliver(msg)
  {
    var (ct, nonce) := Crypto.Encrypt(p, root, p.utf8Encode(msg), entropy).value;
    var pkt := Msg(Crypto.Mailbox(p, root, sentAt), ct, nonce);
    assert serde.fromSlice(serde.toVec(pkt)) == Some(pkt);
    if now / Crypto.SLOT_SECONDS == sentAt / Crypto.SLOT_SECONDS {
      Crypto.MailboxSlotInvariant(p, root, now, sentAt);
    } else {
      assert (now - Crypto.SLOT_SECONDS) / Crypto.SLOT_SECONDS == now / Crypto.SLOT_SECONDS - 1;
      Crypto.MailboxSlotInvariant(p, root, now - Crypto.SLOT_SECONDS, sentAt);
    }
    Crypto.DecryptEncrypt(p, root, p.utf8Encode(msg), entropy);
  }

  /** handle_incoming_bytes: saves a delivered packet's text as a message from
      "Nearby Peer" with a fresh id; returns `Ok(())` for dropped bytes. */
  method HandleIncomingBytes(db: Store.Database, p: Primitives, serde: Serde, data: Bytes, now: U64, freshId: string)
    returns (r: Res<()>)
    requires db.Valid()
    modifies db
    ensures db.Valid()
    ensures match Route(p, serde, old(db.identity), data, now)
            case Drop => r == Ok(()) && db.messages == old(db.messages)
            case Crash(reason) => r == Panic(reason) && db.messages == old(db.messages)
            case Deliver(text) =>
              && db.messages == Store.InsertRow(old(db.messages), Store.MessageRow(freshId, PEER_SENDER, text, now, false))
              && r == if Store.IdTaken(old(db.messages), freshId) then Err(UniqueViolation) else Ok(())
    ensures db.identity == old(db.identity) && db.contacts == old(db.contacts) && db.transit == old(db.transit)
  {
    var identity := db.GetIdentity();
    match Route(p, serde, identity, data, now)
    case Drop => r := Ok(());
    case Crash(reason) => r := Panic(reason);
    case Deliver(text) => r := db.SaveMessage(freshId, PEER_SENDER, text, false, now);
  }
}
