/** net.rs: the Nostr relay transport. send_to_relay publishes one kind-1
    event (NIP-01) whose content is the encrypted message and whose single
    `t` tag is the destination's mailbox; check_relay subscribes to the
    local mailbox and decrypts what the relay returns. The WebSocket is
    abstracted: `Link` says which of its steps succeed, and the frames the
    relay delivers before the stream ends or the 2-second timer fires are
    a finite sequence. */
module Net {
  import opened Base
  import opened Foreign
  import Json
  import Hex
  import Crypto

  /** Outcomes of the WebSocket steps: connect_async, send, close. */
  datatype Link = Link(connects: bool, transmits: bool, closes: bool)

  /** A signed Nostr event as send_to_relay lays it out. */
  datatype RelayEvent = RelayEvent(
    id: string, pubkey: string, createdAt: U64, kind: U64,
    tags: seq<seq<string>>, content: string, sig: string)

  const TEXT_NOTE_KIND: U64 := 1
  const SUBSCRIPTION_ID: string := "gossamer_sub"
  const SUBSCRIPTION_LIMIT: U64 := 50

  // ------------------------------------------------------------ publishing

  function StringsJson(ss: seq<string>): (r: Json.Value)
    ensures r.Array? && |r.items| == |ss|
    ensures forall i :: 0 <= i < |ss| ==> r.items[i] == Json.String(ss[i])
  {
    Json.Array(seq(|ss|, i requires 0 <= i < |ss| => Json.String(ss[i])))
  }

  function TagsJson(tags: seq<seq<string>>): (r: Json.Value)
    ensures r.Array? && |r.items| == |tags|
    ensures forall i :: 0 <= i < |tags| ==> r.items[i] == StringsJson(tags[i])
  {
    Json.Array(seq(|tags|, i requires 0 <= i < |tags| => StringsJson(tags[i])))
  }

  /** The one tag of every event: `["t", mailbox]`. */
  function MailboxTags(mailbox: string): seq<seq<string>> {
    [["t", mailbox]]
  }

  /** The event content: a JSON object with the base64 ciphertext under "p"
      and the base64 nonce under "n". */
  function EnvelopeJson(p: Primitives, ct: Bytes, nonce: Bytes): (r: Json.Value)
    ensures Json.AsStr(Json.Get(r, "p")) == Some(p.base64Encode(ct))
    ensures Json.AsStr(Json.Get(r, "n")) == Some(p.base64Encode(nonce))
  {
    Json.Object(map["p" := Json.String(p.base64Encode(ct)), "n" := Json.String(p.base64Encode(nonce))])
  }

  /** NIP-01's serialization for the id: `[0, pubkey, created_at, kind, tags, content]`. */
  function Commitment(pubkey: string, createdAt: U64, kind: U64, tags: seq<seq<string>>, content: string): (r: Json.Value)
    ensures r.Array? && |r.items| == 6 && r.items[0] == Json.Number(0)
    ensures r.items[1] == Json.String(pubkey) && r.items[2] == Json.Number(createdAt)
    ensures r.items[3] == Json.Number(kind) && r.items[4] == TagsJson(tags) && r.items[5] == Json.String(content)
  {
    Json.Array([Json.Number(0), Json.String(pubkey), Json.Number(createdAt), Json.Number(kind), TagsJson(tags), Json.String(content)])
  }

  /** SHA-256 over the UTF-8 of the serialized commitment. */
  function Digest(p: Primitives, pubkey: string, createdAt: U64, kind: U64, tags: seq<seq<string>>, content: string): Bytes {
    p.sha256(p.utf8Encode(p.jsonWrite(Commitment(pubkey, createdAt, kind, tags, content))))
  }

  /** The event send_to_relay builds for `destRoot` at `now`, signed with the
      ephemeral secret key `signer`. `SecpMessage::from_slice` refuses a
      digest that is not 32 bytes. */
  function BuildEvent(p: Primitives, destRoot: Bytes, msg: string, now: U64, entropy: Crypto.Entropy, signer: Bytes): (r: Res<RelayEvent>)
    ensures !r.Panic?
    ensures r.Err? ==> r.error in {EncryptionFailed, InvalidDigest}
    ensures r.Ok? ==>
              && r.value.createdAt == now
              && r.value.kind == TEXT_NOTE_KIND
              && r.value.tags == MailboxTags(Crypto.Mailbox(p, destRoot, now))
              && r.value.pubkey == Hex.Encode(p.schnorrPublic(signer))
    ensures Sound(p) ==> (r.Ok? <==> Crypto.Encrypt(p, destRoot, p.utf8Encode(msg), entropy).Ok?)
  {
    match Crypto.Encrypt(p, destRoot, p.utf8Encode(msg), entropy)
    case Err(e) => Err(e)
    case Panic(m) => Panic(m)
    case Ok((ct, nonce)) =>
      var tags := MailboxTags(Crypto.Mailbox(p, destRoot, now));
      var content := p.jsonWrite(EnvelopeJson(p, ct, nonce));
      var pubkey := Hex.Encode(p.schnorrPublic(signer));
      var digest := Digest(p, pubkey, now, TEXT_NOTE_KIND, tags, content);
      if |digest| != 32 then Err(InvalidDigest)
      else Ok(RelayEvent(Hex.Encode(digest), pubkey, now, TEXT_NOTE_KIND, tags, content,
                         Hex.Encode(p.schnorrSign(digest, signer))))
  }

  /** The event object of the EVENT frame. */
  function EventJson(ev: RelayEvent): (r: Json.Value)
    ensures Json.AsStr(Json.Get(r, "content")) == Some(ev.content)
    ensures Json.Get(r, "created_at") == Json.Number(ev.createdAt) && Json.Get(r, "tags") == TagsJson(ev.tags)
    ensures Json.AsStr(Json.Get(r, "pubkey")) == Some(ev.pubkey) && Json.Get(r, "kind") == Json.Number(ev.kind)
    ensures Json.AsStr(Json.Get(r, "id")) == Some(ev.id) && Json.AsStr(Json.Get(r, "sig")) == Some(ev.sig)
  {
    Json.Object(map[
      "id" := Json.String(ev.id),
      "pubkey" := Json.String(ev.pubkey),
      "created_at" := Json.Number(ev.createdAt),
      "kind" := Json.Number(ev.kind),
      "tags" := TagsJson(ev.tags),
      "content" := Json.String(ev.content),
      "sig" := Json.String(ev.sig)])
  }

  /** The text frame `["EVENT", event]` that is sent. */
  function PublishFrame(p: Primitives, ev: RelayEvent): (r: string)
    ensures Sound(p) ==> p.jsonParse(r) == Some(Json.Array([Json.String("EVENT"), EventJson(ev)]))
  {
    p.jsonWrite(Json.Array([Json.String("EVENT"), EventJson(ev)]))
  }

  /** NIP-01 validity: the id is the hex of the digest of the event's own
      fields, and the signature over the digest verifies under the pubkey. */
  ghost predicate Nip01Valid(p: Primitives, ev: RelayEvent) {
    var digest := Digest(p, ev.pubkey, ev.createdAt, ev.kind, ev.tags, ev.content);
    && Hex.Decode(ev.id) == Some(digest)
    && Hex.Decode(ev.pubkey).Some?
    && Hex.Decode(ev.sig).Some?
    && p.schnorrVerify(digest, Hex.Decode(ev.pubkey).value, Hex.Decode(ev.sig).value)
  }

  lemma BuiltEventIsValid(p: Primitives, destRoot: Bytes, msg: string, now: U64, entropy: Crypto.Entropy, signer: Bytes)
    requires Sound(p)
    requires BuildEvent(p, destRoot, msg, now, entropy, signer).Ok?
    ensures Nip01Valid(p, BuildEvent(p, destRoot, msg, now, entropy, signer).value)
  {
    var ev := BuildEvent(p, destRoot, msg, now, entropy, signer).value;
    var digest := Digest(p, ev.pubkey, ev.createdAt, ev.kind, ev.tags, ev.content);
    assert ev.id == Hex.Encode(digest);
    assert ev.sig == Hex.Encode(p.schnorrSign(digest, signer));
    Hex.DecodeEncode(digest);
    Hex.DecodeEncode(p.schnorrPublic(signer));
    Hex.DecodeEncode(p.schnorrSign(digest, signer));
  }

  /** What send_to_relay transmitted, and what it returned. */
  datatype SendReport = SendReport(wire: Option<string>, status: Res<()>)

  /** send_to_relay: connects first, so a failed connection hides an
      encryption failure; the frame counts as transmitted once `send`
      succeeds, even when `close` then fails. */
  function SendToRelay(p: Primitives, destRoot: Bytes, msg: string, now: U64, entropy: Crypto.Entropy, signer: Bytes, link: Link): (rep: SendReport)
    ensures !link.connects ==> rep == SendReport(None, Err(ConnectFailed))
    ensures rep.wire.Some? <==> link.connects && link.transmits && BuildEvent(p, destRoot, msg, now, entropy, signer).Ok?
    ensures rep.wire.Some? ==> rep.wire.value == PublishFrame(p, BuildEvent(p, destRoot, msg, now, entropy, signer).value)
    ensures rep.status.Ok? <==> rep.wire.Some? && link.closes
    ensures !rep.status.Panic?
  {
    if !link.connects then SendReport(None, Err(ConnectFailed))
    else
      match BuildEvent(p, destRoot, msg, now, entropy, signer)
      case Err(e) => SendReport(None, Err(e))
      case Panic(m) => SendReport(None, Panic(m))
      case Ok(ev) =>
        if !link.transmits then SendReport(None, Err(SendFailed))
        else SendReport(Some(PublishFrame(p, ev)), if link.closes then Ok(()) else Err(CloseFailed))
  }

  // ------------------------------------------------------------ subscribing

  /** A NIP-01 filter, as far as check_relay uses one. */
  datatype Filter = Filter(kinds: seq<U64>, tagT: seq<string>, limit: U64)

  /** The filter of check_relay: text notes tagged with the local mailbox of
      the current slot, at most 50 of them. */
  function SubscriptionFilter(p: Primitives, myRoot: Bytes, now: U64): (f: Filter)
    ensures f.kinds == [TEXT_NOTE_KIND] && f.limit == SUBSCRIPTION_LIMIT
    ensures f.tagT == [Crypto.Mailbox(p, myRoot, now)]
  {
    Filter([TEXT_NOTE_KIND], [Crypto.Mailbox(p, myRoot, now)], SUBSCRIPTION_LIMIT)
  }

  function FilterJson(f: Filter): Json.Value {
    Json.Object(map[
      "kinds" := Json.Array(seq(|f.kinds|, i requires 0 <= i < |f.kinds| => Json.Number(f.kinds[i]))),
      "#t" := StringsJson(f.tagT),
      "limit" := Json.Number(f.limit)])
  }

  /** The text frame `["REQ", "gossamer_sub", filter]`. */
  function SubscriptionRequest(p: Primitives, myRoot: Bytes, now: U64): (r: string)
    ensures Sound(p) ==>
              p.jsonParse(r) == Some(Json.Array([Json.String("REQ"), Json.String(SUBSCRIPTION_ID),
                                                 FilterJson(SubscriptionFilter(p, myRoot, now))]))
    ensures Sound(p) ==>
              var filter := Json.At(p.jsonParse(r).value, 2);
              && Json.Get(filter, "kinds") == Json.Array([Json.Number(TEXT_NOTE_KIND)])
              && Json.Get(filter, "#t") == Json.Array([Json.String(Crypto.Mailbox(p, myRoot, now))])
              && Json.Get(filter, "limit") == Json.Number(SUBSCRIPTION_LIMIT)
  {
    p.jsonWrite(Json.Array([Json.String("REQ"), Json.String(SUBSCRIPTION_ID), FilterJson(SubscriptionFilter(p, myRoot, now))]))
  }

  /** NIP-01 matching on kind and `#t`, which is what the relay applies. */
  predicate Matches(f: Filter, ev: RelayEvent) {
    && (exists i :: 0 <= i < |f.kinds| && f.kinds[i] == ev.kind)
    && (exists i, j :: 0 <= i < |ev.tags| && 0 <= j < |f.tagT| && |ev.tags[i]| >= 2 && ev.tags[i][0] == "t" && ev.tags[i][1] == f.tagT[j])
  }

  /** An event sent to `root` is selected by the subscription of a node
      holding `root` in the same hour slot. */
  lemma SameSlotEventMatches(p: Primitives, root: Bytes, msg: string, sentAt: U64, now: U64, entropy: Crypto.Entropy, signer: Bytes)
    requires BuildEvent(p, root, msg, sentAt, entropy, signer).Ok?
    requires now / Crypto.SLOT_SECONDS == sentAt / Crypto.SLOT_SECONDS
    ensures Matches(SubscriptionFilter(p, root, now), BuildEvent(p, root, msg, sentAt, entropy, signer).value)
  {
    var ev := BuildEvent(p, root, msg, sentAt, entropy, signer).value;
    var f := SubscriptionFilter(p, root, now);
    Crypto.MailboxSlotInvariant(p, root, now, sentAt);
    assert f.kinds[0] == ev.kind;
    assert ev.tags[0][0] == "t" && ev.tags[0][1] == f.tagT[0];
  }

  // ------------------------------------------------------------ collecting

  /** What `ws.next()` yields: a text frame, another kind of frame (binary,
      ping, pong, close), or a stream error. */
  datatype Frame = Text(txt: string) | NonText | StreamError

  /** The effect of one frame on the collection loop. */
  datatype Step = Stop | Skip | Keep(text: string) | Crash(reason: string)

  /** An EVENT's content: kept when it is a JSON object with string "p" and
      "n" that decrypt under `myRoot`. Base64 that does not decode becomes
      empty bytes (`unwrap_or_default`). */
  function EnvelopeStep(p: Primitives, myRoot: Bytes, content: string): (s: Step)
    ensures s != Stop
    ensures var j := p.jsonParse(content).GetOr(Json.Null);
            var ps := Json.AsStr(Json.Get(j, "p"));
            var ns := Json.AsStr(Json.Get(j, "n"));
            && (ps.None? || ns.None? ==> s == Skip)
            && (ps.Some? && ns.Some? ==>
                  var d := Crypto.Decrypt(p, myRoot, p.base64Decode(ns.value).GetOr([]), p.base64Decode(ps.value).GetOr([]));
                  && (s.Keep? <==> d.Ok?)
                  && (d.Ok? ==> s.text == p.utf8Lossy(d.value))
                  && (s == Skip <==> d.Err?)
                  && (s.Crash? <==> d.Panic?)
                  && (d.Panic? ==> s.reason == d.reason))
  {
    var j := p.jsonParse(content).GetOr(Json.Null);
    match (Json.AsStr(Json.Get(j, "p")), Json.AsStr(Json.Get(j, "n")))
    case (Some(ps), Some(ns)) =>
      var ct := p.base64Decode(ps).GetOr([]);
      var nonce := p.base64Decode(ns).GetOr([]);
      (match Crypto.Decrypt(p, myRoot, nonce, ct)
       case Ok(plain) => Keep(p.utf8Lossy(plain))
       case Err(_) => Skip
       case Panic(m) => Crash(m))
    case _ => Skip
  }

  /** One turn of check_relay's loop. Text that is not JSON is skipped;
      `v[0] == "EOSE"` and any frame that is not text end the loop. */
  function FrameStep(p: Primitives, myRoot: Bytes, f: Frame): (s: Step)
    ensures !f.Text? ==> s == Stop
    ensures f.Text? && p.jsonParse(f.txt).None? ==> s == Skip
    ensures f.Text? && p.jsonParse(f.txt).Some? ==>
              var v := p.jsonParse(f.txt).value;
              && (Json.At(v, 0) == Json.String("EOSE") ==> s == Stop)
              && (Json.At(v, 0) != Json.String("EOSE") && Json.At(v, 0) != Json.String("EVENT") ==> s == Skip)
              && (Json.At(v, 0) == Json.String("EVENT") ==>
                    s == EnvelopeStep(p, myRoot, Json.AsStr(Json.Get(Json.At(v, 2), "content")).GetOr("")))
  {
    match f
    case NonText => Stop
    case StreamError => Stop
    case Text(txt) =>
      match p.jsonParse(txt)
      case None => Skip
      case Some(v) =>
        if Json.At(v, 0) == Json.String("EOSE") then Stop
        else if Json.At(v, 0) == Json.String("EVENT") then
          EnvelopeStep(p, myRoot, Json.AsStr(Json.Get(Json.At(v, 2), "content")).GetOr(""))
        else Skip
  }

  /** The plaintexts collected from `frames`, in arrival order, up to the
      first frame that stops the loop; a panic in decrypt aborts the call. */
  function Collect(p: Primitives, myRoot: Bytes, frames: seq<Frame>): (r: Res<seq<string>>)
    ensures !r.Err?
    ensures r.Ok? ==> |r.value| <= |frames|
    ensures frames != [] && FrameStep(p, myRoot, frames[0]) == Stop ==> r == Ok([])
    decreases |frames|
  {
    if frames == [] then Ok([])
    else
      match FrameStep(p, myRoot, frames[0])
      case Stop => Ok([])
      case Skip => Collect(p, myRoot, frames[1..])
      case Crash(m) => Panic(m)
      case Keep(t) => Within([t], Collect(p, myRoot, frames[1..]))
  }

  /** `r` with `acc` in front of its results. */
  function Within(acc: seq<string>, r: Res<seq<string>>): (w: Res<seq<string>>)
    ensures r.Ok? <==> w.Ok?
    ensures r.Ok? ==> w.value == acc + r.value
    ensures !r.Ok? ==> w == r
  {
    if r.Ok? then Ok(acc + r.value) else r
  }

  lemma WithinWithin(a: seq<string>, b: seq<string>, r: Res<seq<string>>)
    ensures Within(a, Within(b, r)) == Within(a + b, r)
  {
    if r.Ok? {
      assert a + (b + r.value) == (a + b) + r.value;
    }
  }

  lemma WithinNothing(r: Res<seq<string>>)
    ensures Within([], r) == r
  {
    if r.Ok? {
      assert [] + r.value == r.value;
    }
  }

  /** check_relay. `req` is the subscription frame, when its send succeeded. */
  method CheckRelay(p: Primitives, myRoot: Bytes, now: U64, link: Link, frames: seq<Frame>)
    returns (req: Option<string>, r: Res<seq<string>>)
    ensures req == if link.connects && link.transmits then Some(SubscriptionRequest(p, myRoot, now)) else None
    ensures !link.connects ==> r == Err(ConnectFailed)
    ensures link.connects && !link.transmits ==> r == Err(SendFailed)
    ensures link.connects && link.transmits ==> r == Collect(p, myRoot, frames)
  {
    if !link.connects {
      return None, Err(ConnectFailed);
    }
    if !link.transmits {
      return None, Err(SendFailed);
    }
    req := Some(SubscriptionRequest(p, myRoot, now));
    var results: seq<string> := [];
    var i := 0;
    assert frames[i..] == frames;
    WithinNothing(Collect(p, myRoot, frames));
    while i < |frames|
      invariant 0 <= i <= |frames|
      invariant Collect(p, myRoot, frames) == Within(results, Collect(p, myRoot, frames[i..]))
    {
      assert frames[i..][0] == frames[i] && frames[i..][1..] == frames[i + 1..];
      var step := FrameStep(p, myRoot, frames[i]);
      if step.Stop? {
        assert results + [] == results;
        return req, Ok(results);
      } else if step.Crash? {
        return req, Panic(step.reason);
      } else if step.Keep? {
        WithinWithin(results, [step.text], Collect(p, myRoot, frames[i + 1..]));
        results := results + [step.text];
      }
      i := i + 1;
    }
    assert frames[i..] == [];
    assert results + [] == results;
    r := Ok(results);
  }

  /** No frame after one that stops the loop contributes. */
  lemma {:induction false} CollectIgnoresAfterStop(p: Primitives, myRoot: Bytes, pre: seq<Frame>, stop: Frame, post: seq<Frame>)
    requires FrameStep(p, myRoot, stop) == Stop
    ensures Collect(p, myRoot, pre + [stop] + post) == Collect(p, myRoot, pre + [stop])
    decreases |pre|
  {
    if pre == [] {
      assert (pre + [stop] + post)[0] == stop && (pre + [stop])[0] == stop;
    } else {
      assert (pre + [stop] + post)[0] == pre[0] && (pre + [stop])[0] == pre[0];
      assert (pre + [stop] + post)[1..] == pre[1..] + [stop] + post;
      assert (pre + [stop])[1..] == pre[1..] + [stop];
      CollectIgnoresAfterStop(p, myRoot, pre[1..], stop, post);
    }
  }

  /** Frames that neither stop nor crash the loop contribute their plaintexts
      in order, ahead of whatever the later frames contribute. */
  lemma {:induction false} CollectAppend(p: Primitives, myRoot: Bytes, xs: seq<Frame>, ys: seq<Frame>)
    requires forall i :: 0 <= i < |xs| ==> FrameStep(p, myRoot, xs[i]).Skip? || FrameStep(p, myRoot, xs[i]).Keep?
    ensures Collect(p, myRoot, xs).Ok?
    ensures Collect(p, myRoot, xs + ys) == Within(Collect(p, myRoot, xs).value, Collect(p, myRoot, ys))
    decreases |xs|
  {
    if xs == [] {
      assert xs + ys == ys;
      WithinNothing(Collect(p, myRoot, ys));
    } else {
      assert (xs + ys)[0] == xs[0];
      assert (xs + ys)[1..] == xs[1..] + ys;
      CollectAppend(p, myRoot, xs[1..], ys);
      var rest := Collect(p, myRoot, xs[1..]).value;
      if FrameStep(p, myRoot, xs[0]).Keep? {
        WithinWithin([FrameStep(p, myRoot, xs[0]).text], rest, Collect(p, myRoot, ys));
      }
    }
  }

  /** A single kept frame is collected alone. */
  lemma CollectOne(p: Primitives, myRoot: Bytes, f: Frame)
    requires FrameStep(p, myRoot, f).Keep?
    ensures Collect(p, myRoot, [f]) == Ok([FrameStep(p, myRoot, f).text])
  {
    assert [f][1..] == [];
    assert [FrameStep(p, myRoot, f).text] + [] == [FrameStep(p, myRoot, f).text];
  }

  /** The frame in which a relay forwards a stored event to a subscription. */
  function RelayedFrame(p: Primitives, subscription: string, ev: RelayEvent): Frame {
    Text(p.jsonWrite(Json.Array([Json.String("EVENT"), Json.String(subscription), EventJson(ev)])))
  }

  /** The content of a built event opens, under the destination root, to
      the message. */
  lemma EnvelopeOpens(p: Primitives, root: Bytes, msg: string, sentAt: U64, entropy: Crypto.Entropy, signer: Bytes)
    requires Sound(p)
    requires BuildEvent(p, root, msg, sentAt, entropy, signer).Ok?
    ensures EnvelopeStep(p, root, BuildEvent(p, root, msg, sentAt, entropy, signer).value.content) == Keep(msg)
  {
    var (ct, nonce) := Crypto.Encrypt(p, root, p.utf8Encode(msg), entropy).value;
    var env := EnvelopeJson(p, ct, nonce);
    assert BuildEvent(p, root, msg, sentAt, entropy, signer).value.content == p.jsonWrite(env);
    assert p.base64Decode(p.base64Encode(ct)) == Some(ct);
    assert p.base64Decode(p.base64Encode(nonce)) == Some(nonce);
    Crypto.DecryptEncrypt(p, root, p.utf8Encode(msg), entropy);
    assert p.utf8Lossy(p.utf8Encode(msg)) == msg;
  }

  /** A relayed EVENT frame is handed to EnvelopeStep with the event's content. */
  lemma RelayedFrameStep(p: Primitives, myRoot: Bytes, subscription: string, ev: RelayEvent)
    requires Sound(p)
    ensures FrameStep(p, myRoot, RelayedFrame(p, subscription, ev)) == EnvelopeStep(p, myRoot, ev.content)
  {
    var v := Json.Array([Json.String("EVENT"), Json.String(subscription), EventJson(ev)]);
    assert p.jsonParse(p.jsonWrite(v)) == Some(v);
    assert Json.At(v, 0) == Json.String("EVENT");
    assert Json.At(v, 2) == EventJson(ev);
  }

  /** End to end over the relay: the event send_to_relay builds for `root`,
      forwarded back, is kept by check_relay under `root` as the message. */
  lemma PublishedEventCollected(p: Primitives, root: Bytes, msg: string, sentAt: U64, entropy: Crypto.Entropy, signer: Bytes, subscription: string)
    requires Sound(p)
    requires BuildEvent(p, root, msg, sentAt, entropy, signer).Ok?
    ensures FrameStep(p, root, RelayedFrame(p, subscription, BuildEvent(p, root, msg, sentAt, entropy, signer).value)) == Keep(msg)
  {
    RelayedFrameStep(p, root, subscription, BuildEvent(p, root, msg, sentAt, entropy, signer).value);
    EnvelopeOpens(p, root, msg, sentAt, entropy, signer);
  }

  /** An envelope whose "n" is not valid base64 gets the empty nonce, which
      decrypt does not accept: the call panics instead of skipping it. */
  lemma InvalidNonceBase64Panics(p: Primitives, myRoot: Bytes, content: string)
    requires p.jsonParse(content).Some?
    requires Json.AsStr(Json.Get(p.jsonParse(content).value, "p")).Some?
    requires Json.AsStr(Json.Get(p.jsonParse(content).value, "n")).Some?
    requires p.base64Decode(Json.AsStr(Json.Get(p.jsonParse(content).value, "n")).value).None?
    ensures EnvelopeStep(p, myRoot, content).Crash?
  {
  }
}
