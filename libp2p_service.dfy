/**
 * `Libp2pService`: publishing to the room's gossip topic, the receive loop
 * over the topic subscription, and the self-skip rule of discovery.
 *
 * The subscription is a finite sequence of `sub.Next` results read in order
 * by one sequential loop; the goroutine, DHT bootstrap, advertising and the
 * unbounded re-query of discovery are outside the model.
 */
module P2P {
  import opened Wrappers
  import opened Octets
  import opened Domain
  import opened Codec

  /** A peer ID, compared for equality only. */
  type PeerId = Bytes

  /** A gossip frame: the peer it was received from and its payload. */
  datatype Frame = Frame(receivedFrom: PeerId, data: Bytes)

  /** One result of `sub.Next`: a frame, or the error that ends the loop. */
  datatype Pull = Got(frame: Frame) | Failed(error: Error)

  /** The per-frame rule: frames from this node are skipped, the rest must decode. */
  function Accept(self: PeerId, f: Frame): (r: Option<Message>)
    ensures r.Some? ==> f.receivedFrom != self
    ensures forall m :: f.data == Encode(m) ==> (r == Some(m) <==> f.receivedFrom != self)
  {
    assert forall m :: f.data == Encode(m) ==> Decode(f.data) == Some(m) by {
      forall m | f.data == Encode(m)
        ensures Decode(f.data) == Some(m)
      {
        DecodeEncode(m);
      }
    }
    if f.receivedFrom == self then None else Decode(f.data)
  }

  /** The messages the receive loop hands to its handler, in arrival order. */
  function Deliveries(self: PeerId, pulls: seq<Pull>): (ms: seq<Message>)
    ensures |ms| <= |pulls|
    ensures forall m :: m in ms ==> exists f :: Got(f) in pulls && Accept(self, f) == Some(m)
    decreases |pulls|
  {
    if pulls == [] then []
    else match pulls[0]
      case Failed(_) => []
      case Got(f) => Handled(self, f) + Deliveries(self, pulls[1..])
  }

  /** The handler calls one frame causes: one if it is accepted, none otherwise. */
  function Handled(self: PeerId, f: Frame): (ms: seq<Message>)
    ensures |ms| <= 1
  {
    match Accept(self, f)
    case Some(m) => [m]
    case None => []
  }

  /** The peers a discovery round dials: every peer found, in order, except this node. */
  function Others(self: PeerId, found: seq<PeerId>): (dialed: seq<PeerId>)
    ensures |dialed| <= |found|
    ensures forall p :: p in dialed ==> p in found && p != self
    decreases |found|
  {
    if found == [] then []
    else (if found[0] == self then [] else [found[0]]) + Others(self, found[1..])
  }

  class Libp2pService {
    /** `host.ID()`. */
    const self: PeerId
    /** The payloads handed to `topic.Publish`, oldest first. */
    var published: seq<Bytes>

    constructor (id: PeerId)
      ensures self == id && published == []
    {
      self := id;
      published := [];
    }

    /** `Publish`: encodes the message, hands it to the topic and returns the topic's error as is. */
    method Publish(m: Message, topic: Status) returns (err: Status)
      modifies this
      ensures published == old(published) + [Encode(m)]
      ensures err == topic
    {
      var payload := Encode(m);
      published := published + [payload];
      err := topic;
    }

    /** `Subscribe`'s loop: the handler calls it makes, until the first `Next` error. */
    method Subscribe(pulls: seq<Pull>) returns (handled: seq<Message>)
      ensures handled == Deliveries(self, pulls)
    {
      handled := [];
      var i := 0;
      while i < |pulls|
        invariant 0 <= i <= |pulls|
        invariant handled + Deliveries(self, pulls[i..]) == Deliveries(self, pulls)
      {
        DeliveriesStep(self, pulls, i);
        if pulls[i].Failed? {
          return;
        }
        var calls := Receive(pulls[i].frame);
        AppendAssociative(handled, calls, Deliveries(self, pulls[i + 1..]));
        handled := handled + calls;
        i := i + 1;
      }
    }

    /** One pass of the loop body: skip our own frames, decode the rest, hand each decoded message on. */
    method Receive(f: Frame) returns (calls: seq<Message>)
      ensures calls == Handled(self, f)
    {
      calls := [];
      if f.receivedFrom == self {
        return;
      }
      var decoded := Decode(f.data);
      if decoded.Some? {
        calls := [decoded.value];
      }
    }

    /** One round of the discovery loop: connect to every peer found except this node. */
    method Discover(found: seq<PeerId>) returns (dialed: seq<PeerId>)
      ensures dialed == Others(self, found)
    {
      dialed := [];
      var i := 0;
      while i < |found|
        invariant 0 <= i <= |found|
        invariant dialed + Others(self, found[i..]) == Others(self, found)
      {
        assert found[i..][0] == found[i] && found[i..][1..] == found[i + 1..];
        if found[i] != self {
          dialed := dialed + [found[i]];
        }
        i := i + 1;
      }
    }
  }

  /** One step of the receive loop, read at position `i`. */
  lemma DeliveriesStep(self: PeerId, pulls: seq<Pull>, i: nat)
    requires i < |pulls|
    ensures Deliveries(self, pulls[i..]) ==
      if pulls[i].Failed? then [] else Handled(self, pulls[i].frame) + Deliveries(self, pulls[i + 1..])
  {
    assert pulls[i..][0] == pulls[i] && pulls[i..][1..] == pulls[i + 1..];
  }

  /** Nothing after the first `Next` error is handled. */
  lemma {:induction false} StopsAtFirstFailure(self: PeerId, before: seq<Pull>, e: Error, after: seq<Pull>)
    ensures Deliveries(self, before + [Failed(e)] + after) == Deliveries(self, before)
    decreases |before|
  {
    var all := before + [Failed(e)] + after;
    if before == [] {
      assert all[0] == Failed(e);
    } else {
      assert all[0] == before[0];
      assert all[1..] == before[1..] + [Failed(e)] + after;
      StopsAtFirstFailure(self, before[1..], e, after);
    }
  }

  /** A frame that is skipped (own origin or undecodable) changes nothing, wherever it arrives. */
  lemma {:induction false} SkippedFrameIgnored(self: PeerId, before: seq<Pull>, f: Frame, after: seq<Pull>)
    requires Accept(self, f) == None
    ensures Deliveries(self, before + [Got(f)] + after) == Deliveries(self, before + after)
    decreases |before|
  {
    var all := before + [Got(f)] + after;
    if before == [] {
      assert all[0] == Got(f) && all[1..] == after;
      assert before + after == after;
    } else {
      assert all[0] == before[0] && (before + after)[0] == before[0];
      assert all[1..] == before[1..] + [Got(f)] + after;
      assert (before + after)[1..] == before[1..] + after;
      SkippedFrameIgnored(self, before[1..], f, after);
    }
  }

  /** Self-echo suppression: a frame from this node's own ID never reaches the handler. */
  lemma OwnFrameIgnored(self: PeerId, before: seq<Pull>, data: Bytes, after: seq<Pull>)
    ensures Deliveries(self, before + [Got(Frame(self, data))] + after) == Deliveries(self, before + after)
  {
    SkippedFrameIgnored(self, before, Frame(self, data), after);
  }

  /** A frame that fails to decode is dropped and the loop goes on with the next one. */
  lemma MalformedFrameIgnored(self: PeerId, before: seq<Pull>, f: Frame, after: seq<Pull>)
    requires Decode(f.data) == None
    ensures Deliveries(self, before + [Got(f)] + after) == Deliveries(self, before + after)
  {
    SkippedFrameIgnored(self, before, f, after);
  }

  /** Before any error, the handler sees the accepted messages of each stretch in turn. */
  lemma {:induction false} DeliveriesAppend(self: PeerId, a: seq<Pull>, b: seq<Pull>)
    requires forall i :: 0 <= i < |a| ==> a[i].Got?
    ensures Deliveries(self, a + b) == Deliveries(self, a) + Deliveries(self, b)
    decreases |a|
  {
    if a == [] {
      assert a + b == b;
    } else {
      assert (a + b)[0] == a[0];
      assert (a + b)[1..] == a[1..] + b;
      DeliveriesAppend(self, a[1..], b);
    }
  }

  /** A run of the subscription with no frame worth handling calls the handler not at all. */
  lemma {:induction false} NothingAccepted(self: PeerId, pulls: seq<Pull>)
    requires forall i :: 0 <= i < |pulls| && pulls[i].Got? ==> Accept(self, pulls[i].frame) == None
    ensures Deliveries(self, pulls) == []
    decreases |pulls|
  {
    if pulls != [] && pulls[0].Got? {
      assert Accept(self, pulls[0].frame) == None;
      NothingAccepted(self, pulls[1..]);
    }
  }

  /** Exactly one handler call per frame that is not our own and decodes. */
  lemma AcceptedFrameDelivered(self: PeerId, f: Frame)
    ensures Deliveries(self, [Got(f)]) == (if f.receivedFrom != self && Decode(f.data).Some? then [Decode(f.data).value] else [])
  {
    assert [Got(f)][1..] == [];
  }

  /**
   * A published message reaches another peer's handler with all three fields
   * intact, and never the publisher's own handler.
   */
  lemma GossipDelivery(publisher: PeerId, receiver: PeerId, m: Message)
    ensures receiver != publisher ==> Deliveries(receiver, [Got(Frame(publisher, Encode(m)))]) == [m]
    ensures Deliveries(publisher, [Got(Frame(publisher, Encode(m)))]) == []
  {
    DecodeEncode(m);
    AcceptedFrameDelivered(receiver, Frame(publisher, Encode(m)));
    AcceptedFrameDelivered(publisher, Frame(publisher, Encode(m)));
  }

  /** Discovery dials a peer exactly when it was found and is not this node, never more often than found. */
  lemma {:induction false} OthersExactly(self: PeerId, found: seq<PeerId>)
    ensures forall p :: p in Others(self, found) <==> p in found && p != self
    ensures |Others(self, found)| <= |found|
    ensures self !in found ==> Others(self, found) == found
    decreases |found|
  {
    if found != [] {
      OthersExactly(self, found[1..]);
      assert found == [found[0]] + found[1..];
    }
  }
}
