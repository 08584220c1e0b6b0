/**
 * `ChatUseCase`: the orchestrator that wires the message log to the gossip
 * service. Sending stores then publishes; receiving stores then displays.
 *
 * The orchestrator holds the concrete `BadgerRepo` and `Libp2pService` and
 * calls only `Save`, `Publish` and `Subscribe` on them. A ghost trace records
 * the order of the observable effects; the display callback is the `Displayed`
 * effect together with the sequence `StartReceiving` returns.
 */
module Usecase {
  import opened Octets
  import opened Domain
  import opened Codec
  import opened OrderedTable
  import opened Repository
  import opened P2P

  /** An observable effect of the orchestrator, carrying the message it was applied to. */
  datatype Effect = Saved(m: Message) | Published(m: Message) | Displayed(m: Message)

  /** The effects of sending each message in turn: save, then publish. */
  function Sent(ms: seq<Message>): (es: seq<Effect>)
    ensures |es| == 2 * |ms|
    decreases |ms|
  {
    if ms == [] then []
    else var n := |ms| - 1; Sent(ms[..n]) + [Saved(ms[n]), Published(ms[n])]
  }

  /** The effects of the receive handler over each delivered message: save, then display. */
  function Received(ms: seq<Message>): (es: seq<Effect>)
    ensures |es| == 2 * |ms|
    decreases |ms|
  {
    if ms == [] then []
    else var n := |ms| - 1; Received(ms[..n]) + [Saved(ms[n]), Displayed(ms[n])]
  }

  /** Per message: the save comes first, the publish right after it, for the same message. */
  lemma {:induction false} SentAt(ms: seq<Message>)
    ensures forall i :: 0 <= i < |ms| ==> Sent(ms)[2 * i] == Saved(ms[i]) && Sent(ms)[2 * i + 1] == Published(ms[i])
    decreases |ms|
  {
    if ms != [] {
      var n := |ms| - 1;
      SentAt(ms[..n]);
      forall i | 0 <= i < |ms|
        ensures Sent(ms)[2 * i] == Saved(ms[i]) && Sent(ms)[2 * i + 1] == Published(ms[i])
      {
        if i < n {
          assert ms[..n][i] == ms[i];
        }
      }
    }
  }

  /** Per delivered message: the save comes first, the display right after it, for the same message. */
  lemma {:induction false} ReceivedAt(ms: seq<Message>)
    ensures forall i :: 0 <= i < |ms| ==> Received(ms)[2 * i] == Saved(ms[i]) && Received(ms)[2 * i + 1] == Displayed(ms[i])
    decreases |ms|
  {
    if ms != [] {
      var n := |ms| - 1;
      ReceivedAt(ms[..n]);
      forall i | 0 <= i < |ms|
        ensures Received(ms)[2 * i] == Saved(ms[i]) && Received(ms)[2 * i + 1] == Displayed(ms[i])
      {
        if i < n {
          assert ms[..n][i] == ms[i];
        }
      }
    }
  }

  /** Extending the delivered prefix by one message extends the effects by its save and display. */
  lemma ReceivedStep(ms: seq<Message>, i: nat)
    requires i < |ms|
    ensures Received(ms[..i + 1]) == Received(ms[..i]) + [Saved(ms[i]), Displayed(ms[i])]
  {
    assert ms[..i + 1][..i] == ms[..i];
  }

  class ChatUseCase {
    const repo: BadgerRepo
    const net: Libp2pService
    /** The effects so far, oldest first. */
    ghost var trace: seq<Effect>

    constructor (r: BadgerRepo, p: Libp2pService)
      ensures repo == r && net == p && trace == []
    {
      repo := r;
      net := p;
      trace := [];
    }

    /**
     * `SendMessage`: builds the message from the arguments and the clock
     * reading `now`, saves it, then publishes the same message. The save's
     * outcome is discarded; the result is the publish outcome.
     */
    method SendMessage(sender: Bytes, content: Bytes, now: Time, commit: Status, topic: Status) returns (err: Status)
      modifies this, repo, net
      ensures var m := Message(sender, content, now);
        && trace == old(trace) + [Saved(m), Published(m)]
        && repo.table == (if commit.Ok? then WithMessage(old(repo.table), m) else old(repo.table))
        && net.published == old(net.published) + [Encode(m)]
      ensures err == topic
    {
      var msg := Message(sender, content, now);
      var ignored := repo.Save(msg, commit);
      trace := trace + [Saved(msg)];
      err := net.Publish(msg, topic);
      trace := trace + [Published(msg)];
    }

    /** The handler `StartReceiving` registers: save the message, then display it. */
    method Deliver(m: Message, commit: Status)
      modifies this, repo
      ensures trace == old(trace) + [Saved(m), Displayed(m)]
      ensures repo.table == if commit.Ok? then WithMessage(old(repo.table), m) else old(repo.table)
    {
      var ignored := repo.Save(m, commit);
      trace := trace + [Saved(m)];
      trace := trace + [Displayed(m)];
    }

    /**
     * `StartReceiving` over a finite run of the subscription: every message the
     * receive loop accepts is saved (with its own transaction outcome) and then
     * displayed, in arrival order. The result is the sequence of displayed messages.
     */
    method StartReceiving(pulls: seq<Pull>, commits: seq<Status>) returns (shown: seq<Message>)
      requires |commits| == |Deliveries(net.self, pulls)|
      modifies this, repo
      ensures shown == Deliveries(net.self, pulls)
      ensures trace == old(trace) + Received(shown)
      ensures repo.table == SaveEach(old(repo.table), shown, commits)
    {
      shown := net.Subscribe(pulls);
      DeliverAll(shown, commits);
    }

    /** The registered handler, called once per delivered message in order. */
    method DeliverAll(ms: seq<Message>, commits: seq<Status>)
      requires |commits| == |ms|
      modifies this, repo
      ensures trace == old(trace) + Received(ms)
      ensures repo.table == SaveEach(old(repo.table), ms, commits)
    {
      var i := 0;
      while i < |ms|
        invariant 0 <= i <= |ms|
        invariant trace == old(trace) + Received(ms[..i])
        invariant repo.table == SaveEach(old(repo.table), ms[..i], commits[..i])
      {
        AppendAssociative(old(trace), Received(ms[..i]), [Saved(ms[i]), Displayed(ms[i])]);
        Deliver(ms[i], commits[i]);
        ReceivedStep(ms, i);
        SaveEachStep(old(repo.table), ms, commits, i);
        i := i + 1;
      }
      assert ms[..i] == ms && commits[..i] == commits;
    }
  }

  /**
   * One message gossiped from node `a` to node `b`: `b` saves it exactly as a
   * committed `Save` of the same message would, and displays it; `a` ignores
   * its own echo and so records nothing more.
   */
  lemma GossipReplicates(a: PeerId, b: PeerId, tb: Table, m: Message)
    requires a != b
    ensures var frame := [Got(Frame(a, Encode(m)))];
      && Deliveries(b, frame) == [m]
      && SaveEach(tb, Deliveries(b, frame), [Ok]) == WithMessage(tb, m)
      && Received(Deliveries(b, frame)) == [Saved(m), Displayed(m)]
      && Deliveries(a, frame) == []
  {
    GossipDelivery(a, b, m);
    DeliverOne(tb, m);
  }

  /** The handler run on one message: one committed save, then one display. */
  lemma DeliverOne(t: Table, m: Message)
    ensures SaveEach(t, [m], [Ok]) == WithMessage(t, m)
    ensures Received([m]) == [Saved(m), Displayed(m)]
  {
    var ms, commits: seq<Status> := [m], [Ok];
    assert ms[..1] == ms && commits[..1] == commits;
    assert ms[..0] == [] && commits[..0] == [];
    SaveEachStep(t, ms, commits, 0);
    ReceivedStep(ms, 0);
  }
}
