/**
 * The courier agent of the Redis variant: it reports its position into the geo set
 * `couriers:locations` and reacts to the messages of its private channel
 * `courier:{id}:notify`, answering every NEW_JOB_OFFER with an accept on
 * `jobs:{job_id}:accepts`. ASSIGNED and JOB_LOST messages are only logged.
 */
module RedisCourier {
  import opened Common
  import opened Geo
  import opened RedisStore
  import opened RedisDispatcher

  // ---------------------------------------------------------------- position reports

  /** GEOADD couriers:locations lon lat id; the error a key of another type raises is caught and
      logged, and the keyspace stays as it was. */
  function Report(data: map<string, Value>, me: string, pos: Position): map<string, Value>
  {
    match GeoAdd(data, Locations, me, pos)
    case Some(d) => d
    case None => data
  }

  /** A report upserts this courier's member, and only it: the geo set then holds every courier
      it held before, this one at the reported position and the others where they were. When the
      key holds a hash or a set, the caught error leaves the keyspace as it was. */
  lemma ReportSpec(data: map<string, Value>, me: string, pos: Position)
    ensures var d := Report(data, me, pos);
      && (forall k :: k in data && k != Locations ==> k in d && d[k] == data[k])
      && (forall k :: k in d ==> k in data || k == Locations)
      && (Locations in data && !data[Locations].Geo? ==> d == data)
      && ((Locations in data ==> data[Locations].Geo?) ==>
            && Locations in d && d[Locations].Geo?
            && d[Locations].positions.Keys
                 == (if Locations in data then data[Locations].positions.Keys else {}) + {me}
            && d[Locations].positions[me] == pos
            && (Locations in data ==> forall m :: m in data[Locations].positions && m != me ==>
                  d[Locations].positions[m] == data[Locations].positions[m]))
  {
    AddSpec(data, Locations, me, pos);
  }

  /** Only the last of two reports counts. */
  lemma ReportedTwice(data: map<string, Value>, me: string, a: Position, b: Position)
    ensures Report(Report(data, me, a), me, b) == Report(data, me, b)
  {
    if Locations in data && data[Locations].Geo? {
      assert data[Locations].positions[me := a][me := b] == data[Locations].positions[me := b];
    } else if Locations !in data {
      assert map[me := a][me := b] == map[me := b];
    }
  }

  /** The reporting thread, one iteration per position of the walk: what stays is the last
      report, and nothing is published. */
  method ReportWalk(server: RedisServer, me: string, walk: seq<Position>)
    modifies server
    ensures server.published == old(server.published)
    ensures walk == [] ==> server.data == old(server.data)
    ensures walk != [] ==> server.data == Report(old(server.data), me, walk[|walk| - 1])
  {
    var i := 0;
    while i < |walk|
      invariant 0 <= i <= |walk|
      invariant server.published == old(server.published)
      invariant i == 0 ==> server.data == old(server.data)
      invariant i > 0 ==> server.data == Report(old(server.data), me, walk[i - 1])
    {
      if i > 0 {
        ReportedTwice(old(server.data), me, walk[i - 1], walk[i]);
      }
      server.data := Report(server.data, me, walk[i]);
      i := i + 1;
    }
  }

  // ---------------------------------------------------------------- the private channel

  /** One item of `pubsub.listen()`: its "type" (subscribe confirmations and other kinds besides
      "message") and the decoded JSON data. */
  datatype Entry = Entry(kind: string, payload: Payload)

  /** What the subscription to `courier:{me}:notify` delivers from the server's log: every message
      published on that channel, in order, and none other. */
  function Delivered(log: seq<Message>, me: string): (r: seq<Entry>)
    ensures |r| <= |log|
  {
    if log == [] then []
    else
      var m := log[|log| - 1];
      Delivered(log[..|log| - 1], me) + (if m.channel == NotifyChannel(me) then [Entry("message", m.payload)] else [])
  }

  /** A message on another courier's channel never reaches this one; one on its own channel
      arrives as a "message" entry. */
  lemma DeliveredAppend(log: seq<Message>, me: string, m: Message)
    ensures m.channel == NotifyChannel(me) ==> Delivered(log + [m], me) == Delivered(log, me) + [Entry("message", m.payload)]
    ensures m.channel != NotifyChannel(me) ==> Delivered(log + [m], me) == Delivered(log, me)
    ensures forall other :: other != me && m.channel == NotifyChannel(other) ==> Delivered(log + [m], me) == Delivered(log, me)
  {
    assert (log + [m])[..|log|] == log;
    forall other | other != me && m.channel == NotifyChannel(other)
      ensures Delivered(log + [m], me) == Delivered(log, me)
    {
      NotifyChannelInjective(me, other);
    }
  }

  /** The accept this courier publishes for an offer: its own id, the offer's job id and distance. */
  function Answer(me: string, distance: int, ann: Announcement): Message
  {
    Message(AcceptsChannel(ann.jobId), Accept(me, ann.jobId, distance))
  }

  /** The body of the `for msg in pubsub.listen()` loop: entries that are not messages are
      skipped; an offer is answered; ASSIGNED, JOB_LOST and any other type publish nothing. */
  function Reaction(me: string, e: Entry): seq<Message>
  {
    if e.kind != "message" then []
    else match e.payload
      case NewJobOffer(distance, ann) => [Answer(me, distance, ann)]
      case _ => []
  }

  /** A "message" entry carrying an offer. */
  predicate IsOffer(e: Entry)
  {
    e.kind == "message" && e.payload.NewJobOffer?
  }

  lemma ReactionSpec(me: string, e: Entry)
    ensures |Reaction(me, e)| == if IsOffer(e) then 1 else 0
    ensures IsOffer(e) ==>
      && Reaction(me, e)[0].channel == AcceptsChannel(e.payload.annonce.jobId)
      && Reaction(me, e)[0].payload == Accept(me, e.payload.annonce.jobId, e.payload.distance)
  {
  }

  /** Everything the listener publishes for a sequence of entries, in order. */
  function Reactions(me: string, entries: seq<Entry>): seq<Message>
  {
    if entries == [] then []
    else Reactions(me, entries[..|entries| - 1]) + Reaction(me, entries[|entries| - 1])
  }

  /** The reference: one answer per offer entry, in the order the offers arrived. */
  function Answers(me: string, offers: seq<Entry>): (ms: seq<Message>)
    requires forall i :: 0 <= i < |offers| ==> offers[i].payload.NewJobOffer?
    ensures |ms| == |offers|
  {
    seq(|offers|, i requires 0 <= i < |offers| => Answer(me, offers[i].payload.distance, offers[i].payload.annonce))
  }

  /** The listener answers exactly the offers among its entries, each once, in arrival order,
      and nothing else. */
  lemma {:induction false} ReactionsSpec(me: string, entries: seq<Entry>)
    ensures var offers := Filter(entries, IsOffer);
      && (forall i :: 0 <= i < |offers| ==> offers[i].payload.NewJobOffer?)
      && Reactions(me, entries) == Answers(me, offers)
  {
    OfferEntries(entries);
    if entries != [] {
      var n := |entries| - 1;
      var init, e := entries[..n], entries[n];
      ReactionsSpec(me, init);
      var prev := Filter(init, IsOffer);
      assert Reactions(me, entries) == Reactions(me, init) + Reaction(me, e);
      assert Filter(entries, IsOffer) == prev + (if IsOffer(e) then [e] else []);
      if IsOffer(e) {
        AnswersSnoc(me, prev, e);
      } else {
        assert Reaction(me, e) == [];
      }
    }
  }

  /** The entries an offer filter keeps all carry an offer. */
  lemma OfferEntries(entries: seq<Entry>)
    ensures var offers := Filter(entries, IsOffer);
      forall i :: 0 <= i < |offers| ==> offers[i].payload.NewJobOffer?
  {
    var offers := Filter(entries, IsOffer);
    forall i | 0 <= i < |offers| ensures offers[i].payload.NewJobOffer? {
      assert offers[i] in offers;
    }
  }

  /** One more offer adds its answer at the end. */
  lemma AnswersSnoc(me: string, offers: seq<Entry>, e: Entry)
    requires forall i :: 0 <= i < |offers| ==> offers[i].payload.NewJobOffer?
    requires IsOffer(e)
    ensures Answers(me, offers + [e]) == Answers(me, offers) + [Answer(me, e.payload.distance, e.payload.annonce)]
  {
  }

  lemma ReactionsSnoc(me: string, entries: seq<Entry>, i: nat)
    requires i < |entries|
    ensures Reactions(me, entries[..i + 1]) == Reactions(me, entries[..i]) + Reaction(me, entries[i])
  {
    PrefixSnoc(entries, i);
  }

  /** `ecouter`: the listener publishes its reactions and changes no key. */
  method Listen(server: RedisServer, me: string, entries: seq<Entry>)
    modifies server
    ensures server.data == old(server.data)
    ensures server.published == old(server.published) + Reactions(me, entries)
  {
    var i := 0;
    while i < |entries|
      invariant 0 <= i <= |entries|
      invariant server.data == old(server.data)
      invariant server.published == old(server.published) + Reactions(me, entries[..i])
    {
      var e := entries[i];
      // ASSIGNED, JOB_LOST and the other kinds are only logged.
      if e.kind == "message" && e.payload.NewJobOffer? {
        server.Publish(Answer(me, e.payload.distance, e.payload.annonce));
      }
      ReactionsSnoc(me, entries, i);
      i := i + 1;
    }
    assert entries[..i] == entries;
  }

  /** A targeted courier answering the offer the dispatcher sent it accepts with its own id, the
      job of the offer and the distance the dispatcher measured, which is what the acceptance
      window reads back. */
  lemma OfferAnswered(hits: seq<Hit>, ann: Announcement, i: int)
    requires 0 <= i < |hits|
    ensures var m := OfferMessages(hits, ann)[i];
      && Delivered([m], hits[i].courierId) == [Entry("message", m.payload)]
      && Reaction(hits[i].courierId, Entry("message", m.payload))
           == [Message(AcceptsChannel(ann.jobId), Accept(hits[i].courierId, ann.jobId, hits[i].distance))]
  {
    var m := OfferMessages(hits, ann)[i];
    DeliveredAppend([], hits[i].courierId, m);
    assert [] + [m] == [m];
  }
}
