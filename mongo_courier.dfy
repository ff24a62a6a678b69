/**
 * The document-store courier agent (livreur_mongo.py): it reports its position, accepts the
 * offers aimed at it, logs the results of offers it lost, and switches to on_delivery while it
 * carries an assigned job. Each change-stream handler is a loop over the events it receives.
 */
module MongoCourier {
  import opened Common
  import opened MongoStore
  import opened MongoDispatcher

  // ---------------------------------------------------------------- position reports

  /** update_one({"_id": me}, {"$set": {location, status: "available"}}, upsert=True). */
  function Reported(couriers: map<string, Courier>, me: string, loc: Point): map<string, Courier>
  {
    couriers[me := Courier(loc, Available)]
  }

  /** A report is an upsert keyed by the courier id: afterwards the one document with that id holds
      the reported location and "available", whatever it held before; no other courier changes. */
  lemma ReportedSpec(couriers: map<string, Courier>, me: string, loc: Point)
    ensures var c' := Reported(couriers, me, loc);
      && c'.Keys == couriers.Keys + {me}
      && c'[me].location == loc && c'[me].status == Available
      && (forall id :: id in couriers && id != me ==> c'[id] == couriers[id])
  {
  }

  /** A report sent while delivering makes the courier available to the dispatcher again. */
  lemma ReportDuringDelivery(couriers: map<string, Courier>, me: string, loc: Point)
    requires me in couriers && couriers[me].status == OnDelivery
    ensures !IsAvailable(couriers, me)
    ensures IsAvailable(Reported(couriers, me, loc), me)
  {
  }

  /** Only the last report of a walk matters. */
  lemma ReportedTwice(couriers: map<string, Courier>, me: string, a: Point, b: Point)
    ensures Reported(Reported(couriers, me, a), me, b) == Reported(couriers, me, b)
  {
  }

  /** One report. */
  method ReportPosition(db: MongoDb, me: string, loc: Point)
    modifies db
    ensures db.State() == old(db.State()).(couriers := Reported(old(db.couriers), me, loc))
  {
    db.couriers := db.couriers[me := Courier(loc, Available)];
  }

  /** simuler_deplacement: one report per position of the walk, the last one standing. */
  method ReportWalk(db: MongoDb, me: string, walk: seq<Point>)
    modifies db
    ensures walk == [] ==> db.State() == old(db.State())
    ensures walk != [] ==>
      db.State() == old(db.State()).(couriers := Reported(old(db.couriers), me, walk[|walk| - 1]))
  {
    var i := 0;
    while i < |walk|
      invariant 0 <= i <= |walk|
      invariant i == 0 ==> db.State() == old(db.State())
      invariant i > 0 ==> db.State() == old(db.State()).(couriers := Reported(old(db.couriers), me, walk[i - 1]))
    {
      ReportPosition(db, me, walk[i]);
      i := i + 1;
    }
  }

  // ---------------------------------------------------------------- offers

  /** The change-stream filter of ecouter_offres: an inserted OFFERED bid aimed at this courier. */
  predicate IsOfferFor(e: BidChange, me: string)
  {
    e.op == Insert && e.doc.status == Offered && e.doc.targetCourier == me
  }

  /** bids.update_one({"_id": id}, {"$set": {"status": "ACCEPTED"}}): unconditional, and no effect
      when no bid has that id. */
  function AcceptBid(bids: map<string, Bid>, id: string): map<string, Bid>
  {
    if id in bids then bids[id := bids[id].(status := Accepted)] else bids
  }

  /** One event of ecouter_offres: an offer whose job is found is accepted; anything else is skipped. */
  function HandleOffer(db: Db, me: string, e: BidChange): Db
  {
    if IsOfferFor(e, me) && e.doc.jobId in db.jobs then db.(bids := AcceptBid(db.bids, e.id)) else db
  }

  /** Events other than offers for this courier, and offers whose job cannot be found, write nothing;
      otherwise exactly the offered bid becomes ACCEPTED, whatever its current status, and nothing
      else changes. */
  lemma HandleOfferSpec(db: Db, me: string, e: BidChange)
    ensures !(IsOfferFor(e, me) && e.doc.jobId in db.jobs) ==> HandleOffer(db, me, e) == db
    ensures var db' := HandleOffer(db, me, e);
      && db'.jobs == db.jobs && db'.couriers == db.couriers
      && db'.restaurants == db.restaurants && db'.menus == db.menus
      && db'.bids.Keys == db.bids.Keys
      && (forall id :: id in db.bids && id != e.id ==> db'.bids[id] == db.bids[id])
      && (IsOfferFor(e, me) && e.doc.jobId in db.jobs && e.id in db.bids ==>
            db'.bids[e.id] == db.bids[e.id].(status := Accepted))
  {
  }

  function HandleOffers(db: Db, me: string, events: seq<BidChange>): Db
  {
    if events == [] then db
    else HandleOffer(HandleOffers(db, me, events[..|events| - 1]), me, events[|events| - 1])
  }

  /** A bid is accepted by the handler when an offer event for it, aimed at this courier, about a
      job that exists, has arrived. */
  ghost predicate AcceptedBy(events: seq<BidChange>, me: string, jobs: map<string, Job>, id: string)
  {
    exists e :: e in events && IsOfferFor(e, me) && e.id == id && e.doc.jobId in jobs
  }

  /** After a run of the offer handler: the bids accepted are exactly those announced to this
      courier for an existing job; every other document is unchanged. */
  lemma {:induction false} HandleOffersSpec(db: Db, me: string, events: seq<BidChange>)
    ensures var db' := HandleOffers(db, me, events);
      && db'.jobs == db.jobs && db'.couriers == db.couriers
      && db'.restaurants == db.restaurants && db'.menus == db.menus
      && db'.bids.Keys == db.bids.Keys
      && (forall id :: id in db.bids ==>
            db'.bids[id] == if AcceptedBy(events, me, db.jobs, id) then db.bids[id].(status := Accepted)
                            else db.bids[id])
  {
    if events != [] {
      var init, e := events[..|events| - 1], events[|events| - 1];
      HandleOffersSpec(db, me, init);
      var mid := HandleOffers(db, me, init);
      HandleOfferSpec(mid, me, e);
      assert events == init + [e];
      forall id | id in db.bids
        ensures AcceptedBy(events, me, db.jobs, id) <==>
          AcceptedBy(init, me, db.jobs, id) || (IsOfferFor(e, me) && e.id == id && e.doc.jobId in db.jobs)
      {
        if AcceptedBy(events, me, db.jobs, id) {
          var x :| x in events && IsOfferFor(x, me) && x.id == id && x.doc.jobId in db.jobs;
          if x != e {
            assert x in init;
          }
        }
        if AcceptedBy(init, me, db.jobs, id) {
          var x :| x in init && IsOfferFor(x, me) && x.id == id && x.doc.jobId in db.jobs;
          assert x in events;
        }
      }
    }
  }

  /** ecouter_offres over the events it receives. */
  method ListenOffers(db: MongoDb, me: string, events: seq<BidChange>)
    modifies db
    ensures db.State() == HandleOffers(old(db.State()), me, events)
  {
    var i := 0;
    while i < |events|
      invariant 0 <= i <= |events|
      invariant db.State() == HandleOffers(old(db.State()), me, events[..i])
    {
      var change := events[i];
      if IsOfferFor(change, me) && change.doc.jobId in db.jobs {
        if change.id in db.bids {
          db.bids := db.bids[change.id := db.bids[change.id].(status := Accepted)];
        }
      }
      assert events[..i + 1][..i] == events[..i];
      i := i + 1;
    }
    assert events[..i] == events;
  }

  // ---------------------------------------------------------------- results of lost offers

  /** The change-stream filter of ecouter_resultats_offres: an updated bid of this courier that is
      now LOST or EXPIRED. */
  predicate IsResultFor(e: BidChange, me: string)
  {
    e.op == Update && e.doc.targetCourier == me && (e.doc.status == Lost || e.doc.status == BidStatus.Expired)
  }

  /** The two log lines the handler can print. */
  datatype Notice = LostNotice(jobId: string) | ExpiredNotice(jobId: string)

  function NoticeOf(e: BidChange): Notice
  {
    if e.doc.status == Lost then LostNotice(e.doc.jobId) else ExpiredNotice(e.doc.jobId)
  }

  /** The events the result handler reacts to, in arrival order. */
  function ResultEvents(events: seq<BidChange>, me: string): seq<BidChange>
  {
    Filter(events, (e: BidChange) => IsResultFor(e, me))
  }

  /** ecouter_resultats_offres: one notice per matching event, in arrival order, saying LOST or
      EXPIRED as the event does; it writes nothing (it is given no database to write to). */
  method ListenResults(me: string, events: seq<BidChange>) returns (log: seq<Notice>)
    ensures |log| == |ResultEvents(events, me)| <= |events|
    ensures forall k :: 0 <= k < |log| ==> log[k] == NoticeOf(ResultEvents(events, me)[k])
    ensures forall j :: LostNotice(j) in log <==>
      exists e :: e in events && IsResultFor(e, me) && e.doc.status == Lost && e.doc.jobId == j
    ensures forall j :: ExpiredNotice(j) in log <==>
      exists e :: e in events && IsResultFor(e, me) && e.doc.status == BidStatus.Expired && e.doc.jobId == j
  {
    log := [];
    var i := 0;
    while i < |events|
      invariant 0 <= i <= |events|
      invariant |log| == |ResultEvents(events[..i], me)|
      invariant forall k :: 0 <= k < |log| ==> log[k] == NoticeOf(ResultEvents(events[..i], me)[k])
    {
      var change := events[i];
      assert events[..i + 1][..i] == events[..i];
      if IsResultFor(change, me) {
        log := log + [NoticeOf(change)];
      }
      i := i + 1;
    }
    assert events[..i] == events;
    NoticesOfResults(events, me, log);
  }

  /** A log of one notice per matching event names exactly the jobs of the LOST and of the
      EXPIRED events. */
  lemma NoticesOfResults(events: seq<BidChange>, me: string, log: seq<Notice>)
    requires |log| == |ResultEvents(events, me)|
    requires forall k :: 0 <= k < |log| ==> log[k] == NoticeOf(ResultEvents(events, me)[k])
    ensures forall j :: LostNotice(j) in log <==>
      exists e :: e in events && IsResultFor(e, me) && e.doc.status == Lost && e.doc.jobId == j
    ensures forall j :: ExpiredNotice(j) in log <==>
      exists e :: e in events && IsResultFor(e, me) && e.doc.status == BidStatus.Expired && e.doc.jobId == j
  {
    var r := ResultEvents(events, me);
    forall j ensures LostNotice(j) in log <==>
      exists e :: e in events && IsResultFor(e, me) && e.doc.status == Lost && e.doc.jobId == j
    {
      if LostNotice(j) in log {
        var k :| 0 <= k < |log| && log[k] == LostNotice(j);
        assert r[k] in r;
      }
      if exists e :: e in events && IsResultFor(e, me) && e.doc.status == Lost && e.doc.jobId == j {
        var e :| e in events && IsResultFor(e, me) && e.doc.status == Lost && e.doc.jobId == j;
        var m :| 0 <= m < |events| && events[m] == e;
        var k :| 0 <= k < |r| && r[k] == e;
        assert log[k] == LostNotice(j);
      }
    }
    forall j ensures ExpiredNotice(j) in log <==>
      exists e :: e in events && IsResultFor(e, me) && e.doc.status == BidStatus.Expired && e.doc.jobId == j
    {
      if ExpiredNotice(j) in log {
        var k :| 0 <= k < |log| && log[k] == ExpiredNotice(j);
        assert r[k] in r;
      }
      if exists e :: e in events && IsResultFor(e, me) && e.doc.status == BidStatus.Expired && e.doc.jobId == j {
        var e :| e in events && IsResultFor(e, me) && e.doc.status == BidStatus.Expired && e.doc.jobId == j;
        var m :| 0 <= m < |events| && events[m] == e;
        var k :| 0 <= k < |r| && r[k] == e;
        assert log[k] == ExpiredNotice(j);
      }
    }
  }

  // ---------------------------------------------------------------- assignments

  /** The change-stream filter of ecouter_assignations: a job updated to ASSIGNED to this courier. */
  predicate IsAssignmentFor(e: JobChange, me: string)
  {
    e.op == Update && e.doc.status == Assigned && e.doc.selectedCourier == Some(me)
  }

  /** couriers_coll.update_one({"_id": me}, {"$set": {"status": status}}), no upsert. */
  function SetCourierStatus(couriers: map<string, Courier>, me: string, status: CourierStatus): map<string, Courier>
  {
    if me in couriers then couriers[me := couriers[me].(status := status)] else couriers
  }

  /** While delivering the courier is not offered jobs; the delivery's end puts back the record it
      started from when the courier was available (its status is all that changes). */
  lemma DeliveryRoundTrip(couriers: map<string, Courier>, me: string)
    ensures !IsAvailable(SetCourierStatus(couriers, me, OnDelivery), me)
    ensures SetCourierStatus(SetCourierStatus(couriers, me, OnDelivery), me, Available)
         == SetCourierStatus(couriers, me, Available)
    ensures IsAvailable(couriers, me) ==>
      SetCourierStatus(SetCourierStatus(couriers, me, OnDelivery), me, Available) == couriers
    ensures (me in couriers <==> IsAvailable(SetCourierStatus(couriers, me, Available), me))
  {
  }

  /** The write made when this courier's assignment is seen. */
  method StartDelivery(db: MongoDb, me: string)
    modifies db
    ensures db.State() == old(db.State()).(couriers := SetCourierStatus(old(db.couriers), me, OnDelivery))
  {
    if me in db.couriers {
      db.couriers := db.couriers[me := db.couriers[me].(status := OnDelivery)];
    }
  }

  /** simuler_livraison's final write, made when the delivery ends. */
  method FinishDelivery(db: MongoDb, me: string)
    modifies db
    ensures db.State() == old(db.State()).(couriers := SetCourierStatus(old(db.couriers), me, Available))
  {
    if me in db.couriers {
      db.couriers := db.couriers[me := db.couriers[me].(status := Available)];
    }
  }

  /** One assigned job carried to its end: the courier record goes on_delivery, then back to available. */
  method Deliver(db: MongoDb, me: string, e: JobChange)
    modifies db
    ensures !IsAssignmentFor(e, me) ==> db.State() == old(db.State())
    ensures IsAssignmentFor(e, me) && IsAvailable(old(db.couriers), me) ==> db.State() == old(db.State())
    ensures IsAssignmentFor(e, me) ==>
      db.State() == old(db.State()).(couriers := SetCourierStatus(old(db.couriers), me, Available))
  {
    if IsAssignmentFor(e, me) {
      StartDelivery(db, me);
      FinishDelivery(db, me);
      DeliveryRoundTrip(old(db.couriers), me);
    }
  }

  /** ecouter_assignations with each delivery carried to its end before the next event is read:
      once an assignment has been seen, the courier record ends "available" again. */
  method ListenAssignments(db: MongoDb, me: string, events: seq<JobChange>)
    modifies db
    ensures (forall e :: e in events ==> !IsAssignmentFor(e, me)) ==> db.State() == old(db.State())
    ensures (exists e :: e in events && IsAssignmentFor(e, me)) ==>
      db.State() == old(db.State()).(couriers := SetCourierStatus(old(db.couriers), me, Available))
  {
    var i := 0;
    while i < |events|
      invariant 0 <= i <= |events|
      invariant (forall e :: e in events[..i] ==> !IsAssignmentFor(e, me)) ==> db.State() == old(db.State())
      invariant (exists e :: e in events[..i] && IsAssignmentFor(e, me)) ==>
        db.State() == old(db.State()).(couriers := SetCourierStatus(old(db.couriers), me, Available))
    {
      assert events[..i + 1] == events[..i] + [events[i]];
      Deliver(db, me, events[i]);
      i := i + 1;
    }
    assert events[..i] == events;
  }
}
