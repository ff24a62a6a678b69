/**
 * The document-store dispatcher (manager_mongo.py): one cycle offers a job to the nearest
 * available couriers through OFFERED bids, collects the bids they turn to ACCEPTED during the
 * window, picks the closest acceptor and commits WON / LOST / EXPIRED.
 */
module MongoDispatcher {
  import opened Common
  import opened Geo
  import opened Selection
  import opened MongoStore

  predicate IsAvailable(couriers: map<string, Courier>, id: string)
  {
    id in couriers && couriers[id].status == Available
  }

  /** `$geoNear` restricted by the query {"status": "available"}, then `$limit: 5`. */
  function NearestAvailable(couriers: map<string, Courier>, ranked: seq<Hit>): seq<Hit>
  {
    Nearest(ranked, (h: Hit) => IsAvailable(couriers, h.courierId), MaxCandidates)
  }

  /** At most 5 couriers are targeted, all of them available, closest first, no one twice; an
      available courier that is not targeted is at least as far as every targeted one. */
  lemma NearestAvailableSpec(couriers: map<string, Courier>, ranked: seq<Hit>)
    requires IsRanking(couriers.Keys, ranked)
    ensures var r := NearestAvailable(couriers, ranked);
      && |r| <= MaxCandidates
      && (forall i :: 0 <= i < |r| ==> IsAvailable(couriers, r[i].courierId))
      && Ascending(r) && Distinct(Ids(r))
      && (forall j :: (0 <= j < |ranked| && IsAvailable(couriers, ranked[j].courierId)
                       && ranked[j].courierId !in Ids(r)) ==>
            |r| == MaxCandidates && forall i :: 0 <= i < |r| ==> r[i].distance <= ranked[j].distance)
  {
    var eligible := (h: Hit) => IsAvailable(couriers, h.courierId);
    NearestSpec(ranked, eligible, MaxCandidates);
    var r := NearestAvailable(couriers, ranked);
    forall j | 0 <= j < |ranked| && IsAvailable(couriers, ranked[j].courierId) && ranked[j].courierId !in Ids(r)
      ensures ranked[j] !in r
    {
      forall i | 0 <= i < |r| ensures r[i] != ranked[j] {
        assert Ids(r)[i] == r[i].courierId;
      }
    }
  }

  // ---------------------------------------------------------------- offer fan-out

  /** uuid4 supplies the job id and one bid id per candidate; the cycle relies on them being new. */
  ghost predicate FreshIds(db: Db, jobId: string, bidIds: seq<string>)
  {
    && jobId !in db.jobs
    && (forall id :: id in db.bids ==> db.bids[id].jobId != jobId)
    && |bidIds| >= MaxCandidates
    && Distinct(bidIds)
    && (forall k :: 0 <= k < |bidIds| ==> bidIds[k] !in db.bids)
  }

  /** The job document: PENDING, no selected courier. */
  function NewJob(restaurantId: string, restaurant: RestaurantDoc, menu: MenuDoc, dropoff: string, reward: int): Job
  {
    Job(restaurant.name, dropoff, reward, restaurantId, menu.item, Pending, None)
  }

  /** The offer for one candidate. */
  function OfferBid(jobId: string, h: Hit): Bid
  {
    Bid(jobId, h.courierId, Offered, h.distance)
  }

  /** The bids inserted for the candidates `nearby`, the k-th one under `bidIds[k]`. */
  function InsertBids(bids: map<string, Bid>, jobId: string, nearby: seq<Hit>, bidIds: seq<string>): map<string, Bid>
    requires |nearby| <= |bidIds|
  {
    if nearby == [] then bids
    else
      var n := |nearby| - 1;
      InsertBids(bids, jobId, nearby[..n], bidIds)[bidIds[n] := OfferBid(jobId, nearby[n])]
  }

  /** What `offrir_course_aux_livreurs_proches` returns: the job id (None when no courier was
      found), the ids of the bids sent and the targeted couriers, in candidate order. */
  datatype OfferResult = OfferResult(jobId: Option<string>, bidIds: seq<string>, courierIds: seq<string>)

  function Offer(db: Db, restaurantId: string, restaurant: RestaurantDoc, menu: MenuDoc,
                 ranked: seq<Hit>, jobId: string, bidIds: seq<string>, dropoff: string, reward: int): (Db, OfferResult)
    requires FreshIds(db, jobId, bidIds)
  {
    var nearby := NearestAvailable(db.couriers, ranked);
    if nearby == [] then (db, OfferResult(None, [], []))
    else
      var jobs := db.jobs[jobId := NewJob(restaurantId, restaurant, menu, dropoff, reward)];
      (db.(jobs := jobs, bids := InsertBids(db.bids, jobId, nearby, bidIds)),
       OfferResult(Some(jobId), bidIds[..|nearby|], Ids(nearby)))
  }

  lemma {:induction false} InsertBidsSpec(bids: map<string, Bid>, jobId: string, nearby: seq<Hit>, bidIds: seq<string>)
    requires |nearby| <= |bidIds| && Distinct(bidIds)
    requires forall k :: 0 <= k < |bidIds| ==> bidIds[k] !in bids
    ensures var b := InsertBids(bids, jobId, nearby, bidIds);
      && b.Keys == bids.Keys + (set k | 0 <= k < |nearby| :: bidIds[k])
      && (forall id :: id in bids ==> b[id] == bids[id])
      && (forall k :: 0 <= k < |nearby| ==> b[bidIds[k]] == OfferBid(jobId, nearby[k]))
  {
    if nearby != [] {
      var n := |nearby| - 1;
      InsertBidsSpec(bids, jobId, nearby[..n], bidIds);
      var b := InsertBids(bids, jobId, nearby[..n], bidIds);
      assert (set k | 0 <= k < |nearby| :: bidIds[k]) == (set k | 0 <= k < n :: bidIds[k]) + {bidIds[n]};
      forall k | 0 <= k < n ensures bidIds[k] != bidIds[n] && nearby[..n][k] == nearby[k] {
      }
    }
  }

  /** With no available courier nothing is inserted and `(None, [], [])` is returned. Otherwise
      one PENDING job without a selected courier is inserted, and one OFFERED bid per candidate,
      carrying the candidate's id and distance; the returned lists follow candidate order; no
      existing document changes. */
  lemma OfferSpec(db: Db, restaurantId: string, restaurant: RestaurantDoc, menu: MenuDoc,
                  ranked: seq<Hit>, jobId: string, bidIds: seq<string>, dropoff: string, reward: int)
    requires FreshIds(db, jobId, bidIds)
    ensures var (db', res) := Offer(db, restaurantId, restaurant, menu, ranked, jobId, bidIds, dropoff, reward);
      var nearby := NearestAvailable(db.couriers, ranked);
      var n := |nearby|;
      && (n == 0 ==> db' == db && res == OfferResult(None, [], []))
      && (n > 0 ==>
        && res.jobId == Some(jobId)
        && |res.bidIds| == |res.courierIds| == n
        && (forall k :: 0 <= k < n ==> res.bidIds[k] == bidIds[k] && res.courierIds[k] == nearby[k].courierId)
        && db'.jobs.Keys == db.jobs.Keys + {jobId}
        && db'.jobs[jobId].status == Pending && db'.jobs[jobId].selectedCourier == None
        && (forall j :: j in db.jobs ==> j in db'.jobs && db'.jobs[j] == db.jobs[j])
        && (forall id :: id in db'.bids && db'.bids[id].jobId == jobId <==> id in res.bidIds)
        && (forall k :: 0 <= k < n ==>
              db'.bids[bidIds[k]] == Bid(jobId, nearby[k].courierId, Offered, nearby[k].distance))
        && (forall id :: id in db.bids ==> id in db'.bids && db'.bids[id] == db.bids[id])
        && db'.couriers == db.couriers && db'.restaurants == db.restaurants && db'.menus == db.menus)
  {
    var nearby := NearestAvailable(db.couriers, ranked);
    var n := |nearby|;
    if n > 0 {
      InsertedBids(db.bids, jobId, nearby, bidIds);
    }
  }

  /** On a fresh job id, the bids of the job after the inserts are exactly the first bid ids, the
      k-th one offered to the k-th candidate, and the earlier bids stay. */
  lemma InsertedBids(bids: map<string, Bid>, jobId: string, nearby: seq<Hit>, bidIds: seq<string>)
    requires |nearby| <= |bidIds| && Distinct(bidIds)
    requires forall k :: 0 <= k < |bidIds| ==> bidIds[k] !in bids
    requires forall id :: id in bids ==> bids[id].jobId != jobId
    ensures var b := InsertBids(bids, jobId, nearby, bidIds);
      && (forall id :: id in b && b[id].jobId == jobId <==> id in bidIds[..|nearby|])
      && (forall k :: 0 <= k < |nearby| ==>
            bidIds[k] in b && b[bidIds[k]] == Bid(jobId, nearby[k].courierId, Offered, nearby[k].distance))
      && (forall id :: id in bids ==> id in b && b[id] == bids[id])
  {
    var n := |nearby|;
    InsertBidsSpec(bids, jobId, nearby, bidIds);
    var b := InsertBids(bids, jobId, nearby, bidIds);
    forall id | id in b
      ensures b[id].jobId == jobId <==> id in bidIds[..n]
    {
      if id in bids {
        assert id !in bidIds[..n];
      } else {
        var k :| 0 <= k < n && bidIds[k] == id;
        assert bidIds[..n][k] == id;
      }
    }
    forall id | id in bidIds[..n] ensures id in b {
      var k :| 0 <= k < n && bidIds[..n][k] == id;
    }
  }

  /** offrir_course_aux_livreurs_proches: the aggregate query, then one insert for the job and
      one per candidate, appending to the two returned lists. */
  method OfferToNearest(db: MongoDb, restaurantId: string, restaurant: RestaurantDoc, menu: MenuDoc,
                        ranked: seq<Hit>, jobId: string, bidIds: seq<string>, dropoff: string, reward: int)
    returns (res: OfferResult)
    requires FreshIds(db.State(), jobId, bidIds)
    modifies db
    ensures (db.State(), res) == Offer(old(db.State()), restaurantId, restaurant, menu, ranked, jobId, bidIds, dropoff, reward)
  {
    var nearby := NearestAvailable(db.couriers, ranked);
    if nearby == [] {
      return OfferResult(None, [], []);
    }
    db.jobs := db.jobs[jobId := NewJob(restaurantId, restaurant, menu, dropoff, reward)];
    var sent: seq<string> := [];
    var targeted: seq<string> := [];
    var i := 0;
    while i < |nearby|
      invariant 0 <= i <= |nearby|
      invariant db.bids == InsertBids(old(db.bids), jobId, nearby[..i], bidIds)
      invariant sent == bidIds[..i] && targeted == Ids(nearby[..i])
      invariant db.jobs == old(db.jobs)[jobId := NewJob(restaurantId, restaurant, menu, dropoff, reward)]
      invariant db.restaurants == old(db.restaurants) && db.menus == old(db.menus) && db.couriers == old(db.couriers)
    {
      var h := nearby[i];
      db.bids := db.bids[bidIds[i] := OfferBid(jobId, h)];
      sent := sent + [bidIds[i]];
      targeted := targeted + [h.courierId];
      PrefixSnoc(nearby, i);
      PrefixSnoc(bidIds, i);
      IdsSnoc(nearby, i);
      i := i + 1;
    }
    assert nearby[..i] == nearby;
    return OfferResult(Some(jobId), sent, targeted);
  }

  // ---------------------------------------------------------------- acceptance window

  /** A candidate winner record built from an accepted bid. */
  datatype Candidate = Candidate(courierId: string, distance: int, bidId: string)

  function CandidateDistance(c: Candidate): int
  {
    c.distance
  }

  /** The change-stream filter: an update of one of the bids sent for this job, now ACCEPTED. */
  predicate IsAcceptance(e: BidChange, jobId: string, offerIds: seq<string>)
  {
    e.op == Update && e.doc.status == Accepted && e.doc.jobId == jobId && e.id in offerIds
  }

  function CandidateOf(e: BidChange): Candidate
  {
    Candidate(e.doc.targetCourier, e.doc.distance, e.id)
  }

  /** The candidate records appended during the window, in arrival order. */
  function Acceptances(events: seq<BidChange>, jobId: string, offerIds: seq<string>): seq<Candidate>
  {
    if events == [] then []
    else
      var e := events[|events| - 1];
      Acceptances(events[..|events| - 1], jobId, offerIds)
        + (if IsAcceptance(e, jobId, offerIds) then [CandidateOf(e)] else [])
  }

  /** A candidate is collected exactly when a matching event arrived for it. */
  lemma {:induction false} AcceptancesSpec(events: seq<BidChange>, jobId: string, offerIds: seq<string>)
    ensures |Acceptances(events, jobId, offerIds)| <= |events|
    ensures forall c :: c in Acceptances(events, jobId, offerIds) <==>
      exists e :: e in events && IsAcceptance(e, jobId, offerIds) && c == CandidateOf(e)
  {
    if events != [] {
      var init := events[..|events| - 1];
      AcceptancesSpec(init, jobId, offerIds);
      assert events == init + [events[|events| - 1]];
    }
  }

  /** attendre_acceptations: the events seen before the deadline are filtered and appended, and
      the winner is element 0 of the candidates stably sorted by distance. */
  method AwaitAcceptances(jobId: string, offerIds: seq<string>, events: seq<BidChange>)
    returns (winner: Option<Candidate>)
    ensures winner == SelectFirst(Acceptances(events, jobId, offerIds), CandidateDistance)
    ensures winner.None? <==> forall e :: e in events ==> !IsAcceptance(e, jobId, offerIds)
    ensures winner.Some? ==>
      var cands := Acceptances(events, jobId, offerIds);
      && winner.value in cands
      && (forall c :: c in cands ==> winner.value.distance <= c.distance)
      && winner.value == cands[FirstMinIndex(cands, CandidateDistance)]
  {
    var candidates: seq<Candidate> := [];
    var i := 0;
    while i < |events|
      invariant 0 <= i <= |events|
      invariant candidates == Acceptances(events[..i], jobId, offerIds)
    {
      var change := events[i];
      if IsAcceptance(change, jobId, offerIds) {
        candidates := candidates + [CandidateOf(change)];
      }
      assert events[..i + 1][..i] == events[..i];
      i := i + 1;
    }
    assert events[..i] == events;
    AcceptancesSpec(events, jobId, offerIds);
    SelectFirstSpec(candidates, CandidateDistance);
    forall e | e in events && IsAcceptance(e, jobId, offerIds) ensures CandidateOf(e) in candidates {
    }
    assert candidates != [] ==> candidates[0] in candidates;
    if candidates == [] {
      winner := None;
    } else {
      winner := Some(SortBy(candidates, CandidateDistance)[0]);
      var k := FirstMinIndex(candidates, CandidateDistance);
      forall c | c in candidates ensures winner.value.distance <= c.distance {
        var j :| 0 <= j < |candidates| && candidates[j] == c;
      }
    }
  }

  // ---------------------------------------------------------------- commit

  /** jobs.update_one({"_id": jobId}, ...): no effect when no document has that id. */
  function UpdateJob(jobs: map<string, Job>, jobId: string, status: JobStatus, selected: Option<string>): map<string, Job>
  {
    if jobId in jobs then jobs[jobId := jobs[jobId].(status := status, selectedCourier := selected)] else jobs
  }

  function ExpireJob(jobs: map<string, Job>, jobId: string): map<string, Job>
  {
    if jobId in jobs then jobs[jobId := jobs[jobId].(status := JobStatus.Expired)] else jobs
  }

  /** bids.update_many(filter, {"$set": {"status": status}}). */
  function SetStatusWhere(bids: map<string, Bid>, matches: Bid -> bool, status: BidStatus): map<string, Bid>
  {
    map id | id in bids :: if matches(bids[id]) then bids[id].(status := status) else bids[id]
  }

  /** The filter {"job_id": jobId, "targetCourier": winner}. */
  predicate IsWinningBid(b: Bid, jobId: string, winner: string)
  {
    b.jobId == jobId && b.targetCourier == winner
  }

  /** The filter {"job_id": jobId, "targetCourier": {"$in": targeted, "$ne": winner}}; with no
      winner `$ne: None` holds of every string. */
  predicate IsLosingBid(b: Bid, jobId: string, winner: Option<string>, targeted: seq<string>)
  {
    b.jobId == jobId && b.targetCourier in targeted && (winner.None? || b.targetCourier != winner.value)
  }

  /** notifier_selection: with a (truthy) winner the job becomes ASSIGNED and the winner's bid
      WON; then every other targeted bid of the job gets `failStatus`. */
  function CommitSelection(db: Db, jobId: string, winner: Option<string>, targeted: seq<string>, failStatus: BidStatus): Db
  {
    var jobs := if Truthy(winner) then UpdateJob(db.jobs, jobId, Assigned, winner) else db.jobs;
    var bids := if Truthy(winner) then SetStatusWhere(db.bids, b => IsWinningBid(b, jobId, winner.value), Won) else db.bids;
    db.(jobs := jobs, bids := SetStatusWhere(bids, b => IsLosingBid(b, jobId, winner, targeted), failStatus))
  }

  /** Which records the commit changes and which it leaves alone: the job (if present) and the
      bids of this job whose courier is the winner or one of the targeted; nothing else. The
      writes are unconditional: a bid's previous status does not matter. */
  lemma CommitSpec(db: Db, jobId: string, winner: Option<string>, targeted: seq<string>, failStatus: BidStatus)
    ensures var db' := CommitSelection(db, jobId, winner, targeted, failStatus);
      && db'.bids.Keys == db.bids.Keys && db'.jobs.Keys == db.jobs.Keys
      && db'.couriers == db.couriers && db'.restaurants == db.restaurants && db'.menus == db.menus
      && (forall j :: j in db.jobs && j != jobId ==> j in db'.jobs && db'.jobs[j] == db.jobs[j])
      && (Truthy(winner) && jobId in db.jobs ==>
            db'.jobs[jobId] == db.jobs[jobId].(status := Assigned, selectedCourier := winner))
      && (!Truthy(winner) ==> db'.jobs == db.jobs)
      && (forall id :: id in db.bids ==>
            db'.bids[id] ==
              if Truthy(winner) && IsWinningBid(db.bids[id], jobId, winner.value) then db.bids[id].(status := Won)
              else if IsLosingBid(db.bids[id], jobId, winner, targeted) then db.bids[id].(status := failStatus)
              else db.bids[id])
  {
  }

  /** notifier_selection as three writes to the collections. */
  method NotifySelection(db: MongoDb, jobId: string, winner: Option<string>, targeted: seq<string>, failStatus: BidStatus)
    modifies db
    ensures db.State() == CommitSelection(old(db.State()), jobId, winner, targeted, failStatus)
  {
    if Truthy(winner) {
      db.jobs := UpdateJob(db.jobs, jobId, Assigned, winner);
      db.bids := SetStatusWhere(db.bids, b => IsWinningBid(b, jobId, winner.value), Won);
    }
    db.bids := SetStatusWhere(db.bids, b => IsLosingBid(b, jobId, winner, targeted), failStatus);
  }

  // ---------------------------------------------------------------- one cycle

  /** The inputs of one cycle: the sampled restaurant and menu, the proximity ranking of the
      courier documents, the uuid4 values, the random payload, and the bid change events that
      arrive before the window closes. */
  datatype CycleInput = CycleInput(
    restaurantId: string,
    restaurant: RestaurantDoc,
    menu: MenuDoc,
    ranked: seq<Hit>,
    jobId: string,
    bidIds: seq<string>,
    dropoff: string,
    reward: int,
    events: seq<BidChange>)

  datatype CycleOutcome = NoCourier | AssignedTo(courierId: string) | NobodyAccepted

  /** `candidat_gagnant["courier_id"]`, when there is a candidate. */
  function WinnerId(w: Option<Candidate>): Option<string>
  {
    if w.Some? then Some(w.value.courierId) else None
  }

  /** After the wait: with a candidate, notifier_selection with its id and LOST; without one, the
      job set EXPIRED and then notifier_selection with None and EXPIRED. */
  function Settle(db: Db, jobId: string, w: Option<string>, targeted: seq<string>): (Db, CycleOutcome)
  {
    match w
    case Some(c) => (CommitSelection(db, jobId, Some(c), targeted, Lost), AssignedTo(c))
    case None =>
      (CommitSelection(db.(jobs := ExpireJob(db.jobs, jobId)), jobId, None, targeted, BidStatus.Expired), NobodyAccepted)
  }

  /** The body of the `__main__` loop: offer, and unless no job was created, wait and commit. */
  function Cycle(db: Db, input: CycleInput): (Db, CycleOutcome)
    requires FreshIds(db, input.jobId, input.bidIds)
  {
    var offered := Offer(db, input.restaurantId, input.restaurant, input.menu, input.ranked,
                         input.jobId, input.bidIds, input.dropoff, input.reward);
    var db1, res := offered.0, offered.1;
    if !Truthy(res.jobId) then (db1, NoCourier)
    else
      var jobId := res.jobId.value;
      Settle(db1, jobId, WinnerId(SelectFirst(Acceptances(input.events, jobId, res.bidIds), CandidateDistance)),
             res.courierIds)
  }

  method RunCycle(db: MongoDb, input: CycleInput) returns (outcome: CycleOutcome)
    requires FreshIds(db.State(), input.jobId, input.bidIds)
    modifies db
    ensures (db.State(), outcome) == Cycle(old(db.State()), input)
  {
    var res := OfferToNearest(db, input.restaurantId, input.restaurant, input.menu, input.ranked,
                              input.jobId, input.bidIds, input.dropoff, input.reward);
    if !Truthy(res.jobId) {
      return NoCourier;
    }
    var jobId := res.jobId.value;
    var winner := AwaitAcceptances(jobId, res.bidIds, input.events);
    if winner.Some? {
      NotifySelection(db, jobId, Some(winner.value.courierId), res.courierIds, Lost);
      outcome := AssignedTo(winner.value.courierId);
    } else {
      db.jobs := ExpireJob(db.jobs, jobId);
      NotifySelection(db, jobId, None, res.courierIds, BidStatus.Expired);
      outcome := NobodyAccepted;
    }
  }

  // ---------------------------------------------------------------- what a completed cycle guarantees

  /** The change stream reports stored bids: an event about a bid of `bids` carries that bid's
      job and targeted courier. */
  ghost predicate EventsReportStoredBids(events: seq<BidChange>, bids: map<string, Bid>)
  {
    forall e :: e in events && e.id in bids ==>
      e.doc.jobId == bids[e.id].jobId && e.doc.targetCourier == bids[e.id].targetCourier
  }

  /** The bids a cycle works on, after the offer step. */
  function OfferedDb(db: Db, input: CycleInput): Db
    requires FreshIds(db, input.jobId, input.bidIds)
  {
    Offer(db, input.restaurantId, input.restaurant, input.menu, input.ranked,
          input.jobId, input.bidIds, input.dropoff, input.reward).0
  }

  /** The hypotheses of the cycle theorem: fresh uuids, a ranking of the courier documents,
      and a faithful change stream. */
  ghost predicate WellFormedCycle(db: Db, input: CycleInput)
  {
    && FreshIds(db, input.jobId, input.bidIds)
    && input.jobId != ""
    && IsRanking(db.couriers.Keys, input.ranked)
    && EventsReportStoredBids(input.events, OfferedDb(db, input).bids)
  }

  /** The acceptor chosen by a cycle is one of the targeted couriers. */
  lemma WinnerIsTargeted(db: Db, input: CycleInput)
    requires WellFormedCycle(db, input)
    requires NearestAvailable(db.couriers, input.ranked) != []
    ensures var nearby := NearestAvailable(db.couriers, input.ranked);
      var w := SelectFirst(Acceptances(input.events, input.jobId, input.bidIds[..|nearby|]), CandidateDistance);
      w.Some? ==> w.value.courierId in Ids(nearby)
  {
    var nearby := NearestAvailable(db.couriers, input.ranked);
    var n := |nearby|;
    var sent := input.bidIds[..n];
    var cands := Acceptances(input.events, input.jobId, sent);
    OfferSpec(db, input.restaurantId, input.restaurant, input.menu, input.ranked,
              input.jobId, input.bidIds, input.dropoff, input.reward);
    NearestAvailableSpec(db.couriers, input.ranked);
    SelectFirstSpec(cands, CandidateDistance);
    AcceptancesSpec(input.events, input.jobId, sent);
    if cands != [] {
      var w := SelectFirst(cands, CandidateDistance).value;
      assert w in cands;
      var e :| e in input.events && IsAcceptance(e, input.jobId, sent) && w == CandidateOf(e);
      var k :| 0 <= k < n && sent[k] == e.id;
      var db1 := OfferedDb(db, input);
      assert db1.bids[input.bidIds[k]].targetCourier == nearby[k].courierId;
      assert Ids(nearby)[k] == w.courierId;
    }
  }

  /** After the offer step: the bids of `jobId` are exactly `sent`, the k-th aimed at `targeted[k]`,
      and no courier is targeted twice. */
  ghost predicate OneBidPerTarget(bids: map<string, Bid>, jobId: string, sent: seq<string>, targeted: seq<string>)
  {
    && |sent| == |targeted| && Distinct(targeted)
    && (forall k :: 0 <= k < |sent| ==>
          sent[k] in bids && bids[sent[k]].jobId == jobId && bids[sent[k]].targetCourier == targeted[k])
    && (forall id :: id in bids && bids[id].jobId == jobId ==> id in sent)
  }

  lemma OfferedOneBidPerTarget(db: Db, input: CycleInput)
    requires WellFormedCycle(db, input)
    requires NearestAvailable(db.couriers, input.ranked) != []
    ensures var nearby := NearestAvailable(db.couriers, input.ranked);
      OneBidPerTarget(OfferedDb(db, input).bids, input.jobId, input.bidIds[..|nearby|], Ids(nearby))
  {
    var nearby := NearestAvailable(db.couriers, input.ranked);
    OfferSpec(db, input.restaurantId, input.restaurant, input.menu, input.ranked,
              input.jobId, input.bidIds, input.dropoff, input.reward);
    NearestAvailableSpec(db.couriers, input.ranked);
  }

  /** After the offer step of a cycle that found couriers: the offer returned the job id, the
      first bid ids and the targeted couriers, and every bid of the job is OFFERED. */
  lemma OfferedJob(db: Db, input: CycleInput)
    requires WellFormedCycle(db, input)
    requires NearestAvailable(db.couriers, input.ranked) != []
    ensures var nearby := NearestAvailable(db.couriers, input.ranked);
      var db1 := OfferedDb(db, input);
      && Offer(db, input.restaurantId, input.restaurant, input.menu, input.ranked,
               input.jobId, input.bidIds, input.dropoff, input.reward).1
           == OfferResult(Some(input.jobId), input.bidIds[..|nearby|], Ids(nearby))
      && input.jobId in db1.jobs
      && db1.jobs[input.jobId].status == Pending && db1.jobs[input.jobId].selectedCourier == None
      && OneBidPerTarget(db1.bids, input.jobId, input.bidIds[..|nearby|], Ids(nearby))
      && (forall id :: id in db1.bids && db1.bids[id].jobId == input.jobId ==> db1.bids[id].status == Offered)
  {
    var nearby := NearestAvailable(db.couriers, input.ranked);
    var db1 := OfferedDb(db, input);
    OfferedOneBidPerTarget(db, input);
    OfferSpec(db, input.restaurantId, input.restaurant, input.menu, input.ranked,
              input.jobId, input.bidIds, input.dropoff, input.reward);
    forall id | id in db1.bids && db1.bids[id].jobId == input.jobId
      ensures db1.bids[id].status == Offered
    {
      var k :| 0 <= k < |nearby| && input.bidIds[..|nearby|][k] == id;
    }
  }

  /** The offer step of a cycle leaves the documents that existed before it as they were, and
      none of the earlier bids belongs to the new job. */
  lemma OfferKeeps(db: Db, input: CycleInput)
    requires WellFormedCycle(db, input)
    ensures var db1 := OfferedDb(db, input);
      && (forall id :: id in db.bids ==> id in db1.bids && db1.bids[id] == db.bids[id] && db.bids[id].jobId != input.jobId)
      && (forall j :: j in db.jobs ==> j in db1.jobs && j != input.jobId && db1.jobs[j] == db.jobs[j])
      && db1.couriers == db.couriers && db1.restaurants == db.restaurants && db1.menus == db.menus
  {
    OfferSpec(db, input.restaurantId, input.restaurant, input.menu, input.ranked,
              input.jobId, input.bidIds, input.dropoff, input.reward);
  }

  /** The commit with a winner, on a job whose bids are one per targeted courier. */
  lemma CommitWinner(db: Db, jobId: string, c: string, sent: seq<string>, targeted: seq<string>)
    requires OneBidPerTarget(db.bids, jobId, sent, targeted)
    requires jobId in db.jobs && c != "" && c in targeted
    ensures var db' := CommitSelection(db, jobId, Some(c), targeted, Lost);
      && jobId in db'.jobs
      && db'.jobs[jobId].status == Assigned && db'.jobs[jobId].selectedCourier == Some(c)
      && (forall id :: id in db'.bids && db'.bids[id].jobId == jobId ==>
            if db'.bids[id].targetCourier == c then db'.bids[id].status == Won else db'.bids[id].status == Lost)
      && (exists id :: id in db'.bids && db'.bids[id].jobId == jobId && db'.bids[id].targetCourier == c)
      && (forall id :: id in db.bids && db.bids[id].jobId != jobId ==> id in db'.bids && db'.bids[id] == db.bids[id])
      && (forall j :: j in db.jobs && j != jobId ==> j in db'.jobs && db'.jobs[j] == db.jobs[j])
      && db'.couriers == db.couriers && db'.restaurants == db.restaurants && db'.menus == db.menus
  {
    CommitSpec(db, jobId, Some(c), targeted, Lost);
    var db' := CommitSelection(db, jobId, Some(c), targeted, Lost);
    var k :| 0 <= k < |targeted| && targeted[k] == c;
    assert db'.bids[sent[k]].targetCourier == c;
    JobBidsTargeted(db.bids, jobId, sent, targeted);
  }

  /** The commit with an acceptor whose id is "": the id is falsy, so `if courier_id_gagnant` skips
      the job and winner updates, the job is left as it was, and the loser update (`$ne: ""`)
      turns every other bid of the job LOST while the acceptor's own bid is not touched. */
  lemma CommitEmptyWinner(db: Db, jobId: string, sent: seq<string>, targeted: seq<string>)
    requires OneBidPerTarget(db.bids, jobId, sent, targeted)
    requires "" in targeted
    ensures var db' := CommitSelection(db, jobId, Some(""), targeted, Lost);
      && db'.jobs == db.jobs
      && (forall id :: id in db'.bids && db'.bids[id].jobId == jobId ==>
            if db'.bids[id].targetCourier == "" then db'.bids[id] == db.bids[id] else db'.bids[id].status == Lost)
      && (exists id :: id in db'.bids && db'.bids[id].jobId == jobId && db'.bids[id].targetCourier == "")
      && (forall id :: id in db.bids && db.bids[id].jobId != jobId ==> id in db'.bids && db'.bids[id] == db.bids[id])
      && db'.couriers == db.couriers && db'.restaurants == db.restaurants && db'.menus == db.menus
  {
    CommitSpec(db, jobId, Some(""), targeted, Lost);
    var db' := CommitSelection(db, jobId, Some(""), targeted, Lost);
    var k :| 0 <= k < |targeted| && targeted[k] == "";
    assert db'.bids[sent[k]].targetCourier == "";
    JobBidsTargeted(db.bids, jobId, sent, targeted);
  }

  /** Every bid of the job is aimed at one of the targeted couriers. */
  lemma JobBidsTargeted(bids: map<string, Bid>, jobId: string, sent: seq<string>, targeted: seq<string>)
    requires OneBidPerTarget(bids, jobId, sent, targeted)
    ensures forall id :: id in bids && bids[id].jobId == jobId ==> bids[id].targetCourier in targeted
  {
    forall id | id in bids && bids[id].jobId == jobId
      ensures bids[id].targetCourier in targeted
    {
      var k1 :| 0 <= k1 < |sent| && sent[k1] == id;
    }
  }

  /** The commit when nobody accepted: the job and all its bids end EXPIRED. */
  lemma CommitNobody(db: Db, jobId: string, sent: seq<string>, targeted: seq<string>)
    requires OneBidPerTarget(db.bids, jobId, sent, targeted)
    requires jobId in db.jobs
    ensures var db' := CommitSelection(db.(jobs := ExpireJob(db.jobs, jobId)), jobId, None, targeted, BidStatus.Expired);
      && jobId in db'.jobs
      && db'.jobs[jobId] == db.jobs[jobId].(status := JobStatus.Expired)
      && (forall id :: id in db'.bids && db'.bids[id].jobId == jobId ==> db'.bids[id].status == BidStatus.Expired)
      && (forall id :: id in db.bids && db.bids[id].jobId != jobId ==> id in db'.bids && db'.bids[id] == db.bids[id])
      && (forall j :: j in db.jobs && j != jobId ==> j in db'.jobs && db'.jobs[j] == db.jobs[j])
      && db'.couriers == db.couriers && db'.restaurants == db.restaurants && db'.menus == db.menus
  {
    CommitSpec(db.(jobs := ExpireJob(db.jobs, jobId)), jobId, None, targeted, BidStatus.Expired);
    JobBidsTargeted(db.bids, jobId, sent, targeted);
  }

  /** A completed cycle: no job is created when no courier is available. Otherwise the winning
      acceptor is one of the targeted couriers and holds a bid of the job; the job ends ASSIGNED
      to it, its bid WON and every other bid of the job LOST. An acceptor whose id is "" is falsy:
      then the job stays PENDING with no selected courier, its bid is not touched, and every
      other bid of the job is LOST. When nobody accepted, the job and every one of its bids end
      EXPIRED. The documents that existed before the cycle are unchanged. */
  lemma CycleSpec(db: Db, input: CycleInput)
    requires WellFormedCycle(db, input)
    ensures var (db', outcome) := Cycle(db, input);
      var nearby := NearestAvailable(db.couriers, input.ranked);
      var jobId := input.jobId;
      && (outcome.NoCourier? <==> nearby == [])
      && (outcome.NoCourier? ==> db' == db)
      && (!outcome.NoCourier? ==>
        && jobId in db'.jobs
        && (outcome.AssignedTo? ==> outcome.courierId in Ids(nearby))
        && (outcome.AssignedTo? && outcome.courierId != "" ==>
              db'.jobs[jobId].status == Assigned && db'.jobs[jobId].selectedCourier == Some(outcome.courierId))
        && (outcome.AssignedTo? && outcome.courierId == "" ==>
              db'.jobs[jobId].status == Pending && db'.jobs[jobId].selectedCourier == None)
        && (outcome.NobodyAccepted? ==>
              db'.jobs[jobId].status == JobStatus.Expired && db'.jobs[jobId].selectedCourier == None)
        && (forall id :: id in db'.bids && db'.bids[id].jobId == jobId ==>
              if outcome.AssignedTo? then
                if db'.bids[id].targetCourier == outcome.courierId then
                  db'.bids[id].status == (if outcome.courierId != "" then Won else Offered)
                else db'.bids[id].status == Lost
              else db'.bids[id].status == BidStatus.Expired)
        && (outcome.AssignedTo? ==>
              exists id :: id in db'.bids && db'.bids[id].jobId == jobId && db'.bids[id].targetCourier == outcome.courierId)
        && (forall id :: id in db.bids ==> id in db'.bids && db'.bids[id] == db.bids[id])
        && (forall j :: j in db.jobs ==> j in db'.jobs && db'.jobs[j] == db.jobs[j])
        && db'.couriers == db.couriers && db'.restaurants == db.restaurants && db'.menus == db.menus)
  {
    var nearby := NearestAvailable(db.couriers, input.ranked);
    var jobId := input.jobId;
    if nearby != [] {
      var db1 := OfferedDb(db, input);
      var sent := input.bidIds[..|nearby|];
      var w := WinnerId(SelectFirst(Acceptances(input.events, jobId, sent), CandidateDistance));
      WinnerIsTargeted(db, input);
      OfferedJob(db, input);
      OfferKeeps(db, input);
      SettleSpec(db1, jobId, w, sent, Ids(nearby));
      assert Cycle(db, input) == Settle(db1, jobId, w, Ids(nearby));
      KeepsComposed(db, db1, Settle(db1, jobId, w, Ids(nearby)).0, jobId);
    }
  }

  /** The commit after the wait, on a job whose bids are one OFFERED bid per targeted courier:
      with a truthy acceptor the job becomes ASSIGNED to it, its bid WON and the others LOST; with
      an acceptor whose id is "" the job is left as it was, its bid too, and the others are LOST;
      with none the job and all its bids become EXPIRED. Other documents are unchanged. */
  lemma SettleSpec(db: Db, jobId: string, w: Option<string>, sent: seq<string>, targeted: seq<string>)
    requires OneBidPerTarget(db.bids, jobId, sent, targeted)
    requires jobId in db.jobs
    requires w.Some? ==> w.value in targeted
    ensures var (db', outcome) := Settle(db, jobId, w, targeted);
      && (outcome.AssignedTo? <==> w.Some?) && (outcome.AssignedTo? ==> w == Some(outcome.courierId))
      && (outcome.NobodyAccepted? <==> w.None?)
      && jobId in db'.jobs
      && (Truthy(w) ==> db'.jobs[jobId] == db.jobs[jobId].(status := Assigned, selectedCourier := w))
      && (w == Some("") ==> db'.jobs[jobId] == db.jobs[jobId])
      && (w.None? ==> db'.jobs[jobId] == db.jobs[jobId].(status := JobStatus.Expired))
      && (forall id :: id in db'.bids && db'.bids[id].jobId == jobId ==>
            if w.Some? then
              if db'.bids[id].targetCourier == w.value then
                if w.value != "" then db'.bids[id].status == Won else db'.bids[id] == db.bids[id]
              else db'.bids[id].status == Lost
            else db'.bids[id].status == BidStatus.Expired)
      && (w.Some? ==> exists id :: id in db'.bids && db'.bids[id].jobId == jobId && db'.bids[id].targetCourier == w.value)
      && (forall id :: id in db.bids && db.bids[id].jobId != jobId ==> id in db'.bids && db'.bids[id] == db.bids[id])
      && (forall j :: j in db.jobs && j != jobId ==> j in db'.jobs && db'.jobs[j] == db.jobs[j])
      && db'.couriers == db.couriers && db'.restaurants == db.restaurants && db'.menus == db.menus
  {
    if w.Some? {
      CommitSpec(db, jobId, w, targeted, Lost);
      if w.value != "" {
        CommitWinner(db, jobId, w.value, sent, targeted);
      } else {
        CommitEmptyWinner(db, jobId, sent, targeted);
      }
    } else {
      CommitNobody(db, jobId, sent, targeted);
    }
  }

  /** The documents the offer step kept and the commit did not touch are those of before the cycle. */
  lemma KeepsComposed(db: Db, db1: Db, db2: Db, jobId: string)
    requires forall id :: id in db.bids ==> id in db1.bids && db1.bids[id] == db.bids[id] && db.bids[id].jobId != jobId
    requires forall j :: j in db.jobs ==> j in db1.jobs && j != jobId && db1.jobs[j] == db.jobs[j]
    requires forall id :: id in db1.bids && db1.bids[id].jobId != jobId ==> id in db2.bids && db2.bids[id] == db1.bids[id]
    requires forall j :: j in db1.jobs && j != jobId ==> j in db2.jobs && db2.jobs[j] == db1.jobs[j]
    ensures forall id :: id in db.bids ==> id in db2.bids && db2.bids[id] == db.bids[id]
    ensures forall j :: j in db.jobs ==> j in db2.jobs && db2.jobs[j] == db.jobs[j]
  {
  }

  /** With one bid per targeted courier, the winner commit leaves at most one WON bid of the job. */
  lemma CommitWinnerUnique(db: Db, jobId: string, c: string, sent: seq<string>, targeted: seq<string>)
    requires OneBidPerTarget(db.bids, jobId, sent, targeted)
    requires forall id :: id in db.bids && db.bids[id].jobId == jobId ==> db.bids[id].status == Offered
    ensures var db' := CommitSelection(db, jobId, Some(c), targeted, Lost);
      forall id1, id2 :: (id1 in db'.bids && id2 in db'.bids
        && db'.bids[id1].jobId == jobId && db'.bids[id2].jobId == jobId
        && db'.bids[id1].status == Won && db'.bids[id2].status == Won) ==> id1 == id2
  {
    var db' := CommitSelection(db, jobId, Some(c), targeted, Lost);
    forall id1, id2 | (id1 in db'.bids && id2 in db'.bids
        && db'.bids[id1].jobId == jobId && db'.bids[id2].jobId == jobId
        && db'.bids[id1].status == Won && db'.bids[id2].status == Won)
      ensures id1 == id2
    {
      WonIsTheWinners(db, jobId, c, targeted, id1);
      WonIsTheWinners(db, jobId, c, targeted, id2);
      var k1 :| 0 <= k1 < |sent| && sent[k1] == id1;
      var k2 :| 0 <= k2 < |sent| && sent[k2] == id2;
      assert targeted[k1] == c == targeted[k2];
    }
  }

  /** A bid of the job offered before the commit is WON after it only if it targets the winner. */
  lemma WonIsTheWinners(db: Db, jobId: string, c: string, targeted: seq<string>, id: string)
    requires forall id :: id in db.bids && db.bids[id].jobId == jobId ==> db.bids[id].status == Offered
    ensures var db' := CommitSelection(db, jobId, Some(c), targeted, Lost);
      id in db'.bids && db'.bids[id].jobId == jobId && db'.bids[id].status == Won ==>
        id in db.bids && db.bids[id].jobId == jobId && db.bids[id].targetCourier == c
  {
    CommitSpec(db, jobId, Some(c), targeted, Lost);
  }

  /** At most one bid of the job is WON after a cycle (with CycleSpec: exactly one when assigned). */
  lemma OneWonBid(db: Db, input: CycleInput)
    requires WellFormedCycle(db, input)
    ensures var db' := Cycle(db, input).0;
      forall id1, id2 :: (id1 in db'.bids && id2 in db'.bids
        && db'.bids[id1].jobId == input.jobId && db'.bids[id2].jobId == input.jobId
        && db'.bids[id1].status == Won && db'.bids[id2].status == Won) ==> id1 == id2
  {
    var nearby := NearestAvailable(db.couriers, input.ranked);
    var jobId := input.jobId;
    if nearby != [] {
      var db1 := OfferedDb(db, input);
      var sent := input.bidIds[..|nearby|];
      var w := SelectFirst(Acceptances(input.events, jobId, sent), CandidateDistance);
      OfferedJob(db, input);
      if w.Some? {
        CommitWinnerUnique(db1, jobId, w.value.courierId, sent, Ids(nearby));
        assert Cycle(db, input).0 == CommitSelection(db1, jobId, Some(w.value.courierId), Ids(nearby), Lost);
      } else {
        CommitNobody(db1, jobId, sent, Ids(nearby));
      }
    }
  }

  /** The documented tie-break: acceptances at 120 m, 95 m and 95 m select the first 95 m one. */
  lemma WinnerExample()
    ensures SelectFirst([Candidate("A", 120, "a"), Candidate("B", 95, "b"), Candidate("C", 95, "c")],
                        CandidateDistance) == Some(Candidate("B", 95, "b"))
  {
    var s := [Candidate("A", 120, "a"), Candidate("B", 95, "b"), Candidate("C", 95, "c")];
    SelectFirstSpec(s, CandidateDistance);
    var i := FirstMinIndex(s, CandidateDistance);
    assert i == 1;
  }

  // ---------------------------------------------------------------- the five courses

  /** One course: a cycle, on fresh uuids. */
  function CycleStep(): (Db, CycleInput) --> (Db, CycleOutcome)
  {
    (db: Db, input: CycleInput) requires FreshIds(db, input.jobId, input.bidIds) => Cycle(db, input)
  }

  lemma CycleStepIsCycle(db: Db, input: CycleInput)
    requires FreshIds(db, input.jobId, input.bidIds)
    ensures CycleStep().requires(db, input) && CycleStep()(db, input) == Cycle(db, input)
  {
  }

  /** Every course gets fresh uuids on the database the previous courses left. */
  ghost predicate CoursesRunnable(db: Db, inputs: seq<CycleInput>)
    decreases |inputs|
  {
    inputs != [] ==>
      && FreshIds(db, inputs[0].jobId, inputs[0].bidIds)
      && CoursesRunnable(Cycle(db, inputs[0]).0, inputs[1..])
  }

  lemma {:induction false} CoursesRunnableDefined(db: Db, inputs: seq<CycleInput>, i: nat)
    requires i <= |inputs| && CoursesRunnable(db, inputs[i..])
    ensures FoldDefined(CycleStep(), db, inputs[i..])
    ensures i < |inputs| ==>
      && FreshIds(db, inputs[i].jobId, inputs[i].bidIds)
      && CoursesRunnable(Cycle(db, inputs[i]).0, inputs[i + 1..])
    decreases |inputs| - i
  {
    if i < |inputs| {
      assert inputs[i..][1..] == inputs[i + 1..];
      CycleStepIsCycle(db, inputs[i]);
      CoursesRunnableDefined(Cycle(db, inputs[i]).0, inputs, i + 1);
    }
  }

  /** The `for i in range(MAX_COURSES)` loop: one cycle per input, in order, each on the database
      the previous one left, with the outcome of each. */
  method RunCourses(db: MongoDb, inputs: seq<CycleInput>) returns (outcomes: seq<CycleOutcome>)
    requires |inputs| == MaxCourses
    requires CoursesRunnable(db.State(), inputs)
    modifies db
    ensures FoldDefined(CycleStep(), old(db.State()), inputs)
         && (db.State(), outcomes) == Fold(CycleStep(), old(db.State()), inputs)
  {
    outcomes := [];
    var i := 0;
    assert inputs[i..] == inputs;
    CoursesRunnableDefined(db.State(), inputs, 0);
    assert [] + Fold(CycleStep(), db.State(), inputs).1 == Fold(CycleStep(), db.State(), inputs).1;
    while i < |inputs|
      invariant 0 <= i <= |inputs|
      invariant CoursesRunnable(db.State(), inputs[i..]) && FoldDefined(CycleStep(), db.State(), inputs[i..])
      invariant Fold(CycleStep(), old(db.State()), inputs) == Resumed(outcomes, Fold(CycleStep(), db.State(), inputs[i..]))
    {
      CoursesRunnableDefined(db.State(), inputs, i);
      FoldStep(CycleStep(), db.State(), inputs, i, outcomes);
      CycleStepIsCycle(db.State(), inputs[i]);
      var o := RunCycle(db, inputs[i]);
      outcomes := outcomes + [o];
      i := i + 1;
    }
    assert inputs[i..] == [];
    assert outcomes + [] == outcomes;
  }

  /** The hypotheses of the cycle theorem hold for every course. */
  ghost predicate CoursesWellFormed(db: Db, inputs: seq<CycleInput>)
    decreases |inputs|
  {
    inputs != [] ==>
      && WellFormedCycle(db, inputs[0])
      && CoursesWellFormed(Cycle(db, inputs[0]).0, inputs[1..])
  }

  /** The first course of a run, unfolded. */
  lemma FirstCourse(db: Db, inputs: seq<CycleInput>)
    requires inputs != [] && CoursesWellFormed(db, inputs)
    ensures var c := Cycle(db, inputs[0]);
      && CoursesWellFormed(c.0, inputs[1..])
      && FoldDefined(CycleStep(), db, inputs) == FoldDefined(CycleStep(), c.0, inputs[1..])
      && (FoldDefined(CycleStep(), db, inputs) ==>
            Fold(CycleStep(), db, inputs) == Resumed([c.1], Fold(CycleStep(), c.0, inputs[1..])))
  {
    CycleStepIsCycle(db, inputs[0]);
    assert inputs[0..] == inputs;
  }

  lemma {:induction false} CoursesWellFormedRunnable(db: Db, inputs: seq<CycleInput>)
    requires CoursesWellFormed(db, inputs)
    ensures FoldDefined(CycleStep(), db, inputs)
    decreases |inputs|
  {
    if inputs != [] {
      FirstCourse(db, inputs);
      CoursesWellFormedRunnable(Cycle(db, inputs[0]).0, inputs[1..]);
    }
  }

  /** What one cycle's own job and the older jobs look like afterwards. */
  lemma CycleKeepsJobs(db: Db, input: CycleInput)
    requires WellFormedCycle(db, input)
    ensures var (db', outcome) := Cycle(db, input);
      && (forall j :: j in db.jobs ==> j in db'.jobs && db'.jobs[j] == db.jobs[j])
      && CourseSettled(db'.jobs, input, outcome)
  {
    CycleSpec(db, input);
  }

  /** The job of a course shows its outcome: ASSIGNED to the courier it chose, PENDING when that
      courier's id is "", or EXPIRED. */
  predicate CourseSettled(jobs: map<string, Job>, input: CycleInput, outcome: CycleOutcome)
  {
    && (outcome.AssignedTo? && outcome.courierId != "" ==>
          input.jobId in jobs && jobs[input.jobId].status == Assigned
          && jobs[input.jobId].selectedCourier == Some(outcome.courierId))
    && (outcome.AssignedTo? && outcome.courierId == "" ==>
          input.jobId in jobs && jobs[input.jobId].status == Pending && jobs[input.jobId].selectedCourier == None)
    && (outcome.NobodyAccepted? ==> input.jobId in jobs && jobs[input.jobId].status == JobStatus.Expired)
  }

  /** Putting the first course and the rest together. */
  lemma SettledAcross(jobs0: map<string, Job>, jobs1: map<string, Job>, final: map<string, Job>,
                      inputs: seq<CycleInput>, outcomes: seq<CycleOutcome>)
    requires inputs != [] && |outcomes| == |inputs|
    requires forall j :: j in jobs0 ==> j in jobs1 && jobs1[j] == jobs0[j]
    requires CourseSettled(jobs1, inputs[0], outcomes[0])
    requires forall j :: j in jobs1 ==> j in final && final[j] == jobs1[j]
    requires forall i :: 0 <= i < |inputs| - 1 ==> CourseSettled(final, inputs[1..][i], outcomes[1..][i])
    ensures forall j :: j in jobs0 ==> j in final && final[j] == jobs0[j]
    ensures forall i :: 0 <= i < |inputs| ==> CourseSettled(final, inputs[i], outcomes[i])
  {
    forall i | 0 <= i < |inputs| ensures CourseSettled(final, inputs[i], outcomes[i]) {
      if i > 0 {
        assert inputs[i] == inputs[1..][i - 1] && outcomes[i] == outcomes[1..][i - 1];
      }
    }
  }

  /** What the five courses leave behind: the job of a course that assigned it is still ASSIGNED
      to that course's courier at the end (still PENDING when that courier's id is ""), and the
      job of a course nobody accepted is still EXPIRED; the jobs that existed before are unchanged. */
  lemma {:induction false} CoursesSettle(db: Db, inputs: seq<CycleInput>)
    requires CoursesWellFormed(db, inputs)
    ensures FoldDefined(CycleStep(), db, inputs)
    ensures var (db', outcomes) := Fold(CycleStep(), db, inputs);
      && (forall j :: j in db.jobs ==> j in db'.jobs && db'.jobs[j] == db.jobs[j])
      && (forall i :: 0 <= i < |inputs| ==> CourseSettled(db'.jobs, inputs[i], outcomes[i]))
    decreases |inputs|
  {
    CoursesWellFormedRunnable(db, inputs);
    if inputs != [] {
      var c := Cycle(db, inputs[0]);
      FirstCourse(db, inputs);
      CycleKeepsJobs(db, inputs[0]);
      CoursesSettle(c.0, inputs[1..]);
      var rest := Fold(CycleStep(), c.0, inputs[1..]);
      var outcomes := Fold(CycleStep(), db, inputs).1;
      assert outcomes[0] == c.1 && outcomes[1..] == rest.1;
      SettledAcross(db.jobs, c.0.jobs, rest.0.jobs, inputs, outcomes);
    }
  }
}
