/**
 * The key-value dispatcher (manager_redis.py): one cycle writes the job hash, finds the 5 nearest
 * couriers of the geo set, sends each a private NEW_JOB_OFFER, collects the acceptances of the
 * couriers it targeted, and publishes ASSIGNED to the closest acceptor and JOB_LOST to the others.
 */
module RedisDispatcher {
  import opened Common
  import opened Geo
  import opened Selection
  import opened Catalog
  import opened RedisStore

  // ---------------------------------------------------------------- announcement

  /** What one cycle reads: the uuid4 job id, the sampled restaurant and menu hashes, and the
      random reward and estimated time (as the text stored in the hash). */
  datatype AnnounceInput = AnnounceInput(
    jobId: string,
    restaurant: map<string, string>,
    menu: map<string, string>,
    reward: string,
    estimatedTime: string)

  /** float(restaurant["lon"]), float(restaurant["lat"]): a missing field (KeyError) or a text
      `parseFloat` rejects (ValueError) gives None. */
  function ParseCoords(restaurant: map<string, string>, parseFloat: string -> Option<int>): Option<Position>
  {
    if "lon" in restaurant && "lat" in restaurant
       && parseFloat(restaurant["lon"]).Some? && parseFloat(restaurant["lat"]).Some?
    then Some(Position(parseFloat(restaurant["lon"]).value, parseFloat(restaurant["lat"]).value))
    else None
  }

  /** The announcement; its price is the menu's text as stored (the `float()` conversion is not
      modelled). */
  function AnnouncementOf(a: AnnounceInput): Announcement
  {
    Announcement(
      a.jobId,
      Field(a.restaurant, "name", "Restaurant " + Field(a.restaurant, "id", "None")),
      Field(a.menu, "item", "Unknown"),
      Field(a.menu, "price", "0.0"),
      a.reward,
      a.estimatedTime)
  }

  /** The fields written to `job:{id}`. */
  function AnnouncementFields(ann: Announcement): map<string, string>
  {
    map["job_id" := ann.jobId, "restaurant" := ann.restaurant, "menu_item" := ann.menuItem,
        "price" := ann.price, "reward" := ann.reward, "estimated_time" := ann.estimatedTime]
  }

  /** GEORADIUS ... 1000 km, in metres. */
  const SearchRadius: int := 1000000

  datatype Search = ResponseError | Found(hits: seq<Hit>)

  predicate InRadius(h: Hit)
  {
    h.distance <= SearchRadius
  }

  /** GEORADIUS couriers:locations lon lat 1000 km WITHDIST ASC COUNT 5: an empty answer when the key
      is missing, a ResponseError when it holds another type; `ranked` is the server's ranking of
      the geo set's members, closest first. */
  function GeoRadius(data: map<string, Value>, ranked: seq<Hit>): Search
  {
    if Locations !in data then Found([])
    else if !data[Locations].Geo? then ResponseError
    else Found(Nearest(ranked, InRadius, MaxCandidates))
  }

  /** The private offers, one per candidate, in the order the search returned them. */
  function OfferMessages(hits: seq<Hit>, ann: Announcement): (ms: seq<Message>)
    ensures |ms| == |hits|
    ensures forall i :: 0 <= i < |hits| ==>
      ms[i] == Message(NotifyChannel(hits[i].courierId), NewJobOffer(hits[i].distance, ann))
  {
    seq(|hits|, i requires 0 <= i < |hits| => Message(NotifyChannel(hits[i].courierId), NewJobOffer(hits[i].distance, ann)))
  }

  lemma OfferMessagesSnoc(hits: seq<Hit>, ann: Announcement, i: nat)
    requires i < |hits|
    ensures OfferMessages(hits[..i + 1], ann)
      == OfferMessages(hits[..i], ann) + [Message(NotifyChannel(hits[i].courierId), NewJobOffer(hits[i].distance, ann))]
  {
  }

  /** What publier_annonce_geo returns: the job id (None when the cycle is cancelled) and
      `candidats_potentiels`, the courier -> distance dict, as its items in insertion order. */
  datatype Announced = Announced(jobId: Option<string>, candidates: seq<Hit>)

  function Announce(st: Store, a: AnnounceInput, ranked: seq<Hit>, parseFloat: string -> Option<int>): (r: (Store, Announced))
    requires !HoldsNonHash(st.data, JobKey(a.jobId))
    ensures r.1.jobId.Some? ==> r.1.jobId == Some(a.jobId) && JobKey(a.jobId) in r.0.data && r.0.data[JobKey(a.jobId)].Hash?
    ensures r.1.candidates != [] ==> r.1.jobId.Some?
  {
    if ParseCoords(a.restaurant, parseFloat).None? then (st, Announced(None, []))
    else
      var ann := AnnouncementOf(a);
      var data := HSet(st.data, JobKey(a.jobId), AnnouncementFields(ann));
      match GeoRadius(data, ranked)
      case ResponseError => (st.(data := data), Announced(Some(a.jobId), []))
      case Found(hits) => (Store(data, st.published + OfferMessages(hits, ann)), Announced(Some(a.jobId), hits))
  }

  /** The geo set the search reads, unchanged by the job hash. */
  function LocationsOf(st: Store): Option<Value>
  {
    if Locations in st.data then Some(st.data[Locations]) else None
  }

  /** Invalid coordinates cancel the cycle before anything is written. Otherwise `job:{id}` gets every
      field of the announcement before the search, so it stays even when no courier is found;
      then the targets are the 5 nearest couriers of the geo set within the radius (none when the
      key is missing or of another type): at most 5, closest first, no one twice, and each gets
      one NEW_JOB_OFFER carrying its distance and the announcement; no other key changes. */
  lemma AnnounceSpec(st: Store, a: AnnounceInput, ranked: seq<Hit>, parseFloat: string -> Option<int>)
    requires !HoldsNonHash(st.data, JobKey(a.jobId))
    requires LocationsOf(st).Some? && LocationsOf(st).value.Geo? ==>
      IsRanking(LocationsOf(st).value.positions.Keys, ranked)
    ensures var (st', res) := Announce(st, a, ranked, parseFloat);
      var ann := AnnouncementOf(a);
      && (ParseCoords(a.restaurant, parseFloat).None? ==> st' == st && res == Announced(None, []))
      && (ParseCoords(a.restaurant, parseFloat).Some? ==>
        && res.jobId == Some(a.jobId)
        && JobKey(a.jobId) in st'.data && st'.data[JobKey(a.jobId)].Hash?
        && (forall f :: f in AnnouncementFields(ann) ==>
              f in st'.data[JobKey(a.jobId)].fields && st'.data[JobKey(a.jobId)].fields[f] == AnnouncementFields(ann)[f])
        && (forall k :: k in st.data && k != JobKey(a.jobId) ==> k in st'.data && st'.data[k] == st.data[k])
        && st'.published == st.published + OfferMessages(res.candidates, ann)
        && |res.candidates| <= MaxCandidates
        && Ascending(res.candidates) && Distinct(Ids(res.candidates))
        && (forall i :: 0 <= i < |res.candidates| ==> InRadius(res.candidates[i]) && res.candidates[i] in ranked)
        && (Located(st) ==> res.candidates == Nearest(ranked, InRadius, MaxCandidates))
        && (!Located(st) ==> res.candidates == []))
  {
    if ParseCoords(a.restaurant, parseFloat).Some? {
      var ann := AnnouncementOf(a);
      HSetSpec(st.data, JobKey(a.jobId), AnnouncementFields(ann));
      JobKeyIsNotLocations(a.jobId);
      if LocationsOf(st).Some? && LocationsOf(st).value.Geo? {
        NearestSpec(ranked, InRadius, MaxCandidates);
      }
    }
  }

  /** publier_annonce_geo: the hash write, the search, then one publish per candidate while the
      dict is filled. */
  method PublishAnnouncement(server: RedisServer, a: AnnounceInput, ranked: seq<Hit>, parseFloat: string -> Option<int>)
    returns (jobId: Option<string>, candidates: seq<Hit>)
    requires !HoldsNonHash(server.data, JobKey(a.jobId))
    modifies server
    ensures (server.State(), Announced(jobId, candidates)) == Announce(old(server.State()), a, ranked, parseFloat)
  {
    if ParseCoords(a.restaurant, parseFloat).None? {
      return None, [];
    }
    var ann := AnnouncementOf(a);
    server.data := HSet(server.data, JobKey(a.jobId), AnnouncementFields(ann));
    var search := GeoRadius(server.data, ranked);
    if search.ResponseError? {
      return Some(a.jobId), [];
    }
    var hits := search.hits;
    if hits == [] {
      assert server.published + OfferMessages(hits, ann) == server.published;
      return Some(a.jobId), [];
    }
    candidates := [];
    var i := 0;
    while i < |hits|
      invariant 0 <= i <= |hits|
      invariant candidates == hits[..i]
      invariant server.data == HSet(old(server.data), JobKey(a.jobId), AnnouncementFields(ann))
      invariant server.published == old(server.published) + OfferMessages(hits[..i], ann)
    {
      var h := hits[i];
      candidates := candidates + [h];
      server.Publish(Message(NotifyChannel(h.courierId), NewJobOffer(h.distance, ann)));
      OfferMessagesSnoc(hits, ann, i);
      PrefixSnoc(hits, i);
      i := i + 1;
    }
    assert hits[..i] == hits;
    jobId := Some(a.jobId);
  }

  /** `candidats_potentiels`: courier -> distance, later items overwriting earlier ones. */
  function CandidateMap(cands: seq<Hit>): map<string, int>
  {
    if cands == [] then map[]
    else
      var h := cands[|cands| - 1];
      CandidateMap(cands[..|cands| - 1])[h.courierId := h.distance]
  }

  /** With no courier twice, the dict maps each candidate to its own distance and holds nothing else. */
  lemma {:induction false} CandidateMapSpec(cands: seq<Hit>)
    requires Distinct(Ids(cands))
    ensures forall id :: id in CandidateMap(cands) <==> id in Ids(cands)
    ensures forall i :: 0 <= i < |cands| ==> CandidateMap(cands)[cands[i].courierId] == cands[i].distance
  {
    if cands != [] {
      var n := |cands| - 1;
      var init := cands[..n];
      assert Ids(init) == Ids(cands)[..n];
      assert Ids(cands) == Ids(init) + [cands[n].courierId];
      CandidateMapSpec(init);
      forall i | 0 <= i < n ensures cands[i].courierId != cands[n].courierId && init[i] == cands[i] {
        assert Ids(cands)[i] != Ids(cands)[n];
      }
    }
  }

  // ---------------------------------------------------------------- acceptance window

  /** An entry of `livreurs_acceptes`. */
  datatype Acceptor = Acceptor(courierId: string, distance: int)

  function AcceptorDistance(x: Acceptor): int
  {
    x.distance
  }

  /** Every message the window reads is an accept (json.loads then data["courier_id"]). */
  predicate AllAccepts(msgs: seq<Payload>)
  {
    forall i :: 0 <= i < |msgs| ==> msgs[i].Accept?
  }

  /** The acceptors kept, in arrival order: only targeted couriers, with the distance the dispatcher
      stored for them; the distance in the message is not read. */
  function Accepted(msgs: seq<Payload>, cands: seq<Hit>): seq<Acceptor>
    requires AllAccepts(msgs)
  {
    if msgs == [] then []
    else
      var m := msgs[|msgs| - 1];
      var dict := CandidateMap(cands);
      Accepted(msgs[..|msgs| - 1], cands)
        + (if m.courierId in dict then [Acceptor(m.courierId, dict[m.courierId])] else [])
  }

  /** An acceptor is kept exactly when a targeted courier's accept arrived, and it carries the
      stored distance. */
  lemma {:induction false} AcceptedSpec(msgs: seq<Payload>, cands: seq<Hit>)
    requires AllAccepts(msgs)
    ensures forall x :: x in Accepted(msgs, cands) <==>
      x.courierId in CandidateMap(cands) && x.distance == CandidateMap(cands)[x.courierId]
      && exists i :: 0 <= i < |msgs| && msgs[i].courierId == x.courierId
  {
    if msgs != [] {
      var n := |msgs| - 1;
      AcceptedSpec(msgs[..n], cands);
      forall x: Acceptor ensures (exists i :: 0 <= i < |msgs| && msgs[i].courierId == x.courierId) <==>
        (exists i :: 0 <= i < n && msgs[..n][i].courierId == x.courierId) || msgs[n].courierId == x.courierId
      {
        if exists i :: 0 <= i < |msgs| && msgs[i].courierId == x.courierId {
          var i :| 0 <= i < |msgs| && msgs[i].courierId == x.courierId;
          if i < n {
            assert msgs[..n][i] == msgs[i];
          }
        }
      }
    }
  }

  /** attendre_acceptation's result. */
  function Winner(msgs: seq<Payload>, cands: seq<Hit>): Option<string>
    requires AllAccepts(msgs)
  {
    match SelectFirst(Accepted(msgs, cands), AcceptorDistance)
    case None => None
    case Some(x) => Some(x.courierId)
  }

  /** Every accept of a targeted courier yields an acceptor with its stored distance. */
  lemma AcceptedCovers(msgs: seq<Payload>, cands: seq<Hit>)
    requires AllAccepts(msgs)
    ensures forall j :: 0 <= j < |msgs| && msgs[j].courierId in CandidateMap(cands) ==>
      Acceptor(msgs[j].courierId, CandidateMap(cands)[msgs[j].courierId]) in Accepted(msgs, cands)
  {
    AcceptedSpec(msgs, cands);
    var dict := CandidateMap(cands);
    forall j | 0 <= j < |msgs| && msgs[j].courierId in dict
      ensures Acceptor(msgs[j].courierId, dict[msgs[j].courierId]) in Accepted(msgs, cands)
    {
    }
  }

  /** The window picks nobody exactly when no targeted courier accepted. */
  lemma WinnerNone(msgs: seq<Payload>, cands: seq<Hit>)
    requires AllAccepts(msgs)
    ensures Winner(msgs, cands).None? <==> forall i :: 0 <= i < |msgs| ==> msgs[i].courierId !in CandidateMap(cands)
  {
    var accepted := Accepted(msgs, cands);
    SelectFirstSpec(accepted, AcceptorDistance);
    AcceptedCovers(msgs, cands);
    if accepted != [] {
      assert accepted[0] in accepted;
      AcceptedSpec(msgs, cands);
    }
  }

  /** The k-th acceptor comes from an accept of a targeted courier, and the acceptors kept before
      it are those of the messages that arrived before that accept. */
  lemma {:induction false} AcceptedPrefix(msgs: seq<Payload>, cands: seq<Hit>, k: nat)
    requires AllAccepts(msgs) && k < |Accepted(msgs, cands)|
    ensures exists i :: 0 <= i < |msgs| && msgs[i].courierId == Accepted(msgs, cands)[k].courierId
                        && Accepted(msgs[..i], cands) == Accepted(msgs, cands)[..k]
  {
    var n := |msgs| - 1;
    var init := Accepted(msgs[..n], cands);
    var all := Accepted(msgs, cands);
    assert all[..|init|] == init;
    if k < |init| {
      AcceptedPrefix(msgs[..n], cands, k);
      var i :| 0 <= i < n && msgs[..n][i].courierId == init[k].courierId
        && Accepted(msgs[..n][..i], cands) == init[..k];
      assert msgs[..n][..i] == msgs[..i] && all[k] == init[k] && init[..k] == all[..k];
    } else {
      assert msgs[..n] == msgs[..n] && all[..k] == init;
    }
  }

  /** Otherwise it picks a targeted courier that accepted, with the smallest stored distance
      among those that did; and it is the first such accept to arrive: every targeted courier
      whose accept arrived before it is strictly farther. */
  lemma WinnerBest(msgs: seq<Payload>, cands: seq<Hit>)
    requires AllAccepts(msgs)
    ensures var winner := Winner(msgs, cands);
      winner.Some? ==>
        && winner.value in CandidateMap(cands)
        && (exists i :: 0 <= i < |msgs| && msgs[i].courierId == winner.value)
        && (forall i :: 0 <= i < |msgs| && msgs[i].courierId in CandidateMap(cands) ==>
              CandidateMap(cands)[winner.value] <= CandidateMap(cands)[msgs[i].courierId])
        && (exists i :: 0 <= i < |msgs| && msgs[i].courierId == winner.value
              && forall j :: 0 <= j < i && msgs[j].courierId in CandidateMap(cands) ==>
                   CandidateMap(cands)[msgs[j].courierId] > CandidateMap(cands)[winner.value])
  {
    var accepted := Accepted(msgs, cands);
    SelectFirstSpec(accepted, AcceptorDistance);
    if accepted != [] {
      WinnerClosest(msgs, cands);
      WinnerEarliest(msgs, cands);
    }
  }

  /** The winner's stored distance is the smallest among the targeted couriers that accepted. */
  lemma WinnerClosest(msgs: seq<Payload>, cands: seq<Hit>)
    requires AllAccepts(msgs) && Accepted(msgs, cands) != []
    ensures var best := Accepted(msgs, cands)[FirstMinIndex(Accepted(msgs, cands), AcceptorDistance)];
      && best.courierId in CandidateMap(cands) && best.distance == CandidateMap(cands)[best.courierId]
      && (exists i :: 0 <= i < |msgs| && msgs[i].courierId == best.courierId)
      && (forall i :: 0 <= i < |msgs| && msgs[i].courierId in CandidateMap(cands) ==>
            CandidateMap(cands)[best.courierId] <= CandidateMap(cands)[msgs[i].courierId])
  {
    var dict := CandidateMap(cands);
    var accepted := Accepted(msgs, cands);
    var best := accepted[FirstMinIndex(accepted, AcceptorDistance)];
    assert best in accepted;
    AcceptedSpec(msgs, cands);
    AcceptedCovers(msgs, cands);
    forall j | 0 <= j < |msgs| && msgs[j].courierId in dict
      ensures dict[best.courierId] <= dict[msgs[j].courierId]
    {
      var x := Acceptor(msgs[j].courierId, dict[msgs[j].courierId]);
      assert x in accepted;
      var k :| 0 <= k < |accepted| && accepted[k] == x;
    }
  }

  /** Among equally near acceptors the first to arrive wins: every targeted courier whose accept
      arrived before the winner's is strictly farther. */
  lemma WinnerEarliest(msgs: seq<Payload>, cands: seq<Hit>)
    requires AllAccepts(msgs) && Accepted(msgs, cands) != []
    ensures var best := Accepted(msgs, cands)[FirstMinIndex(Accepted(msgs, cands), AcceptorDistance)];
      best.courierId in CandidateMap(cands) &&
      exists i :: 0 <= i < |msgs| && msgs[i].courierId == best.courierId
                  && forall j :: 0 <= j < i && msgs[j].courierId in CandidateMap(cands) ==>
                       CandidateMap(cands)[msgs[j].courierId] > CandidateMap(cands)[best.courierId]
  {
    var dict := CandidateMap(cands);
    var accepted := Accepted(msgs, cands);
    var f := FirstMinIndex(accepted, AcceptorDistance);
    var best := accepted[f];
    WinnerClosest(msgs, cands);
    AcceptedPrefix(msgs, cands, f);
    var i :| 0 <= i < |msgs| && msgs[i].courierId == best.courierId
      && Accepted(msgs[..i], cands) == accepted[..f];
    forall j | 0 <= j < i && msgs[j].courierId in dict
      ensures dict[msgs[j].courierId] > dict[best.courierId]
    {
      var x := Acceptor(msgs[j].courierId, dict[msgs[j].courierId]);
      EarlierAccept(msgs, cands, i, j);
      BeforeFirstMinimum(accepted, AcceptorDistance, f, x);
    }
  }

  /** An accept of a targeted courier among the first `i` messages is an acceptor of that prefix. */
  lemma EarlierAccept(msgs: seq<Payload>, cands: seq<Hit>, i: nat, j: nat)
    requires AllAccepts(msgs) && j < i <= |msgs| && msgs[j].courierId in CandidateMap(cands)
    ensures Acceptor(msgs[j].courierId, CandidateMap(cands)[msgs[j].courierId]) in Accepted(msgs[..i], cands)
  {
    AcceptedCovers(msgs[..i], cands);
    assert msgs[..i][j] == msgs[j];
  }

  /** attendre_acceptation over the messages that arrive before the deadline. */
  method AwaitAcceptance(jobId: string, cands: seq<Hit>, msgs: seq<Payload>) returns (winner: Option<string>)
    requires AllAccepts(msgs)
    ensures winner == Winner(msgs, cands)
    ensures winner.None? <==> forall i :: 0 <= i < |msgs| ==> msgs[i].courierId !in CandidateMap(cands)
    ensures winner.Some? ==>
      && winner.value in CandidateMap(cands)
      && (exists i :: 0 <= i < |msgs| && msgs[i].courierId == winner.value)
      && (forall i :: 0 <= i < |msgs| && msgs[i].courierId in CandidateMap(cands) ==>
            CandidateMap(cands)[winner.value] <= CandidateMap(cands)[msgs[i].courierId])
      && (exists i :: 0 <= i < |msgs| && msgs[i].courierId == winner.value
            && forall j :: 0 <= j < i && msgs[j].courierId in CandidateMap(cands) ==>
                 CandidateMap(cands)[msgs[j].courierId] > CandidateMap(cands)[winner.value])
  {
    var dict := CandidateMap(cands);
    var accepted: seq<Acceptor> := [];
    var i := 0;
    while i < |msgs|
      invariant 0 <= i <= |msgs|
      invariant accepted == Accepted(msgs[..i], cands)
    {
      var data := msgs[i];
      if data.courierId in dict {
        accepted := accepted + [Acceptor(data.courierId, dict[data.courierId])];
      }
      assert msgs[..i + 1][..i] == msgs[..i];
      i := i + 1;
    }
    assert msgs[..i] == msgs;
    WinnerNone(msgs, cands);
    WinnerBest(msgs, cands);
    if accepted == [] {
      return None;
    }
    winner := Some(SortBy(accepted, AcceptorDistance)[0].courierId);
  }

  // ---------------------------------------------------------------- notification

  /** One JOB_LOST per candidate other than the winner (every candidate when there is none). */
  function LostMessages(jobId: string, winner: Option<string>, ids: seq<string>): (ms: seq<Message>)
    ensures forall i :: 0 <= i < |ms| ==> ms[i].payload == JobLost(jobId)
  {
    if ids == [] then []
    else
      var c := ids[|ids| - 1];
      LostMessages(jobId, winner, ids[..|ids| - 1])
        + (if winner != Some(c) then [Message(NotifyChannel(c), JobLost(jobId))] else [])
  }

  function AssignFields(courierId: string): map<string, string>
  {
    map["status" := "ASSIGNED", "selected_courier" := courierId]
  }

  function AssignedMessages(jobId: string, winner: Option<string>): seq<Message>
  {
    if Truthy(winner) then [Message(NotifyChannel(winner.value), AssignedMsg(jobId))] else []
  }

  /** notifier_selection: the new store and `losers_notified`. */
  function Notify(st: Store, jobId: string, winner: Option<string>, ids: seq<string>): (Store, nat)
    requires !HoldsNonHash(st.data, JobKey(jobId))
  {
    var data := if Truthy(winner) then HSet(st.data, JobKey(jobId), AssignFields(winner.value)) else st.data;
    var lost := LostMessages(jobId, winner, ids);
    (Store(data, st.published + AssignedMessages(jobId, winner) + lost), |lost|)
  }

  /** Each candidate other than the winner gets exactly one JOB_LOST and the winner none; no one
      outside the candidates gets one. */
  lemma {:induction false} LostMessagesCount(jobId: string, winner: Option<string>, ids: seq<string>, c: string)
    requires Distinct(ids)
    ensures Count(LostMessages(jobId, winner, ids), LossFor(c, jobId)) == if c in ids && winner != Some(c) then 1 else 0
  {
    if ids != [] {
      var n := |ids| - 1;
      var last := ids[n];
      var p := LossFor(c, jobId);
      LostMessagesCount(jobId, winner, ids[..n], c);
      CountAppend(LostMessages(jobId, winner, ids[..n]),
                  if winner != Some(last) then [Message(NotifyChannel(last), JobLost(jobId))] else [], p);
      NotifyChannelInjective(c, last);
      assert c in ids <==> c in ids[..n] || c == last;
      assert last !in ids[..n];
    }
  }

  /** `losers_notified` counts the candidates other than the winner. */
  lemma {:induction false} LosersNotified(jobId: string, winner: Option<string>, ids: seq<string>)
    requires Distinct(ids)
    ensures |LostMessages(jobId, winner, ids)| == if winner.Some? && winner.value in ids then |ids| - 1 else |ids|
  {
    if ids != [] {
      var n := |ids| - 1;
      LosersNotified(jobId, winner, ids[..n]);
      assert ids[n] !in ids[..n];
      assert winner.Some? ==> (winner.value in ids <==> winner.value in ids[..n] || winner.value == ids[n]);
    }
  }

  /** With a (truthy) winner, `job:{id}` gets status ASSIGNED and selected_courier = winner, and the
      winner gets exactly one ASSIGNED message; without one the hash is not touched and nobody is
      sent ASSIGNED. The losers' messages follow; no other key changes. */
  lemma NotifySpec(st: Store, jobId: string, winner: Option<string>, ids: seq<string>)
    requires !HoldsNonHash(st.data, JobKey(jobId))
    ensures var (st', losers) := Notify(st, jobId, winner, ids);
      && st'.published == st.published + AssignedMessages(jobId, winner) + LostMessages(jobId, winner, ids)
      && losers == |LostMessages(jobId, winner, ids)|
      && (Truthy(winner) ==>
            && JobKey(jobId) in st'.data && st'.data[JobKey(jobId)].Hash?
            && st'.data[JobKey(jobId)].fields["status"] == "ASSIGNED"
            && st'.data[JobKey(jobId)].fields["selected_courier"] == winner.value)
      && (!Truthy(winner) ==> st'.data == st.data)
      && (forall k :: k in st.data && k != JobKey(jobId) ==> k in st'.data && st'.data[k] == st.data[k])
      && (JobKey(jobId) in st.data ==> forall f :: f in st.data[JobKey(jobId)].fields && f != "status" && f != "selected_courier" ==>
            f in st'.data[JobKey(jobId)].fields && st'.data[JobKey(jobId)].fields[f] == st.data[JobKey(jobId)].fields[f])
      && (forall c :: Count(AssignedMessages(jobId, winner), AssignedFor(c, jobId))
            == if winner == Some(c) && c != "" then 1 else 0)
  {
    if Truthy(winner) {
      HSetSpec(st.data, JobKey(jobId), AssignFields(winner.value));
    }
    forall c ensures Count(AssignedMessages(jobId, winner), AssignedFor(c, jobId))
            == if winner == Some(c) && c != "" then 1 else 0
    {
      if Truthy(winner) {
        NotifyChannelInjective(c, winner.value);
        var s := AssignedMessages(jobId, winner);
        assert s[..|s| - 1] == [];
      }
    }
  }

  /** notifier_selection as writes and publishes, counting the losers notified. */
  method NotifySelection(server: RedisServer, jobId: string, winner: Option<string>, ids: seq<string>)
    returns (losersNotified: nat)
    requires !HoldsNonHash(server.data, JobKey(jobId))
    modifies server
    ensures (server.State(), losersNotified) == Notify(old(server.State()), jobId, winner, ids)
  {
    losersNotified := 0;
    if Truthy(winner) {
      server.data := HSet(server.data, JobKey(jobId), AssignFields(winner.value));
      server.Publish(Message(NotifyChannel(winner.value), AssignedMsg(jobId)));
    }
    ghost var before := server.published;
    var i := 0;
    while i < |ids|
      invariant 0 <= i <= |ids|
      invariant server.published == before + LostMessages(jobId, winner, ids[..i])
      invariant losersNotified == |LostMessages(jobId, winner, ids[..i])|
      invariant server.data == (if Truthy(winner) then HSet(old(server.data), JobKey(jobId), AssignFields(winner.value)) else old(server.data))
      invariant before == old(server.published) + AssignedMessages(jobId, winner)
    {
      var candidate := ids[i];
      assert ids[..i + 1][..i] == ids[..i];
      if winner != Some(candidate) {
        server.Publish(Message(NotifyChannel(candidate), JobLost(jobId)));
        losersNotified := losersNotified + 1;
      }
      i := i + 1;
    }
    assert ids[..i] == ids;
  }

  // ---------------------------------------------------------------- one cycle

  datatype CycleInput = CycleInput(announce: AnnounceInput, ranked: seq<Hit>, accepts: seq<Payload>)

  datatype CycleOutcome = NoCandidates | AssignedTo(courierId: string) | NobodyAccepted

  /** After the wait: notify the winner, or set the job EXPIRED and notify everyone as a loser. */
  function Settle(st: Store, jobId: string, w: Option<string>, ids: seq<string>): (Store, CycleOutcome)
    requires !HoldsNonHash(st.data, JobKey(jobId))
  {
    if Truthy(w) then (Notify(st, jobId, w, ids).0, AssignedTo(w.value))
    else
      var st2 := st.(data := HSet(st.data, JobKey(jobId), map["status" := "EXPIRED"]));
      (Notify(st2, jobId, None, ids).0, NobodyAccepted)
  }

  /** The body of the `__main__` loop: announce; unless no candidate was found, wait and settle. */
  function Cycle(st: Store, input: CycleInput, parseFloat: string -> Option<int>): (Store, CycleOutcome)
    requires !HoldsNonHash(st.data, JobKey(input.announce.jobId))
    requires AllAccepts(input.accepts)
  {
    var announced := Announce(st, input.announce, input.ranked, parseFloat);
    var st1, cands := announced.0, announced.1.candidates;
    if cands == [] then (st1, NoCandidates)
    else Settle(st1, input.announce.jobId, Winner(input.accepts, cands), Ids(cands))
  }

  /** Settling ends the job ASSIGNED to a truthy winner or EXPIRED, keeps the job's other fields
      and every other key, and publishes the ASSIGNED message (to a winner) and then the JOB_LOST
      messages. */
  lemma SettleSpec(st: Store, jobId: string, w: Option<string>, ids: seq<string>)
    requires !HoldsNonHash(st.data, JobKey(jobId))
    ensures var (st', outcome) := Settle(st, jobId, w, ids);
      var job := JobKey(jobId);
      var sent := if Truthy(w) then w else None;
      && (outcome.AssignedTo? <==> Truthy(w))
      && (outcome.AssignedTo? ==> Some(outcome.courierId) == w)
      && (!Truthy(w) ==> outcome == NobodyAccepted)
      && job in st'.data && st'.data[job].Hash? && "status" in st'.data[job].fields
      && st'.data[job].fields["status"] == (if Truthy(w) then "ASSIGNED" else "EXPIRED")
      && (Truthy(w) ==> "selected_courier" in st'.data[job].fields && st'.data[job].fields["selected_courier"] == w.value)
      && (job in st.data ==> forall f :: f in st.data[job].fields && f != "status" && f != "selected_courier" ==>
            f in st'.data[job].fields && st'.data[job].fields[f] == st.data[job].fields[f])
      && (forall k :: k in st.data && k != job ==> k in st'.data && st'.data[k] == st.data[k])
      && st'.published == st.published + AssignedMessages(jobId, sent) + LostMessages(jobId, sent, ids)
      && (!Truthy(w) ==> st'.published == st.published + LostMessages(jobId, None, ids))
  {
    if Truthy(w) {
      NotifySpec(st, jobId, w, ids);
    } else {
      HSetSpec(st.data, JobKey(jobId), map["status" := "EXPIRED"]);
      var st2 := st.(data := HSet(st.data, JobKey(jobId), map["status" := "EXPIRED"]));
      NotifySpec(st2, jobId, None, ids);
      assert st.published + AssignedMessages(jobId, None) == st.published;
    }
  }

  method RunCycle(server: RedisServer, input: CycleInput, parseFloat: string -> Option<int>) returns (outcome: CycleOutcome)
    requires !HoldsNonHash(server.data, JobKey(input.announce.jobId))
    requires AllAccepts(input.accepts)
    modifies server
    ensures (server.State(), outcome) == Cycle(old(server.State()), input, parseFloat)
  {
    var jobIdOpt, cands := PublishAnnouncement(server, input.announce, input.ranked, parseFloat);
    if cands == [] {
      return NoCandidates;
    }
    var jobId := jobIdOpt.value;
    var courier := AwaitAcceptance(jobId, cands, input.accepts);
    if Truthy(courier) {
      var _ := NotifySelection(server, jobId, courier, Ids(cands));
      outcome := AssignedTo(courier.value);
    } else {
      server.data := HSet(server.data, JobKey(jobId), map["status" := "EXPIRED"]);
      var _ := NotifySelection(server, jobId, None, Ids(cands));
      outcome := NobodyAccepted;
    }
  }

  // ---------------------------------------------------------------- what a completed cycle guarantees

  /** Each targeted courier gets exactly one NEW_JOB_OFFER, and nobody else gets one. */
  lemma {:induction false} OfferMessagesCount(hits: seq<Hit>, ann: Announcement, c: string)
    requires Distinct(Ids(hits))
    ensures Count(OfferMessages(hits, ann), OfferFor(c)) == if c in Ids(hits) then 1 else 0
  {
    if hits != [] {
      var n := |hits| - 1;
      var init := hits[..n];
      assert Ids(init) == Ids(hits)[..n];
      OfferMessagesCount(init, ann, c);
      var ms := OfferMessages(hits, ann);
      assert ms[..|ms| - 1] == OfferMessages(init, ann);
      NotifyChannelInjective(c, hits[n].courierId);
      assert Ids(hits) == Ids(init) + [hits[n].courierId];
      assert hits[n].courierId !in Ids(init) by {
        forall i | 0 <= i < n ensures Ids(init)[i] != hits[n].courierId {
          assert Ids(hits)[i] != Ids(hits)[n];
        }
      }
    }
  }

  /** The state of the cycle after the announcement. */
  predicate Located(st: Store)
  {
    LocationsOf(st).Some? && LocationsOf(st).value.Geo?
  }

  /** The hypotheses of the cycle theorem: the job key is free for a hash, every acceptance is
      an accept, and `ranked` ranks the geo set. */
  ghost predicate WellFormedCycle(st: Store, input: CycleInput)
  {
    && !HoldsNonHash(st.data, JobKey(input.announce.jobId))
    && AllAccepts(input.accepts)
    && (Located(st) ==> IsRanking(LocationsOf(st).value.positions.Keys, input.ranked))
  }

  /** The couriers a cycle targets. */
  function Targets(st: Store, input: CycleInput, parseFloat: string -> Option<int>): seq<Hit>
  {
    if ParseCoords(input.announce.restaurant, parseFloat).Some? && Located(st)
    then Nearest(input.ranked, InRadius, MaxCandidates) else []
  }

  /** The winner, when there is one, is one of the targeted couriers. */
  lemma WinnerIsCandidate(msgs: seq<Payload>, cands: seq<Hit>)
    requires AllAccepts(msgs) && Distinct(Ids(cands))
    ensures Winner(msgs, cands).Some? ==> Winner(msgs, cands).value in Ids(cands)
  {
    AcceptedSpec(msgs, cands);
    CandidateMapSpec(cands);
    SelectFirstSpec(Accepted(msgs, cands), AcceptorDistance);
    if Winner(msgs, cands).Some? {
      var x := SelectFirst(Accepted(msgs, cands), AcceptorDistance).value;
      assert x in Accepted(msgs, cands);
    }
  }

  /** What a completed cycle leaves in the keyspace. With invalid coordinates nothing changes.
      Otherwise the job hash holds the announcement (its status and selected courier aside), no
      other key changes, and the cycle reports no candidates exactly when none was targeted, and
      then publishes nothing. */
  lemma CycleKeyspace(st: Store, input: CycleInput, parseFloat: string -> Option<int>)
    requires WellFormedCycle(st, input)
    ensures var r := Cycle(st, input, parseFloat);
      var ann := AnnouncementOf(input.announce);
      var job := JobKey(input.announce.jobId);
      && (ParseCoords(input.announce.restaurant, parseFloat).None? ==> r.0 == st && r.1 == NoCandidates)
      && (r.1.NoCandidates? <==> Targets(st, input, parseFloat) == [])
      && (r.1.NoCandidates? ==> r.0.published == st.published)
      && (ParseCoords(input.announce.restaurant, parseFloat).Some? ==>
        && job in r.0.data && r.0.data[job].Hash?
        && (forall f :: f in AnnouncementFields(ann) && f != "status" && f != "selected_courier" ==>
              f in r.0.data[job].fields && r.0.data[job].fields[f] == AnnouncementFields(ann)[f])
        && (forall k :: k in st.data && k != job ==> k in r.0.data && r.0.data[k] == st.data[k]))
  {
    var jobId := input.announce.jobId;
    var ann := AnnouncementOf(input.announce);
    var job := JobKey(jobId);
    AnnounceSpec(st, input.announce, input.ranked, parseFloat);
    var (st1, res) := Announce(st, input.announce, input.ranked, parseFloat);
    var cands := res.candidates;
    if ParseCoords(input.announce.restaurant, parseFloat).Some? {
      JobKeyIsNotLocations(jobId);
      assert cands == Targets(st, input, parseFloat);
    }
    if cands != [] {
      var w := Winner(input.accepts, cands);
      SettleSpec(st1, jobId, w, Ids(cands));
      var st' := Settle(st1, jobId, w, Ids(cands)).0;
      forall f | f in AnnouncementFields(ann) && f != "status" && f != "selected_courier"
        ensures f in st'.data[job].fields && st'.data[job].fields[f] == AnnouncementFields(ann)[f]
      {
        assert st1.data[job].fields[f] == AnnouncementFields(ann)[f];
      }
    }
  }

  /** The announcement step of a cycle, as the rest of the cycle needs it. */
  lemma AnnounceTargets(st: Store, input: CycleInput, parseFloat: string -> Option<int>)
    requires WellFormedCycle(st, input)
    ensures var a := Announce(st, input.announce, input.ranked, parseFloat);
      var cands := Targets(st, input, parseFloat);
      && a.1.candidates == cands && Distinct(Ids(cands))
      && !HoldsNonHash(a.0.data, JobKey(input.announce.jobId))
      && a.0.published == st.published + OfferMessages(cands, AnnouncementOf(input.announce))
  {
    AnnounceSpec(st, input.announce, input.ranked, parseFloat);
    var a := Announce(st, input.announce, input.ranked, parseFloat);
    if ParseCoords(input.announce.restaurant, parseFloat).Some? {
      JobKeyIsNotLocations(input.announce.jobId);
    } else {
      assert st.published + OfferMessages([], AnnouncementOf(input.announce)) == st.published;
    }
  }

  /** The messages a cycle with candidates publishes, in order: the offers, the ASSIGNED message
      to the winner if any, the JOB_LOST messages. */
  function Round(cands: seq<Hit>, ann: Announcement, jobId: string, w: Option<string>): seq<Message>
  {
    OfferMessages(cands, ann) + AssignedMessages(jobId, w) + LostMessages(jobId, w, Ids(cands))
  }

  /** A cycle that assigns the job: the courier is the winner of the acceptance window and one
      of the targeted couriers, the job hash records it, and the log grows by the offers, the
      ASSIGNED message and the JOB_LOST messages of the other candidates. */
  lemma CycleAssigned(st: Store, input: CycleInput, parseFloat: string -> Option<int>)
    requires WellFormedCycle(st, input)
    ensures var r := Cycle(st, input, parseFloat);
      var jobId := input.announce.jobId;
      var cands := Targets(st, input, parseFloat);
      var job := JobKey(jobId);
      r.1.AssignedTo? ==>
        && Winner(input.accepts, cands) == Some(r.1.courierId) && r.1.courierId != ""
        && r.1.courierId in Ids(cands)
        && job in r.0.data && r.0.data[job].Hash?
        && "status" in r.0.data[job].fields && "selected_courier" in r.0.data[job].fields
        && r.0.data[job].fields["status"] == "ASSIGNED"
        && r.0.data[job].fields["selected_courier"] == r.1.courierId
        && r.0.published == st.published + Round(cands, AnnouncementOf(input.announce), jobId, Some(r.1.courierId))
  {
    var jobId := input.announce.jobId;
    AnnounceTargets(st, input, parseFloat);
    var st1 := Announce(st, input.announce, input.ranked, parseFloat).0;
    var cands := Targets(st, input, parseFloat);
    if cands != [] {
      var w := Winner(input.accepts, cands);
      WinnerIsCandidate(input.accepts, cands);
      SettleSpec(st1, jobId, w, Ids(cands));
      assert Cycle(st, input, parseFloat) == Settle(st1, jobId, w, Ids(cands));
      var offers := OfferMessages(cands, AnnouncementOf(input.announce));
      var a, l := AssignedMessages(jobId, w), LostMessages(jobId, w, Ids(cands));
      AppendAssoc(st.published, offers, a, l);
    }
  }

  /** A cycle in which nobody accepted: the job hash says EXPIRED and the log grows by the offers
      and a JOB_LOST message for every candidate. */
  lemma CycleExpired(st: Store, input: CycleInput, parseFloat: string -> Option<int>)
    requires WellFormedCycle(st, input)
    ensures var r := Cycle(st, input, parseFloat);
      var jobId := input.announce.jobId;
      var cands := Targets(st, input, parseFloat);
      r.1.NobodyAccepted? ==>
        && JobKey(jobId) in r.0.data && r.0.data[JobKey(jobId)].Hash?
        && "status" in r.0.data[JobKey(jobId)].fields
        && r.0.data[JobKey(jobId)].fields["status"] == "EXPIRED"
        && r.0.published == st.published + Round(cands, AnnouncementOf(input.announce), jobId, None)
  {
    var jobId := input.announce.jobId;
    AnnounceTargets(st, input, parseFloat);
    var st1 := Announce(st, input.announce, input.ranked, parseFloat).0;
    var cands := Targets(st, input, parseFloat);
    if cands != [] {
      var w := Winner(input.accepts, cands);
      SettleExpired(st1, jobId, w, Ids(cands));
      assert Cycle(st, input, parseFloat) == Settle(st1, jobId, w, Ids(cands));
      var offers := OfferMessages(cands, AnnouncementOf(input.announce));
      var l := LostMessages(jobId, None, Ids(cands));
      assert AssignedMessages(jobId, None) == [];
      AppendAssoc(st.published, offers, [], l);
    }
  }

  /** The part of SettleSpec a cycle without acceptor needs. */
  lemma SettleExpired(st: Store, jobId: string, w: Option<string>, ids: seq<string>)
    requires !HoldsNonHash(st.data, JobKey(jobId))
    ensures var r := Settle(st, jobId, w, ids);
      r.1.NobodyAccepted? ==>
        && JobKey(jobId) in r.0.data && r.0.data[JobKey(jobId)].Hash?
        && "status" in r.0.data[JobKey(jobId)].fields
        && r.0.data[JobKey(jobId)].fields["status"] == "EXPIRED"
        && r.0.published == st.published + LostMessages(jobId, None, ids)
  {
    SettleSpec(st, jobId, w, ids);
  }

  /** The messages a cycle with candidates publishes, counted per courier. */
  lemma RoundCount(cands: seq<Hit>, ann: Announcement, jobId: string, w: Option<string>, c: string)
    requires Distinct(Ids(cands))
    requires w.Some? ==> w.value != ""
    ensures var sent := Round(cands, ann, jobId, w);
      && Count(sent, OfferFor(c)) == (if c in Ids(cands) then 1 else 0)
      && Count(sent, AssignedFor(c, jobId)) == (if w == Some(c) then 1 else 0)
      && Count(sent, LossFor(c, jobId)) == (if c in Ids(cands) && w != Some(c) then 1 else 0)
  {
    RoundOffers(cands, ann, jobId, w, c);
    RoundAssigned(cands, ann, jobId, w, c);
    RoundLosses(cands, ann, jobId, w, c);
  }

  lemma RoundOffers(cands: seq<Hit>, ann: Announcement, jobId: string, w: Option<string>, c: string)
    requires Distinct(Ids(cands))
    ensures Count(Round(cands, ann, jobId, w), OfferFor(c)) == (if c in Ids(cands) then 1 else 0)
  {
    var offers := OfferMessages(cands, ann);
    var toWinner := AssignedMessages(jobId, w);
    var lost := LostMessages(jobId, w, Ids(cands));
    OfferMessagesCount(cands, ann, c);
    CountAppend(offers + toWinner, lost, OfferFor(c));
    CountAppend(offers, toWinner, OfferFor(c));
    CountNone(toWinner, OfferFor(c));
    CountNone(lost, OfferFor(c));
  }

  lemma RoundAssigned(cands: seq<Hit>, ann: Announcement, jobId: string, w: Option<string>, c: string)
    requires w.Some? ==> w.value != ""
    ensures Count(Round(cands, ann, jobId, w), AssignedFor(c, jobId)) == (if w == Some(c) then 1 else 0)
  {
    var offers := OfferMessages(cands, ann);
    var toWinner := AssignedMessages(jobId, w);
    var lost := LostMessages(jobId, w, Ids(cands));
    CountAppend(offers + toWinner, lost, AssignedFor(c, jobId));
    CountAppend(offers, toWinner, AssignedFor(c, jobId));
    CountNone(offers, AssignedFor(c, jobId));
    CountNone(lost, AssignedFor(c, jobId));
    if w.Some? {
      NotifyChannelInjective(c, w.value);
      assert toWinner == [Message(NotifyChannel(w.value), AssignedMsg(jobId))];
      assert toWinner[..0] == [];
    }
  }

  lemma RoundLosses(cands: seq<Hit>, ann: Announcement, jobId: string, w: Option<string>, c: string)
    requires Distinct(Ids(cands))
    ensures Count(Round(cands, ann, jobId, w), LossFor(c, jobId)) == (if c in Ids(cands) && w != Some(c) then 1 else 0)
  {
    var offers := OfferMessages(cands, ann);
    var toWinner := AssignedMessages(jobId, w);
    var lost := LostMessages(jobId, w, Ids(cands));
    LostMessagesCount(jobId, w, Ids(cands), c);
    CountAppend(offers + toWinner, lost, LossFor(c, jobId));
    CountAppend(offers, toWinner, LossFor(c, jobId));
    CountNone(offers, LossFor(c, jobId));
    CountNone(toWinner, LossFor(c, jobId));
  }

  /** The courier a cycle assigned the job to, if any. */
  function Assignee(outcome: CycleOutcome): Option<string>
  {
    if outcome.AssignedTo? then Some(outcome.courierId) else None
  }

  /** What each courier is sent by a cycle that found candidates: a targeted courier gets one
      offer, and then either the one ASSIGNED message (the winner) or one JOB_LOST (everyone else,
      everyone when nobody accepted); a courier not targeted gets nothing. */
  lemma CycleMessagesCount(st: Store, input: CycleInput, parseFloat: string -> Option<int>, c: string)
    requires WellFormedCycle(st, input)
    requires !Cycle(st, input, parseFloat).1.NoCandidates?
    ensures var r := Cycle(st, input, parseFloat);
      var jobId := input.announce.jobId;
      var cands := Targets(st, input, parseFloat);
      var sent := r.0.published[|st.published|..];
      && Count(sent, OfferFor(c)) == (if c in Ids(cands) then 1 else 0)
      && Count(sent, AssignedFor(c, jobId)) == (if r.1 == AssignedTo(c) then 1 else 0)
      && Count(sent, LossFor(c, jobId)) == (if c in Ids(cands) && r.1 != AssignedTo(c) then 1 else 0)
  {
    CycleAssigned(st, input, parseFloat);
    CycleExpired(st, input, parseFloat);
    AnnounceTargets(st, input, parseFloat);
    var r := Cycle(st, input, parseFloat);
    var round := Round(Targets(st, input, parseFloat), AnnouncementOf(input.announce), input.announce.jobId, Assignee(r.1));
    assert r.0.published == st.published + round;
    assert r.0.published[|st.published|..] == round;
    RoundCount(Targets(st, input, parseFloat), AnnouncementOf(input.announce), input.announce.jobId, Assignee(r.1), c);
  }

  // ---------------------------------------------------------------- the five courses

  /** One course: a cycle, on a job key free for a hash and a window of accepts. */
  function CycleStep(parseFloat: string -> Option<int>): (Store, CycleInput) --> (Store, CycleOutcome)
  {
    (st: Store, input: CycleInput) requires !HoldsNonHash(st.data, JobKey(input.announce.jobId)) && AllAccepts(input.accepts)
      => Cycle(st, input, parseFloat)
  }

  lemma CycleStepIsCycle(st: Store, input: CycleInput, parseFloat: string -> Option<int>)
    requires !HoldsNonHash(st.data, JobKey(input.announce.jobId)) && AllAccepts(input.accepts)
    ensures CycleStep(parseFloat).requires(st, input) && CycleStep(parseFloat)(st, input) == Cycle(st, input, parseFloat)
  {
  }

  /** Every course finds its job key free for a hash and reads only accepts, on the keyspace
      the previous courses left. */
  ghost predicate CoursesRunnable(st: Store, inputs: seq<CycleInput>, parseFloat: string -> Option<int>)
    decreases |inputs|
  {
    inputs != [] ==>
      && !HoldsNonHash(st.data, JobKey(inputs[0].announce.jobId)) && AllAccepts(inputs[0].accepts)
      && CoursesRunnable(Cycle(st, inputs[0], parseFloat).0, inputs[1..], parseFloat)
  }

  lemma {:induction false} CoursesRunnableDefined(st: Store, inputs: seq<CycleInput>, parseFloat: string -> Option<int>, i: nat)
    requires i <= |inputs| && CoursesRunnable(st, inputs[i..], parseFloat)
    ensures FoldDefined(CycleStep(parseFloat), st, inputs[i..])
    ensures i < |inputs| ==>
      && !HoldsNonHash(st.data, JobKey(inputs[i].announce.jobId)) && AllAccepts(inputs[i].accepts)
      && CoursesRunnable(Cycle(st, inputs[i], parseFloat).0, inputs[i + 1..], parseFloat)
    decreases |inputs| - i
  {
    if i < |inputs| {
      assert inputs[i..][1..] == inputs[i + 1..];
      CycleStepIsCycle(st, inputs[i], parseFloat);
      CoursesRunnableDefined(Cycle(st, inputs[i], parseFloat).0, inputs, parseFloat, i + 1);
    }
  }

  /** The `for i in range(MAX_COURSES)` loop: one cycle per input, in order, each on the keyspace
      and log the previous one left, with the outcome of each. */
  method RunCourses(server: RedisServer, inputs: seq<CycleInput>, parseFloat: string -> Option<int>)
    returns (outcomes: seq<CycleOutcome>)
    requires |inputs| == MaxCourses
    requires CoursesRunnable(server.State(), inputs, parseFloat)
    modifies server
    ensures FoldDefined(CycleStep(parseFloat), old(server.State()), inputs)
         && (server.State(), outcomes) == Fold(CycleStep(parseFloat), old(server.State()), inputs)
  {
    outcomes := [];
    var i := 0;
    assert inputs[i..] == inputs;
    CoursesRunnableDefined(server.State(), inputs, parseFloat, 0);
    assert [] + Fold(CycleStep(parseFloat), server.State(), inputs).1 == Fold(CycleStep(parseFloat), server.State(), inputs).1;
    while i < |inputs|
      invariant 0 <= i <= |inputs|
      invariant CoursesRunnable(server.State(), inputs[i..], parseFloat)
      invariant FoldDefined(CycleStep(parseFloat), server.State(), inputs[i..])
      invariant Fold(CycleStep(parseFloat), old(server.State()), inputs)
        == Resumed(outcomes, Fold(CycleStep(parseFloat), server.State(), inputs[i..]))
    {
      CoursesRunnableDefined(server.State(), inputs, parseFloat, i);
      FoldStep(CycleStep(parseFloat), server.State(), inputs, i, outcomes);
      CycleStepIsCycle(server.State(), inputs[i], parseFloat);
      var o := RunCycle(server, inputs[i], parseFloat);
      outcomes := outcomes + [o];
      i := i + 1;
      CoursesRunnableDefined(server.State(), inputs, parseFloat, i);
    }
    assert inputs[i..] == [];
    assert outcomes + [] == outcomes;
  }

  /** The hypotheses of the cycle theorem hold for every course. */
  ghost predicate CoursesWellFormed(st: Store, inputs: seq<CycleInput>, parseFloat: string -> Option<int>)
    decreases |inputs|
  {
    inputs != [] ==>
      && WellFormedCycle(st, inputs[0])
      && CoursesWellFormed(Cycle(st, inputs[0], parseFloat).0, inputs[1..], parseFloat)
  }

  /** The job ids of the courses, in order. */
  function JobIds(inputs: seq<CycleInput>): (ids: seq<string>)
    ensures |ids| == |inputs|
  {
    seq(|inputs|, i requires 0 <= i < |inputs| => inputs[i].announce.jobId)
  }

  /** The job hashes the courses may write. */
  function JobKeys(inputs: seq<CycleInput>): set<string>
  {
    set id | id in JobIds(inputs) :: JobKey(id)
  }

  /** The first course of a run, unfolded. */
  lemma FirstCourse(st: Store, inputs: seq<CycleInput>, parseFloat: string -> Option<int>)
    requires inputs != [] && CoursesWellFormed(st, inputs, parseFloat)
    ensures var c := Cycle(st, inputs[0], parseFloat);
      && CoursesWellFormed(c.0, inputs[1..], parseFloat)
      && FoldDefined(CycleStep(parseFloat), st, inputs) == FoldDefined(CycleStep(parseFloat), c.0, inputs[1..])
      && (FoldDefined(CycleStep(parseFloat), st, inputs) ==>
            Fold(CycleStep(parseFloat), st, inputs) == Resumed([c.1], Fold(CycleStep(parseFloat), c.0, inputs[1..])))
  {
    CycleStepIsCycle(st, inputs[0], parseFloat);
    assert inputs[0..] == inputs;
  }

  lemma {:induction false} CoursesWellFormedRunnable(st: Store, inputs: seq<CycleInput>, parseFloat: string -> Option<int>)
    requires CoursesWellFormed(st, inputs, parseFloat)
    ensures FoldDefined(CycleStep(parseFloat), st, inputs)
    decreases |inputs|
  {
    if inputs != [] {
      FirstCourse(st, inputs, parseFloat);
      CoursesWellFormedRunnable(Cycle(st, inputs[0], parseFloat).0, inputs[1..], parseFloat);
    }
  }

  /** What one cycle leaves of its own job hash and of the other keys. */
  lemma CycleKeepsJobs(st: Store, input: CycleInput, parseFloat: string -> Option<int>)
    requires WellFormedCycle(st, input)
    ensures var (st', outcome) := Cycle(st, input, parseFloat);
      && (forall k :: k in st.data && k != JobKey(input.announce.jobId) ==> k in st'.data && st'.data[k] == st.data[k])
      && CourseSettled(st'.data, input, outcome)
  {
    CycleKeyspace(st, input, parseFloat);
    CycleAssigned(st, input, parseFloat);
    CycleExpired(st, input, parseFloat);
  }

  /** The job hash `job` holds `status`, and the selected courier when one is given. */
  predicate Settled(data: map<string, Value>, job: string, status: string, courier: Option<string>)
  {
    && job in data && data[job].Hash? && "status" in data[job].fields
    && data[job].fields["status"] == status
    && (courier.Some? ==> "selected_courier" in data[job].fields && data[job].fields["selected_courier"] == courier.value)
  }

  /** The job hash of a course shows its outcome: ASSIGNED to the courier it chose, or EXPIRED. */
  predicate CourseSettled(data: map<string, Value>, input: CycleInput, outcome: CycleOutcome)
  {
    && (outcome.AssignedTo? ==> Settled(data, JobKey(input.announce.jobId), "ASSIGNED", Some(outcome.courierId)))
    && (outcome.NobodyAccepted? ==> Settled(data, JobKey(input.announce.jobId), "EXPIRED", None))
  }

  /** The rest of the courses write none of the first course's keys. */
  lemma TailJobKeys(inputs: seq<CycleInput>)
    requires inputs != [] && Distinct(JobIds(inputs))
    ensures Distinct(JobIds(inputs[1..]))
    ensures JobKey(inputs[0].announce.jobId) !in JobKeys(inputs[1..])
    ensures JobKeys(inputs) == {JobKey(inputs[0].announce.jobId)} + JobKeys(inputs[1..])
  {
    var ids := JobIds(inputs);
    assert JobIds(inputs[1..]) == ids[1..];
    assert ids == [inputs[0].announce.jobId] + JobIds(inputs[1..]);
    forall id | id in JobIds(inputs[1..]) ensures JobKey(inputs[0].announce.jobId) != JobKey(id) {
      var j :| 0 <= j < |ids[1..]| && ids[1..][j] == id;
      assert ids[j + 1] == id && ids[0] == inputs[0].announce.jobId;
      JobKeyInjective(inputs[0].announce.jobId, id);
    }
  }

  /** Putting the first course and the rest together. */
  lemma SettledAcross(data0: map<string, Value>, data1: map<string, Value>, final: map<string, Value>,
                      inputs: seq<CycleInput>, outcomes: seq<CycleOutcome>)
    requires inputs != [] && |outcomes| == |inputs|
    requires JobKeys(inputs) == {JobKey(inputs[0].announce.jobId)} + JobKeys(inputs[1..])
    requires JobKey(inputs[0].announce.jobId) !in JobKeys(inputs[1..])
    requires forall k :: k in data0 && k != JobKey(inputs[0].announce.jobId) ==> k in data1 && data1[k] == data0[k]
    requires CourseSettled(data1, inputs[0], outcomes[0])
    requires forall k :: k in data1 && k !in JobKeys(inputs[1..]) ==> k in final && final[k] == data1[k]
    requires forall i :: 0 <= i < |inputs| - 1 ==> CourseSettled(final, inputs[1..][i], outcomes[1..][i])
    ensures forall k :: k in data0 && k !in JobKeys(inputs) ==> k in final && final[k] == data0[k]
    ensures forall i :: 0 <= i < |inputs| ==> CourseSettled(final, inputs[i], outcomes[i])
  {
    forall i | 0 <= i < |inputs| ensures CourseSettled(final, inputs[i], outcomes[i]) {
      if i > 0 {
        assert inputs[i] == inputs[1..][i - 1] && outcomes[i] == outcomes[1..][i - 1];
      }
    }
  }

  /** What the five courses leave behind, for distinct job ids (uuid4 never repeats): the hash
      of a job a course assigned still says ASSIGNED to that course's courier at the end, the hash
      of a job nobody accepted still says EXPIRED, and every key other than the courses' job
      hashes is as it was. */
  lemma {:induction false} CoursesSettle(st: Store, inputs: seq<CycleInput>, parseFloat: string -> Option<int>)
    requires CoursesWellFormed(st, inputs, parseFloat) && Distinct(JobIds(inputs))
    ensures FoldDefined(CycleStep(parseFloat), st, inputs)
    ensures var (st', outcomes) := Fold(CycleStep(parseFloat), st, inputs);
      && (forall k :: k in st.data && k !in JobKeys(inputs) ==> k in st'.data && st'.data[k] == st.data[k])
      && (forall i :: 0 <= i < |inputs| ==> CourseSettled(st'.data, inputs[i], outcomes[i]))
    decreases |inputs|
  {
    CoursesWellFormedRunnable(st, inputs, parseFloat);
    if inputs != [] {
      var c := Cycle(st, inputs[0], parseFloat);
      FirstCourse(st, inputs, parseFloat);
      CycleKeepsJobs(st, inputs[0], parseFloat);
      TailJobKeys(inputs);
      CoursesSettle(c.0, inputs[1..], parseFloat);
      var rest := Fold(CycleStep(parseFloat), c.0, inputs[1..]);
      var outcomes := Fold(CycleStep(parseFloat), st, inputs).1;
      assert outcomes[0] == c.1 && outcomes[1..] == rest.1;
      SettledAcross(st.data, c.0.data, rest.0.data, inputs, outcomes);
    }
  }
}
