# UberEats dispatch: a Dafny model

The UberEats project sends delivery jobs to couriers in two interchangeable versions, one built on a document database (MongoDB) and one built on a key-value server with publish/subscribe channels (Redis). Each version has three programs:

- **The dispatcher** (`manager_*.py`) runs five courses. For each course it:
  - creates a job;
  - offers the job to the five nearest couriers;
  - collects the acceptances that arrive within a window;
  - gives the job to the closest courier that accepted, ties going to the first arrival;
  - records the outcome: ASSIGNED, WON, LOST or EXPIRED in the database, or ASSIGNED and JOB_LOST messages on the couriers' private channels.
- **The courier agent** (`livreur_*.py`) reports its position. It accepts every offer it is sent and logs results. In the document version it switches to `on_delivery` while it carries a job it won.
- **The catalog loader** (`populate_*.py`) empties the store and reads CSV rows. It skips rows without a restaurant id, stores each restaurant once and one menu per row, and stops after `limit` menus. It cleans prices with `_clean_price`.

## How the model is built

| Dafny module | File | Models |
|---|---|---|
| `MongoStore` | `mongo_store.dfy` | the document database as a class `MongoDb` whose five collections are fields |
| `RedisStore` | `redis_store.dfy` | the key-value server as a class `RedisServer`: a typed keyspace (hashes, sets, geo sets) and the log of every published message |
| `Geo` | `geo.dfy` | the "k nearest" query |
| `Selection` | `selection.dfy` | the stable sort and the `[0]` that picks the winner |
| `Catalog` | `catalog.dfy` | CSV rows, `row.get` and the rows a limited load keeps |
| `Price` | `price.dfy` | `_clean_price`; both loaders share it |
| `MongoDispatcher` | `mongo_dispatcher.dfy` | `manager_mongo.py` |
| `RedisDispatcher` | `redis_dispatcher.dfy` | `manager_redis.py` |
| `MongoCourier` | `mongo_courier.dfy` | `livreur_mongo.py` |
| `RedisCourier` | `redis_courier.dfy` | `livreur_redis.py` |
| `MongoLoader` | `mongo_loader.dfy` | `populate_mongo.py` |
| `RedisLoader` | `redis_loader.dfy` | `populate_redis.py` |
| `Common` | `common.dfy` | small shared definitions |

The stores are classes: `MongoDb` has the five collections as fields, and `RedisServer` has the keyspace and the log, with `Publish` as its one method. Every function of the source that changes a store is a module-level method that takes the store object as a parameter, such as `OfferToNearest`, `NotifySelection`, `ReportWalk`, `StoreMenu` and both `Populate` methods. Each such method carries a `modifies` clause for that store, and its `ensures` ties the new state to a specification function of the old state. Loops in the source are `while` loops with invariants. The properties are lemmas about the specification functions.

Some inputs of the source are parameters of the model:

- Wall-clock windows become the finite sequence of events that arrived before the deadline. This covers change-stream events, subscribed messages and `pubsub.listen()` entries.
- uuid4 values, random coordinates, rewards and drop-off addresses are inputs.
- The database's distance computation becomes an input `ranked`: every indexed courier with an integer distance, closest first.
- `float()` on a coordinate becomes an input `parseFloat`.

### Behaviour the code has and a tidier protocol would not

- **No terminal-state guard.** A guarded state machine would reject any write out of WON, LOST or EXPIRED. The code makes unconditional writes, and the model keeps them:
  - the courier's accept write (`HandleOfferSpec`);
  - the dispatcher's commit updates (`CommitSpec`).
- **A missing job is skipped.** A job missing at commit time could be treated as a fatal error. Instead the code's `update_one` silently matches nothing, and so does `UpdateJob`.
- **Redis leaves a job hash when no courier is found.** The Redis dispatcher writes `job:{id}` before its search, so a course that finds no courier still leaves the hash (`AnnounceSpec`, `CycleKeyspace`).
- **No separate expired message.** When nobody accepts, the Redis dispatcher sends JOB_LOST to every candidate (`CycleExpired`).
- **No result messages in the document version.** Its dispatcher only changes bid statuses, and couriers observe those statuses.
- **An empty courier id is falsy.** In the document version, `if courier_id_gagnant:` skips the job and winner updates when the chosen acceptor's id is "". `livreur_mongo.py` accepts any id on its command line. That course leaves the job PENDING, leaves the acceptor's bid untouched and turns every other bid LOST. `SettleSpec`, `CycleSpec` and `CoursesSettle` state this case.

## Model

| member | source | states |
|---|---|---|
| Geo.NearestSpec | projet_ubereats/manager_mongo.py:46-59 | a k-nearest query returns at most k eligible hits, closest first, no courier twice; an eligible hit left out is only left out because k closer-or-equal hits were returned |
| MongoDispatcher.NearestAvailableSpec | projet_ubereats/manager_mongo.py:46-62 | at most 5 couriers are targeted, all with status available, closest first, each once; an available courier not targeted is no closer than any targeted one |
| MongoDispatcher.OfferSpec | projet_ubereats/manager_mongo.py:62-102 | with no available courier nothing is inserted and `(None, [], [])` is returned; otherwise exactly one PENDING job with no selected courier and one OFFERED bid per candidate (its id and distance) are inserted, the returned lists follow candidate order and have equal length, and no existing document changes |
| MongoDispatcher.InsertedBids | projet_ubereats/manager_mongo.py:84-99 | after the insert loop the bids of the new job are exactly the first bid ids, the k-th aimed at the k-th candidate, and earlier bids are kept |
| MongoDispatcher.OfferToNearest | projet_ubereats/manager_mongo.py:38-102 | the insert loop leaves the database and returns the lists that the offer specification describes |
| MongoDispatcher.AcceptancesSpec | projet_ubereats/manager_mongo.py:107-134 | a candidate is collected exactly when an update event arrived for one of the sent bids of this job with status ACCEPTED |
| MongoDispatcher.AwaitAcceptances | projet_ubereats/manager_mongo.py:105-144 | the result is None exactly when no matching event arrived; otherwise it is a collected candidate of minimal distance, the earliest such one |
| Selection.SortBy | projet_ubereats/manager_mongo.py:141 | the stable sort returns a permutation of its input |
| Selection.SortBySorted | projet_ubereats/manager_mongo.py:141 | the sort's result is ordered by key |
| Selection.FirstMinIndex | projet_ubereats/manager_mongo.py:140-143 | reference definition of the tie-break: the position of the first element of minimal key |
| Selection.SelectFirstSpec | projet_ubereats/manager_mongo.py:140-144 | taking element 0 of the stable sort yields None exactly for no candidates, else the earliest element of minimal key |
| MongoDispatcher.WinnerExample | projet_ubereats/manager_mongo.py:140-143 | of acceptances at 120 m, 95 m and 95 m the first 95 m one wins |
| MongoDispatcher.CommitSpec | projet_ubereats/manager_mongo.py:147-171 | with a winner the job becomes ASSIGNED to it and its bids of the job WON, every other targeted bid of the job gets the failure status; bids of other jobs or untargeted couriers, other jobs and the other collections are unchanged; writes ignore the previous status |
| MongoDispatcher.NotifySelection | projet_ubereats/manager_mongo.py:147-171 | the three update calls leave the state the commit specification describes |
| MongoDispatcher.CommitWinner | projet_ubereats/manager_mongo.py:150-171 | with one bid per targeted courier: the job ends ASSIGNED to the winner, the winner's bid WON, every other bid of the job LOST, and the winner does hold a bid |
| MongoDispatcher.CommitEmptyWinner | projet_ubereats/manager_mongo.py:147-171 | with an acceptor whose id is "": the job is unchanged, the acceptor's bid is untouched, every other bid of the job is LOST (`$ne: ""`), and nothing else changes |
| MongoDispatcher.SettleSpec | projet_ubereats/manager_mongo.py:193-202 | the commit after the wait: ASSIGNED and WON for a truthy acceptor, the job and its own bid unchanged for id "", EXPIRED for the job and all its bids without acceptor; other bids LOST; other documents unchanged |
| MongoDispatcher.CommitNobody | projet_ubereats/manager_mongo.py:199-202 | when nobody accepted the job and every one of its bids end EXPIRED (`$ne: None` matches them all) and nothing else changes |
| MongoDispatcher.JobBidsTargeted | projet_ubereats/manager_mongo.py:165-168 | every bid of the job is aimed at a targeted courier, so the loser update reaches all of them |
| MongoDispatcher.CommitWinnerUnique | projet_ubereats/manager_mongo.py:157-160 | the winner update leaves at most one WON bid of the job |
| MongoDispatcher.WonIsTheWinners | projet_ubereats/manager_mongo.py:157-160 | a bid of the job is WON after the commit only if it targets the winner |
| MongoDispatcher.OfferedOneBidPerTarget | projet_ubereats/manager_mongo.py:88-99 | after the offer step the job has one bid per targeted courier and no courier twice |
| MongoDispatcher.OfferedJob | projet_ubereats/manager_mongo.py:74-99 | after an offer that found couriers the job exists and every one of its bids is OFFERED |
| MongoDispatcher.OfferKeeps | projet_ubereats/manager_mongo.py:80-97 | the offer step keeps every document that existed before it |
| MongoDispatcher.WinnerIsTargeted | projet_ubereats/manager_mongo.py:193-197 | the chosen acceptor is one of the targeted couriers |
| MongoDispatcher.RunCycle | projet_ubereats/manager_mongo.py:185-202 | one course, with its branches for no courier, a winner and nobody accepting |
| MongoDispatcher.CycleSpec | projet_ubereats/manager_mongo.py:185-202 | a course creates no job exactly when no courier is available; otherwise the chosen acceptor is targeted and holds a bid of the job; the job ends ASSIGNED to it, its bid WON and all other bids LOST; an acceptor with id "" leaves the job PENDING with no selected courier and its bid OFFERED, all other bids LOST; with no acceptor the job and all its bids end EXPIRED; earlier documents are unchanged |
| MongoDispatcher.OneWonBid | projet_ubereats/manager_mongo.py:195-202 | after a course the job has at most one WON bid |
| MongoDispatcher.CycleKeepsJobs | projet_ubereats/manager_mongo.py:185-202 | a course keeps every earlier job and leaves its own job ASSIGNED to its courier, PENDING when that courier's id is "", or EXPIRED |
| MongoDispatcher.RunCourses | projet_ubereats/manager_mongo.py:177-204 | the `MAX_COURSES` loop runs five courses in order, each on the database the previous one left |
| MongoDispatcher.CoursesSettle | projet_ubereats/manager_mongo.py:182-202 | after the five courses every earlier job is kept, and each course's job still says ASSIGNED to that course's courier (PENDING when its id is ""), or EXPIRED |
| RedisDispatcher.Announce | projet_ubereats/manager_redis.py:17-84 | a returned job id is the uuid drawn, and its hash exists; candidates are only returned with a job id |
| RedisDispatcher.AnnounceSpec | projet_ubereats/manager_redis.py:17-84 | invalid coordinates cancel the course before any write; otherwise `job:{id}` holds the announcement, written before the search so it stays when no courier is found; on a geo set the targets are exactly its 5 nearest members within 1000 km (at most 5, closest first, each once), each sent one NEW_JOB_OFFER with its distance and the announcement; a missing or non-geo location key gives no candidates; no other key changes |
| RedisDispatcher.AnnounceTargets | projet_ubereats/manager_redis.py:17-84 | within a cycle the announcement targets exactly the cycle's `Targets` (the 5 nearest within the radius on a geo set, else none), no courier twice, and appends their offers to the log |
| RedisDispatcher.PublishAnnouncement | projet_ubereats/manager_redis.py:17-84 | the hash write, the search and the publish loop leave the store the announcement specification describes |
| RedisDispatcher.OfferMessages | projet_ubereats/manager_redis.py:68-82 | the k-th offer goes to the k-th candidate's private channel with its distance and the announcement |
| RedisDispatcher.OfferMessagesCount | projet_ubereats/manager_redis.py:68-82 | each targeted courier gets exactly one NEW_JOB_OFFER and no one else gets one |
| RedisDispatcher.CandidateMapSpec | projet_ubereats/manager_redis.py:66-72 | `candidats_potentiels` maps exactly the candidates, each to its own distance |
| RedisDispatcher.AcceptedSpec | projet_ubereats/manager_redis.py:95-109 | an acceptor is kept exactly when a targeted courier's accept arrived, with the distance stored for it (not the one in the message) |
| RedisDispatcher.AcceptedCovers | projet_ubereats/manager_redis.py:104-107 | every accept of a targeted courier yields an acceptor with its stored distance |
| RedisDispatcher.WinnerNone | projet_ubereats/manager_redis.py:113-114 | nobody is chosen exactly when no targeted courier accepted |
| RedisDispatcher.AcceptedPrefix | projet_ubereats/manager_redis.py:95-108 | the k-th acceptor comes from an accept that arrived, and the acceptors before it are exactly those of the messages that arrived before that accept |
| RedisDispatcher.WinnerClosest | projet_ubereats/manager_redis.py:113-118 | the first minimum of the acceptors is a targeted courier that accepted, with its stored distance, no farther than any targeted acceptor |
| RedisDispatcher.WinnerEarliest | projet_ubereats/manager_redis.py:113-118 | the stable sort's winner is the first of the equally near acceptors to arrive: every targeted courier whose accept arrived before it is strictly farther |
| RedisDispatcher.WinnerBest | projet_ubereats/manager_redis.py:113-121 | the chosen courier is targeted, did accept, has the smallest stored distance among the acceptors, and every targeted accept that arrived before its own is strictly farther (ties go to the first arrival) |
| RedisDispatcher.WinnerIsCandidate | projet_ubereats/manager_redis.py:104-121 | the chosen courier is one of the targeted couriers |
| RedisDispatcher.AwaitAcceptance | projet_ubereats/manager_redis.py:87-121 | the window loop returns None exactly when no targeted courier accepted, else a targeted acceptor of minimal stored distance, the first such accept to arrive |
| RedisDispatcher.LostMessages | projet_ubereats/manager_redis.py:137-144 | every message of the loser loop is a JOB_LOST for this job |
| RedisDispatcher.LostMessagesCount | projet_ubereats/manager_redis.py:137-144 | each candidate other than the winner gets exactly one JOB_LOST, the winner and non-candidates none |
| RedisDispatcher.LosersNotified | projet_ubereats/manager_redis.py:127-147 | `losers_notified` counts the candidates other than the winner |
| RedisDispatcher.NotifySpec | projet_ubereats/manager_redis.py:126-147 | with a winner the job hash gets ASSIGNED and selected_courier and the winner exactly one ASSIGNED message; without one the keyspace is unchanged and nobody gets ASSIGNED; the loser messages follow; other fields and keys are kept |
| RedisDispatcher.NotifySelection | projet_ubereats/manager_redis.py:126-147 | the writes and publishes leave the store and the count the notify specification describes |
| RedisDispatcher.SettleSpec | projet_ubereats/manager_redis.py:170-179 | after the window the job ends ASSIGNED to a truthy winner or EXPIRED, its other fields and all other keys are kept, and the ASSIGNED then JOB_LOST messages are published |
| RedisDispatcher.SettleExpired | projet_ubereats/manager_redis.py:175-179 | with no winner the job hash says EXPIRED and every candidate is sent JOB_LOST |
| RedisDispatcher.RunCycle | projet_ubereats/manager_redis.py:159-179 | one course, with its branches for no candidates, a winner and nobody accepting |
| RedisDispatcher.CycleKeyspace | projet_ubereats/manager_redis.py:159-179 | invalid coordinates change nothing; otherwise the job hash holds the announcement and no other key changes; a course has no candidates exactly when nobody was targeted, and then publishes nothing |
| RedisDispatcher.CycleAssigned | projet_ubereats/manager_redis.py:167-173 | an assigned course chose the window's winner, a targeted courier; the job hash records it; the log grows by the offers, the ASSIGNED message and the other candidates' JOB_LOST |
| RedisDispatcher.CycleExpired | projet_ubereats/manager_redis.py:174-179 | a course nobody accepted leaves the job EXPIRED and the log grown by the offers and a JOB_LOST for every candidate |
| RedisDispatcher.RoundCount | projet_ubereats/manager_redis.py:68-144 | in a course's messages each targeted courier has one offer, the winner one ASSIGNED, every other candidate one JOB_LOST |
| RedisDispatcher.CycleMessagesCount | projet_ubereats/manager_redis.py:159-179 | what each courier is sent by a course with candidates: one offer and then either ASSIGNED (the winner) or JOB_LOST (everyone else); non-targeted couriers get nothing |
| RedisDispatcher.CycleKeepsJobs | projet_ubereats/manager_redis.py:159-179 | a course touches no key but its job hash, which ends ASSIGNED to its courier or EXPIRED |
| RedisDispatcher.RunCourses | projet_ubereats/manager_redis.py:152-180 | the `MAX_COURSES` loop runs five courses in order, each on the keyspace and log the previous one left |
| RedisDispatcher.CoursesSettle | projet_ubereats/manager_redis.py:155-180 | after the courses (distinct job ids) every key but their job hashes is as it was, and each job hash says ASSIGNED to its course's courier or EXPIRED |
| RedisStore.HSetSpec | projet_ubereats/manager_redis.py:38 | HSET creates or extends the hash, overwriting only the fields given; no other key changes |
| RedisStore.AddSpec | projet_ubereats/populate_redis.py:61 | SADD and GEOADD fail exactly on a key of another type, otherwise add or move one member and change no other key |
| RedisStore.NotifyChannelInjective | projet_ubereats/livreur_redis.py:40 | two couriers share a private channel exactly when they are the same courier |
| RedisStore.JobKeyInjective | projet_ubereats/manager_redis.py:38 | two jobs share a hash key exactly when they are the same job |
| RedisStore.JobKeyIsNotLocations | projet_ubereats/manager_redis.py:38-52 | the job hash is never the courier geo set |
| RedisStore.RedisServer.constructor | projet_ubereats/manager_redis.py:3 | a server starts with an empty keyspace and log |
| RedisStore.RedisServer.Publish | projet_ubereats/manager_redis.py:81 | PUBLISH appends one message to the log and writes no key |
| MongoStore.MongoDb.constructor | projet_ubereats/manager_mongo.py:9-15 | a database starts with five empty collections |
| MongoCourier.ReportedSpec | projet_ubereats/livreur_mongo.py:38-49 | a report upserts exactly the courier's document with the location and status available; other couriers are unchanged |
| MongoCourier.ReportDuringDelivery | projet_ubereats/livreur_mongo.py:41-44 | a report sent while on_delivery makes the courier available again |
| MongoCourier.ReportedTwice | projet_ubereats/livreur_mongo.py:36-55 | two reports leave what the last one alone would |
| MongoCourier.ReportPosition | projet_ubereats/livreur_mongo.py:38-49 | one report changes only the couriers collection, as the upsert specification says |
| MongoCourier.ReportWalk | projet_ubereats/livreur_mongo.py:36-55 | the reporting loop leaves the last report standing and the database otherwise unchanged |
| MongoCourier.HandleOfferSpec | projet_ubereats/livreur_mongo.py:73-90 | events other than an inserted OFFERED bid for this courier, and offers whose job is missing, write nothing; otherwise exactly that bid becomes ACCEPTED, whatever its status |
| MongoCourier.HandleOffersSpec | projet_ubereats/livreur_mongo.py:59-90 | after the offer handler the accepted bids are exactly those offered to this courier for an existing job; nothing else changes |
| MongoCourier.ListenOffers | projet_ubereats/livreur_mongo.py:59-90 | the event loop leaves the state the handler specification describes |
| MongoCourier.ListenResults | projet_ubereats/livreur_mongo.py:93-113 | the log is one notice per matching update of this courier's bids, the k-th notice for the k-th matching event in arrival order, LOST or EXPIRED as the event says; no record is written |
| MongoCourier.NoticesOfResults | projet_ubereats/livreur_mongo.py:93-113 | such a log holds a LOST notice for a job exactly when a LOST update of it arrived, and likewise for EXPIRED |
| MongoCourier.DeliveryRoundTrip | projet_ubereats/livreur_mongo.py:132-142 | while on_delivery a courier is not offered jobs; the delivery's end restores the record of an available courier |
| MongoCourier.StartDelivery | projet_ubereats/livreur_mongo.py:133 | the courier's status becomes on_delivery, nothing else changes |
| MongoCourier.FinishDelivery | projet_ubereats/livreur_mongo.py:142 | the courier's status becomes available, nothing else changes |
| MongoCourier.Deliver | projet_ubereats/livreur_mongo.py:125-145 | an assignment to this courier goes on_delivery then back to available; other events change nothing |
| MongoCourier.ListenAssignments | projet_ubereats/livreur_mongo.py:117-145 | once an assignment to this courier was seen, its record ends available; without one nothing changes |
| RedisCourier.ReportSpec | projet_ubereats/livreur_redis.py:20-34 | GEOADD upserts this courier's member at the reported position and keeps the other members; on a key holding a hash or a set the error is caught and nothing changes |
| RedisCourier.ReportedTwice | projet_ubereats/livreur_redis.py:19-28 | two reports leave what the last one alone would |
| RedisCourier.ReportWalk | projet_ubereats/livreur_redis.py:19-34 | the reporting loop leaves the last report standing and publishes nothing |
| RedisCourier.Delivered | projet_ubereats/livreur_redis.py:38-40 | the subscription delivers at most the messages of the log |
| RedisCourier.DeliveredAppend | projet_ubereats/livreur_redis.py:38-40 | a message on this courier's channel reaches it, one on another courier's channel never does |
| RedisCourier.ReactionSpec | projet_ubereats/livreur_redis.py:44-74 | an entry publishes one accept exactly when it is a "message" carrying NEW_JOB_OFFER, on `jobs:{job_id}:accepts` with this courier, the job id and the distance unchanged; ASSIGNED, JOB_LOST and any other type publish nothing |
| RedisCourier.ReactionsSpec | projet_ubereats/livreur_redis.py:43-74 | the listener answers exactly the offers among its entries, each once, in arrival order, and nothing else |
| RedisCourier.Listen | projet_ubereats/livreur_redis.py:37-75 | the listen loop publishes those answers and changes no key |
| RedisCourier.OfferAnswered | projet_ubereats/livreur_redis.py:51-66 | an offer sent to a targeted courier reaches it and is answered with its own id, the job and the dispatcher's distance |
| Catalog.HasIdSpec | projet_ubereats/populate_mongo.py:56-58 | a row passes `if not rid` exactly when its restaurant id is present and non-empty |
| Catalog.KeptAppend | projet_ubereats/populate_mongo.py:52-58 | a row is kept exactly when it has an id and the limit was not reached by the rows before it |
| Catalog.KeptBound | projet_ubereats/populate_mongo.py:53-54 | a truthy limit bounds the kept rows; None or 0 keeps every row with an id |
| Price.LeadingDigits | projet_ubereats/populate_mongo.py:15 | the maximal run of digits at the start of a text |
| Price.FirstDigit | projet_ubereats/populate_mongo.py:15 | the position of the first digit, with no digit before it |
| Price.CleanPriceEmpty | projet_ubereats/populate_mongo.py:12-13 | None and "" give 0 |
| Price.CleanPriceNoDigit | projet_ubereats/populate_mongo.py:15-17 | a text without a digit gives 0 |
| Price.CleanPriceWithFraction | projet_ubereats/populate_mongo.py:15-18 | the first digits followed by '.' or ',' and more digits are the number, ',' read as '.' |
| Price.CleanPriceWhole | projet_ubereats/populate_mongo.py:15-18 | digits followed by no separated digits are a whole number |
| Price.CleanPriceTrailingSeparator | projet_ubereats/populate_mongo.py:15 | "15." gives 15: a separator with no digit after it is not part of the number |
| Price.CleanPriceExample | projet_ubereats/populate_mongo.py:11 | "15.99 USD" parses to 15.99 |
| Price.ExampleValue | projet_ubereats/populate_mongo.py:18 | that parse denotes the decimal 15.99 |
| MongoLoader.MenusOf | projet_ubereats/populate_mongo.py:88-98 | one menu document per row, in order |
| MongoLoader.CacheGrows | projet_ubereats/populate_mongo.py:61-83 | a row adds its restaurant id to the stored restaurants, the cache and `count_rest` together |
| MongoLoader.MenuGrows | projet_ubereats/populate_mongo.py:88-98 | a row appends its menu and counts it |
| MongoLoader.LoadRowsInvariant | projet_ubereats/populate_mongo.py:52-101 | the row loop keeps the invariant that ties its state to the kept rows |
| MongoLoader.LoadSpec | projet_ubereats/populate_mongo.py:20-101 | one menu per kept row, linked to its restaurant; a truthy limit bounds `count_menu`; the restaurants stored are exactly the kept rows' ids, each once, counted by `count_rest` |
| MongoLoader.SkipRowWithoutId | projet_ubereats/populate_mongo.py:56-58 | a row without a restaurant id inserts nothing |
| MongoLoader.StoppedStays | projet_ubereats/populate_mongo.py:53-54 | after the break no further row changes anything |
| MongoLoader.Populate | projet_ubereats/populate_mongo.py:20-101 | emptying both collections, then the row loop, leaves the collections and counters of the load specification |
| RedisLoader.KeysDiffer | projet_ubereats/populate_redis.py:43-78 | restaurant, menu-set, menu and index keys never meet, except that a restaurant key is a menu-set key exactly when the id is another id followed by ":menus" |
| RedisLoader.MenuFieldsNamed | projet_ubereats/populate_redis.py:68-69 | a menu hash names its row's restaurant |
| RedisLoader.RestaurantFieldsNamed | projet_ubereats/populate_redis.py:53-60 | a restaurant hash names its id |
| RedisLoader.HaltedStays | projet_ubereats/populate_redis.py:37-38 | after the break or a failed command no further row changes anything |
| RedisLoader.KnownRestaurant | projet_ubereats/populate_redis.py:46 | `r.exists(rest_key)` holds exactly for a restaurant stored before |
| RedisLoader.NewRestaurantHolds | projet_ubereats/populate_redis.py:53-62 | a new restaurant's hash is created and its key joins the index |
| RedisLoader.AddMenuHolds | projet_ubereats/populate_redis.py:66-79 | a menu hash is created and its key joins its restaurant's menu set |
| RedisLoader.LoadRowsInvariant | projet_ubereats/populate_redis.py:36-79 | the row loop keeps the invariant that ties the keyspace to the kept rows |
| RedisLoader.LoadSpec | projet_ubereats/populate_redis.py:20-84 | with ids that do not clash, no command fails; one menu hash per kept row, holding its fields and listed in its restaurant's menu set; a truthy limit bounds `count_menu`; the index lists exactly the kept rows' restaurants, each stored once, and `count_rest` equals its size; nothing else is stored |
| RedisLoader.HoldsMeans | projet_ubereats/populate_redis.py:55-79 | the loop invariant gives the index, the count, and each menu in its restaurant's menu set |
| RedisLoader.MenusKeyClash | projet_ubereats/populate_redis.py:78 | a restaurant `x` read after a restaurant `x:menus` makes SADD fail with WRONGTYPE |
| RedisLoader.StoreRestaurant | projet_ubereats/populate_redis.py:53-62 | HSET then SADD to the index, as the new-restaurant step specifies |
| RedisLoader.StoreMenu | projet_ubereats/populate_redis.py:66-79 | HSET of the menu then SADD to the menu set, as the add-menu step specifies |
| RedisLoader.Populate | projet_ubereats/populate_redis.py:20-84 | FLUSHDB, then the row loop, leaves the keyspace and counters of the load specification, stopping at the first failed command |

## Left out

- Database and server clients, `load_dotenv` and the connection settings are left out: the stores are the classes above.
- Change streams, `pubsub.listen()`, `try_next` and `get_message` are left out: each handler reads a given sequence of events.
- Timing is left out: the 10-second acceptance windows, `time.sleep` and the delays between courses. A window is the sequence of events that arrived before its deadline.
- Concurrency is left out: the courier's daemon threads and the `simuler_livraison` thread. `ListenAssignments` carries each delivery to its end before reading the next event, and the reporting thread is a separate loop.
- Randomness is left out: uuid4 values, coordinates, rewards, drop-off addresses, estimated times and the random walk are inputs.
- `choisir_restaurant_et_menu` is left out: it samples from the store at random and retries. Its restaurant and menu are inputs of a course.
- Floating point is left out: distances are integers, coordinates are integer positions and the `round(...)` calls are not modelled. `float()` of a coordinate is the input `parseFloat`.
- `Price.CleanPrice`: the result is the parsed digits, not a float. `ValueOf` gives its decimal value.
- `RedisDispatcher.AnnouncementOf`: the announced price is the menu's price text as stored, not passed through `float()` (manager_redis.py:34). So the job hash holds that text rather than its float repr ("15.50" would be stored as "15.5"). The uncaught `ValueError` for a text `float()` rejects is not modelled either: that error ends the program before the HSET, while `AnnounceSpec` promises a job hash for every course with valid coordinates.
- `RedisDispatcher.AnnounceSpec`: because of the price line above, it does not cover the course that ends the program on an unparsable menu price, and the price field it states is the unconverted text.
- `RedisLoader.PriceText`: the text HSET stores for a price is written from its digits, not by Python's float repr.
- Printing, logging, `create_index`, the `sys.argv` check and the `KeyboardInterrupt` handlers are left out.
- The existence check and opening of the CSV file are left out (`FileNotFoundError`): the rows are an input.
- `MongoDispatcher.Offer`: requires fresh uuid4 ids (`FreshIds`). A duplicate-key error from `insert_one` is not modelled.
- `MongoDispatcher.CycleSpec`: assumes that the change stream reports the stored bid's job and courier (`WellFormedCycle`). The stream's own behaviour is not modelled. The couriers' own writes during the window are not replayed into the dispatcher's database, so the bid of an acceptor with id "" is shown as the OFFERED bid the offer step wrote, where the running system would show it ACCEPTED.
- `Catalog.Row`: a row maps each column present to its text, and `row.get(k, d)` gives `d` for a missing column. `csv.DictReader` instead gives a short row its missing columns with the value None, and `row.get` then returns None. MongoDB would store null there, and redis-py's HSET would raise an uncaught `DataError`. Neither is modelled, and `MongoLoader.LoadSpec` and `RedisLoader.LoadSpec` are stated for rows without such None values.
- `RedisDispatcher.Announce`: requires that `job:{id}` does not hold a non-hash value. The WRONGTYPE error HSET would raise there ends the program in the source and is not modelled. The same holds for `Notify`, `Settle` and `Cycle`.
- `RedisDispatcher.Winner`: requires every message of the window to be an accept. The `KeyError` or JSON error a malformed message raises is not modelled.
- `RedisDispatcher.CoursesSettle`: requires the courses' job ids to be distinct. uuid4 values do not repeat.
- `RedisCourier.Reaction`: payloads are typed, so the `KeyError` of an offer without "annonce" or "distance" is not modelled.
- `RedisLoader.LoadSpec`: requires that no restaurant id is another followed by ":menus", and that menu uuids do not repeat. `MenusKeyClash` shows that the first proviso is needed.
- `MongoDispatcher.RunCourses`: the course branch where `choisir_restaurant_et_menu` raises on an empty catalog is not modelled.
- Timestamps are not modelled: `createdAt`, `updatedAt`, `ts_offer` and `ts`.
- `projet_ubereats/tuto.py` is not part of this model.
