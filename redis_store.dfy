/**
 * The key-value server shared by the Redis dispatcher, courier agents and catalog loader: one
 * keyspace whose values are hashes, sets or geo sets, and the log of every message published on a
 * channel. A command applied to a key of another type fails with WRONGTYPE.
 */
module RedisStore {
  import opened Common

  /** A geo-set member's position; the source stores float degrees, only identity matters here. */
  datatype Position = Position(lon: int, lat: int)

  datatype Value =
    | Hash(fields: map<string, string>)
    | Members(elems: set<string>)
    | Geo(positions: map<string, Position>)

  /** The job announcement of publier_annonce_geo, as stored in `job:{id}` and sent in offers
      (price, reward and estimated time are kept as the text the hash stores). */
  datatype Announcement = Announcement(
    jobId: string,
    restaurant: string,
    menuItem: string,
    price: string,
    reward: string,
    estimatedTime: string)

  /** The JSON payloads exchanged on the channels, told apart by their "type" field; an accept
      carries no type. */
  datatype Payload =
    | NewJobOffer(distance: int, annonce: Announcement)
    | AssignedMsg(jobId: string)
    | JobLost(jobId: string)
    | Accept(courierId: string, jobId: string, distance: int)
    | OtherType(kind: string)

  datatype Message = Message(channel: string, payload: Payload)

  /** The server as a value. */
  datatype Store = Store(data: map<string, Value>, published: seq<Message>)

  const Locations: string := "couriers:locations"
  const RestaurantsIndex: string := "restaurants:index"

  /** The private channel of a courier. */
  function NotifyChannel(courierId: string): string
  {
    "courier:" + courierId + ":notify"
  }

  /** The channel on which a job's acceptances arrive. */
  function AcceptsChannel(jobId: string): string
  {
    "jobs:" + jobId + ":accepts"
  }

  function JobKey(jobId: string): string
  {
    "job:" + jobId
  }

  lemma ConcatInjective(p: string, a: string, b: string, q: string)
    requires p + a + q == p + b + q
    ensures a == b
  {
    assert |a| == |b|;
    forall i | 0 <= i < |a| ensures a[i] == b[i] {
      assert (p + a + q)[|p| + i] == a[i];
      assert (p + b + q)[|p| + i] == b[i];
    }
  }

  /** Distinct couriers have distinct private channels. */
  lemma NotifyChannelInjective(a: string, b: string)
    ensures NotifyChannel(a) == NotifyChannel(b) <==> a == b
  {
    if NotifyChannel(a) == NotifyChannel(b) {
      ConcatInjective("courier:", a, b, ":notify");
    }
  }

  /** Distinct jobs have distinct hashes. */
  lemma JobKeyInjective(a: string, b: string)
    ensures JobKey(a) == JobKey(b) <==> a == b
  {
    if JobKey(a) == JobKey(b) {
      assert "job:" + a + "" == JobKey(a) && "job:" + b + "" == JobKey(b);
      ConcatInjective("job:", a, b, "");
    }
  }

  /** A job key is never the geo key (they differ in their first letter). */
  lemma JobKeyIsNotLocations(jobId: string)
    ensures JobKey(jobId) != Locations
  {
    assert JobKey(jobId)[0] == 'j';
    assert Locations[0] == 'c';
  }

  /** `key` holds a value that is not a hash: HSET on it fails with WRONGTYPE. */
  predicate HoldsNonHash(data: map<string, Value>, key: string)
  {
    key in data && !data[key].Hash?
  }

  /** HSET key field value ...: creates the hash when the key is missing; fields given overwrite. */
  function HSet(data: map<string, Value>, key: string, fields: map<string, string>): map<string, Value>
    requires !HoldsNonHash(data, key)
  {
    var current := if key in data then data[key].fields else map[];
    data[key := Hash(current + fields)]
  }

  /** SADD on a key holding something else than a set fails with WRONGTYPE (None). */
  function SAdd(data: map<string, Value>, key: string, member: string): Option<map<string, Value>>
  {
    if key !in data then Some(data[key := Members({member})])
    else if data[key].Members? then Some(data[key := Members(data[key].elems + {member})])
    else None
  }

  /** GEOADD on a key holding something else than a geo set fails with WRONGTYPE (None). */
  function GeoAdd(data: map<string, Value>, key: string, member: string, pos: Position): Option<map<string, Value>>
  {
    if key !in data then Some(data[key := Geo(map[member := pos])])
    else if data[key].Geo? then Some(data[key := Geo(data[key].positions[member := pos])])
    else None
  }

  /** HSET keeps the fields it does not name and sets those it names; no other key changes. */
  lemma HSetSpec(data: map<string, Value>, key: string, fields: map<string, string>)
    requires !HoldsNonHash(data, key)
    ensures var d := HSet(data, key, fields);
      && d.Keys == data.Keys + {key} && d[key].Hash?
      && (forall f :: f in fields ==> f in d[key].fields && d[key].fields[f] == fields[f])
      && (key in data ==> forall f :: f in data[key].fields && f !in fields ==>
            f in d[key].fields && d[key].fields[f] == data[key].fields[f])
      && (key !in data ==> d[key].fields == fields)
      && (forall k :: k in data && k != key ==> d[k] == data[k])
  {
  }

  /** SADD and GEOADD fail exactly on a key of another type, and otherwise add or move one member. */
  lemma AddSpec(data: map<string, Value>, key: string, member: string, pos: Position)
    ensures SAdd(data, key, member).None? <==> key in data && !data[key].Members?
    ensures SAdd(data, key, member).Some? ==>
      var d := SAdd(data, key, member).value;
      && d[key].Members? && d[key].elems == (if key in data then data[key].elems else {}) + {member}
      && (forall k :: k in data && k != key ==> k in d && d[k] == data[k]) && d.Keys == data.Keys + {key}
    ensures GeoAdd(data, key, member, pos).None? <==> key in data && !data[key].Geo?
    ensures GeoAdd(data, key, member, pos).Some? ==>
      var d := GeoAdd(data, key, member, pos).value;
      && d[key].Geo? && d[key].positions.Keys == (if key in data then data[key].positions.Keys else {}) + {member}
      && d[key].positions[member] == pos
      && (key in data ==> forall m :: m in data[key].positions && m != member ==>
            d[key].positions[m] == data[key].positions[m])
      && (forall k :: k in data && k != key ==> k in d && d[k] == data[k]) && d.Keys == data.Keys + {key}
  {
  }

  /** The number of published messages satisfying `p`. */
  function Count(msgs: seq<Message>, p: Message -> bool): nat
  {
    if msgs == [] then 0
    else Count(msgs[..|msgs| - 1], p) + (if p(msgs[|msgs| - 1]) then 1 else 0)
  }

  lemma {:induction false} CountAppend(a: seq<Message>, b: seq<Message>, p: Message -> bool)
    ensures Count(a + b, p) == Count(a, p) + Count(b, p)
  {
    if b != [] {
      var n := |b| - 1;
      CountAppend(a, b[..n], p);
      assert (a + b)[..|a + b| - 1] == a + b[..n];
    } else {
      assert a + b == a;
    }
  }

  lemma {:induction false} CountNone(msgs: seq<Message>, p: Message -> bool)
    requires forall i :: 0 <= i < |msgs| ==> !p(msgs[i])
    ensures Count(msgs, p) == 0
  {
    if msgs != [] {
      CountNone(msgs[..|msgs| - 1], p);
    }
  }

  /** Appending to the log several times is appending once. */
  lemma AppendAssoc(x: seq<Message>, y: seq<Message>, z: seq<Message>, w: seq<Message>)
    ensures x + y + z + w == x + (y + z + w)
  {
    assert x + y + z + w == x + (y + z + w);
  }

  /** The kinds of message a courier can be sent on its private channel. */
  function OfferFor(c: string): Message -> bool
  {
    (m: Message) => m.channel == NotifyChannel(c) && m.payload.NewJobOffer?
  }

  function AssignedFor(c: string, jobId: string): Message -> bool
  {
    (m: Message) => m.channel == NotifyChannel(c) && m.payload == AssignedMsg(jobId)
  }

  function LossFor(c: string, jobId: string): Message -> bool
  {
    (m: Message) => m.channel == NotifyChannel(c) && m.payload == JobLost(jobId)
  }

  /** The server process: keyspace and channel log change in place. */
  class RedisServer {
    var data: map<string, Value>
    var published: seq<Message>

    function State(): Store
      reads this
    {
      Store(data, published)
    }

    /** An empty server that has published nothing. */
    constructor ()
      ensures State() == Store(map[], [])
    {
      data, published := map[], [];
    }

    /** PUBLISH channel payload: appended to the log. */
    method Publish(m: Message)
      modifies this
      ensures State() == old(State()).(published := old(published) + [m])
    {
      published := published + [m];
    }
  }
}
