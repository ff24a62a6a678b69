/**
 * The document database `UberEats` shared by the Mongo dispatcher, courier agents and catalog
 * loader: five collections, each a map from `_id` to document (menus, whose `_id` is a uuid4 no
 * one reads, are kept as the sequence of inserted documents).
 */
module MongoStore {
  import opened Common
  import opened Price

  /** A position; the source stores float degrees, only identity matters here. */
  datatype Point = Point(lon: int, lat: int)

  datatype CourierStatus = Available | OnDelivery

  /** A document of `couriers`, keyed by the courier id (`updatedAt` is not modelled). */
  datatype Courier = Courier(location: Point, status: CourierStatus)

  datatype JobStatus = Pending | Assigned | Expired

  /** A document of `jobs`, keyed by its uuid (`createdAt` is not modelled). */
  datatype Job = Job(
    pickup: string,
    dropoff: string,
    reward: int,
    restaurantId: string,
    menuItem: string,
    status: JobStatus,
    selectedCourier: Option<string>)

  datatype BidStatus = Offered | Accepted | Won | Lost | Expired

  /** A document of `bids`, keyed by its uuid (the timestamps are not modelled). */
  datatype Bid = Bid(jobId: string, targetCourier: string, status: BidStatus, distance: int)

  /** A document of `restaurants`, keyed by the catalog's restaurant id. */
  datatype RestaurantDoc = RestaurantDoc(name: string, city: string, cuisine: string, location: Point)

  /** A document of `menus`. */
  datatype MenuDoc = MenuDoc(
    restaurantId: string,
    item: string,
    category: string,
    description: string,
    price: Number,
    currency: string)

  /** The whole database as a value. */
  datatype Db = Db(
    restaurants: map<string, RestaurantDoc>,
    menus: seq<MenuDoc>,
    couriers: map<string, Courier>,
    jobs: map<string, Job>,
    bids: map<string, Bid>)

  /** The kind of write a change-stream event reports. */
  datatype Operation = Insert | Update | Replace | Delete

  /** A change-stream event on `bids`, with the full document looked up after the write. */
  datatype BidChange = BidChange(op: Operation, id: string, doc: Bid)

  /** A change-stream event on `jobs`, with the full document looked up after the write. */
  datatype JobChange = JobChange(op: Operation, id: string, doc: Job)

  /** The database server: the collections are updated in place by every process. */
  class MongoDb {
    var restaurants: map<string, RestaurantDoc>
    var menus: seq<MenuDoc>
    var couriers: map<string, Courier>
    var jobs: map<string, Job>
    var bids: map<string, Bid>

    function State(): Db
      reads this
    {
      Db(restaurants, menus, couriers, jobs, bids)
    }

    /** A fresh, empty database. */
    constructor ()
      ensures State() == Db(map[], [], map[], map[], map[])
    {
      restaurants, menus, couriers, jobs, bids := map[], [], map[], map[], map[];
    }
  }
}
