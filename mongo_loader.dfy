/**
 * The document-store catalog loader (populate_mongo.py): empties `restaurants` and `menus`, then
 * walks the CSV rows, inserting each restaurant once (remembered in `restaurants_cache`) and one
 * menu per row with a restaurant id, until `limit` menus have been inserted.
 */
module MongoLoader {
  import opened Common
  import opened Price
  import opened Catalog
  import opened MongoStore

  /** The restaurant document built from the first row of a restaurant; the coordinates are random
      in the source and are an input here. */
  function RestaurantOf(rid: string, row: Row, location: Point): RestaurantDoc
  {
    RestaurantDoc("Restaurant " + rid, "Unknown", Field(row, "category", "General"), location)
  }

  /** The menu document of a row (its uuid4 `_id` is not modelled). */
  function MenuOf(row: Row): MenuDoc
  {
    MenuDoc(RowId(row), Field(row, "name", "Unknown"), Field(row, "category", "General"),
            Field(row, "description", ""), CleanPrice(Get(row, "price")), "USD")
  }

  function MenusOf(rows: seq<Row>): (ms: seq<MenuDoc>)
    ensures |ms| == |rows|
    ensures forall i :: 0 <= i < |rows| ==> ms[i] == MenuOf(rows[i])
  {
    seq(|rows|, i requires 0 <= i < |rows| => MenuOf(rows[i]))
  }

  lemma MenusOfAppend(rows: seq<Row>, r: Row)
    ensures MenusOf(rows + [r]) == MenusOf(rows) + [MenuOf(r)]
  {
    var a := MenusOf(rows + [r]);
    var b := MenusOf(rows) + [MenuOf(r)];
    forall i | 0 <= i < |a| ensures a[i] == b[i] {
      if i < |rows| {
        assert (rows + [r])[i] == rows[i];
      }
    }
  }

  /** The loop's variables and the two collections; `stopped` records that the loop has broken. */
  datatype Load = Load(
    restaurants: map<string, RestaurantDoc>,
    menus: seq<MenuDoc>,
    cache: set<string>,
    countRest: nat,
    countMenu: nat,
    stopped: bool)

  /** The state right after both delete_many calls. */
  const Start: Load := Load(map[], [], {}, 0, 0, false)

  /** insert_one(rest_doc): fails with a duplicate key error when the `_id` is taken, and the
      except branch then leaves cache and counter as they were. */
  function InsertRestaurant(st: Load, rid: string, doc: RestaurantDoc): Load
  {
    if rid in st.restaurants then st
    else st.(restaurants := st.restaurants[rid := doc], cache := st.cache + {rid}, countRest := st.countRest + 1)
  }

  /** One iteration of `for row in reader`, for the row at position `index`. */
  function Step(st: Load, row: Row, index: nat, limit: Option<int>, coordAt: nat -> Point): Load
  {
    if st.stopped then st
    else if TruthyInt(limit) && st.countMenu >= limit.value then st.(stopped := true)
    else if !HasId(row) then st
    else AddRow(st, row, RestaurantOf(RowId(row), row, coordAt(index)))
  }

  /** The rest of the iteration for a row with an id: its restaurant `doc` unless cached, then
      its menu. */
  function AddRow(st: Load, row: Row, doc: RestaurantDoc): Load
  {
    var rid := RowId(row);
    var st1 := if rid !in st.cache then InsertRestaurant(st, rid, doc) else st;
    st1.(menus := st1.menus + [MenuOf(row)], countMenu := st1.countMenu + 1)
  }

  /** The loop run over `rows` from the emptied collections. */
  function LoadRows(rows: seq<Row>, limit: Option<int>, coordAt: nat -> Point): Load
  {
    if rows == [] then Start
    else
      var n := |rows| - 1;
      Step(LoadRows(rows[..n], limit, coordAt), rows[n], n, limit, coordAt)
  }

  /** The invariant of the loop, against the reference `Kept`: the menus are those of the kept rows,
      in order, and `count_menu` counts them; the restaurants stored, the cache and `count_rest`
      agree with the set of their restaurant ids, so no insert ever fails and every restaurant is
      stored once; the loop has broken only when the limit was reached. */
  ghost predicate LoadInvariant(st: Load, rows: seq<Row>, limit: Option<int>)
  {
    var k := Kept(rows, limit);
    && st.menus == MenusOf(k)
    && st.countMenu == |k|
    && st.restaurants.Keys == st.cache == Rids(k)
    && st.countRest == |st.restaurants|
    && (forall rid :: rid in st.restaurants ==>
          st.restaurants[rid].name == "Restaurant " + rid && st.restaurants[rid].city == "Unknown")
    && (st.stopped ==> LimitReached(rows, limit))
    && (!st.stopped && TruthyInt(limit) ==> |Filter(rows, HasId)| <= Cap(limit.value))
  }

  /** Before the break, the rows kept so far are all the rows with an id. */
  lemma NotReached(st: Load, rows: seq<Row>, limit: Option<int>)
    requires LoadInvariant(st, rows, limit)
    requires !st.stopped && !(TruthyInt(limit) && st.countMenu >= limit.value)
    ensures !LimitReached(rows, limit)
  {
    if TruthyInt(limit) {
      var f := Filter(rows, HasId);
      assert |Kept(rows, limit)| == |Take(f, Cap(limit.value))| == |f|;
    }
  }

  /** A row that adds a menu: its restaurant id joins the stored restaurants, the cache and the
      count, whatever set of ids they agreed with before. */
  lemma CacheGrows(st: Load, ids: set<string>, ids': set<string>, r: Row, doc: RestaurantDoc)
    requires st.restaurants.Keys == st.cache == ids && st.countRest == |st.restaurants| && ids' == ids + {RowId(r)}
    requires forall id :: id in st.restaurants ==>
      st.restaurants[id].name == "Restaurant " + id && st.restaurants[id].city == "Unknown"
    requires doc.name == "Restaurant " + RowId(r) && doc.city == "Unknown"
    ensures var s := AddRow(st, r, doc);
      && s.restaurants.Keys == s.cache == ids' && s.countRest == |s.restaurants|
      && (forall id :: id in s.restaurants ==>
            s.restaurants[id].name == "Restaurant " + id && s.restaurants[id].city == "Unknown")
      && s.stopped == st.stopped
  {
    if RowId(r) !in st.cache {
      var m := st.restaurants[RowId(r) := doc];
      assert m.Keys == st.restaurants.Keys + {RowId(r)};
      assert |m.Keys| == |st.restaurants.Keys| + 1;
    }
  }

  /** A row that adds a menu appends its menu document and counts it. */
  lemma MenuGrows(st: Load, k: seq<Row>, r: Row, doc: RestaurantDoc)
    requires st.menus == MenusOf(k) && st.countMenu == |k|
    ensures AddRow(st, r, doc).menus == MenusOf(k + [r]) && AddRow(st, r, doc).countMenu == |k + [r]|
  {
    MenusOfAppend(k, r);
  }

  /** A row that adds a menu keeps the invariant. */
  lemma StepAddsMenu(st: Load, rows: seq<Row>, r: Row, limit: Option<int>, coordAt: nat -> Point)
    requires LoadInvariant(st, rows, limit)
    requires !st.stopped && !(TruthyInt(limit) && st.countMenu >= limit.value) && HasId(r)
    ensures LoadInvariant(Step(st, r, |rows|, limit, coordAt), rows + [r], limit)
  {
    var k := Kept(rows, limit);
    var doc := RestaurantOf(RowId(r), r, coordAt(|rows|));
    var st' := Step(st, r, |rows|, limit, coordAt);
    assert st' == AddRow(st, r, doc);
    assert Kept(rows + [r], limit) == k + [r]
        && (TruthyInt(limit) ==> |Filter(rows + [r], HasId)| <= Cap(limit.value)) by {
      NotReached(st, rows, limit);
      KeptAppend(rows, r, limit);
      FilterAppend(rows, r);
    }
    RidsAppend(k, r);
    CacheGrows(st, Rids(k), Rids(k + [r]), r, doc);
    MenuGrows(st, k, r, doc);
    InvariantFromParts(st', rows + [r], limit, k + [r]);
  }

  lemma InvariantFromParts(st: Load, rows: seq<Row>, limit: Option<int>, k: seq<Row>)
    requires k == Kept(rows, limit)
    requires st.menus == MenusOf(k)
    requires st.countMenu == |k|
    requires st.restaurants.Keys == st.cache == Rids(k)
    requires st.countRest == |st.restaurants|
    requires forall rid :: rid in st.restaurants ==>
      st.restaurants[rid].name == "Restaurant " + rid && st.restaurants[rid].city == "Unknown"
    requires !st.stopped
    requires TruthyInt(limit) ==> |Filter(rows, HasId)| <= Cap(limit.value)
    ensures LoadInvariant(st, rows, limit)
  {
  }

  /** A row read once the limit is reached breaks the loop and keeps the invariant. */
  lemma StepBreaks(st: Load, rows: seq<Row>, r: Row, limit: Option<int>, coordAt: nat -> Point)
    requires LoadInvariant(st, rows, limit)
    requires !st.stopped && TruthyInt(limit) && st.countMenu >= limit.value
    ensures LoadInvariant(Step(st, r, |rows|, limit, coordAt), rows + [r], limit)
  {
    KeptAppend(rows, r, limit);
    FilterAppend(rows, r);
    var f := Filter(rows, HasId);
    assert |Kept(rows, limit)| == Min(Cap(limit.value), |f|);
    assert LimitReached(rows, limit);
  }

  /** Rows read after the break, or without an id, leave the state alone and keep the invariant. */
  lemma StepSkips(st: Load, rows: seq<Row>, r: Row, limit: Option<int>, coordAt: nat -> Point)
    requires LoadInvariant(st, rows, limit)
    requires st.stopped || !HasId(r)
    requires !(!st.stopped && TruthyInt(limit) && st.countMenu >= limit.value)
    ensures LoadInvariant(Step(st, r, |rows|, limit, coordAt), rows + [r], limit)
  {
    KeptAppend(rows, r, limit);
    FilterAppend(rows, r);
  }

  lemma StepKeeps(st: Load, rows: seq<Row>, r: Row, limit: Option<int>, coordAt: nat -> Point)
    requires LoadInvariant(st, rows, limit)
    ensures LoadInvariant(Step(st, r, |rows|, limit, coordAt), rows + [r], limit)
  {
    if !st.stopped && TruthyInt(limit) && st.countMenu >= limit.value {
      StepBreaks(st, rows, r, limit, coordAt);
    } else if st.stopped || !HasId(r) {
      StepSkips(st, rows, r, limit, coordAt);
    } else {
      StepAddsMenu(st, rows, r, limit, coordAt);
    }
  }

  /** What the loop leaves behind, from the emptied collections over any rows. */
  lemma {:induction false} LoadRowsInvariant(rows: seq<Row>, limit: Option<int>, coordAt: nat -> Point)
    ensures LoadInvariant(LoadRows(rows, limit, coordAt), rows, limit)
  {
    if rows != [] {
      var n := |rows| - 1;
      var st := LoadRows(rows[..n], limit, coordAt);
      assert rows[..n] + [rows[n]] == rows;
      assert LoadRows(rows, limit, coordAt) == Step(st, rows[n], |rows[..n]|, limit, coordAt);
      LoadRowsInvariant(rows[..n], limit, coordAt);
      StepKeeps(st, rows[..n], rows[n], limit, coordAt);
    }
  }

  /** The loader's promises: one menu per kept row (rows without a restaurant id are skipped, and
      a truthy limit bounds the count), each linked to its row's restaurant; the restaurants stored
      are exactly the ids of the kept rows, each once, and `count_rest` / `count_menu` count the
      documents inserted. */
  lemma LoadSpec(rows: seq<Row>, limit: Option<int>, coordAt: nat -> Point)
    ensures var st := LoadRows(rows, limit, coordAt);
      var k := Kept(rows, limit);
      && |st.menus| == st.countMenu == |k|
      && (forall i :: 0 <= i < |k| ==> st.menus[i] == MenuOf(k[i]) && st.menus[i].restaurantId == RowId(k[i]) != "")
      && (TruthyInt(limit) ==> st.countMenu <= Cap(limit.value))
      && (!TruthyInt(limit) ==> st.countMenu == |Filter(rows, HasId)|)
      && st.restaurants.Keys == Rids(k)
      && st.countRest == |st.restaurants|
      && (forall m :: m in st.menus ==> m.restaurantId in st.restaurants)
  {
    LoadRowsInvariant(rows, limit, coordAt);
    KeptBound(rows, limit);
    var st := LoadRows(rows, limit, coordAt);
    var k := Kept(rows, limit);
    forall i | 0 <= i < |k| ensures RowId(k[i]) != "" {
      assert k[i] in k;
      HasIdSpec(k[i]);
    }
    forall m | m in st.menus ensures m.restaurantId in st.restaurants {
      var i :| 0 <= i < |st.menus| && st.menus[i] == m;
      assert RowId(k[i]) in Rids(k);
    }
  }

  /** A row without a restaurant id adds nothing. */
  lemma SkipRowWithoutId(rows: seq<Row>, r: Row, limit: Option<int>, coordAt: nat -> Point)
    requires !HasId(r)
    ensures var a := LoadRows(rows, limit, coordAt);
      var b := LoadRows(rows + [r], limit, coordAt);
      b.restaurants == a.restaurants && b.menus == a.menus && b.countRest == a.countRest && b.countMenu == a.countMenu
  {
    var s := rows + [r];
    assert s[..|s| - 1] == rows;
  }

  /** Once the loop has broken, further rows change nothing. */
  lemma {:induction false} StoppedStays(rows: seq<Row>, extra: seq<Row>, limit: Option<int>, coordAt: nat -> Point)
    requires LoadRows(rows, limit, coordAt).stopped
    ensures LoadRows(rows + extra, limit, coordAt) == LoadRows(rows, limit, coordAt)
  {
    if extra != [] {
      var e := extra[..|extra| - 1];
      StoppedStays(rows, e, limit, coordAt);
      var s := rows + extra;
      assert s[..|s| - 1] == rows + e;
    } else {
      assert rows + extra == rows;
    }
  }

  /** populate: delete_many on both collections, then the row loop with its `break`. */
  method Populate(db: MongoDb, rows: seq<Row>, limit: Option<int>, coordAt: nat -> Point)
    returns (countRest: nat, countMenu: nat)
    modifies db
    ensures var st := LoadRows(rows, limit, coordAt);
      && db.State() == old(db.State()).(restaurants := st.restaurants, menus := st.menus)
      && countRest == st.countRest && countMenu == st.countMenu
  {
    db.restaurants := map[];
    db.menus := [];
    var cache: set<string> := {};
    countRest, countMenu := 0, 0;
    var stopped := false;
    var i := 0;
    while i < |rows| && !stopped
      invariant 0 <= i <= |rows|
      invariant LoadRows(rows[..i], limit, coordAt)
             == Load(db.restaurants, db.menus, cache, countRest, countMenu, stopped)
      invariant db.couriers == old(db.couriers) && db.jobs == old(db.jobs) && db.bids == old(db.bids)
    {
      var row := rows[i];
      ghost var pre := Load(db.restaurants, db.menus, cache, countRest, countMenu, stopped);
      assert rows[..i + 1][..i] == rows[..i];
      assert LoadRows(rows[..i + 1], limit, coordAt) == Step(pre, row, i, limit, coordAt);
      if TruthyInt(limit) && countMenu >= limit.value {
        stopped := true;
      } else if HasId(row) {
        var rid := RowId(row);
        if rid !in cache {
          if rid !in db.restaurants {
            db.restaurants := db.restaurants[rid := RestaurantOf(rid, row, coordAt(i))];
            cache := cache + {rid};
            countRest := countRest + 1;
          }
        }
        db.menus := db.menus + [MenuOf(row)];
        countMenu := countMenu + 1;
      }
      i := i + 1;
    }
    if i < |rows| {
      StoppedStays(rows[..i], rows[i..], limit, coordAt);
      assert rows[..i] + rows[i..] == rows;
    } else {
      assert rows[..i] == rows;
    }
  }
}
