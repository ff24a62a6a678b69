/**
 * The key-value catalog loader (populate_redis.py): FLUSHDB, then the CSV rows in order. A row
 * with a restaurant id creates the hash `restaurant:{rid}` and adds it to `restaurants:index`
 * unless that key already exists, then creates the hash `menu:{uuid}` and adds its key to the
 * set `restaurant:{rid}:menus`, until `limit` menus have been created.
 */
module RedisLoader {
  import opened Common
  import opened Price
  import opened Catalog
  import opened RedisStore

  // ---------------------------------------------------------------- keys

  function RestKey(rid: string): string
  {
    "restaurant:" + rid
  }

  function MenusKey(rid: string): string
  {
    RestKey(rid) + ":menus"
  }

  function MenuKey(menuId: string): string
  {
    "menu:" + menuId
  }

  lemma PrefixInjective(p: string, a: string, b: string)
    requires p + a == p + b
    ensures a == b
  {
    assert a == (p + a)[|p|..];
    assert b == (p + b)[|p|..];
  }

  /** How the loader's keys can meet: restaurant keys and menu-set keys are each one per id, menu
      keys start with 'm' and the others with 'r', the index differs from every per-restaurant key
      at its eleventh character, and a restaurant key is a menu-set key exactly when the
      restaurant id is another id followed by ":menus". */
  lemma KeysDiffer(a: string, b: string, x: string)
    ensures RestKey(a) == RestKey(b) <==> a == b
    ensures MenusKey(a) == MenusKey(b) <==> a == b
    ensures RestKey(a) == MenusKey(b) <==> a == b + ":menus"
    ensures MenuKey(x) != RestKey(a) && MenuKey(x) != MenusKey(a) && MenuKey(x) != RestaurantsIndex
    ensures RestKey(a) != RestaurantsIndex && MenusKey(a) != RestaurantsIndex
  {
    if RestKey(a) == RestKey(b) {
      PrefixInjective("restaurant:", a, b);
    }
    if MenusKey(a) == MenusKey(b) {
      assert |a| == |b|;
      assert RestKey(a) == MenusKey(a)[..|RestKey(a)|];
      assert RestKey(b) == MenusKey(b)[..|RestKey(b)|];
      PrefixInjective("restaurant:", a, b);
    }
    assert MenusKey(b) == "restaurant:" + (b + ":menus");
    if RestKey(a) == MenusKey(b) {
      PrefixInjective("restaurant:", a, b + ":menus");
    }
    assert MenuKey(x)[0] == 'm' && RestKey(a)[0] == 'r' && MenusKey(a)[0] == 'r' && RestaurantsIndex[0] == 'r';
    assert RestKey(a)[10] == ':' && MenusKey(a)[10] == ':' && RestaurantsIndex[10] == 's';
  }

  // ---------------------------------------------------------------- hashes

  /** The text HSET stores for the float `_clean_price` returns, written from its digits. */
  function PriceText(n: Number): string
  {
    n.whole + "." + (if n.fraction == "" then "0" else n.fraction)
  }

  /** The restaurant hash; the coordinates are random in the source and are an input here. */
  function RestaurantFields(rid: string, row: Row, coords: (string, string)): map<string, string>
  {
    map["id" := rid, "name" := "Restaurant " + rid, "city" := "Unknown",
        "cuisine" := Field(row, "category", "General"), "lon" := coords.0, "lat" := coords.1]
  }

  function MenuFields(row: Row): map<string, string>
  {
    map["restaurant_id" := RowId(row), "item" := Field(row, "name", "Unknown"),
        "category" := Field(row, "category", "General"), "description" := Field(row, "description", ""),
        "price" := PriceText(CleanPrice(Get(row, "price"))), "currency" := "USD"]
  }

  /** The menu hash names its restaurant. */
  lemma MenuFieldsNamed(row: Row)
    ensures MenuFields(row)["restaurant_id"] == RowId(row)
  {
    var f := MenuFields(row);
    assert "restaurant_id"[0] == 'r';
    assert "item"[0] == 'i' && "category"[0] == 'c' && "description"[0] == 'd' && "price"[0] == 'p';
    assert "currency"[0] == 'c' && "currency"[1] == 'u' && "restaurant_id"[1] == 'e';
  }

  // ---------------------------------------------------------------- the row loop

  /** The keyspace and the loop's counters; `stopped` records the `break`, `crashed` a command
      that failed with WRONGTYPE, an error the loader does not catch. */
  datatype Load = Load(data: map<string, Value>, countRest: nat, countMenu: nat, stopped: bool, crashed: bool)

  predicate Halted(st: Load)
  {
    st.stopped || st.crashed
  }

  /** The state right after FLUSHDB. */
  const Start: Load := Load(map[], 0, 0, false, false)

  /** HSET restaurant:{rid}, then SADD restaurants:index; called when the key does not exist. */
  function NewRestaurant(st: Load, rid: string, row: Row, coords: (string, string)): Load
    requires RestKey(rid) !in st.data
  {
    var d := HSet(st.data, RestKey(rid), RestaurantFields(rid, row, coords));
    match SAdd(d, RestaurantsIndex, RestKey(rid))
    case None => st.(data := d, crashed := true)
    case Some(d2) => st.(data := d2, countRest := st.countRest + 1)
  }

  /** HSET menu:{id}, then SADD restaurant:{rid}:menus. */
  function AddMenu(st: Load, rid: string, row: Row, menuId: string): Load
  {
    var mk := MenuKey(menuId);
    if HoldsNonHash(st.data, mk) then st.(crashed := true)
    else
      var d := HSet(st.data, mk, MenuFields(row));
      match SAdd(d, MenusKey(rid), mk)
      case None => st.(data := d, crashed := true)
      case Some(d2) => st.(data := d2, countMenu := st.countMenu + 1)
  }

  /** One iteration of `for row in reader`. `menuId(n)` is the uuid4 drawn for the n-th menu and
      `coordAt(n)` the coordinates drawn for the n-th new restaurant. */
  function Step(st: Load, row: Row, limit: Option<int>, menuId: nat -> string, coordAt: nat -> (string, string)): Load
  {
    if Halted(st) then st
    else if TruthyInt(limit) && st.countMenu >= limit.value then st.(stopped := true)
    else if !HasId(row) then st
    else AddRow(st, row, menuId, coordAt(st.countRest))
  }

  /** A row with a restaurant id read before the limit: the restaurant is stored unless its key
      exists, then the menu, unless storing the restaurant failed. */
  function AddRow(st: Load, row: Row, menuId: nat -> string, coords: (string, string)): Load
  {
    var rid := RowId(row);
    var st1 := if RestKey(rid) in st.data then st else NewRestaurant(st, rid, row, coords);
    if st1.crashed then st1 else AddMenu(st1, rid, row, menuId(st1.countMenu))
  }

  function LoadRows(rows: seq<Row>, limit: Option<int>, menuId: nat -> string, coordAt: nat -> (string, string)): Load
  {
    if rows == [] then Start
    else
      var n := |rows| - 1;
      Step(LoadRows(rows[..n], limit, menuId, coordAt), rows[n], limit, menuId, coordAt)
  }

  /** Once the loop has broken or crashed, further rows change nothing. */
  lemma {:induction false} HaltedStays(rows: seq<Row>, extra: seq<Row>, limit: Option<int>, menuId: nat -> string, coordAt: nat -> (string, string))
    requires Halted(LoadRows(rows, limit, menuId, coordAt))
    ensures LoadRows(rows + extra, limit, menuId, coordAt) == LoadRows(rows, limit, menuId, coordAt)
  {
    if extra != [] {
      var e := extra[..|extra| - 1];
      HaltedStays(rows, e, limit, menuId, coordAt);
      var s := rows + extra;
      assert s[..|s| - 1] == rows + e;
      assert LoadRows(s, limit, menuId, coordAt) == Step(LoadRows(rows + e, limit, menuId, coordAt), s[|s| - 1], limit, menuId, coordAt);
    } else {
      assert rows + extra == rows;
    }
  }

  // ---------------------------------------------------------------- what the keyspace holds

  /** The keys of a set of restaurants, of their menu sets, and of the first `n` menus. */
  function RestKeys(rids: set<string>): set<string>
  {
    set rid | rid in rids :: RestKey(rid)
  }

  function MenusKeys(rids: set<string>): set<string>
  {
    set rid | rid in rids :: MenusKey(rid)
  }

  function MenuKeys(n: nat, menuId: nat -> string): set<string>
  {
    set j: nat | j < n :: MenuKey(menuId(j))
  }

  /** The menus of restaurant `rid` among the kept rows `k`. */
  function MenusOf(k: seq<Row>, rid: string, menuId: nat -> string): set<string>
  {
    set j: nat | j < |k| && RowId(k[j]) == rid :: MenuKey(menuId(j))
  }

  /** Every key in the store: the index once a restaurant exists, each restaurant's hash and menu
      set, each menu's hash. */
  function KeysOf(rids: set<string>, k: seq<Row>, menuId: nat -> string): set<string>
  {
    (if rids == {} then {} else {RestaurantsIndex}) + RestKeys(rids) + MenusKeys(Rids(k)) + MenuKeys(|k|, menuId)
  }

  predicate IsRestaurantHash(rid: string, fields: map<string, string>)
  {
    && "id" in fields && fields["id"] == rid
    && "name" in fields && fields["name"] == "Restaurant " + rid
    && "city" in fields && fields["city"] == "Unknown"
  }

  /** The keyspace after the restaurants `rids` and the menus of the kept rows `k` were loaded:
      nothing else is stored, the index lists the restaurant keys and `count_rest` counts them,
      each restaurant key holds its hash, each menu set the keys of its restaurant's menus, each
      menu key the hash of its row. */
  ghost predicate Holds(data: map<string, Value>, rids: set<string>, k: seq<Row>, menuId: nat -> string, countRest: nat)
  {
    && data.Keys == KeysOf(rids, k, menuId)
    && countRest == |RestKeys(rids)|
    && (rids != {} ==> RestaurantsIndex in data && data[RestaurantsIndex] == Members(RestKeys(rids)))
    && (forall rid {:trigger RestKey(rid)} :: rid in rids ==>
          RestKey(rid) in data && data[RestKey(rid)].Hash? && IsRestaurantHash(rid, data[RestKey(rid)].fields))
    && (forall rid {:trigger MenusKey(rid)} :: rid in Rids(k) ==>
          MenusKey(rid) in data && data[MenusKey(rid)] == Members(MenusOf(k, rid, menuId)))
    && (forall j: nat {:trigger menuId(j)} :: j < |k| ==> MenuKey(menuId(j)) in data && data[MenuKey(menuId(j))] == Hash(MenuFields(k[j])))
  }

  /** The restaurant hash names its restaurant. */
  lemma RestaurantFieldsNamed(rid: string, row: Row, coords: (string, string))
    ensures IsRestaurantHash(rid, RestaurantFields(rid, row, coords))
  {
    var f := RestaurantFields(rid, row, coords);
    assert f["id"] == rid;
  }

  lemma HoldsFromParts(data: map<string, Value>, rids: set<string>, k: seq<Row>, menuId: nat -> string, countRest: nat)
    requires data.Keys == KeysOf(rids, k, menuId)
    requires countRest == |RestKeys(rids)|
    requires rids != {} ==> RestaurantsIndex in data && data[RestaurantsIndex] == Members(RestKeys(rids))
    requires forall rid {:trigger RestKey(rid)} :: rid in rids ==>
      RestKey(rid) in data && data[RestKey(rid)].Hash? && IsRestaurantHash(rid, data[RestKey(rid)].fields)
    requires forall rid {:trigger MenusKey(rid)} :: rid in Rids(k) ==>
      MenusKey(rid) in data && data[MenusKey(rid)] == Members(MenusOf(k, rid, menuId))
    requires forall j: nat {:trigger menuId(j)} :: j < |k| ==> MenuKey(menuId(j)) in data && data[MenuKey(menuId(j))] == Hash(MenuFields(k[j]))
    ensures Holds(data, rids, k, menuId, countRest)
  {
  }

  /** No restaurant id is another one followed by ":menus" (otherwise a restaurant hash sits where
      the other's menu set goes). */
  ghost predicate NoClash(ids: set<string>)
  {
    forall a, b :: a in ids && b in ids ==> a != b + ":menus"
  }

  /** uuid4 never repeats. */
  ghost predicate FreshMenuIds(menuId: nat -> string)
  {
    forall i: nat, j: nat :: i != j ==> menuId(i) != menuId(j)
  }

  lemma StartHolds(menuId: nat -> string)
    ensures Holds(map[], {}, [], menuId, 0)
  {
    assert MenuKeys(0, menuId) == {};
    assert Rids([]) == {};
  }

  /** `r.exists(rest_key)` answers whether the restaurant was stored before. */
  lemma KnownRestaurant(data: map<string, Value>, k: seq<Row>, menuId: nat -> string, countRest: nat, rid: string, ids: set<string>)
    requires Holds(data, Rids(k), k, menuId, countRest)
    requires NoClash(ids) && Rids(k) <= ids && rid in ids
    ensures RestKey(rid) in data <==> rid in Rids(k)
  {
    if RestKey(rid) in data {
      if RestKey(rid) in MenusKeys(Rids(k)) {
        var b :| b in Rids(k) && MenusKey(b) == RestKey(rid);
        KeysDiffer(rid, b, "");
        assert false;
      } else if RestKey(rid) in MenuKeys(|k|, menuId) {
        var j: nat :| j < |k| && MenuKey(menuId(j)) == RestKey(rid);
        KeysDiffer(rid, rid, menuId(j));
        assert false;
      } else if RestKey(rid) in RestKeys(Rids(k)) {
        var b :| b in Rids(k) && RestKey(b) == RestKey(rid);
        KeysDiffer(rid, b, "");
      } else {
        KeysDiffer(rid, rid, "");
        assert false;
      }
    }
  }

  lemma RestKeysAdd(rids: set<string>, rid: string)
    ensures RestKeys(rids + {rid}) == RestKeys(rids) + {RestKey(rid)}
  {
  }

  /** What the two commands for a new restaurant do to the keyspace. */
  lemma NewRestaurantEffect(st: Load, rid: string, row: Row, coords: (string, string))
    requires RestKey(rid) !in st.data
    requires RestaurantsIndex in st.data ==> st.data[RestaurantsIndex].Members?
    ensures var s := NewRestaurant(st, rid, row, coords);
      && s.crashed == st.crashed && s.countRest == st.countRest + 1 && s.countMenu == st.countMenu && s.stopped == st.stopped
      && s.data.Keys == st.data.Keys + {RestKey(rid), RestaurantsIndex}
      && s.data[RestKey(rid)] == Hash(RestaurantFields(rid, row, coords))
      && s.data[RestaurantsIndex]
           == Members((if RestaurantsIndex in st.data then st.data[RestaurantsIndex].elems else {}) + {RestKey(rid)})
      && (forall x :: x in st.data && x != RestKey(rid) && x != RestaurantsIndex ==> s.data[x] == st.data[x])
  {
    var key := RestKey(rid);
    var fields := RestaurantFields(rid, row, coords);
    HSetSpec(st.data, key, fields);
    KeysDiffer(rid, rid, "");
    var d := HSet(st.data, key, fields);
    AddSpec(d, RestaurantsIndex, key, Position(0, 0));
    assert RestaurantsIndex in d ==> d[RestaurantsIndex] == st.data[RestaurantsIndex];
    assert SAdd(d, RestaurantsIndex, key).Some?;
  }

  /** The restaurant hashes after a command that writes `key1` and `key2`, none of them but
      possibly the new restaurant's. */
  lemma RestaurantsKept(data: map<string, Value>, d: map<string, Value>, rids: set<string>, key1: string, key2: string)
    requires forall x :: x in rids ==>
      RestKey(x) in data && data[RestKey(x)].Hash? && IsRestaurantHash(x, data[RestKey(x)].fields)
    requires data.Keys <= d.Keys
    requires forall x :: x in data && x != key1 && x != key2 ==> d[x] == data[x]
    requires forall x :: x in rids ==> RestKey(x) != key1 && RestKey(x) != key2
    ensures forall x :: x in rids ==>
      RestKey(x) in d && d[RestKey(x)].Hash? && IsRestaurantHash(x, d[RestKey(x)].fields)
  {
    forall x | x in rids
      ensures RestKey(x) in d && d[RestKey(x)].Hash? && IsRestaurantHash(x, d[RestKey(x)].fields)
    {
      assert d[RestKey(x)] == data[RestKey(x)];
    }
  }

  /** The menu sets after a command that writes `key1` and `key2`, none of them a menu set. */
  lemma MenuSetsKept(data: map<string, Value>, d: map<string, Value>, k: seq<Row>, menuId: nat -> string, key1: string, key2: string)
    requires forall x :: x in Rids(k) ==> MenusKey(x) in data && data[MenusKey(x)] == Members(MenusOf(k, x, menuId))
    requires data.Keys <= d.Keys
    requires forall x :: x in data && x != key1 && x != key2 ==> d[x] == data[x]
    requires forall x :: x in Rids(k) ==> MenusKey(x) != key1 && MenusKey(x) != key2
    ensures forall x :: x in Rids(k) ==> MenusKey(x) in d && d[MenusKey(x)] == Members(MenusOf(k, x, menuId))
  {
  }

  /** The menu hashes after a command that writes `key1` and `key2`, none of them a menu hash. */
  lemma MenusKept(data: map<string, Value>, d: map<string, Value>, k: seq<Row>, menuId: nat -> string, key1: string, key2: string)
    requires forall j: nat :: j < |k| ==> MenuKey(menuId(j)) in data && data[MenuKey(menuId(j))] == Hash(MenuFields(k[j]))
    requires data.Keys <= d.Keys
    requires forall x :: x in data && x != key1 && x != key2 ==> d[x] == data[x]
    requires forall j: nat :: j < |k| ==> MenuKey(menuId(j)) != key1 && MenuKey(menuId(j)) != key2
    ensures forall j: nat :: j < |k| ==> MenuKey(menuId(j)) in d && d[MenuKey(menuId(j))] == Hash(MenuFields(k[j]))
  {
  }

  /** The index exists once a restaurant does, and holds a set. */
  lemma IndexIsASet(data: map<string, Value>, k: seq<Row>, menuId: nat -> string, countRest: nat)
    requires Holds(data, Rids(k), k, menuId, countRest)
    ensures RestaurantsIndex in data <==> Rids(k) != {}
    ensures RestaurantsIndex in data ==> data[RestaurantsIndex].Members?
  {
    if k != [] {
      assert RowId(k[0]) in Rids(k);
    }
    if Rids(k) == {} {
      assert MenuKeys(|k|, menuId) == {};
    }
  }

  /** The keys and the index after a restaurant not stored before was added. */
  lemma RestaurantAddedKeys(data: map<string, Value>, d: map<string, Value>, k: seq<Row>, menuId: nat -> string,
                            rid: string, elems: set<string>)
    requires data.Keys == KeysOf(Rids(k), k, menuId)
    requires d.Keys == data.Keys + {RestKey(rid), RestaurantsIndex}
    requires elems == if Rids(k) == {} then {} else RestKeys(Rids(k))
    ensures d.Keys == KeysOf(Rids(k) + {rid}, k, menuId)
    ensures elems + {RestKey(rid)} == RestKeys(Rids(k) + {rid})
  {
    RestKeysAdd(Rids(k), rid);
  }

  /** The restaurant hashes, once the new one is written. */
  lemma RestaurantsAdded(d: map<string, Value>, rids: set<string>, rid: string)
    requires forall x :: x in rids ==>
      RestKey(x) in d && d[RestKey(x)].Hash? && IsRestaurantHash(x, d[RestKey(x)].fields)
    requires RestKey(rid) in d && d[RestKey(rid)].Hash? && IsRestaurantHash(rid, d[RestKey(rid)].fields)
    ensures forall x :: x in rids + {rid} ==>
      RestKey(x) in d && d[RestKey(x)].Hash? && IsRestaurantHash(x, d[RestKey(x)].fields)
  {
  }

  lemma RestKeysStored(data: map<string, Value>, rids: set<string>, k: seq<Row>, menuId: nat -> string)
    requires data.Keys == KeysOf(rids, k, menuId)
    ensures RestKeys(rids) <= data.Keys
  {
  }

  /** The hashes and menu sets stored before, once a restaurant not stored before was added. */
  lemma RestaurantAddedKept(data: map<string, Value>, d: map<string, Value>, k: seq<Row>, menuId: nat -> string, rid: string)
    requires forall x {:trigger RestKey(x)} :: x in Rids(k) ==>
      RestKey(x) in data && data[RestKey(x)].Hash? && IsRestaurantHash(x, data[RestKey(x)].fields)
    requires forall x {:trigger MenusKey(x)} :: x in Rids(k) ==>
      MenusKey(x) in data && data[MenusKey(x)] == Members(MenusOf(k, x, menuId))
    requires forall j: nat {:trigger menuId(j)} :: j < |k| ==>
      MenuKey(menuId(j)) in data && data[MenuKey(menuId(j))] == Hash(MenuFields(k[j]))
    requires RestKey(rid) !in data && data.Keys <= d.Keys
    requires forall x :: x in data && x != RestKey(rid) && x != RestaurantsIndex ==> d[x] == data[x]
    requires RestKey(rid) in d && d[RestKey(rid)].Hash? && IsRestaurantHash(rid, d[RestKey(rid)].fields)
    ensures forall x :: x in Rids(k) + {rid} ==>
      RestKey(x) in d && d[RestKey(x)].Hash? && IsRestaurantHash(x, d[RestKey(x)].fields)
    ensures forall x :: x in Rids(k) ==> MenusKey(x) in d && d[MenusKey(x)] == Members(MenusOf(k, x, menuId))
    ensures forall j: nat :: j < |k| ==> MenuKey(menuId(j)) in d && d[MenuKey(menuId(j))] == Hash(MenuFields(k[j]))
  {
    var rids := Rids(k);
    var key := RestKey(rid);
    assert forall x :: x in rids + {rid} ==>
        RestKey(x) in d && d[RestKey(x)].Hash? && IsRestaurantHash(x, d[RestKey(x)].fields) by {
      forall x | x in rids ensures RestKey(x) != key && RestKey(x) != RestaurantsIndex {
        KeysDiffer(x, rid, "");
      }
      RestaurantsKept(data, d, rids, key, RestaurantsIndex);
      RestaurantsAdded(d, rids, rid);
    }
    assert forall x :: x in Rids(k) ==> MenusKey(x) in d && d[MenusKey(x)] == Members(MenusOf(k, x, menuId)) by {
      forall x | x in Rids(k) ensures MenusKey(x) != key && MenusKey(x) != RestaurantsIndex {
        KeysDiffer(x, x, "");
      }
      MenuSetsKept(data, d, k, menuId, key, RestaurantsIndex);
    }
    assert forall j: nat :: j < |k| ==> MenuKey(menuId(j)) in d && d[MenuKey(menuId(j))] == Hash(MenuFields(k[j])) by {
      forall j: nat | j < |k| ensures MenuKey(menuId(j)) != key && MenuKey(menuId(j)) != RestaurantsIndex {
        KeysDiffer(rid, rid, menuId(j));
      }
      MenusKept(data, d, k, menuId, key, RestaurantsIndex);
    }
  }

  /** The invariant after a restaurant hash and the index were written for a restaurant not
      stored before. */
  lemma RestaurantAddedHolds(data: map<string, Value>, d: map<string, Value>, k: seq<Row>, menuId: nat -> string,
                             countRest: nat, rid: string, fields: map<string, string>)
    requires Holds(data, Rids(k), k, menuId, countRest)
    requires RestKey(rid) !in data
    requires RestaurantsIndex in data ==> data[RestaurantsIndex].Members?
    requires d.Keys == data.Keys + {RestKey(rid), RestaurantsIndex}
    requires d[RestKey(rid)] == Hash(fields) && IsRestaurantHash(rid, fields)
    requires d[RestaurantsIndex]
      == Members((if RestaurantsIndex in data then data[RestaurantsIndex].elems else {}) + {RestKey(rid)})
    requires forall x :: x in data && x != RestKey(rid) && x != RestaurantsIndex ==> d[x] == data[x]
    ensures Holds(d, Rids(k) + {rid}, k, menuId, countRest + 1)
  {
    var rids := Rids(k);
    var key := RestKey(rid);
    IndexIsASet(data, k, menuId, countRest);
    var elems := if RestaurantsIndex in data then data[RestaurantsIndex].elems else {};
    RestaurantAddedKeys(data, d, k, menuId, rid, elems);
    assert key !in RestKeys(rids) by {
      RestKeysStored(data, rids, k, menuId);
    }
    assert countRest + 1 == |RestKeys(rids + {rid})| by {
      RestKeysAdd(rids, rid);
    }
    RestaurantAddedKept(data, d, k, menuId, rid);
    HoldsFromParts(d, rids + {rid}, k, menuId, countRest + 1);
  }

  /** A new restaurant: its hash is created and its key joins the index. */
  lemma NewRestaurantHolds(st: Load, k: seq<Row>, menuId: nat -> string, rid: string, row: Row, coords: (string, string))
    requires Holds(st.data, Rids(k), k, menuId, st.countRest)
    requires RestKey(rid) !in st.data && !st.crashed
    ensures var s := NewRestaurant(st, rid, row, coords);
      && !s.crashed && s.countMenu == st.countMenu && s.stopped == st.stopped
      && Holds(s.data, Rids(k) + {rid}, k, menuId, s.countRest)
  {
    var key := RestKey(rid);
    var fields := RestaurantFields(rid, row, coords);
    assert RestaurantsIndex in st.data ==> st.data[RestaurantsIndex].Members? by {
      IndexIsASet(st.data, k, menuId, st.countRest);
    }
    var elems := if RestaurantsIndex in st.data then st.data[RestaurantsIndex].elems else {};
    var s := NewRestaurant(st, rid, row, coords);
    assert && s.countRest == st.countRest + 1 && s.crashed == st.crashed
           && s.countMenu == st.countMenu && s.stopped == st.stopped
           && s.data.Keys == st.data.Keys + {key, RestaurantsIndex} && s.data[key] == Hash(fields)
           && s.data[RestaurantsIndex] == Members(elems + {key})
           && (forall x :: x in st.data && x != key && x != RestaurantsIndex ==> s.data[x] == st.data[x]) by {
      NewRestaurantEffect(st, rid, row, coords);
    }
    assert IsRestaurantHash(rid, fields) by {
      RestaurantFieldsNamed(rid, row, coords);
    }
    RestaurantAddedHolds(st.data, s.data, k, menuId, st.countRest, rid, fields);
  }

  // ---------------------------------------------------------------- a menu step

  lemma MenuKeysAdd(n: nat, menuId: nat -> string)
    ensures MenuKeys(n + 1, menuId) == MenuKeys(n, menuId) + {MenuKey(menuId(n))}
  {
  }

  lemma MenusKeysAdd(rids: set<string>, rid: string)
    ensures MenusKeys(rids + {rid}) == MenusKeys(rids) + {MenusKey(rid)}
  {
  }

  /** The menus of a restaurant grow by the new row's menu when the row is that restaurant's. */
  lemma MenusOfAppend(k: seq<Row>, row: Row, x: string, menuId: nat -> string)
    ensures MenusOf(k + [row], x, menuId)
      == MenusOf(k, x, menuId) + (if RowId(row) == x then {MenuKey(menuId(|k|))} else {})
  {
    var s := k + [row];
    forall j: nat | j < |k| ensures s[j] == k[j] {
    }
    assert s[|k|] == row;
  }

  lemma MenusOfNone(k: seq<Row>, x: string, menuId: nat -> string)
    requires x !in Rids(k)
    ensures MenusOf(k, x, menuId) == {}
  {
    forall j: nat | j < |k| ensures RowId(k[j]) != x {
      assert RowId(k[j]) in Rids(k);
    }
  }

  /** The key of the next menu is not yet stored: uuids never repeat and menu keys do not look
      like the other keys. */
  lemma MenuKeyFresh(data: map<string, Value>, rids: set<string>, k: seq<Row>, menuId: nat -> string, countRest: nat)
    requires Holds(data, rids, k, menuId, countRest)
    requires FreshMenuIds(menuId)
    ensures MenuKey(menuId(|k|)) !in data
  {
    var mk := MenuKey(menuId(|k|));
    if mk in data {
      if mk in MenuKeys(|k|, menuId) {
        var j: nat :| j < |k| && MenuKey(menuId(j)) == mk;
        PrefixInjective("menu:", menuId(j), menuId(|k|));
        assert false;
      } else if mk in RestKeys(rids) {
        var b :| b in rids && RestKey(b) == mk;
        KeysDiffer(b, b, menuId(|k|));
        assert false;
      } else if mk in MenusKeys(Rids(k)) {
        var b :| b in Rids(k) && MenusKey(b) == mk;
        KeysDiffer(b, b, menuId(|k|));
        assert false;
      } else {
        KeysDiffer("", "", menuId(|k|));
        assert false;
      }
    }
  }

  /** The menu set of a restaurant is stored exactly when it has a menu, and holds its menus. */
  lemma MenusKeyState(data: map<string, Value>, rids: set<string>, k: seq<Row>, menuId: nat -> string,
                      countRest: nat, rid: string, ids: set<string>)
    requires Holds(data, rids, k, menuId, countRest)
    requires NoClash(ids) && rids <= ids && rid in ids
    ensures MenusKey(rid) in data <==> rid in Rids(k)
    ensures MenusKey(rid) in data ==> data[MenusKey(rid)] == Members(MenusOf(k, rid, menuId))
  {
    var sk := MenusKey(rid);
    if sk in data {
      if sk in MenusKeys(Rids(k)) {
        var b :| b in Rids(k) && MenusKey(b) == sk;
        KeysDiffer(b, rid, "");
      } else if sk in RestKeys(rids) {
        var b :| b in rids && RestKey(b) == sk;
        KeysDiffer(b, rid, "");
        assert false;
      } else if sk in MenuKeys(|k|, menuId) {
        var j: nat :| j < |k| && MenuKey(menuId(j)) == sk;
        KeysDiffer(rid, rid, menuId(j));
        assert false;
      } else {
        KeysDiffer(rid, rid, "");
        assert false;
      }
    }
  }

  /** HSET of a fresh menu hash, then SADD of its key to the restaurant's menu set. */
  lemma AddMenuEffect(st: Load, rid: string, row: Row, id: string)
    requires MenuKey(id) !in st.data
    requires MenusKey(rid) in st.data ==> st.data[MenusKey(rid)].Members?
    ensures var before := if MenusKey(rid) in st.data then st.data[MenusKey(rid)].elems else {};
      AddMenu(st, rid, row, id)
        == st.(data := st.data[MenuKey(id) := Hash(MenuFields(row))][MenusKey(rid) := Members(before + {MenuKey(id)})],
               countMenu := st.countMenu + 1)
  {
    var mk := MenuKey(id);
    var sk := MenusKey(rid);
    KeysDiffer(rid, rid, id);
    assert map[] + MenuFields(row) == MenuFields(row);
    var d := HSet(st.data, mk, MenuFields(row));
    assert d == st.data[mk := Hash(MenuFields(row))];
    assert sk in d ==> d[sk] == st.data[sk];
    var before := if sk in st.data then st.data[sk].elems else {};
    if sk in d {
      assert d[sk].elems == before;
    } else {
      assert before + {mk} == {mk};
    }
    assert SAdd(d, sk, mk) == Some(d[sk := Members(before + {mk})]);
  }

  /** The keys after a menu was added. */
  lemma MenuAddedKeys(data: map<string, Value>, d: map<string, Value>, rids: set<string>, k: seq<Row>,
                      menuId: nat -> string, row: Row)
    requires data.Keys == KeysOf(rids, k, menuId)
    requires d.Keys == data.Keys + {MenuKey(menuId(|k|)), MenusKey(RowId(row))}
    ensures d.Keys == KeysOf(rids, k + [row], menuId)
  {
    RidsAppend(k, row);
    MenusKeysAdd(Rids(k), RowId(row));
    MenuKeysAdd(|k|, menuId);
  }

  /** The menu sets after a menu was added. */
  lemma MenuSetsAdded(data: map<string, Value>, d: map<string, Value>, k: seq<Row>, menuId: nat -> string, row: Row)
    requires forall x :: x in Rids(k) ==> MenusKey(x) in data && data[MenusKey(x)] == Members(MenusOf(k, x, menuId))
    requires data.Keys <= d.Keys
    requires forall x :: x in data && x != MenuKey(menuId(|k|)) && x != MenusKey(RowId(row)) ==> d[x] == data[x]
    requires MenusKey(RowId(row)) in d
    requires d[MenusKey(RowId(row))] == Members(MenusOf(k, RowId(row), menuId) + {MenuKey(menuId(|k|))})
    ensures forall x :: x in Rids(k + [row]) ==>
      MenusKey(x) in d && d[MenusKey(x)] == Members(MenusOf(k + [row], x, menuId))
  {
    RidsAppend(k, row);
    forall x | x in Rids(k + [row])
      ensures MenusKey(x) in d && d[MenusKey(x)] == Members(MenusOf(k + [row], x, menuId))
    {
      MenusOfAppend(k, row, x, menuId);
      KeysDiffer(x, RowId(row), menuId(|k|));
    }
  }

  /** The menu hashes after a menu was added. */
  lemma MenusAdded(data: map<string, Value>, d: map<string, Value>, k: seq<Row>, menuId: nat -> string, row: Row)
    requires forall j: nat :: j < |k| ==> MenuKey(menuId(j)) in data && data[MenuKey(menuId(j))] == Hash(MenuFields(k[j]))
    requires FreshMenuIds(menuId)
    requires data.Keys <= d.Keys
    requires forall x :: x in data && x != MenuKey(menuId(|k|)) && x != MenusKey(RowId(row)) ==> d[x] == data[x]
    requires MenuKey(menuId(|k|)) in d && d[MenuKey(menuId(|k|))] == Hash(MenuFields(row))
    ensures forall j: nat :: j < |k + [row]| ==>
      MenuKey(menuId(j)) in d && d[MenuKey(menuId(j))] == Hash(MenuFields((k + [row])[j]))
  {
    forall j: nat | j < |k + [row]|
      ensures MenuKey(menuId(j)) in d && d[MenuKey(menuId(j))] == Hash(MenuFields((k + [row])[j]))
    {
      if j < |k| {
        assert (k + [row])[j] == k[j];
        KeysDiffer(RowId(row), RowId(row), menuId(j));
        if MenuKey(menuId(j)) == MenuKey(menuId(|k|)) {
          PrefixInjective("menu:", menuId(j), menuId(|k|));
          assert false;
        }
      }
    }
  }

  /** The invariant after the menu hash of `row` and its place in the menu set were written. */
  lemma MenuAddedHolds(data: map<string, Value>, d: map<string, Value>, rids: set<string>, k: seq<Row>,
                       menuId: nat -> string, countRest: nat, row: Row, ids: set<string>)
    requires Holds(data, rids, k, menuId, countRest)
    requires RowId(row) in rids && NoClash(ids) && rids <= ids && FreshMenuIds(menuId)
    requires d.Keys == data.Keys + {MenuKey(menuId(|k|)), MenusKey(RowId(row))}
    requires forall x :: x in data && x != MenuKey(menuId(|k|)) && x != MenusKey(RowId(row)) ==> d[x] == data[x]
    requires d[MenuKey(menuId(|k|))] == Hash(MenuFields(row))
    requires d[MenusKey(RowId(row))] == Members(MenusOf(k, RowId(row), menuId) + {MenuKey(menuId(|k|))})
    ensures Holds(d, rids, k + [row], menuId, countRest)
  {
    var rid := RowId(row);
    var mk := MenuKey(menuId(|k|));
    var sk := MenusKey(rid);
    MenuAddedKeys(data, d, rids, k, menuId, row);
    assert RestaurantsIndex != mk && RestaurantsIndex != sk by {
      KeysDiffer(rid, rid, menuId(|k|));
    }
    assert forall x :: x in rids ==> RestKey(x) != mk && RestKey(x) != sk by {
      forall x | x in rids ensures RestKey(x) != mk && RestKey(x) != sk {
        KeysDiffer(x, rid, menuId(|k|));
      }
    }
    RestaurantsKept(data, d, rids, mk, sk);
    MenuSetsAdded(data, d, k, menuId, row);
    MenusAdded(data, d, k, menuId, row);
    HoldsFromParts(d, rids, k + [row], menuId, countRest);
  }

  /** Two updates of distinct keys: both are set, no other key changes. */
  lemma TwoUpdates(data: map<string, Value>, a: string, b: string, va: Value, vb: Value)
    requires a != b
    ensures var d := data[a := va][b := vb];
      && d.Keys == data.Keys + {a, b} && d[a] == va && d[b] == vb
      && (forall x :: x in data && x != a && x != b ==> d[x] == data[x])
  {
  }

  /** A menu for a stored restaurant: its hash is created and its key joins the menu set. */
  lemma AddMenuHolds(st: Load, rids: set<string>, k: seq<Row>, menuId: nat -> string, row: Row, ids: set<string>)
    requires Holds(st.data, rids, k, menuId, st.countRest) && st.countMenu == |k|
    requires RowId(row) in rids && NoClash(ids) && rids <= ids && FreshMenuIds(menuId)
    ensures var s := AddMenu(st, RowId(row), row, menuId(st.countMenu));
      && s.crashed == st.crashed && s.countRest == st.countRest && s.countMenu == st.countMenu + 1
      && s.stopped == st.stopped
      && Holds(s.data, rids, k + [row], menuId, s.countRest)
  {
    var rid := RowId(row);
    var mk := MenuKey(menuId(|k|));
    var sk := MenusKey(rid);
    assert mk !in st.data by {
      MenuKeyFresh(st.data, rids, k, menuId, st.countRest);
    }
    assert sk in st.data ==> st.data[sk] == Members(MenusOf(k, rid, menuId)) by {
      MenusKeyState(st.data, rids, k, menuId, st.countRest, rid, ids);
    }
    var before := if sk in st.data then st.data[sk].elems else {};
    assert before == MenusOf(k, rid, menuId) by {
      MenusKeyState(st.data, rids, k, menuId, st.countRest, rid, ids);
      if rid !in Rids(k) {
        MenusOfNone(k, rid, menuId);
      }
    }
    var d := st.data[mk := Hash(MenuFields(row))][sk := Members(before + {mk})];
    var s := AddMenu(st, rid, row, menuId(|k|));
    assert s == st.(data := d, countMenu := st.countMenu + 1) by {
      AddMenuEffect(st, rid, row, menuId(|k|));
    }
    assert d.Keys == st.data.Keys + {mk, sk} && d[mk] == Hash(MenuFields(row))
      && (forall x :: x in st.data && x != mk && x != sk ==> d[x] == st.data[x]) by {
      KeysDiffer(rid, rid, menuId(|k|));
      TwoUpdates(st.data, mk, sk, Hash(MenuFields(row)), Members(before + {mk}));
    }
    MenuAddedHolds(st.data, s.data, rids, k, menuId, st.countRest, row, ids);
  }

  // ---------------------------------------------------------------- the loop's invariant

  /** The invariant of the loop, against the reference `Kept`: no command has failed, `count_menu`
      counts the kept rows, the keyspace holds exactly their restaurants and menus, and the loop
      has broken only when the limit was reached. */
  ghost predicate LoadInvariant(st: Load, rows: seq<Row>, limit: Option<int>, menuId: nat -> string)
  {
    var k := Kept(rows, limit);
    && !st.crashed
    && st.countMenu == |k|
    && Holds(st.data, Rids(k), k, menuId, st.countRest)
    && (st.stopped ==> LimitReached(rows, limit))
    && (!st.stopped && TruthyInt(limit) ==> |Filter(rows, HasId)| <= Cap(limit.value))
  }

  /** The restaurant ids of the rows that have one are among `ids`. */
  ghost predicate IdsAmong(rows: seq<Row>, ids: set<string>)
  {
    forall i :: 0 <= i < |rows| && HasId(rows[i]) ==> RowId(rows[i]) in ids
  }

  lemma KeptIdsAmong(rows: seq<Row>, limit: Option<int>, ids: set<string>)
    requires IdsAmong(rows, ids)
    ensures Rids(Kept(rows, limit)) <= ids
  {
    var k := Kept(rows, limit);
    KeptBound(rows, limit);
    forall x | x in Rids(k) ensures x in ids {
      var i :| 0 <= i < |k| && RowId(k[i]) == x;
      assert k[i] in k;
      var j :| 0 <= j < |rows| && rows[j] == k[i];
    }
  }

  /** The ids of a longer file cover those of its prefix and of its last row. */
  lemma IdsAmongPrefix(rows: seq<Row>, r: Row, limit: Option<int>, ids: set<string>)
    requires IdsAmong(rows + [r], ids)
    ensures IdsAmong(rows, ids) && Rids(Kept(rows, limit)) <= ids && (HasId(r) ==> RowId(r) in ids)
  {
    assert (rows + [r])[|rows|] == r;
    forall i | 0 <= i < |rows| && HasId(rows[i]) ensures RowId(rows[i]) in ids {
      assert (rows + [r])[i] == rows[i];
    }
    KeptIdsAmong(rows, limit, ids);
  }

  /** Before the break, the rows kept so far are all the rows with an id. */
  lemma NotReached(st: Load, rows: seq<Row>, limit: Option<int>, menuId: nat -> string)
    requires LoadInvariant(st, rows, limit, menuId)
    requires !st.stopped && !(TruthyInt(limit) && st.countMenu >= limit.value)
    ensures !LimitReached(rows, limit)
  {
    if TruthyInt(limit) {
      var f := Filter(rows, HasId);
      assert |Kept(rows, limit)| == |Take(f, Cap(limit.value))| == |f|;
    }
  }

  /** The restaurant part of a row that adds a menu: its hash exists afterwards, created only if
      the restaurant was not stored yet. */
  lemma EnsureRestaurant(st: Load, k: seq<Row>, menuId: nat -> string, r: Row, coords: (string, string), ids: set<string>)
    requires Holds(st.data, Rids(k), k, menuId, st.countRest) && !st.crashed
    requires NoClash(ids) && Rids(k) <= ids && RowId(r) in ids
    ensures var rid := RowId(r);
      var st1 := if RestKey(rid) in st.data then st else NewRestaurant(st, rid, r, coords);
      && !st1.crashed && st1.countMenu == st.countMenu && st1.stopped == st.stopped
      && Holds(st1.data, Rids(k) + {rid}, k, menuId, st1.countRest)
  {
    var rid := RowId(r);
    KnownRestaurant(st.data, k, menuId, st.countRest, rid, ids);
    if RestKey(rid) in st.data {
      assert Rids(k) + {rid} == Rids(k);
    } else {
      NewRestaurantHolds(st, k, menuId, rid, r, coords);
    }
  }

  /** A row that adds a menu, against the rows kept so far: the keyspace then holds one more
      kept row. */
  lemma RowAdded(st: Load, k: seq<Row>, r: Row, menuId: nat -> string, coords: (string, string), ids: set<string>)
    requires Holds(st.data, Rids(k), k, menuId, st.countRest) && !st.crashed && st.countMenu == |k|
    requires NoClash(ids) && Rids(k) <= ids && RowId(r) in ids && FreshMenuIds(menuId)
    ensures var s := AddRow(st, r, menuId, coords);
      && !s.crashed && s.countMenu == |k| + 1 && s.stopped == st.stopped
      && Holds(s.data, Rids(k + [r]), k + [r], menuId, s.countRest)
  {
    var rid := RowId(r);
    assert Rids(k + [r]) == Rids(k) + {rid} by {
      RidsAppend(k, r);
    }
    EnsureRestaurant(st, k, menuId, r, coords, ids);
    var st1 := if RestKey(rid) in st.data then st else NewRestaurant(st, rid, r, coords);
    AddMenuHolds(st1, Rids(k + [r]), k, menuId, r, ids);
  }

  /** A row that adds a menu keeps the invariant. */
  lemma StepAddsMenu(st: Load, rows: seq<Row>, r: Row, limit: Option<int>, menuId: nat -> string,
                     coordAt: nat -> (string, string), ids: set<string>)
    requires LoadInvariant(st, rows, limit, menuId)
    requires NoClash(ids) && Rids(Kept(rows, limit)) <= ids && RowId(r) in ids && FreshMenuIds(menuId)
    requires !st.stopped && !(TruthyInt(limit) && st.countMenu >= limit.value) && HasId(r)
    ensures LoadInvariant(Step(st, r, limit, menuId, coordAt), rows + [r], limit, menuId)
  {
    var k := Kept(rows, limit);
    assert Kept(rows + [r], limit) == k + [r]
        && (TruthyInt(limit) ==> |Filter(rows + [r], HasId)| <= Cap(limit.value)) by {
      NotReached(st, rows, limit, menuId);
      KeptAppend(rows, r, limit);
      FilterAppend(rows, r);
    }
    RowAdded(st, k, r, menuId, coordAt(st.countRest), ids);
    assert Step(st, r, limit, menuId, coordAt) == AddRow(st, r, menuId, coordAt(st.countRest));
    InvariantFromParts(AddRow(st, r, menuId, coordAt(st.countRest)), rows + [r], limit, menuId, k + [r]);
  }

  lemma InvariantFromParts(st: Load, rows: seq<Row>, limit: Option<int>, menuId: nat -> string, k: seq<Row>)
    requires k == Kept(rows, limit)
    requires !st.crashed && !st.stopped && st.countMenu == |k|
    requires Holds(st.data, Rids(k), k, menuId, st.countRest)
    requires TruthyInt(limit) ==> |Filter(rows, HasId)| <= Cap(limit.value)
    ensures LoadInvariant(st, rows, limit, menuId)
  {
  }

  /** A row read once the limit is reached breaks the loop and keeps the invariant. */
  lemma StepBreaks(st: Load, rows: seq<Row>, r: Row, limit: Option<int>, menuId: nat -> string, coordAt: nat -> (string, string))
    requires LoadInvariant(st, rows, limit, menuId)
    requires !st.stopped && TruthyInt(limit) && st.countMenu >= limit.value
    ensures LoadInvariant(Step(st, r, limit, menuId, coordAt), rows + [r], limit, menuId)
  {
    KeptAppend(rows, r, limit);
    FilterAppend(rows, r);
    var f := Filter(rows, HasId);
    assert |Kept(rows, limit)| == Min(Cap(limit.value), |f|);
    assert LimitReached(rows, limit);
  }

  /** Rows read after the break, or without an id, leave the state alone and keep the invariant. */
  lemma StepSkips(st: Load, rows: seq<Row>, r: Row, limit: Option<int>, menuId: nat -> string, coordAt: nat -> (string, string))
    requires LoadInvariant(st, rows, limit, menuId)
    requires st.stopped || !HasId(r)
    requires !(!st.stopped && TruthyInt(limit) && st.countMenu >= limit.value)
    ensures LoadInvariant(Step(st, r, limit, menuId, coordAt), rows + [r], limit, menuId)
  {
    KeptAppend(rows, r, limit);
    FilterAppend(rows, r);
  }

  lemma StepKeeps(st: Load, rows: seq<Row>, r: Row, limit: Option<int>, menuId: nat -> string,
                  coordAt: nat -> (string, string), ids: set<string>)
    requires LoadInvariant(st, rows, limit, menuId)
    requires NoClash(ids) && IdsAmong(rows + [r], ids) && FreshMenuIds(menuId)
    ensures LoadInvariant(Step(st, r, limit, menuId, coordAt), rows + [r], limit, menuId)
  {
    if !st.stopped && TruthyInt(limit) && st.countMenu >= limit.value {
      StepBreaks(st, rows, r, limit, menuId, coordAt);
    } else if st.stopped || !HasId(r) {
      StepSkips(st, rows, r, limit, menuId, coordAt);
    } else {
      IdsAmongPrefix(rows, r, limit, ids);
      StepAddsMenu(st, rows, r, limit, menuId, coordAt, ids);
    }
  }

  /** What the loop leaves behind, from the flushed keyspace over any rows whose ids do not clash. */
  lemma {:induction false} LoadRowsInvariant(rows: seq<Row>, limit: Option<int>, menuId: nat -> string,
                                             coordAt: nat -> (string, string), ids: set<string>)
    requires NoClash(ids) && IdsAmong(rows, ids) && FreshMenuIds(menuId)
    ensures LoadInvariant(LoadRows(rows, limit, menuId, coordAt), rows, limit, menuId)
  {
    if rows == [] {
      StartHolds(menuId);
      assert Kept([], limit) == [];
    } else {
      var n := |rows| - 1;
      assert rows[..n] + [rows[n]] == rows;
      IdsAmongPrefix(rows[..n], rows[n], limit, ids);
      LoadRowsInvariant(rows[..n], limit, menuId, coordAt, ids);
      StepKeeps(LoadRows(rows[..n], limit, menuId, coordAt), rows[..n], rows[n], limit, menuId, coordAt, ids);
    }
  }

  /** The restaurant ids of a file's rows. */
  function FileIds(rows: seq<Row>): set<string>
  {
    Rids(Filter(rows, HasId))
  }

  /** What the invariant says of the keyspace, once the kept rows all have an id. */
  lemma HoldsMeans(data: map<string, Value>, k: seq<Row>, menuId: nat -> string, countRest: nat)
    requires Holds(data, Rids(k), k, menuId, countRest)
    requires forall r :: r in k ==> HasId(r)
    ensures k == [] ==> data == map[]
    ensures k != [] ==> RestaurantsIndex in data && data[RestaurantsIndex] == Members(RestKeys(Rids(k)))
                        && countRest == |data[RestaurantsIndex].elems|
    ensures forall j: nat :: j < |k| ==>
      var mk := MenuKey(menuId(j));
      && MenuFields(k[j])["restaurant_id"] == RowId(k[j]) != ""
      && MenusKey(RowId(k[j])) in data && data[MenusKey(RowId(k[j]))].Members?
      && mk in data[MenusKey(RowId(k[j]))].elems
  {
    if k == [] {
      assert Rids(k) == {};
      assert MenuKeys(0, menuId) == {};
    } else {
      assert RowId(k[0]) in Rids(k);
    }
    forall j: nat | j < |k|
      ensures var mk := MenuKey(menuId(j));
        && MenuFields(k[j])["restaurant_id"] == RowId(k[j]) != ""
        && MenusKey(RowId(k[j])) in data && data[MenusKey(RowId(k[j]))].Members?
        && mk in data[MenusKey(RowId(k[j]))].elems
    {
      assert k[j] in k;
      HasIdSpec(k[j]);
      MenuFieldsNamed(k[j]);
      assert RowId(k[j]) in Rids(k);
    }
  }

  /** The loader's promises, for a file in which no restaurant id is another followed by ":menus":
      no command fails; one menu hash per kept row (rows without a restaurant id are skipped, a
      truthy limit bounds the count), holding that row's fields and listed in the menu set of its
      restaurant; the index lists exactly the restaurants of the kept rows, each stored once with
      its hash, and `count_rest` counts them; no other key is stored. */
  lemma LoadSpec(rows: seq<Row>, limit: Option<int>, menuId: nat -> string, coordAt: nat -> (string, string))
    requires NoClash(FileIds(rows)) && FreshMenuIds(menuId)
    ensures var st := LoadRows(rows, limit, menuId, coordAt);
      var k := Kept(rows, limit);
      && !st.crashed
      && st.countMenu == |k|
      && (TruthyInt(limit) ==> st.countMenu <= Cap(limit.value))
      && (!TruthyInt(limit) ==> st.countMenu == |Filter(rows, HasId)|)
      && st.data.Keys == KeysOf(Rids(k), k, menuId)
      && (k == [] ==> st.data == map[])
      && (k != [] ==> RestaurantsIndex in st.data && st.data[RestaurantsIndex] == Members(RestKeys(Rids(k)))
                      && st.countRest == |st.data[RestaurantsIndex].elems|)
      && (forall rid :: rid in Rids(k) ==>
            RestKey(rid) in st.data && st.data[RestKey(rid)].Hash? && IsRestaurantHash(rid, st.data[RestKey(rid)].fields))
      && (forall j: nat :: j < |k| ==>
            var mk := MenuKey(menuId(j));
            && mk in st.data && st.data[mk] == Hash(MenuFields(k[j]))
            && MenuFields(k[j])["restaurant_id"] == RowId(k[j]) != ""
            && MenusKey(RowId(k[j])) in st.data && st.data[MenusKey(RowId(k[j]))].Members?
            && mk in st.data[MenusKey(RowId(k[j]))].elems)
  {
    var ids := FileIds(rows);
    assert IdsAmong(rows, ids) by {
      forall i | 0 <= i < |rows| && HasId(rows[i]) ensures RowId(rows[i]) in ids {
        var f := Filter(rows, HasId);
        assert rows[i] in f;
        var j :| 0 <= j < |f| && f[j] == rows[i];
      }
    }
    LoadRowsInvariant(rows, limit, menuId, coordAt, ids);
    KeptBound(rows, limit);
    var st := LoadRows(rows, limit, menuId, coordAt);
    HoldsMeans(st.data, Kept(rows, limit), menuId, st.countRest);
  }

  /** The first row of the clash: restaurant `rid:menus`, its hash, the index and one menu. */
  lemma ClashFirstRow(rid: string, menuId: nat -> string, coordAt: nat -> (string, string))
    ensures var big := rid + ":menus";
      var st1 := LoadRows([map["restaurant_id" := big]], None, menuId, coordAt);
      && st1.data.Keys == {RestKey(big), RestaurantsIndex, MenuKey(menuId(0)), MenusKey(big)}
      && st1.data[MenuKey(menuId(0))].Hash? && st1.data[RestKey(big)].Hash? && st1.data[RestaurantsIndex].Members?
      && !st1.crashed && !st1.stopped && st1.countMenu == 1 && st1.countRest == 1
  {
    var big := rid + ":menus";
    var a: Row := map["restaurant_id" := big];
    assert RowId(a) == big && HasId(a);
    assert big != big + ":menus" by {
      assert |big| < |big + ":menus"|;
    }
    KeysDiffer(big, big, menuId(0));
    var s0 := NewRestaurant(Start, big, a, coordAt(0));
    NewRestaurantEffect(Start, big, a, coordAt(0));
    AddMenuEffect(s0, big, a, menuId(0));
    assert [a][..0] == [];
  }

  /** The second row of the clash: restaurant `rid`, whose menu set key is the hash of the first. */
  lemma ClashSecondRow(st1: Load, rid: string, menuId: nat -> string, coordAt: nat -> (string, string))
    requires rid != ""
    requires var big := rid + ":menus";
      && st1.data.Keys == {RestKey(big), RestaurantsIndex, MenuKey(menuId(0)), MenusKey(big)}
      && st1.data[MenuKey(menuId(0))].Hash? && st1.data[RestKey(big)].Hash? && st1.data[RestaurantsIndex].Members?
      && !st1.crashed && !st1.stopped && st1.countMenu == 1 && st1.countRest == 1
    ensures Step(st1, map["restaurant_id" := rid], None, menuId, coordAt).crashed
  {
    var big := rid + ":menus";
    var b: Row := map["restaurant_id" := rid];
    assert RowId(b) == rid && HasId(b);
    assert rid != big && rid != big + ":menus" by {
      assert |rid| < |big| < |big + ":menus"|;
    }
    var mk0 := MenuKey(menuId(0));
    KeysDiffer(rid, big, menuId(0));
    KeysDiffer(big, rid, menuId(1));
    KeysDiffer(rid, rid, menuId(1));
    KeysDiffer(big, big, menuId(1));
    assert RestKey(rid) !in st1.data;
    var s1 := NewRestaurant(st1, rid, b, coordAt(1));
    NewRestaurantEffect(st1, rid, b, coordAt(1));
    assert MenusKey(rid) == RestKey(big);
    assert s1.data[MenusKey(rid)].Hash?;
    var mk1 := MenuKey(menuId(1));
    assert mk1 in s1.data ==> mk1 == mk0;
    assert s1.data[mk0] == st1.data[mk0];
    var d := HSet(s1.data, mk1, MenuFields(b));
    assert d[MenusKey(rid)] == s1.data[MenusKey(rid)];
    assert AddMenu(s1, rid, b, menuId(1)).crashed;
    assert !s1.crashed && s1.countMenu == 1;
    assert !Halted(st1) && !TruthyInt(None);
  }

  /** Without the proviso on ids the loader can crash: for a restaurant `rid` read after the
      restaurant `rid:menus`, the menu goes into `restaurant:{rid}:menus`, which already holds the
      hash of the other restaurant, and SADD fails with WRONGTYPE. */
  lemma MenusKeyClash(rid: string, menuId: nat -> string, coordAt: nat -> (string, string))
    requires rid != ""
    ensures var rows := [map["restaurant_id" := rid + ":menus"], map["restaurant_id" := rid]];
      !NoClash(FileIds(rows)) && LoadRows(rows, None, menuId, coordAt).crashed
  {
    var big := rid + ":menus";
    var a: Row := map["restaurant_id" := big];
    var b: Row := map["restaurant_id" := rid];
    var rows := [a, b];
    assert RowId(a) == big && RowId(b) == rid && HasId(a) && HasId(b);
    assert Filter(rows, HasId) == rows by {
      assert rows[..1] == [a];
      assert [a][..0] == [];
    }
    assert big in FileIds(rows) && rid in FileIds(rows) by {
      assert RowId(rows[0]) == big && RowId(rows[1]) == rid;
    }
    assert rid != big && rid != big + ":menus" by {
      assert |rid| < |big| < |big + ":menus"|;
    }
    ClashFirstRow(rid, menuId, coordAt);
    ClashSecondRow(LoadRows([a], None, menuId, coordAt), rid, menuId, coordAt);
    assert rows[..1] == [a];
  }

  // ---------------------------------------------------------------- populate

  /** Lines storing a new restaurant: HSET of its hash, SADD of its key to the index. */
  method StoreRestaurant(server: RedisServer, rid: string, row: Row, coords: (string, string), countRest: nat, countMenu: nat)
    returns (countRest': nat, crashed: bool)
    requires RestKey(rid) !in server.data
    modifies server
    ensures Load(server.data, countRest', countMenu, false, crashed)
         == NewRestaurant(Load(old(server.data), countRest, countMenu, false, false), rid, row, coords)
    ensures server.published == old(server.published)
  {
    var restKey := RestKey(rid);
    server.data := HSet(server.data, restKey, RestaurantFields(rid, row, coords));
    var d := SAdd(server.data, RestaurantsIndex, restKey);
    if d.None? {
      return countRest, true;
    }
    server.data := d.value;
    return countRest + 1, false;
  }

  /** Lines storing a menu: HSET of `menu:{uuid}`, SADD of its key to the restaurant's menu set. */
  method StoreMenu(server: RedisServer, rid: string, row: Row, id: string, countRest: nat, countMenu: nat)
    returns (countMenu': nat, crashed: bool)
    modifies server
    ensures Load(server.data, countRest, countMenu', false, crashed)
         == AddMenu(Load(old(server.data), countRest, countMenu, false, false), rid, row, id)
    ensures server.published == old(server.published)
  {
    var menuKey := MenuKey(id);
    if HoldsNonHash(server.data, menuKey) {
      return countMenu, true;
    }
    server.data := HSet(server.data, menuKey, MenuFields(row));
    var d := SAdd(server.data, MenusKey(rid), menuKey);
    if d.None? {
      return countMenu, true;
    }
    server.data := d.value;
    return countMenu + 1, false;
  }

  /** populate: FLUSHDB, then the row loop with its `break`; a failed command ends the load (the
      exception propagates) with what was stored so far. The channel log is not touched. */
  method Populate(server: RedisServer, rows: seq<Row>, limit: Option<int>, menuId: nat -> string,
                  coordAt: nat -> (string, string))
    returns (countRest: nat, countMenu: nat, crashed: bool)
    modifies server
    ensures var st := LoadRows(rows, limit, menuId, coordAt);
      && server.data == st.data && server.published == old(server.published)
      && countRest == st.countRest && countMenu == st.countMenu && crashed == st.crashed
  {
    server.data := map[];
    countRest, countMenu, crashed := 0, 0, false;
    var stopped := false;
    var i := 0;
    while i < |rows| && !stopped && !crashed
      invariant 0 <= i <= |rows|
      invariant LoadRows(rows[..i], limit, menuId, coordAt) == Load(server.data, countRest, countMenu, stopped, crashed)
      invariant server.published == old(server.published)
    {
      var row := rows[i];
      assert rows[..i + 1][..i] == rows[..i];
      if TruthyInt(limit) && countMenu >= limit.value {
        stopped := true;
      } else if HasId(row) {
        var rid := RowId(row);
        if RestKey(rid) !in server.data {
          countRest, crashed := StoreRestaurant(server, rid, row, coordAt(countRest), countRest, countMenu);
        }
        if !crashed {
          countMenu, crashed := StoreMenu(server, rid, row, menuId(countMenu), countRest, countMenu);
        }
      }
      i := i + 1;
    }
    if i < |rows| {
      HaltedStays(rows[..i], rows[i..], limit, menuId, coordAt);
      assert rows[..i] + rows[i..] == rows;
    } else {
      assert rows[..i] == rows;
    }
  }
}
