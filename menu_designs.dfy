/**
 * Menu designs (menus/api.py, the /menu-designs/ endpoints): creating a
 * design with its category and pricing rows, reading the active design,
 * reordering its rows, listing a restaurant's pricing titles, and deleting
 * a design with its rows.
 */
module MenuDesigns {
  import opened Wrappers
  import opened Sets
  import opened MenuSchema
  import opened MenuCatalogs

  // ---------------------------------------------------------------------------
  // Rows of one design, in display order
  // ---------------------------------------------------------------------------

  /** `design.categories.all()` / `design.pricing_titles.all()` before ordering. */
  function RowsOf(rows: seq<DesignJoin>, d: DesignId): (r: seq<DesignJoin>)
    ensures |r| <= |rows|
    ensures forall x :: x in r <==> x in rows && x.designId == d
  {
    if rows == [] then []
    else
      var init := RowsOf(rows[..|rows| - 1], d);
      var last := rows[|rows| - 1];
      assert rows == rows[..|rows| - 1] + [last];
      if last.designId == d then init + [last] else init
  }

  /** The rows of every other design, in their order. */
  function RowsNotOf(rows: seq<DesignJoin>, d: DesignId): (r: seq<DesignJoin>)
    ensures |r| <= |rows|
    ensures forall x :: x in r <==> x in rows && x.designId != d
  {
    if rows == [] then []
    else
      var init := RowsNotOf(rows[..|rows| - 1], d);
      var last := rows[|rows| - 1];
      assert rows == rows[..|rows| - 1] + [last];
      if last.designId != d then init + [last] else init
  }

  predicate SortedByOrder(rows: seq<DesignJoin>) {
    forall j, k :: 0 <= j < k < |rows| ==> rows[j].displayOrder <= rows[k].displayOrder
  }

  /** Places `x` before the first row whose order is not smaller, so rows of
      equal order keep their relative position. */
  function InsertByOrder(x: DesignJoin, sorted: seq<DesignJoin>): (r: seq<DesignJoin>)
    requires SortedByOrder(sorted)
    ensures SortedByOrder(r)
    ensures multiset(r) == multiset(sorted) + multiset{x}
    ensures |r| == |sorted| + 1
    ensures r[0] == x || (|sorted| > 0 && r[0] == sorted[0])
  {
    if sorted == [] || x.displayOrder <= sorted[0].displayOrder then [x] + sorted
    else
      var rest := InsertByOrder(x, sorted[1..]);
      InsertBehindHead(x, sorted, rest);
      [sorted[0]] + rest
  }

  /** The recursive case of `InsertByOrder`: the head stays in front. */
  lemma InsertBehindHead(x: DesignJoin, sorted: seq<DesignJoin>, rest: seq<DesignJoin>)
    requires sorted != [] && SortedByOrder(sorted) && sorted[0].displayOrder < x.displayOrder
    requires SortedByOrder(rest) && multiset(rest) == multiset(sorted[1..]) + multiset{x}
    requires |rest| == |sorted| && (rest[0] == x || (|sorted| > 1 && rest[0] == sorted[1]))
    ensures SortedByOrder([sorted[0]] + rest)
    ensures multiset([sorted[0]] + rest) == multiset(sorted) + multiset{x}
  {
    assert sorted == [sorted[0]] + sorted[1..];
    SortedCons(sorted[0], rest);
  }

  /** A row no later than the head of a sorted sequence can go in front of it. */
  lemma SortedCons(y: DesignJoin, rows: seq<DesignJoin>)
    requires SortedByOrder(rows)
    requires rows == [] || y.displayOrder <= rows[0].displayOrder
    ensures SortedByOrder([y] + rows)
  {
    var r := [y] + rows;
    forall j, k | 0 <= j < k < |r| ensures r[j].displayOrder <= r[k].displayOrder {
      if j == 0 {
        assert r[k] == rows[k - 1];
        assert rows[0].displayOrder <= rows[k - 1].displayOrder;
      } else {
        assert r[j] == rows[j - 1] && r[k] == rows[k - 1];
      }
    }
  }

  /** `Meta.ordering = ['display_order']`; rows of equal order keep their
      table order. */
  function SortByOrder(rows: seq<DesignJoin>): (r: seq<DesignJoin>)
    ensures SortedByOrder(r)
    ensures multiset(r) == multiset(rows)
    ensures |r| == |rows|
  {
    if rows == [] then []
    else
      assert rows == [rows[0]] + rows[1..];
      InsertByOrder(rows[0], SortByOrder(rows[1..]))
  }

  /** The `{"id", "name"}` entries built from rows whose target still exists. */
  function Targets(rows: seq<DesignJoin>, catalog: map<CatalogKey, CatalogRow>, kind: Catalog): (r: seq<(int, string)>)
    ensures |r| <= |rows|
    ensures (forall k :: 0 <= k < |rows| ==> InCatalog(catalog, kind, rows[k].targetId)) ==>
              |r| == |rows| &&
              forall k :: 0 <= k < |rows| ==>
                InCatalog(catalog, kind, rows[k].targetId) && r[k] == (rows[k].targetId, catalog[CatalogKey(kind, rows[k].targetId)].name)
  {
    if rows == [] then []
    else
      var init := Targets(rows[..|rows| - 1], catalog, kind);
      var last := rows[|rows| - 1];
      if InCatalog(catalog, kind, last.targetId) then init + [(last.targetId, catalog[CatalogKey(kind, last.targetId)].name)]
      else init
  }

  /** What the read endpoint lists for one design's categories or pricing titles. */
  function Listing(rows: seq<DesignJoin>, d: DesignId, catalog: map<CatalogKey, CatalogRow>, kind: Catalog): seq<(int, string)> {
    Targets(SortByOrder(RowsOf(rows, d)), catalog, kind)
  }

  /** With every target present, the listing has one entry per row of the
      design, named after its target, in display order. */
  lemma ListingFollowsDisplayOrder(rows: seq<DesignJoin>, d: DesignId, catalog: map<CatalogKey, CatalogRow>, kind: Catalog)
    requires forall k :: 0 <= k < |rows| ==> InCatalog(catalog, kind, rows[k].targetId)
    ensures var sorted := SortByOrder(RowsOf(rows, d));
            var listing := Listing(rows, d, catalog, kind);
            && SortedByOrder(sorted)
            && multiset(sorted) == multiset(RowsOf(rows, d))
            && |listing| == |RowsOf(rows, d)|
            && forall k :: 0 <= k < |sorted| ==>
                 sorted[k].designId == d && InCatalog(catalog, kind, sorted[k].targetId)
                 && listing[k] == (sorted[k].targetId, catalog[CatalogKey(kind, sorted[k].targetId)].name)
  {
    var own := RowsOf(rows, d);
    var sorted := SortByOrder(own);
    forall k | 0 <= k < |sorted|
      ensures sorted[k] in own && InCatalog(catalog, kind, sorted[k].targetId)
    {
      assert sorted[k] in multiset(sorted);
      assert sorted[k] in rows;
    }
  }

  // ---------------------------------------------------------------------------
  // create_menu_design
  // ---------------------------------------------------------------------------

  /** One entry of the `categories` or `pricing_titles` payload; pricing
      entries carry no notes. */
  datatype JoinEntry = JoinEntry(targetId: int, notes: Option<string>, displayOrder: int)

  datatype DesignInput = DesignInput(
    restaurantId: int,
    isMultiplePricing: bool,
    categories: seq<JoinEntry>,
    pricingTitles: Option<seq<JoinEntry>>)

  function JoinRow(id: int, d: DesignId, e: JoinEntry): DesignJoin {
    DesignJoin(id as JoinId, d, e.targetId, if e.notes.Some? then e.notes.value else "", e.displayOrder, false)
  }

  /** Why the row for one entry is not written: the target lookup's 404, or a
      NULL into the NOT NULL notes column, or a negative order. */
  function EntryFailure(catalog: map<CatalogKey, CatalogRow>, kind: Catalog, e: JoinEntry): Option<Failure> {
    if !InCatalog(catalog, kind, e.targetId) then Some(NotFound)
    else if (HasNotes(kind) && e.notes.None?) || e.displayOrder < 0 then Some(IntegrityError)
    else None
  }

  /** A row the create loop wrote: for design `d`, with a present target, a
      non-negative order and an id taken from the counter in `[lo, hi)`. */
  predicate WrittenRowValid(row: DesignJoin, catalog: map<CatalogKey, CatalogRow>, kind: Catalog, d: DesignId, lo: int, hi: int) {
    row.designId == d && InCatalog(catalog, kind, row.targetId) && row.displayOrder >= 0 && lo <= row.id as int < hi
  }

  /** The loop over the payload from entry `i` on: each entry's row is written
      before the next entry is looked at, and the first failing entry stops
      the loop. Returns the table, the counter and the failure. */
  function AddJoinRows(rows: seq<DesignJoin>, nextId: int, catalog: map<CatalogKey, CatalogRow>, kind: Catalog,
                       d: DesignId, entries: seq<JoinEntry>, i: nat): (r: (seq<DesignJoin>, int, Option<Failure>))
    requires i <= |entries|
    decreases |entries| - i
    // rows are only appended, one per entry, in payload order
    ensures |rows| <= |r.0| <= |rows| + (|entries| - i)
    ensures r.0[..|rows|] == rows
    ensures r.1 == nextId + (|r.0| - |rows|)
    ensures forall k :: |rows| <= k < |r.0| ==> r.0[k] == JoinRow(nextId + (k - |rows|), d, entries[i + (k - |rows|)])
    // the rows written are exactly those of the entries before the first failing one
    ensures forall j :: i <= j < i + (|r.0| - |rows|) ==> EntryFailure(catalog, kind, entries[j]).None?
    ensures forall k :: |rows| <= k < |r.0| ==> WrittenRowValid(r.0[k], catalog, kind, d, nextId, r.1)
    ensures r.2.None? <==> |r.0| == |rows| + (|entries| - i)
    ensures r.2.Some? ==> r.2 == EntryFailure(catalog, kind, entries[i + (|r.0| - |rows|)])
  {
    if i == |entries| then (rows, nextId, None)
    else
      var f := EntryFailure(catalog, kind, entries[i]);
      if f.Some? then (rows, nextId, f)
      else AddJoinRows(rows + [JoinRow(nextId, d, entries[i])], nextId + 1, catalog, kind, d, entries, i + 1)
  }

  /** Whether the request gets past the restaurant lookup and the design insert. */
  predicate DesignWritten(db: MenuDb, input: DesignInput) {
    input.restaurantId in db.restaurants && DesignsOf(db.designs, input.restaurantId) == {}
  }

  /** Whether the pricing loop runs at all (`is_multiple_pricing and pricing_titles`). */
  predicate PricingRequested(input: DesignInput) {
    input.isMultiplePricing && input.pricingTitles.Some? && |input.pricingTitles.value| > 0
  }

  /** The join table of a design section: category rows or pricing rows. */
  function Table(db: MenuDb, kind: Catalog): seq<DesignJoin> {
    if kind == MenuCategories then db.designCategories else db.designPricings
  }

  /** One loop of `create_menu_design` as a step on the database: it writes the
      section's table and the counter, and nothing else. */
  function JoinStep(db: MenuDb, d: DesignId, kind: Catalog, entries: seq<JoinEntry>): (r: (Option<Failure>, MenuDb))
    requires kind == MenuCategories || kind == PricingTitles
    ensures kind == MenuCategories ==> r.1 == db.(designCategories := r.1.designCategories, nextId := r.1.nextId)
    ensures kind == PricingTitles ==> r.1 == db.(designPricings := r.1.designPricings, nextId := r.1.nextId)
    ensures r.1.nextId >= db.nextId
    ensures |Table(db, kind)| <= |Table(r.1, kind)| && Table(r.1, kind)[..|Table(db, kind)|] == Table(db, kind)
    ensures forall k :: |Table(db, kind)| <= k < |Table(r.1, kind)| ==>
              WrittenRowValid(Table(r.1, kind)[k], db.catalog, kind, d, db.nextId, r.1.nextId)
    ensures r.0.None? ==> |Table(r.1, kind)| == |Table(db, kind)| + |entries|
    ensures r.0.None? ==> forall j :: 0 <= j < |entries| ==>
              Table(r.1, kind)[|Table(db, kind)| + j].targetId == entries[j].targetId
              && Table(r.1, kind)[|Table(db, kind)| + j].displayOrder == entries[j].displayOrder
    ensures r.0.Some? ==> r.0.value == NotFound || r.0.value == IntegrityError
  {
    var (rows, n, f) := AddJoinRows(Table(db, kind), db.nextId, db.catalog, kind, d, entries, 0);
    if kind == MenuCategories then (f, db.(designCategories := rows, nextId := n))
    else (f, db.(designPricings := rows, nextId := n))
  }

  function CreateDesignSpec(db: MenuDb, input: DesignInput): (r: (Result<DesignId, Failure>, MenuDb))
    // the two failures before any write
    ensures input.restaurantId !in db.restaurants ==> r == (Err(NotFound), db)
    ensures input.restaurantId in db.restaurants && DesignsOf(db.designs, input.restaurantId) != {}
            ==> r == (Err(IntegrityError), db)
    // only the design tables and the counter change
    ensures r.1 == db.(designs := r.1.designs, designCategories := r.1.designCategories,
                       designPricings := r.1.designPricings, nextId := r.1.nextId)
    // past those, the active design is written first and stays, whatever follows
    ensures DesignWritten(db, input) ==>
              r.1.designs == db.designs[db.nextId as DesignId := Design(input.restaurantId, input.isMultiplePricing, true)]
    ensures r.0.Ok? ==> DesignWritten(db, input) && r.0.value == db.nextId as DesignId
    // the only failures are a missing row and a refused insert
    ensures r.0.Err? ==> r.0.error == NotFound || r.0.error == IntegrityError
  {
    if input.restaurantId !in db.restaurants then (Err(NotFound), db)
    else if DesignsOf(db.designs, input.restaurantId) != {} then (Err(IntegrityError), db)
    else
      var d := db.nextId as DesignId;
      var db1 := db.(designs := db.designs[d := Design(input.restaurantId, input.isMultiplePricing, true)], nextId := db.nextId + 1);
      var step1 := JoinStep(db1, d, MenuCategories, input.categories);
      if step1.0.Some? then (Err(step1.0.value), step1.1)
      else if PricingRequested(input) then
        var step2 := JoinStep(step1.1, d, PricingTitles, input.pricingTitles.value);
        if step2.0.Some? then (Err(step2.0.value), step2.1) else (Ok(d), step2.1)
      else (Ok(d), step1.1)
  }

  /** `after` is `before` with rows appended, each valid for design `d` and
      with an id in `[lo, hi)`. */
  predicate Appended(before: seq<DesignJoin>, after: seq<DesignJoin>, catalog: map<CatalogKey, CatalogRow>,
                     kind: Catalog, d: DesignId, lo: int, hi: int) {
    && |before| <= |after|
    && after[..|before|] == before
    && forall k :: |before| <= k < |after| ==> WrittenRowValid(after[k], catalog, kind, d, lo, hi)
  }

  lemma AppendedWiden(before: seq<DesignJoin>, after: seq<DesignJoin>, catalog: map<CatalogKey, CatalogRow>,
                      kind: Catalog, d: DesignId, lo: int, hi: int, lo': int, hi': int)
    requires Appended(before, after, catalog, kind, d, lo, hi)
    requires lo' <= lo && hi <= hi'
    ensures Appended(before, after, catalog, kind, d, lo', hi')
  {
    forall k | |before| <= k < |after| ensures WrittenRowValid(after[k], catalog, kind, d, lo', hi') {
      assert WrittenRowValid(after[k], catalog, kind, d, lo, hi);
    }
  }

  /** What a create writes into the category table: rows are only appended,
      all for the new design and valid. */
  lemma CreateDesignCategoryRows(db: MenuDb, input: DesignInput)
    ensures var r := CreateDesignSpec(db, input);
            && r.1.nextId >= db.nextId
            && (DesignWritten(db, input) ==> r.1.nextId > db.nextId)
            && Appended(db.designCategories, r.1.designCategories, db.catalog, MenuCategories,
                        db.nextId as DesignId, db.nextId, r.1.nextId)
  {
    var n := |db.designCategories|;
    var d := db.nextId as DesignId;
    if DesignWritten(db, input) {
      var db1 := db.(designs := db.designs[d := Design(input.restaurantId, input.isMultiplePricing, true)], nextId := db.nextId + 1);
      var step1 := JoinStep(db1, d, MenuCategories, input.categories);
      var db2 := step1.1;
      assert Table(db1, MenuCategories) == db.designCategories && Table(db2, MenuCategories) == db2.designCategories;
      assert Appended(db.designCategories, db2.designCategories, db.catalog, MenuCategories, d, db1.nextId, db2.nextId);
      if step1.0.None? && PricingRequested(input) {
        var db3 := JoinStep(db2, d, PricingTitles, input.pricingTitles.value).1;
        assert CreateDesignSpec(db, input).1 == db3;
        assert db3.designCategories == db2.designCategories;
        AppendedWiden(db.designCategories, db2.designCategories, db.catalog, MenuCategories, d,
                      db1.nextId, db2.nextId, db.nextId, db3.nextId);
      } else {
        assert CreateDesignSpec(db, input).1 == db2;
        AppendedWiden(db.designCategories, db2.designCategories, db.catalog, MenuCategories, d,
                      db1.nextId, db2.nextId, db.nextId, db2.nextId);
      }
    } else {
      assert CreateDesignSpec(db, input).1 == db;
      assert db.designCategories[..n] == db.designCategories;
    }
  }

  /** A successful create writes one category row per entry, in payload order. */
  lemma CreateDesignFollowsPayload(db: MenuDb, input: DesignInput)
    requires CreateDesignSpec(db, input).0.Ok?
    ensures var r := CreateDesignSpec(db, input);
            && |r.1.designCategories| == |db.designCategories| + |input.categories|
            && forall j :: 0 <= j < |input.categories| ==>
                 r.1.designCategories[|db.designCategories| + j].targetId == input.categories[j].targetId
                 && r.1.designCategories[|db.designCategories| + j].displayOrder == input.categories[j].displayOrder
  {
    var d := db.nextId as DesignId;
    var db1 := db.(designs := db.designs[d := Design(input.restaurantId, input.isMultiplePricing, true)], nextId := db.nextId + 1);
    var step1 := JoinStep(db1, d, MenuCategories, input.categories);
    var db2 := step1.1;
    assert Table(db1, MenuCategories) == db.designCategories && Table(db2, MenuCategories) == db2.designCategories;
    if PricingRequested(input) {
      var db3 := JoinStep(db2, d, PricingTitles, input.pricingTitles.value).1;
      assert db3.designCategories == db2.designCategories;
    }
  }

  /** What a create writes into the pricing table: nothing unless multiple
      pricing is on and titles were given; otherwise rows only appended, all
      for the new design and valid, and on success one row per title. */
  lemma CreateDesignPricingRows(db: MenuDb, input: DesignInput)
    ensures var r := CreateDesignSpec(db, input);
            && Appended(db.designPricings, r.1.designPricings, db.catalog, PricingTitles,
                        db.nextId as DesignId, db.nextId, r.1.nextId)
            && (!PricingRequested(input) ==> r.1.designPricings == db.designPricings)
            && (r.0.Ok? && PricingRequested(input) ==>
                  |r.1.designPricings| == |db.designPricings| + |input.pricingTitles.value|)
            && (r.0.Ok? && PricingRequested(input) ==> forall j :: 0 <= j < |input.pricingTitles.value| ==>
                  r.1.designPricings[|db.designPricings| + j].targetId == input.pricingTitles.value[j].targetId)
  {
    var n := |db.designPricings|;
    var d := db.nextId as DesignId;
    if DesignWritten(db, input) {
      var db1 := db.(designs := db.designs[d := Design(input.restaurantId, input.isMultiplePricing, true)], nextId := db.nextId + 1);
      var step1 := JoinStep(db1, d, MenuCategories, input.categories);
      var db2 := step1.1;
      assert db2.designPricings == db.designPricings;
      if step1.0.None? && PricingRequested(input) {
        var step2 := JoinStep(db2, d, PricingTitles, input.pricingTitles.value);
        var db3 := step2.1;
        assert CreateDesignSpec(db, input).1 == db3;
        assert Table(db2, PricingTitles) == db.designPricings && Table(db3, PricingTitles) == db3.designPricings;
        assert Appended(db.designPricings, db3.designPricings, db.catalog, PricingTitles, d, db2.nextId, db3.nextId);
        AppendedWiden(db.designPricings, db3.designPricings, db.catalog, PricingTitles, d,
                      db2.nextId, db3.nextId, db.nextId, db3.nextId);
      } else {
        assert CreateDesignSpec(db, input).1 == db2;
        assert db.designPricings[..n] == db.designPricings;
      }
    } else {
      assert CreateDesignSpec(db, input).1 == db;
      assert db.designPricings[..n] == db.designPricings;
    }
  }

  /** A restaurant keeps at most one design: once a design exists, whether or
      not it is active, a second create is refused before writing anything. */
  lemma SecondDesignRefused(db: MenuDb, input: DesignInput, existing: DesignId)
    requires input.restaurantId in db.restaurants
    requires existing in db.designs && db.designs[existing].restaurantId == input.restaurantId
    ensures CreateDesignSpec(db, input) == (Err(IntegrityError), db)
  {
    assert existing in DesignsOf(db.designs, input.restaurantId);
  }

  /** The create is not atomic: when a category entry fails, the design stays
      behind, so retrying the same request is refused. */
  lemma FailedCreateBlocksRetry(db: MenuDb, input: DesignInput)
    requires DesignWritten(db, input)
    requires CreateDesignSpec(db, input).0.Err?
    ensures var db' := CreateDesignSpec(db, input).1;
            CreateDesignSpec(db', input) == (Err(IntegrityError), db')
  {
    var db' := CreateDesignSpec(db, input).1;
    SecondDesignRefused(db', input, db.nextId as DesignId);
  }

  /** Creating a design keeps every constraint. */
  lemma CreateDesignPreservesValid(db: MenuDb, input: DesignInput)
    requires ValidDb(db)
    ensures ValidDb(CreateDesignSpec(db, input).1)
  {
    var db' := CreateDesignSpec(db, input).1;
    CreateDesignCategoryRows(db, input);
    CreateDesignPricingRows(db, input);
    if DesignWritten(db, input) {
      assert db.nextId as DesignId !in db.designs;
      assert OneDesignPerRestaurant(db'.designs);
      WrittenJoinRowsValid(db, db', db.designCategories, db'.designCategories, MenuCategories);
      WrittenJoinRowsValid(db, db', db.designPricings, db'.designPricings, PricingTitles);
      OtherTablesKeepValid(db, db');
    }
  }

  /** Rows kept from before stay valid, and the rows a create wrote are valid. */
  lemma WrittenJoinRowsValid(db: MenuDb, db': MenuDb, before: seq<DesignJoin>, after: seq<DesignJoin>, kind: Catalog)
    requires JoinRowsValid(before, kind, db)
    requires db'.catalog == db.catalog && db.designs.Keys <= db'.designs.Keys && db.nextId <= db'.nextId
    requires db.nextId as DesignId in db'.designs
    requires |before| <= |after| && after[..|before|] == before
    requires forall k :: |before| <= k < |after| ==>
               WrittenRowValid(after[k], db.catalog, kind, db.nextId as DesignId, db.nextId, db'.nextId)
    ensures JoinRowsValid(after, kind, db')
  {
    forall k | 0 <= k < |after|
      ensures after[k].designId in db'.designs && InCatalog(db'.catalog, kind, after[k].targetId)
              && after[k].displayOrder >= 0 && after[k].id as int < db'.nextId
    {
      if k < |before| {
        assert after[k] == before[k];
      }
    }
  }

  /** Tables a design operation does not write keep their constraints as long as
      the catalog and the items stay and the counter does not go down. */
  lemma OtherTablesKeepValid(db: MenuDb, db': MenuDb)
    requires ValidDb(db)
    requires db'.restaurants == db.restaurants && db'.catalog == db.catalog && db'.items == db.items
    requires db'.portions == db.portions && db'.prices == db.prices && db'.itemImages == db.itemImages
    requires db'.nextId >= db.nextId
    ensures CatalogUnique(db'.catalog) && CatalogIdsBelow(db')
    ensures ItemsValid(db') && PortionsValid(db') && PricesValid(db') && ImagesValid(db')
  {
    forall i | i in db'.items ensures ItemValid(db'.items[i], db') {
      assert ItemValid(db.items[i], db);
    }
  }

  // ---------------------------------------------------------------------------
  // get_restaurant_menu_design
  // ---------------------------------------------------------------------------

  datatype DesignOut = DesignOut(
    id: DesignId,
    isMultiplePricing: bool,
    categories: seq<(int, string)>,
    pricingTitles: seq<(int, string)>)

  /** `MenuDesign.objects.get(restaurant_id=..., is_active=True)` candidates. */
  function ActiveDesignsOf(designs: map<DesignId, Design>, restaurantId: int): (r: set<DesignId>)
    ensures forall d :: d in r <==> d in designs && designs[d].restaurantId == restaurantId && designs[d].isActive
  {
    set d | d in designs && designs[d].restaurantId == restaurantId && designs[d].isActive
  }

  /** The read endpoint: `DoesNotExist` becomes the 404, every other exception
      a 500. */
  ghost function GetDesignSpec(db: MenuDb, restaurantId: int): (r: Result<DesignOut, Failure>)
    ensures r == Err(NotFound) <==> ActiveDesignsOf(db.designs, restaurantId) == {}
    ensures |ActiveDesignsOf(db.designs, restaurantId)| > 1 ==> r == Err(MultipleObjectsReturned)
    ensures r.Ok? ==> ActiveDesignsOf(db.designs, restaurantId) == {r.value.id}
    ensures r.Ok? ==> r.value.isMultiplePricing == db.designs[r.value.id].isMultiplePricing
    ensures r.Ok? ==> r.value.categories == Listing(db.designCategories, r.value.id, db.catalog, MenuCategories)
    ensures r.Ok? ==> r.value.pricingTitles == Listing(db.designPricings, r.value.id, db.catalog, PricingTitles)
  {
    var found := ActiveDesignsOf(db.designs, restaurantId);
    if found == {} then Err(NotFound)
    else if |found| > 1 then Err(MultipleObjectsReturned)
    else
      var d := PickDesign(found);
      SingletonOf(found, d);
      Ok(DesignOut(d, db.designs[d].isMultiplePricing,
                   Listing(db.designCategories, d, db.catalog, MenuCategories),
                   Listing(db.designPricings, d, db.catalog, PricingTitles)))
  }

  /** On a valid database the read never fails with a 500, and an inactive
      design reads as missing. */
  lemma GetDesignOnValid(db: MenuDb, restaurantId: int)
    requires ValidDb(db)
    ensures GetDesignSpec(db, restaurantId).Ok? || GetDesignSpec(db, restaurantId) == Err(NotFound)
    ensures (forall d :: d in db.designs && db.designs[d].restaurantId == restaurantId ==> !db.designs[d].isActive)
            ==> GetDesignSpec(db, restaurantId) == Err(NotFound)
  {
    var found := ActiveDesignsOf(db.designs, restaurantId);
    assert found <= DesignsOf(db.designs, restaurantId);
    AtMostOneDesign(db.designs, restaurantId);
    assert |found| <= |DesignsOf(db.designs, restaurantId)| by {
      SubsetCard(found, DesignsOf(db.designs, restaurantId));
    }
  }

  /** Every listed id is the target of some entry, and every entry's target is listed. */
  predicate ListsEntries(listing: seq<(int, string)>, entries: seq<JoinEntry>) {
    && (forall k :: 0 <= k < |listing| ==> exists j :: 0 <= j < |entries| && listing[k].0 == entries[j].targetId)
    && (forall j :: 0 <= j < |entries| ==> exists k :: 0 <= k < |listing| && listing[k].0 == entries[j].targetId)
  }

  /** Right after a successful create on a valid database, reading the design
      lists exactly the categories given, in display order. */
  lemma CreateThenGet(db: MenuDb, input: DesignInput)
    requires ValidDb(db)
    requires CreateDesignSpec(db, input).0.Ok?
    ensures var r := GetDesignSpec(CreateDesignSpec(db, input).1, input.restaurantId);
            && r.Ok? && r.value.id == db.nextId as DesignId
            && r.value.isMultiplePricing == input.isMultiplePricing
            && |r.value.categories| == |input.categories|
            && ListsEntries(r.value.categories, input.categories)
  {
    var db' := CreateDesignSpec(db, input).1;
    var d := db.nextId as DesignId;
    CreatedCategoryListing(db, input);
    CreatedDesignIsTheActiveOne(db, input);
    assert db'.designs[d].isMultiplePricing == input.isMultiplePricing;
    ReadOfSoleActive(db', input.restaurantId, d);
  }

  /** The category listing of the new design names exactly the categories
      of the payload. */
  lemma CreatedCategoryListing(db: MenuDb, input: DesignInput)
    requires ValidDb(db)
    requires CreateDesignSpec(db, input).0.Ok?
    ensures var db' := CreateDesignSpec(db, input).1;
            var listing := Listing(db'.designCategories, db.nextId as DesignId, db'.catalog, MenuCategories);
            |listing| == |input.categories| && ListsEntries(listing, input.categories)
  {
    var db' := CreateDesignSpec(db, input).1;
    var d := db.nextId as DesignId;
    CreateDesignCategoryRows(db, input);
    CreateDesignFollowsPayload(db, input);
    var n := |db.designCategories|;
    var rows := db'.designCategories;
    assert db'.catalog == db.catalog;
    forall k | 0 <= k < n
      ensures rows[k].designId != d && InCatalog(db'.catalog, MenuCategories, rows[k].targetId)
    {
      assert rows[k] == db.designCategories[k];
    }
    forall k | n <= k < |rows|
      ensures rows[k].designId == d && InCatalog(db'.catalog, MenuCategories, rows[k].targetId)
    {
      assert WrittenRowValid(rows[k], db.catalog, MenuCategories, d, db.nextId, db'.nextId);
    }
    ListingOfNewRows(rows, d, n, db'.catalog, MenuCategories, input.categories);
  }

  /** The read returns the one active design with its listings. */
  lemma ReadOfSoleActive(db: MenuDb, restaurantId: int, d: DesignId)
    requires ActiveDesignsOf(db.designs, restaurantId) == {d}
    ensures var r := GetDesignSpec(db, restaurantId);
            && r.Ok? && r.value.id == d && r.value.isMultiplePricing == db.designs[d].isMultiplePricing
            && r.value.categories == Listing(db.designCategories, d, db.catalog, MenuCategories)
  {
    assert |ActiveDesignsOf(db.designs, restaurantId)| == 1;
  }

  lemma ListingOfNewRows(rows: seq<DesignJoin>, d: DesignId, n: nat, catalog: map<CatalogKey, CatalogRow>, kind: Catalog, entries: seq<JoinEntry>)
    requires n + |entries| == |rows|
    requires forall k :: 0 <= k < n ==> rows[k].designId != d
    requires forall k :: n <= k < |rows| ==> rows[k].designId == d
    requires forall j :: 0 <= j < |entries| ==> rows[n + j].targetId == entries[j].targetId
    requires forall k :: 0 <= k < |rows| ==> InCatalog(catalog, kind, rows[k].targetId)
    ensures |Listing(rows, d, catalog, kind)| == |entries|
    ensures ListsEntries(Listing(rows, d, catalog, kind), entries)
  {
    OwnRowsAreSuffix(rows, d, n);
    ListingFollowsDisplayOrder(rows, d, catalog, kind);
    var own := rows[n..];
    forall j | 0 <= j < |entries| ensures own[j].targetId == entries[j].targetId {
      assert own[j] == rows[n + j];
    }
    PermutedListing(own, SortByOrder(own), Listing(rows, d, catalog, kind), entries);
  }

  /** A listing that follows a permutation of rows matching the entries one
      by one names exactly the entries' targets. */
  lemma PermutedListing(own: seq<DesignJoin>, sorted: seq<DesignJoin>, listing: seq<(int, string)>, entries: seq<JoinEntry>)
    requires |own| == |entries| && |listing| == |sorted|
    requires multiset(sorted) == multiset(own)
    requires forall j :: 0 <= j < |entries| ==> own[j].targetId == entries[j].targetId
    requires forall k :: 0 <= k < |sorted| ==> listing[k].0 == sorted[k].targetId
    ensures |listing| == |entries|
    ensures ListsEntries(listing, entries)
  {
    assert |sorted| == |multiset(sorted)| == |own|;
    forall k | 0 <= k < |listing| ensures exists j :: 0 <= j < |entries| && listing[k].0 == entries[j].targetId {
      assert sorted[k] in multiset(own);
      var j :| 0 <= j < |own| && own[j] == sorted[k];
      assert listing[k].0 == entries[j].targetId;
    }
    forall j | 0 <= j < |entries| ensures exists k :: 0 <= k < |listing| && listing[k].0 == entries[j].targetId {
      assert own[j] in multiset(sorted);
      var k :| 0 <= k < |sorted| && sorted[k] == own[j];
      assert listing[k].0 == entries[j].targetId;
    }
  }

  lemma CreatedDesignIsTheActiveOne(db: MenuDb, input: DesignInput)
    requires CreateDesignSpec(db, input).0.Ok?
    ensures ActiveDesignsOf(CreateDesignSpec(db, input).1.designs, input.restaurantId) == {db.nextId as DesignId}
  {
    var db' := CreateDesignSpec(db, input).1;
    var d := db.nextId as DesignId;
    assert forall e :: e in db'.designs && db'.designs[e].restaurantId == input.restaurantId ==> e == d;
  }

  /** The rows of design `d` are the suffix from `n` on, when those belong to
      `d` and the earlier ones do not. */
  lemma {:induction false} OwnRowsAreSuffix(rows: seq<DesignJoin>, d: DesignId, n: nat)
    requires n <= |rows|
    requires forall k :: 0 <= k < n ==> rows[k].designId != d
    requires forall k :: n <= k < |rows| ==> rows[k].designId == d
    ensures RowsOf(rows, d) == rows[n..]
    decreases |rows|
  {
    if rows != [] {
      var init := rows[..|rows| - 1];
      if n < |rows| {
        OwnRowsAreSuffix(init, d, n);
        assert rows[n..] == init[n..] + [rows[|rows| - 1]];
      } else {
        OwnRowsAreSuffix(init, d, n - 1);
      }
    }
  }

  // ---------------------------------------------------------------------------
  // update_category_order / update_pricing_order
  // ---------------------------------------------------------------------------

  /** One payload entry; `display_order` is 0 when the payload omits it. */
  datatype OrderEntry = OrderEntry(targetId: int, displayOrder: int)

  /** Whether the filter `(menu_design=d, <target>_id=t)` matches a row. */
  predicate Matches(rows: seq<DesignJoin>, d: DesignId, t: int) {
    exists k :: 0 <= k < |rows| && rows[k].designId == d && rows[k].targetId == t
  }

  /** `.filter(menu_design=d, <target>_id=t).update(display_order=order)`. */
  function SetOrder(rows: seq<DesignJoin>, d: DesignId, t: int, order: int): (r: seq<DesignJoin>)
    ensures |r| == |rows|
    ensures forall k :: 0 <= k < |rows| ==>
              r[k] == if rows[k].designId == d && rows[k].targetId == t then rows[k].(displayOrder := order) else rows[k]
  {
    seq(|rows|, k requires 0 <= k < |rows| =>
      if rows[k].designId == d && rows[k].targetId == t then rows[k].(displayOrder := order) else rows[k])
  }

  /** Rows of the same design and target as before, in the same places. */
  predicate SameShape(a: seq<DesignJoin>, b: seq<DesignJoin>) {
    |a| == |b| && forall k :: 0 <= k < |a| ==> b[k] == a[k].(displayOrder := b[k].displayOrder)
  }

  lemma MatchesOfSameShape(a: seq<DesignJoin>, b: seq<DesignJoin>, d: DesignId, t: int)
    requires SameShape(a, b)
    ensures Matches(a, d, t) <==> Matches(b, d, t)
  {
    if Matches(a, d, t) {
      var k :| 0 <= k < |a| && a[k].designId == d && a[k].targetId == t;
      assert b[k].designId == d && b[k].targetId == t;
    }
    if Matches(b, d, t) {
      var k :| 0 <= k < |b| && b[k].designId == d && b[k].targetId == t;
      assert a[k].designId == d && a[k].targetId == t;
    }
  }

  /** The update loop from entry `i` on. An update that matches rows and sets a
      negative order is refused by the CHECK constraint and ends the request;
      the updates before it stay. Returns the table and whether every update was applied. */
  function ReorderFrom(rows: seq<DesignJoin>, d: DesignId, entries: seq<OrderEntry>, i: nat): (r: (seq<DesignJoin>, bool))
    requires i <= |entries|
    decreases |entries| - i
    // only display orders change, only in rows of the design, and never to a negative value
    ensures SameShape(rows, r.0)
    ensures forall k :: 0 <= k < |rows| && rows[k].designId != d ==> r.0[k] == rows[k]
    ensures forall k :: 0 <= k < |rows| && rows[k].displayOrder >= 0 ==> r.0[k].displayOrder >= 0
    // all updates run unless one that matches sets a negative order
    ensures r.1 <==> forall j :: i <= j < |entries| ==> entries[j].displayOrder >= 0 || !Matches(rows, d, entries[j].targetId)
  {
    if i == |entries| then (rows, true)
    else
      var e := entries[i];
      if Matches(rows, d, e.targetId) && e.displayOrder < 0 then (rows, false)
      else
        var next := SetOrder(rows, d, e.targetId, e.displayOrder);
        var r := ReorderFrom(next, d, entries, i + 1);
        assert SameShape(rows, next);
        assert forall j :: i < j < |entries| ==> (Matches(rows, d, entries[j].targetId) <==> Matches(next, d, entries[j].targetId)) by {
          forall j | i < j < |entries| ensures Matches(rows, d, entries[j].targetId) <==> Matches(next, d, entries[j].targetId) {
            MatchesOfSameShape(rows, next, d, entries[j].targetId);
          }
        }
        r
  }

  /** The order the last entry for target `t` (from entry `i` on) sets, if any. */
  function LastOrder(entries: seq<OrderEntry>, t: int, i: nat): Option<int>
    requires i <= |entries|
    decreases |entries| - i
  {
    if i == |entries| then None
    else
      var later := LastOrder(entries, t, i + 1);
      if later.Some? then later
      else if entries[i].targetId == t then Some(entries[i].displayOrder)
      else None
  }

  /** When every update runs, each row of the design ends with the order of the
      LAST entry naming its target, and rows no entry names keep theirs. */
  lemma {:induction false} ReorderLastWins(rows: seq<DesignJoin>, d: DesignId, entries: seq<OrderEntry>, i: nat)
    requires i <= |entries|
    requires ReorderFrom(rows, d, entries, i).1
    ensures forall k :: 0 <= k < |rows| ==>
              ReorderFrom(rows, d, entries, i).0[k]
              == if rows[k].designId == d && LastOrder(entries, rows[k].targetId, i).Some?
                 then rows[k].(displayOrder := LastOrder(entries, rows[k].targetId, i).value)
                 else rows[k]
    decreases |entries| - i
  {
    if i < |entries| {
      var e := entries[i];
      var next := SetOrder(rows, d, e.targetId, e.displayOrder);
      assert ReorderFrom(rows, d, entries, i) == ReorderFrom(next, d, entries, i + 1);
      ReorderLastWins(next, d, entries, i + 1);
    }
  }

  /** Sending the same payload twice leaves the table as sending it once. */
  lemma ReorderIdempotent(rows: seq<DesignJoin>, d: DesignId, entries: seq<OrderEntry>)
    requires ReorderFrom(rows, d, entries, 0).1
    ensures var once := ReorderFrom(rows, d, entries, 0).0;
            ReorderFrom(once, d, entries, 0) == (once, true)
  {
    var once := ReorderFrom(rows, d, entries, 0).0;
    forall j | 0 <= j < |entries| ensures Matches(rows, d, entries[j].targetId) <==> Matches(once, d, entries[j].targetId) {
      MatchesOfSameShape(rows, once, d, entries[j].targetId);
    }
    ReorderLastWins(rows, d, entries, 0);
    ReorderLastWins(once, d, entries, 0);
    assert ReorderFrom(once, d, entries, 0).1;
    var twice := ReorderFrom(once, d, entries, 0).0;
    assert |twice| == |once|;
    forall k | 0 <= k < |once| ensures twice[k] == once[k] {
      assert once[k].designId == rows[k].designId && once[k].targetId == rows[k].targetId;
    }
    assert twice == once;
  }

  /** Of two entries for the same target, the later one decides. */
  lemma LaterDuplicateWins(rows: seq<DesignJoin>, d: DesignId, t: int, first: nat, second: nat)
    ensures ReorderFrom(rows, d, [OrderEntry(t, first), OrderEntry(t, second)], 0)
            == ReorderFrom(rows, d, [OrderEntry(t, second)], 0)
  {
    var both := [OrderEntry(t, first), OrderEntry(t, second)];
    var one := [OrderEntry(t, second)];
    assert ReorderFrom(rows, d, both, 0).1 && ReorderFrom(rows, d, one, 0).1;
    ReorderLastWins(rows, d, both, 0);
    ReorderLastWins(rows, d, one, 0);
    forall u ensures LastOrder(both, u, 0) == LastOrder(one, u, 0) {
      assert LastOrder(both, u, 2) == None && LastOrder(one, u, 1) == None;
      assert LastOrder(both, u, 1) == LastOrder(one, u, 0);
    }
    var a := ReorderFrom(rows, d, both, 0).0;
    var b := ReorderFrom(rows, d, one, 0).0;
    assert |a| == |b|;
    forall k | 0 <= k < |a| ensures a[k] == b[k] {
      assert LastOrder(both, rows[k].targetId, 0) == LastOrder(one, rows[k].targetId, 0);
    }
    assert a == b;
  }

  /** The reorder endpoints. `update_category_order` passes `MenuCategories`,
      `update_pricing_order` passes `PricingTitles`. The design is looked up
      whether or not it is active; the response lists its rows in display order. */
  ghost function ReorderSpec(db: MenuDb, restaurantId: int, kind: Catalog, entries: seq<OrderEntry>)
    : (r: (Result<seq<DesignJoin>, Failure>, MenuDb))
    requires kind == MenuCategories || kind == PricingTitles
    ensures DesignsOf(db.designs, restaurantId) == {} <==> r == (Err(NotFound), db)
    ensures kind == MenuCategories ==> r.1 == db.(designCategories := r.1.designCategories)
    ensures kind == PricingTitles ==> r.1 == db.(designPricings := r.1.designPricings)
    ensures |DesignsOf(db.designs, restaurantId)| == 1 ==> forall d :: d in DesignsOf(db.designs, restaurantId) ==>
              var table := if kind == MenuCategories then db.designCategories else db.designPricings;
              var table' := if kind == MenuCategories then r.1.designCategories else r.1.designPricings;
              && (table', r.0.Ok?) == ReorderFrom(table, d, entries, 0)
              && (r.0.Ok? ==> SortedByOrder(r.0.value) && multiset(r.0.value) == multiset(RowsOf(table', d)))
              && (r.0.Err? ==> r.0.error == IntegrityError)
  {
    var found := DesignsOf(db.designs, restaurantId);
    if found == {} then (Err(NotFound), db)
    else if |found| > 1 then (Err(MultipleObjectsReturned), db)
    else
      var d := PickDesign(found);
      SingletonOf(found, d);
      var table := if kind == MenuCategories then db.designCategories else db.designPricings;
      var (rows, ok) := ReorderFrom(table, d, entries, 0);
      var db' := if kind == MenuCategories then db.(designCategories := rows) else db.(designPricings := rows);
      if ok then (Ok(SortByOrder(RowsOf(rows, d))), db') else (Err(IntegrityError), db')
  }

  /** Reordering keeps every constraint, whether or not it runs to the end. */
  lemma ReorderPreservesValid(db: MenuDb, restaurantId: int, kind: Catalog, entries: seq<OrderEntry>)
    requires ValidDb(db)
    requires kind == MenuCategories || kind == PricingTitles
    ensures ValidDb(ReorderSpec(db, restaurantId, kind, entries).1)
  {
    var db' := ReorderSpec(db, restaurantId, kind, entries).1;
    AtMostOneDesign(db.designs, restaurantId);
    if |DesignsOf(db.designs, restaurantId)| == 1 {
      var table := if kind == MenuCategories then db.designCategories else db.designPricings;
      var table' := if kind == MenuCategories then db'.designCategories else db'.designPricings;
      assert SameShape(table, table');
      assert JoinRowsValid(table', kind, db') by {
        forall k | 0 <= k < |table'|
          ensures table'[k].designId in db'.designs && InCatalog(db'.catalog, kind, table'[k].targetId)
                  && table'[k].displayOrder >= 0 && table'[k].id as int < db'.nextId
        {
          assert table'[k] == table[k].(displayOrder := table'[k].displayOrder);
        }
      }
      OtherTablesKeepValid(db, db');
    }
  }

  // ---------------------------------------------------------------------------
  // get_restaurant_pricing_titles
  // ---------------------------------------------------------------------------

  /** The endpoint as written: it filters on the reverse name
      `menudesignpricing`, but the foreign key from `MenuDesignPricing` to
      `PricingTitle` declares `related_name='menu_designs'`, which is then also
      the reverse query name. Django cannot resolve the keyword and raises
      `FieldError` whatever the data. */
  function RestaurantPricingTitlesAsWritten(db: MenuDb, restaurantId: int): (r: Result<set<int>, Failure>)
    ensures r.Err?
  {
    Err(RaisedBeforeWrite)
  }

  /** Whether a pricing row belongs to the restaurant's active design with
      multiple pricing on. */
  predicate ListedPricingRow(db: MenuDb, row: DesignJoin, restaurantId: int) {
    && row.designId in db.designs
    && db.designs[row.designId].restaurantId == restaurantId
    && db.designs[row.designId].isActive
    && db.designs[row.designId].isMultiplePricing
    && InCatalog(db.catalog, PricingTitles, row.targetId)
  }

  /** The query through `menu_designs`, with `.distinct()`: each title once. */
  function RestaurantPricingTitles(db: MenuDb, restaurantId: int): (r: set<int>)
    ensures forall t :: t in r ==> InCatalog(db.catalog, PricingTitles, t)
    ensures forall t :: t in r <==>
              exists k :: 0 <= k < |db.designPricings| && db.designPricings[k].targetId == t
                          && ListedPricingRow(db, db.designPricings[k], restaurantId)
  {
    set k | 0 <= k < |db.designPricings| && ListedPricingRow(db, db.designPricings[k], restaurantId)
      :: db.designPricings[k].targetId
  }

  /** The endpoint as written fails even where the intended query has titles to list. */
  lemma PricingTitlesQueryFails()
    ensures var db := MenuDb({7}, map[CatalogKey(PricingTitles, 1) := CatalogRow("Large", "large", "", "", 0, true)],
                             map[2 := Design(7, true, true)], [], [DesignJoin(3, 2, 1, "", 0, false)],
                             map[], [], [], [], 4);
            RestaurantPricingTitles(db, 7) == {1} && RestaurantPricingTitlesAsWritten(db, 7).Err?
  {
    var db := MenuDb({7}, map[CatalogKey(PricingTitles, 1) := CatalogRow("Large", "large", "", "", 0, true)],
                     map[2 := Design(7, true, true)], [], [DesignJoin(3, 2, 1, "", 0, false)],
                     map[], [], [], [], 4);
    assert ListedPricingRow(db, db.designPricings[0], 7);
    assert 1 in RestaurantPricingTitles(db, 7);
  }

  /** A design created with single pricing lists no pricing titles, whatever
      titles the request carried. */
  lemma SinglePricingDesignListsNoTitles(db: MenuDb, input: DesignInput)
    requires ValidDb(db) && !input.isMultiplePricing
    requires CreateDesignSpec(db, input).0.Ok?
    ensures RestaurantPricingTitles(CreateDesignSpec(db, input).1, input.restaurantId) == {}
  {
    var db' := CreateDesignSpec(db, input).1;
    var d := db.nextId as DesignId;
    forall k | 0 <= k < |db'.designPricings|
      ensures !ListedPricingRow(db', db'.designPricings[k], input.restaurantId)
    {
      assert db'.designPricings[k] == db.designPricings[k];
    }
  }

  // ---------------------------------------------------------------------------
  // Deleting a design
  // ---------------------------------------------------------------------------

  /** `design.delete()`: `on_delete=CASCADE` removes its category and pricing rows. */
  function DeleteDesignSpec(db: MenuDb, d: DesignId): (r: (Result<(), Failure>, MenuDb))
    ensures d !in db.designs ==> r == (Err(NotFound), db)
    ensures d in db.designs ==> r.0.Ok? && r.1.designs == db.designs - {d}
    // no row of the design survives, and every other row does
    ensures d in db.designs ==> forall x :: x in r.1.designCategories ==> x.designId != d
    ensures d in db.designs ==> forall x :: x in r.1.designPricings ==> x.designId != d
    ensures forall x :: x in db.designCategories && x.designId != d ==> x in r.1.designCategories
    ensures forall x :: x in db.designPricings && x.designId != d ==> x in r.1.designPricings
    ensures r.1 == db.(designs := r.1.designs, designCategories := r.1.designCategories, designPricings := r.1.designPricings)
  {
    if d !in db.designs then (Err(NotFound), db)
    else
      (Ok(()), db.(designs := db.designs - {d},
                   designCategories := RowsNotOf(db.designCategories, d),
                   designPricings := RowsNotOf(db.designPricings, d)))
  }

  lemma DeleteDesignPreservesValid(db: MenuDb, d: DesignId)
    requires ValidDb(db)
    ensures ValidDb(DeleteDesignSpec(db, d).1)
  {
    var db' := DeleteDesignSpec(db, d).1;
    if d in db.designs {
      forall k | 0 <= k < |db'.designCategories|
        ensures db'.designCategories[k].designId in db'.designs
                && InCatalog(db'.catalog, MenuCategories, db'.designCategories[k].targetId)
                && db'.designCategories[k].displayOrder >= 0 && db'.designCategories[k].id as int < db'.nextId
      {
        assert db'.designCategories[k] in db.designCategories;
      }
      forall k | 0 <= k < |db'.designPricings|
        ensures db'.designPricings[k].designId in db'.designs
                && InCatalog(db'.catalog, PricingTitles, db'.designPricings[k].targetId)
                && db'.designPricings[k].displayOrder >= 0 && db'.designPricings[k].id as int < db'.nextId
      {
        assert db'.designPricings[k] in db.designPricings;
      }
      OtherTablesKeepValid(db, db');
    }
  }
}
