/**
 * Menu items (menus/api.py, the /menu-items/ endpoints): listing, reading,
 * creating an item with its tags, portions and prices, updating it from a
 * partial payload, deleting it with everything that hangs off it, and
 * changing its display order.
 */
module MenuItems {
  import opened Wrappers
  import opened MenuSchema

  // ---------------------------------------------------------------------------
  // list_menu_items / get_menu_item
  // ---------------------------------------------------------------------------

  /** The restaurant filter is applied only when the query parameter is truthy:
      no parameter and `0` both list every item. */
  function ListMenuItems(items: map<ItemId, MenuItem>, restaurantId: Option<int>): (r: set<ItemId>)
    ensures r <= items.Keys
    ensures restaurantId.None? || restaurantId == Some(0) ==> r == items.Keys
    ensures restaurantId.Some? && restaurantId.value != 0 ==>
              forall i :: i in r <==> i in items && items[i].restaurantId == restaurantId.value
  {
    if restaurantId.Some? && restaurantId.value != 0 then
      set i | i in items && items[i].restaurantId == restaurantId.value
    else items.Keys
  }

  function GetMenuItem(items: map<ItemId, MenuItem>, id: ItemId): (r: Result<MenuItem, Failure>)
    ensures r.Ok? <==> id in items
    ensures r.Ok? ==> r.value == items[id]
    ensures r.Err? ==> r.error == NotFound
  {
    if id in items then Ok(items[id]) else Err(NotFound)
  }

  // ---------------------------------------------------------------------------
  // Tags: the three many-to-many relations
  // ---------------------------------------------------------------------------

  predicate IsTagKind(kind: Catalog) {
    kind == DietaryRequirements || kind == ReligiousRestrictions || kind == Allergens
  }

  function TagsOf(it: MenuItem, kind: Catalog): set<int>
    requires IsTagKind(kind)
  {
    match kind
    case DietaryRequirements => it.dietaryRequirements
    case ReligiousRestrictions => it.religiousRestrictions
    case Allergens => it.allergens
  }

  /** The item with its tag relations emptied: everything `save()` writes. */
  function Scalars(it: MenuItem): MenuItem {
    it.(dietaryRequirements := {}, religiousRestrictions := {}, allergens := {})
  }

  /** `relation.set(ids)` on the item. */
  function WithTags(it: MenuItem, kind: Catalog, s: set<int>): (r: MenuItem)
    requires IsTagKind(kind)
    ensures TagsOf(r, kind) == s
    ensures forall other :: IsTagKind(other) && other != kind ==> TagsOf(r, other) == TagsOf(it, other)
    ensures Scalars(r) == Scalars(it)
  {
    match kind
    case DietaryRequirements => it.(dietaryRequirements := s)
    case ReligiousRestrictions => it.(religiousRestrictions := s)
    case Allergens => it.(allergens := s)
  }

  /** `relation.set(ids)` on the stored item. Django runs it in a transaction of
      its own, so a missing id refuses the whole call. */
  function SetTags(db: MenuDb, id: ItemId, kind: Catalog, ids: seq<int>): (r: (Option<Failure>, MenuDb))
    requires id in db.items && IsTagKind(kind)
    ensures r.0.None? <==> forall t :: t in ids ==> InCatalog(db.catalog, kind, t)
    ensures r.0.Some? ==> r == (Some(IntegrityError), db)
    ensures r.0.None? ==> r.1 == db.(items := db.items[id := WithTags(db.items[id], kind, set t | t in ids)])
    ensures id in r.1.items && TagsFrom(db.items[id], r.1.items[id], db.catalog)
  {
    if forall t :: t in ids ==> InCatalog(db.catalog, kind, t) then
      var it := WithTags(db.items[id], kind, set t | t in ids);
      assert TagsOf(it, kind) == set t | t in ids;
      (None, db.(items := db.items[id := it]))
    else (Some(IntegrityError), db)
  }

  /** Every tag of `after` is one of `before` or one that exists. */
  predicate TagsFrom(before: MenuItem, after: MenuItem, catalog: map<CatalogKey, CatalogRow>) {
    && (forall t :: t in after.dietaryRequirements ==> t in before.dietaryRequirements || InCatalog(catalog, DietaryRequirements, t))
    && (forall t :: t in after.religiousRestrictions ==> t in before.religiousRestrictions || InCatalog(catalog, ReligiousRestrictions, t))
    && (forall t :: t in after.allergens ==> t in before.allergens || InCatalog(catalog, Allergens, t))
  }

  // ---------------------------------------------------------------------------
  // create_menu_item
  // ---------------------------------------------------------------------------

  datatype PortionEntry = PortionEntry(portionSizeId: int, quantity: int, displayOrder: int)

  /** A price entry; the price in cents, rounded to the column's two places. */
  datatype PriceEntry = PriceEntry(portionId: Option<PortionId>, pricingTitleId: Option<int>, cents: int)

  /** `MenuItemCreate`. `menuCategoryId` is looked up as a menu-design
      category row. */
  datatype ItemInput = ItemInput(
    restaurantId: int,
    menuCategoryId: JoinId,
    name: string,
    description: string,
    spiceLevelId: Option<int>,
    dietaryRequirementIds: Option<seq<int>>,
    religiousRestrictionIds: Option<seq<int>>,
    allergenIds: Option<seq<int>>,
    hasMultiplePortions: bool,
    portions: Option<seq<PortionEntry>>,
    prices: seq<PriceEntry>,
    displayOrder: int)

  /** `get_object_or_404(MenuDesignCategory, id=...)`: the row with that id. */
  function FindJoinRow(rows: seq<DesignJoin>, id: JoinId): (r: Option<DesignJoin>)
    ensures r.Some? <==> exists k :: 0 <= k < |rows| && rows[k].id == id
    ensures r.Some? ==> r.value in rows && r.value.id == id
  {
    if rows == [] then None
    else if rows[0].id == id then Some(rows[0])
    else
      var rest := FindJoinRow(rows[1..], id);
      assert forall k :: 1 <= k < |rows| ==> rows[k] == rows[1..][k - 1];
      rest
  }

  /** The endpoint as written hands the `MenuDesignCategory` it found to the
      `menu_category` foreign key, which points at `MenuCategory`; Django
      refuses the assignment with `ValueError` before any insert. Past the two
      lookups it never creates anything. */
  function CreateItemAsWritten(db: MenuDb, input: ItemInput): (r: (Result<ItemId, Failure>, MenuDb))
    ensures r.1 == db && r.0.Err?
    ensures input.restaurantId !in db.restaurants ==> r.0 == Err(NotFound)
    ensures input.restaurantId in db.restaurants ==>
              (r.0 == Err(NotFound) <==> FindJoinRow(db.designCategories, input.menuCategoryId).None?)
    ensures r.0 != Err(NotFound) ==> r.0 == Err(RaisedBeforeWrite)
  {
    if input.restaurantId !in db.restaurants then (Err(NotFound), db)
    else if FindJoinRow(db.designCategories, input.menuCategoryId).None? then (Err(NotFound), db)
    else (Err(RaisedBeforeWrite), db)
  }

  /** Why `MenuItem.objects.create` is refused: a spice level that does not
      exist, or a negative order. */
  predicate ItemRefused(catalog: map<CatalogKey, CatalogRow>, input: ItemInput) {
    (input.spiceLevelId.Some? && !InCatalog(catalog, SpiceLevels, input.spiceLevelId.value)) || input.displayOrder < 0
  }

  /** The row `objects.create` writes: single price and active by default, no tags yet. */
  function NewItem(input: ItemInput, categoryId: int): MenuItem {
    MenuItem(input.restaurantId, categoryId, input.name, input.description, false, input.spiceLevelId,
             {}, {}, {}, input.hasMultiplePortions, input.displayOrder, true)
  }

  /** Whether `if payload.<relation>_ids:` lets the `set` call run. */
  predicate Requested(ids: Option<seq<int>>) {
    ids.Some? && |ids.value| > 0
  }


  /** The tag set a relation ends up with when its `set` call succeeds. */
  function TagsAfter(ids: Option<seq<int>>, before: set<int>): set<int> {
    if Requested(ids) then set t | t in ids.value else before
  }

  /** `if ids: item.<relation>.set(ids)`. */
  function TagStep(db: MenuDb, id: ItemId, kind: Catalog, ids: Option<seq<int>>): (r: (Option<Failure>, MenuDb))
    requires id in db.items && IsTagKind(kind)
    ensures r.1 == db.(items := r.1.items)
    ensures id in r.1.items && r.1.items == db.items[id := r.1.items[id]]
    ensures r.1.items[id] == if r.0.None? then WithTags(db.items[id], kind, TagsAfter(ids, TagsOf(db.items[id], kind)))
                             else db.items[id]
    ensures TagsFrom(db.items[id], r.1.items[id], db.catalog)
    ensures r.0.Some? ==> r.0.value == IntegrityError
  {
    if Requested(ids) then SetTags(db, id, kind, ids.value)
    else
      assert db.items == db.items[id := db.items[id]];
      (None, db)
  }

  /** The three tag relations of the new item, in the order the endpoint sets them. */
  function TagAll(db: MenuDb, id: ItemId, input: ItemInput): (r: (Option<Failure>, MenuDb))
    requires id in db.items
    ensures r.1 == db.(items := r.1.items)
    ensures id in r.1.items && r.1.items == db.items[id := r.1.items[id]]
    ensures Scalars(r.1.items[id]) == Scalars(db.items[id])
    ensures TagsFrom(db.items[id], r.1.items[id], db.catalog)
    ensures r.0.Some? ==> r.0.value == IntegrityError
  {
    var s1 := TagStep(db, id, DietaryRequirements, input.dietaryRequirementIds);
    if s1.0.Some? then s1
    else
      var s2 := TagStep(s1.1, id, ReligiousRestrictions, input.religiousRestrictionIds);
      if s2.0.Some? then s2
      else TagStep(s2.1, id, Allergens, input.allergenIds)
  }

  /** When all three relations are set, each holds exactly the ids given, and
      a relation whose list is missing or empty is left as it was. */
  lemma TagAllSetsRequested(db: MenuDb, id: ItemId, input: ItemInput)
    requires id in db.items
    requires TagAll(db, id, input).0.None?
    ensures var it := TagAll(db, id, input).1.items[id];
            && it.dietaryRequirements == TagsAfter(input.dietaryRequirementIds, db.items[id].dietaryRequirements)
            && it.religiousRestrictions == TagsAfter(input.religiousRestrictionIds, db.items[id].religiousRestrictions)
            && it.allergens == TagsAfter(input.allergenIds, db.items[id].allergens)
  {
    var it0 := db.items[id];
    var s1 := TagStep(db, id, DietaryRequirements, input.dietaryRequirementIds);
    var it1 := s1.1.items[id];
    assert it1 == WithTags(it0, DietaryRequirements, TagsAfter(input.dietaryRequirementIds, it0.dietaryRequirements));
    var s2 := TagStep(s1.1, id, ReligiousRestrictions, input.religiousRestrictionIds);
    var it2 := s2.1.items[id];
    assert it2 == WithTags(it1, ReligiousRestrictions, TagsAfter(input.religiousRestrictionIds, it1.religiousRestrictions));
    var s3 := TagStep(s2.1, id, Allergens, input.allergenIds);
    assert s3.1.items[id] == WithTags(it2, Allergens, TagsAfter(input.allergenIds, it2.allergens));
  }

  // Portions

  function PortionRow(id: int, item: ItemId, e: PortionEntry): Portion {
    Portion(id as PortionId, item, e.portionSizeId, e.quantity, e.displayOrder)
  }

  predicate PairTaken(portions: seq<Portion>, item: ItemId, size: int) {
    exists k :: 0 <= k < |portions| && portions[k].itemId == item && portions[k].portionSizeId == size
  }

  /** Why `MenuItemPortion.objects.create` is refused: a missing portion size,
      a negative quantity or order (CHECK), or a taken (item, size) pair. The
      2..100 validators do not run here. */
  predicate PortionRefused(portions: seq<Portion>, catalog: map<CatalogKey, CatalogRow>, item: ItemId, e: PortionEntry) {
    || !InCatalog(catalog, PortionSizes, e.portionSizeId)
    || e.quantity < 0
    || e.displayOrder < 0
    || PairTaken(portions, item, e.portionSizeId)
  }

  /** A portion the create loop wrote: for `item`, with an existing size,
      non-negative numbers and an id from `[lo, hi)`. */
  predicate PortionWritten(p: Portion, catalog: map<CatalogKey, CatalogRow>, item: ItemId, lo: int, hi: int) {
    p.itemId == item && InCatalog(catalog, PortionSizes, p.portionSizeId)
    && p.quantity >= 0 && p.displayOrder >= 0 && lo <= p.id as int < hi
  }

  lemma AppendPortionKeepsUnique(portions: seq<Portion>, p: Portion)
    requires PortionPairsUnique(portions) && !PairTaken(portions, p.itemId, p.portionSizeId)
    ensures PortionPairsUnique(portions + [p])
  {
    var s := portions + [p];
    forall j, k | 0 <= j < k < |s|
      ensures (s[j].itemId, s[j].portionSizeId) != (s[k].itemId, s[k].portionSizeId)
    {
      if k == |portions| {
        assert s[j] == portions[j];
      } else {
        assert s[j] == portions[j] && s[k] == portions[k];
      }
    }
  }

  /** The portion loop from entry `i` on; the first refused entry stops it. */
  function AddPortions(portions: seq<Portion>, nextId: int, catalog: map<CatalogKey, CatalogRow>, item: ItemId,
                       entries: seq<PortionEntry>, i: nat): (r: (seq<Portion>, int, bool))
    requires i <= |entries|
    decreases |entries| - i
    ensures |portions| <= |r.0| <= |portions| + (|entries| - i)
    ensures r.0[..|portions|] == portions
    ensures r.1 == nextId + (|r.0| - |portions|)
    ensures forall k :: |portions| <= k < |r.0| ==> r.0[k] == PortionRow(nextId + (k - |portions|), item, entries[i + (k - |portions|)])
    ensures forall k :: |portions| <= k < |r.0| ==> PortionWritten(r.0[k], catalog, item, nextId, r.1)
    ensures r.2 <==> |r.0| == |portions| + (|entries| - i)
    ensures !r.2 ==> PortionRefused(r.0, catalog, item, entries[i + (|r.0| - |portions|)])
  {
    if i == |entries| then (portions, nextId, true)
    else if PortionRefused(portions, catalog, item, entries[i]) then (portions, nextId, false)
    else
      AddPortions(portions + [PortionRow(nextId, item, entries[i])], nextId + 1, catalog, item, entries, i + 1)
  }

  /** The portion loop never writes a second row for an (item, size) pair. */
  lemma {:induction false} AddPortionsKeepsUnique(portions: seq<Portion>, nextId: int, catalog: map<CatalogKey, CatalogRow>,
                                                  item: ItemId, entries: seq<PortionEntry>, i: nat)
    requires i <= |entries|
    requires PortionPairsUnique(portions)
    ensures PortionPairsUnique(AddPortions(portions, nextId, catalog, item, entries, i).0)
    decreases |entries| - i
  {
    if i < |entries| && !PortionRefused(portions, catalog, item, entries[i]) {
      AppendPortionKeepsUnique(portions, PortionRow(nextId, item, entries[i]));
      AddPortionsKeepsUnique(portions + [PortionRow(nextId, item, entries[i])], nextId + 1, catalog, item, entries, i + 1);
    }
  }

  /** Whether the portion loop runs (`has_multiple_portions and portions`). */
  predicate PortionsRequested(input: ItemInput) {
    input.hasMultiplePortions && input.portions.Some? && |input.portions.value| > 0
  }

  function PortionStep(db: MenuDb, item: ItemId, input: ItemInput): (r: (bool, MenuDb))
    ensures r.1 == db.(portions := r.1.portions, nextId := r.1.nextId)
    ensures !PortionsRequested(input) ==> r == (true, db)
    ensures PortionsRequested(input) ==>
              var a := AddPortions(db.portions, db.nextId, db.catalog, item, input.portions.value, 0);
              r == (a.2, db.(portions := a.0, nextId := a.1))
  {
    if PortionsRequested(input) then
      var a := AddPortions(db.portions, db.nextId, db.catalog, item, input.portions.value, 0);
      (a.2, db.(portions := a.0, nextId := a.1))
    else (true, db)
  }

  // Prices

  function PriceRow(id: int, item: ItemId, e: PriceEntry): Price {
    Price(id as PriceId, item, e.portionId, e.pricingTitleId, e.cents)
  }

  /** A price row already holding the same (item, portion, title); as in SQL,
      a NULL portion or title never clashes. */
  predicate TripleTaken(prices: seq<Price>, item: ItemId, e: PriceEntry) {
    && e.portionId.Some? && e.pricingTitleId.Some?
    && exists k :: 0 <= k < |prices| && prices[k].itemId == item
                   && prices[k].portionId == e.portionId && prices[k].pricingTitleId == e.pricingTitleId
  }

  /** Why `MenuItemPrice.objects.create` is refused: the decimal conversion
      first, then the foreign keys and the unique triple. A portion of any
      item satisfies the foreign key. */
  function PriceFailure(prices: seq<Price>, portions: seq<Portion>, catalog: map<CatalogKey, CatalogRow>,
                        item: ItemId, e: PriceEntry): Option<Failure>
  {
    if !PriceFits(e.cents) then Some(DecimalOverflow)
    else if || (e.portionId.Some? && !HasPortion(portions, e.portionId.value))
            || (e.pricingTitleId.Some? && !InCatalog(catalog, PricingTitles, e.pricingTitleId.value))
            || TripleTaken(prices, item, e)
    then Some(IntegrityError)
    else None
  }

  predicate PriceWritten(p: Price, portions: seq<Portion>, catalog: map<CatalogKey, CatalogRow>, item: ItemId, lo: int, hi: int) {
    && p.itemId == item
    && (p.portionId.Some? ==> HasPortion(portions, p.portionId.value))
    && (p.pricingTitleId.Some? ==> InCatalog(catalog, PricingTitles, p.pricingTitleId.value))
    && PriceFits(p.cents)
    && lo <= p.id as int < hi
  }

  lemma AppendPriceKeepsUnique(prices: seq<Price>, item: ItemId, e: PriceEntry, id: int)
    requires PriceTriplesUnique(prices) && !TripleTaken(prices, item, e)
    ensures PriceTriplesUnique(prices + [PriceRow(id, item, e)])
  {
    var s := prices + [PriceRow(id, item, e)];
    forall j, k | 0 <= j < k < |s| && s[j].portionId.Some? && s[j].pricingTitleId.Some?
      ensures (s[j].itemId, s[j].portionId, s[j].pricingTitleId) != (s[k].itemId, s[k].portionId, s[k].pricingTitleId)
    {
      if k == |prices| {
        assert s[j] == prices[j];
      } else {
        assert s[j] == prices[j] && s[k] == prices[k];
      }
    }
  }

  /** The price loop from entry `i` on; the first refused entry stops it. */
  function AddPrices(prices: seq<Price>, portions: seq<Portion>, nextId: int, catalog: map<CatalogKey, CatalogRow>,
                     item: ItemId, entries: seq<PriceEntry>, i: nat): (r: (seq<Price>, int, Option<Failure>))
    requires i <= |entries|
    decreases |entries| - i
    ensures |prices| <= |r.0| <= |prices| + (|entries| - i)
    ensures r.0[..|prices|] == prices
    ensures r.1 == nextId + (|r.0| - |prices|)
    ensures forall k :: |prices| <= k < |r.0| ==> r.0[k] == PriceRow(nextId + (k - |prices|), item, entries[i + (k - |prices|)])
    ensures forall k :: |prices| <= k < |r.0| ==> PriceWritten(r.0[k], portions, catalog, item, nextId, r.1)
    ensures r.2.None? <==> |r.0| == |prices| + (|entries| - i)
    ensures r.2.Some? ==> r.2 == PriceFailure(r.0, portions, catalog, item, entries[i + (|r.0| - |prices|)])
  {
    if i == |entries| then (prices, nextId, None)
    else
      var f := PriceFailure(prices, portions, catalog, item, entries[i]);
      if f.Some? then (prices, nextId, f)
      else AddPrices(prices + [PriceRow(nextId, item, entries[i])], portions, nextId + 1, catalog, item, entries, i + 1)
  }

  /** The price loop never writes a row that clashes on the unique triple. */
  lemma {:induction false} AddPricesKeepsUnique(prices: seq<Price>, portions: seq<Portion>, nextId: int, catalog: map<CatalogKey, CatalogRow>,
                                                item: ItemId, entries: seq<PriceEntry>, i: nat)
    requires i <= |entries|
    requires PriceTriplesUnique(prices)
    ensures PriceTriplesUnique(AddPrices(prices, portions, nextId, catalog, item, entries, i).0)
    decreases |entries| - i
  {
    if i < |entries| && PriceFailure(prices, portions, catalog, item, entries[i]).None? {
      AppendPriceKeepsUnique(prices, item, entries[i], nextId);
      AddPricesKeepsUnique(prices + [PriceRow(nextId, item, entries[i])], portions, nextId + 1, catalog, item, entries, i + 1);
    }
  }

  function PriceStep(db: MenuDb, item: ItemId, entries: seq<PriceEntry>): (r: (Option<Failure>, MenuDb))
    ensures r.1 == db.(prices := r.1.prices, nextId := r.1.nextId)
    ensures var a := AddPrices(db.prices, db.portions, db.nextId, db.catalog, item, entries, 0);
            r == (a.2, db.(prices := a.0, nextId := a.1))
  {
    var a := AddPrices(db.prices, db.portions, db.nextId, db.catalog, item, entries, 0);
    (a.2, db.(prices := a.0, nextId := a.1))
  }

  /** Everything `create_menu_item` writes after the item: its tags, its
      portions, its prices, in that order. The first failure stops it and
      keeps what was written. */
  function FillItem(db: MenuDb, id: ItemId, input: ItemInput): (r: (Option<Failure>, MenuDb))
    requires id in db.items
    ensures r.1 == db.(items := r.1.items, portions := r.1.portions, prices := r.1.prices, nextId := r.1.nextId)
    ensures r.1.items.Keys == db.items.Keys
    ensures forall i :: i in db.items && i != id ==> r.1.items[i] == db.items[i]
    ensures Scalars(r.1.items[id]) == Scalars(db.items[id])
    ensures TagsFrom(db.items[id], r.1.items[id], db.catalog)
    ensures r.1.nextId >= db.nextId
    ensures |db.portions| <= |r.1.portions| && r.1.portions[..|db.portions|] == db.portions
    ensures |db.prices| <= |r.1.prices| && r.1.prices[..|db.prices|] == db.prices
    ensures r.0.Some? ==> r.0.value == IntegrityError || r.0.value == DecimalOverflow
  {
    var s1 := TagAll(db, id, input);
    if s1.0.Some? then s1
    else
      var s2 := PortionStep(s1.1, id, input);
      if !s2.0 then (Some(IntegrityError), s2.1)
      else
        var s3 := PriceStep(s2.1, id, input.prices);
        (s3.0, s3.1)
  }

  /** `create_menu_item` with the menu category taken from the design-category
      row the request names. There is no transaction: a failure after the
      insert keeps the item and every row written before it. */
  function CreateItemSpec(db: MenuDb, input: ItemInput): (r: (Result<ItemId, Failure>, MenuDb))
    // both lookups come before any write
    ensures input.restaurantId !in db.restaurants ==> r == (Err(NotFound), db)
    ensures FindJoinRow(db.designCategories, input.menuCategoryId).None? ==> r == (Err(NotFound), db)
    // then the insert of the item itself
    ensures (input.restaurantId in db.restaurants && FindJoinRow(db.designCategories, input.menuCategoryId).Some?
             && ItemRefused(db.catalog, input)) ==> r == (Err(IntegrityError), db)
    // only the item tables and the counter change
    ensures r.1 == db.(items := r.1.items, portions := r.1.portions, prices := r.1.prices, nextId := r.1.nextId)
    ensures r.0.Ok? ==> r.0.value == db.nextId as ItemId
    ensures r.0.Err? ==> r.0.error in {NotFound, IntegrityError, DecimalOverflow}
  {
    if input.restaurantId !in db.restaurants then (Err(NotFound), db)
    else
      var row := FindJoinRow(db.designCategories, input.menuCategoryId);
      if row.None? then (Err(NotFound), db)
      else if ItemRefused(db.catalog, input) then (Err(IntegrityError), db)
      else
        var id := db.nextId as ItemId;
        var filled := FillItem(InsertItem(db, input, row.value.targetId), id, input);
        if filled.0.Some? then (Err(filled.0.value), filled.1) else (Ok(id), filled.1)
  }

  /** `MenuItem.objects.create` once it is accepted. */
  function InsertItem(db: MenuDb, input: ItemInput, categoryId: int): (r: MenuDb)
    ensures r == db.(items := db.items[db.nextId as ItemId := NewItem(input, categoryId)], nextId := db.nextId + 1)
  {
    db.(items := db.items[db.nextId as ItemId := NewItem(input, categoryId)], nextId := db.nextId + 1)
  }

  /** A one-restaurant menu with one category, one portion size and a design
      listing the category, and a request for a soup in one portion of
      quantity 1. */
  function SampleMenu(): MenuDb {
    MenuDb({7},
           map[CatalogKey(MenuCategories, 1) := CatalogRow("Soups", "soups", "", "", 0, true),
               CatalogKey(PortionSizes, 2) := CatalogRow("Bowl", "bowl", "", "", 0, true)],
           map[3 := Design(7, false, true)], [DesignJoin(4, 3, 1, "", 0, false)], [],
           map[], [], [], [], 5)
  }

  function SampleSoup(): ItemInput {
    ItemInput(7, 4, "Soup", "", None, None, None, None, true, Some([PortionEntry(2, 1, 0)]), [], 0)
  }

  /** The endpoint as written refuses a request the corrected one accepts. */
  lemma CreateItemAsWrittenRefusesValidRequest()
    ensures CreateItemAsWritten(SampleMenu(), SampleSoup()).0 == Err(RaisedBeforeWrite)
    ensures CreateItemSpec(SampleMenu(), SampleSoup()).0 == Ok(5)
  {
    var db := SampleMenu();
    var input := SampleSoup();
    assert FindJoinRow(db.designCategories, 4) == Some(DesignJoin(4, 3, 1, "", 0, false));
    var db1 := InsertItem(db, input, 1);
    var filled := FillItem(db1, 5, input);
    var s1 := TagAll(db1, 5, input);
    assert s1 == (None, db1);
    var a := AddPortions(db1.portions, db1.nextId, db1.catalog, 5, [PortionEntry(2, 1, 0)], 0);
    assert !PortionRefused([], db1.catalog, 5, PortionEntry(2, 1, 0));
    assert a.2;
  }

  /** `objects.create` does not run the 2..100 validators: a portion of
      quantity 1 is stored. */
  lemma PortionQuantityNotValidated()
    ensures !QuantityValidatorAccepts(1)
    ensures var r := CreateItemSpec(SampleMenu(), SampleSoup());
            r.0.Ok? && |r.1.portions| == 1 && r.1.portions[0].quantity == 1
  {
    CreateItemAsWrittenRefusesValidRequest();
    CreateItemPortions(SampleMenu(), SampleSoup());
  }

  /** The rows a create writes for the item itself: the item, with the
      category of the design-category row named, the payload's fields and the
      defaults. No other item changes, whatever fails later. */
  lemma CreateItemWritesItem(db: MenuDb, input: ItemInput)
    requires ValidDb(db)
    requires input.restaurantId in db.restaurants
    requires FindJoinRow(db.designCategories, input.menuCategoryId).Some?
    requires !ItemRefused(db.catalog, input)
    ensures var r := CreateItemSpec(db, input);
            var id := db.nextId as ItemId;
            && id !in db.items
            && r.1.items.Keys == db.items.Keys + {id}
            && (forall i :: i in db.items ==> r.1.items[i] == db.items[i])
            && Scalars(r.1.items[id]) == Scalars(NewItem(input, FindJoinRow(db.designCategories, input.menuCategoryId).value.targetId))
  {
    var row := FindJoinRow(db.designCategories, input.menuCategoryId);
    var db1 := InsertItem(db, input, row.value.targetId);
    var filled := FillItem(db1, db.nextId as ItemId, input);
    assert CreateItemSpec(db, input).1 == filled.1;
  }

  /** A successful create leaves the item with exactly the tags given, and
      none for a relation whose list was missing or empty. */
  lemma CreateItemTags(db: MenuDb, input: ItemInput)
    requires CreateItemSpec(db, input).0.Ok?
    ensures var it := CreateItemSpec(db, input).1.items[db.nextId as ItemId];
            && it.dietaryRequirements == TagsAfter(input.dietaryRequirementIds, {})
            && it.religiousRestrictions == TagsAfter(input.religiousRestrictionIds, {})
            && it.allergens == TagsAfter(input.allergenIds, {})
  {
    var row := FindJoinRow(db.designCategories, input.menuCategoryId);
    var id := db.nextId as ItemId;
    var db1 := InsertItem(db, input, row.value.targetId);
    FillItemTags(db1, id, input);
  }

  lemma FillItemTags(db: MenuDb, id: ItemId, input: ItemInput)
    requires id in db.items
    requires FillItem(db, id, input).0.None?
    ensures var it := FillItem(db, id, input).1.items[id];
            && it.dietaryRequirements == TagsAfter(input.dietaryRequirementIds, db.items[id].dietaryRequirements)
            && it.religiousRestrictions == TagsAfter(input.religiousRestrictionIds, db.items[id].religiousRestrictions)
            && it.allergens == TagsAfter(input.allergenIds, db.items[id].allergens)
  {
    var s1 := TagAll(db, id, input);
    TagAllSetsRequested(db, id, input);
    var s2 := PortionStep(s1.1, id, input);
    var s3 := PriceStep(s2.1, id, input.prices);
    assert s3.1.items == s1.1.items;
  }

  /** The table ends with one portion row per entry, in entry order, for
      `item`, with ids from `firstId` on. */
  predicate PortionsFollowPayload(after: seq<Portion>, start: nat, firstId: int, item: ItemId, entries: seq<PortionEntry>) {
    && |after| == start + |entries|
    && forall j :: 0 <= j < |entries| ==> after[start + j] == PortionRow(firstId + j, item, entries[j])
  }

  /** Portion rows are written only when multiple portions are on and some
      are given, whatever the outcome. */
  lemma CreateItemPortionsOnlyWhenRequested(db: MenuDb, input: ItemInput)
    requires !PortionsRequested(input)
    ensures CreateItemSpec(db, input).1.portions == db.portions
  {
    if input.restaurantId in db.restaurants && FindJoinRow(db.designCategories, input.menuCategoryId).Some?
       && !ItemRefused(db.catalog, input) {
      var row := FindJoinRow(db.designCategories, input.menuCategoryId);
      var db1 := InsertItem(db, input, row.value.targetId);
      assert CreateItemSpec(db, input).1 == FillItem(db1, db.nextId as ItemId, input).1;
      FillItemPortions(db1, db.nextId as ItemId, input);
    }
  }

  /** On success with portions requested, one portion row per entry, in
      payload order, for the new item. */
  lemma CreateItemPortions(db: MenuDb, input: ItemInput)
    requires CreateItemSpec(db, input).0.Ok? && PortionsRequested(input)
    ensures PortionsFollowPayload(CreateItemSpec(db, input).1.portions, |db.portions|, db.nextId + 1, db.nextId as ItemId, input.portions.value)
  {
    var row := FindJoinRow(db.designCategories, input.menuCategoryId);
    var db1 := InsertItem(db, input, row.value.targetId);
    assert CreateItemSpec(db, input).1 == FillItem(db1, db.nextId as ItemId, input).1;
    FillItemPortions(db1, db.nextId as ItemId, input);
  }

  lemma FillItemPortions(db: MenuDb, id: ItemId, input: ItemInput)
    requires id in db.items
    ensures var r := FillItem(db, id, input);
            && (!PortionsRequested(input) ==> r.1.portions == db.portions)
            && (r.0.None? && PortionsRequested(input) ==>
                  PortionsFollowPayload(r.1.portions, |db.portions|, db.nextId, id, input.portions.value))
  {
    var s1 := TagAll(db, id, input);
    if s1.0.None? {
      var s2 := PortionStep(s1.1, id, input);
      if s2.0 {
        var s3 := PriceStep(s2.1, id, input.prices);
        assert s3.1.portions == s2.1.portions;
      }
    }
  }

  /** The table ends with one price row per entry, in entry order, for `item`. */
  predicate PricesFollowPayload(after: seq<Price>, start: nat, item: ItemId, entries: seq<PriceEntry>) {
    && |after| == start + |entries|
    && forall j :: 0 <= j < |entries| ==>
         && after[start + j].itemId == item
         && after[start + j].portionId == entries[j].portionId
         && after[start + j].pricingTitleId == entries[j].pricingTitleId
         && after[start + j].cents == entries[j].cents
  }

  /** On success, one price row per payload price, in payload order, for the
      new item; the rows before are kept. */
  lemma CreateItemPrices(db: MenuDb, input: ItemInput)
    requires CreateItemSpec(db, input).0.Ok?
    ensures PricesFollowPayload(CreateItemSpec(db, input).1.prices, |db.prices|, db.nextId as ItemId, input.prices)
  {
    var row := FindJoinRow(db.designCategories, input.menuCategoryId);
    var db1 := InsertItem(db, input, row.value.targetId);
    FillItemPrices(db1, db.nextId as ItemId, input);
  }

  lemma FillItemPrices(db: MenuDb, id: ItemId, input: ItemInput)
    requires id in db.items
    requires FillItem(db, id, input).0.None?
    ensures PricesFollowPayload(FillItem(db, id, input).1.prices, |db.prices|, id, input.prices)
  {
    var s1 := TagAll(db, id, input);
    var s2 := PortionStep(s1.1, id, input);
    assert s2.1.prices == db.prices;
    var a := AddPrices(s2.1.prices, s2.1.portions, s2.1.nextId, s2.1.catalog, id, input.prices, 0);
    forall j | 0 <= j < |input.prices|
      ensures a.0[|db.prices| + j] == PriceRow(s2.1.nextId + j, id, input.prices[j])
    {
    }
  }

  // ---------------------------------------------------------------------------
  // update_menu_item
  // ---------------------------------------------------------------------------

  /** One key of `payload.dict(exclude_unset=True)`: a field the request set,
      possibly to null. */
  datatype Assignment =
    | AssignName(Option<string>)
    | AssignDescription(Option<string>)
    | AssignSpiceLevelId(Option<int>)
    | AssignDietaryRequirementIds(Option<seq<int>>)
    | AssignReligiousRestrictionIds(Option<seq<int>>)
    | AssignAllergenIds(Option<seq<int>>)
    | AssignHasMultiplePortions(Option<bool>)
    | AssignDisplayOrder(Option<int>)
    | AssignIsActive(Option<bool>)

  /** The payload key. */
  function ColumnOf(a: Assignment): string {
    match a
    case AssignName(_) => "name"
    case AssignDescription(_) => "description"
    case AssignSpiceLevelId(_) => "spice_level_id"
    case AssignDietaryRequirementIds(_) => "dietary_requirement_ids"
    case AssignReligiousRestrictionIds(_) => "religious_restriction_ids"
    case AssignAllergenIds(_) => "allergen_ids"
    case AssignHasMultiplePortions(_) => "has_multiple_portions"
    case AssignDisplayOrder(_) => "display_order"
    case AssignIsActive(_) => "is_active"
  }

  /** The keys that end in `_ids`. */
  predicate IsRelationKey(a: Assignment) {
    a.AssignDietaryRequirementIds? || a.AssignReligiousRestrictionIds? || a.AssignAllergenIds?
  }

  function RelationOf(a: Assignment): (kind: Catalog)
    requires IsRelationKey(a)
    ensures IsTagKind(kind)
  {
    match a
    case AssignDietaryRequirementIds(_) => DietaryRequirements
    case AssignReligiousRestrictionIds(_) => ReligiousRestrictions
    case AssignAllergenIds(_) => Allergens
  }

  function IdsOf(a: Assignment): Option<seq<int>>
    requires IsRelationKey(a)
  {
    match a
    case AssignDietaryRequirementIds(v) => v
    case AssignReligiousRestrictionIds(v) => v
    case AssignAllergenIds(v) => v
  }

  /** The in-memory object between `setattr` calls: its fields, and the
      NOT NULL columns that currently hold `None`. */
  datatype Draft = Draft(item: MenuItem, nulls: set<string>)

  function NullsAfter(nulls: set<string>, column: string, isNull: bool): set<string> {
    if isNull then nulls + {column} else nulls - {column}
  }

  /** `setattr(menu_item, field, value)`; a relation key changes nothing here. */
  function AssignScalar(d: Draft, a: Assignment): (r: Draft)
    ensures r.item.dietaryRequirements == d.item.dietaryRequirements
    ensures r.item.religiousRestrictions == d.item.religiousRestrictions
    ensures r.item.allergens == d.item.allergens
  {
    match a
    case AssignName(v) =>
      Draft(if v.Some? then d.item.(name := v.value) else d.item, NullsAfter(d.nulls, "name", v.None?))
    case AssignDescription(v) =>
      Draft(if v.Some? then d.item.(description := v.value) else d.item, NullsAfter(d.nulls, "description", v.None?))
    case AssignSpiceLevelId(v) => Draft(d.item.(spiceLevelId := v), d.nulls)
    case AssignHasMultiplePortions(v) =>
      Draft(if v.Some? then d.item.(hasMultiplePortions := v.value) else d.item, NullsAfter(d.nulls, "has_multiple_portions", v.None?))
    case AssignDisplayOrder(v) =>
      Draft(if v.Some? then d.item.(displayOrder := v.value) else d.item, NullsAfter(d.nulls, "display_order", v.None?))
    case AssignIsActive(v) =>
      Draft(if v.Some? then d.item.(isActive := v.value) else d.item, NullsAfter(d.nulls, "is_active", v.None?))
    case _ => d
  }

  /** Why `menu_item.save()` is refused: a NULL in a NOT NULL column, a
      negative order, or a spice level that does not exist. */
  predicate SaveRefused(catalog: map<CatalogKey, CatalogRow>, d: Draft) {
    || d.nulls != {}
    || d.item.displayOrder < 0
    || (d.item.spiceLevelId.Some? && !InCatalog(catalog, SpiceLevels, d.item.spiceLevelId.value))
  }

  /** `save()` writes the object's own columns; the relations stay as stored. */
  function Saved(d: Draft, stored: MenuItem): (r: MenuItem)
    ensures Scalars(r) == Scalars(d.item)
    ensures r.dietaryRequirements == stored.dietaryRequirements
    ensures r.religiousRestrictions == stored.religiousRestrictions
    ensures r.allergens == stored.allergens
  {
    d.item.(dietaryRequirements := stored.dietaryRequirements,
            religiousRestrictions := stored.religiousRestrictions,
            allergens := stored.allergens)
  }

  function SaveItem(db: MenuDb, id: ItemId, d: Draft): (r: (Result<MenuItem, Failure>, MenuDb))
    requires id in db.items
    ensures SaveRefused(db.catalog, d) ==> r == (Err(IntegrityError), db)
    ensures !SaveRefused(db.catalog, d) ==>
              r == (Ok(Saved(d, db.items[id])), db.(items := db.items[id := Saved(d, db.items[id])]))
  {
    if SaveRefused(db.catalog, d) then (Err(IntegrityError), db)
    else (Ok(Saved(d, db.items[id])), db.(items := db.items[id := Saved(d, db.items[id])]))
  }

  predicate HasRelationKey(payload: seq<Assignment>) {
    exists k :: 0 <= k < |payload| && IsRelationKey(payload[k])
  }

  /** The loop as written: `getattr(menu_item, field[:-4])` names `dietary_requirement`,
      `religious_restriction` or `allergen`, none of which exists, so the first
      `_ids` key raises `AttributeError`. */
  function AssignAsWritten(d: Draft, payload: seq<Assignment>, i: nat): (r: Result<Draft, Failure>)
    requires i <= |payload|
    decreases |payload| - i
    ensures r.Err? <==> exists k :: i <= k < |payload| && IsRelationKey(payload[k])
    ensures r.Err? ==> r.error == RaisedBeforeWrite
  {
    if i == |payload| then Ok(d)
    else if IsRelationKey(payload[i]) then Err(RaisedBeforeWrite)
    else AssignAsWritten(AssignScalar(d, payload[i]), payload, i + 1)
  }

  /** `update_menu_item` as written: a payload with any `_ids` key fails
      before `save()` and nothing is stored. */
  function UpdateItemAsWritten(db: MenuDb, id: ItemId, payload: seq<Assignment>): (r: (Result<MenuItem, Failure>, MenuDb))
    ensures id !in db.items ==> r == (Err(NotFound), db)
    ensures id in db.items && HasRelationKey(payload) ==> r == (Err(RaisedBeforeWrite), db)
    ensures r.1 == db.(items := r.1.items)
  {
    if id !in db.items then (Err(NotFound), db)
    else
      var d := AssignAsWritten(Draft(db.items[id], {}), payload, 0);
      if d.Err? then (Err(d.error), db) else SaveItem(db, id, d.value)
  }

  /** The loop with each `_ids` key mapped to its plural relation. A relation
      is written at once by `set`, before `save()`; `set(None)` raises
      `TypeError`. The first failure stops the loop and keeps the relations
      already written. */
  function AssignAll(db: MenuDb, id: ItemId, d: Draft, payload: seq<Assignment>, i: nat): (r: (Result<Draft, Failure>, MenuDb))
    requires id in db.items && i <= |payload|
    decreases |payload| - i
    ensures r.1 == db.(items := r.1.items)
    ensures id in r.1.items && r.1.items == db.items[id := r.1.items[id]]
    ensures Scalars(r.1.items[id]) == Scalars(db.items[id])
    ensures TagsFrom(db.items[id], r.1.items[id], db.catalog)
    ensures r.0.Err? ==> r.0.error == IntegrityError || r.0.error == RaisedBeforeWrite
  {
    if i == |payload| then
      assert db.items == db.items[id := db.items[id]];
      (Ok(d), db)
    else if IsRelationKey(payload[i]) then
      var ids := IdsOf(payload[i]);
      if ids.None? then
        assert db.items == db.items[id := db.items[id]];
        (Err(RaisedBeforeWrite), db)
      else
        var s := SetTags(db, id, RelationOf(payload[i]), ids.value);
        if s.0.Some? then
          assert db.items == db.items[id := db.items[id]];
          (Err(IntegrityError), db)
        else
          var r := AssignAll(s.1, id, d, payload, i + 1);
          TagsFromTrans(db.items[id], s.1.items[id], r.1.items[id], db.catalog);
          r
    else AssignAll(db, id, AssignScalar(d, payload[i]), payload, i + 1)
  }

  lemma TagsFromTrans(a: MenuItem, b: MenuItem, c: MenuItem, catalog: map<CatalogKey, CatalogRow>)
    requires TagsFrom(a, b, catalog) && TagsFrom(b, c, catalog)
    ensures TagsFrom(a, c, catalog)
  {
  }

  /** `update_menu_item` with the `_ids` keys mapped to the relations. The
      payload is any sequence of assignments, so it may repeat a key or list
      keys in any order; `payload.dict(exclude_unset=True)` yields each key at
      most once in schema order, one of the sequences covered here. */
  function UpdateItemSpec(db: MenuDb, id: ItemId, payload: seq<Assignment>): (r: (Result<MenuItem, Failure>, MenuDb))
    ensures id !in db.items ==> r == (Err(NotFound), db)
    // only this item's row changes
    ensures r.1 == db.(items := r.1.items)
    ensures id in db.items ==> id in r.1.items && r.1.items == db.items[id := r.1.items[id]]
    // a failure leaves the row's own columns as they were
    ensures id in db.items && r.0.Err? ==> Scalars(r.1.items[id]) == Scalars(db.items[id])
    ensures r.0.Ok? ==> id in r.1.items && r.1.items[id] == r.0.value
    ensures r.0.Err? ==> r.0.error in {NotFound, IntegrityError, RaisedBeforeWrite}
  {
    if id !in db.items then (Err(NotFound), db)
    else
      var s := AssignAll(db, id, Draft(db.items[id], {}), payload, 0);
      if s.0.Err? then (Err(s.0.error), s.1)
      else SaveItem(s.1, id, s.0.value)
  }

  /** Without `_ids` keys the endpoint as written already behaves as intended. */
  lemma UpdateWithoutRelationKeys(db: MenuDb, id: ItemId, payload: seq<Assignment>)
    requires !HasRelationKey(payload)
    ensures UpdateItemAsWritten(db, id, payload) == UpdateItemSpec(db, id, payload)
  {
    if id in db.items {
      AssignAllScalarsOnly(db, id, Draft(db.items[id], {}), payload, 0);
    }
  }

  lemma {:induction false} AssignAllScalarsOnly(db: MenuDb, id: ItemId, d: Draft, payload: seq<Assignment>, i: nat)
    requires id in db.items && i <= |payload|
    requires forall k :: i <= k < |payload| ==> !IsRelationKey(payload[k])
    ensures AssignAll(db, id, d, payload, i) == (AssignAsWritten(d, payload, i), db)
    decreases |payload| - i
  {
    if i < |payload| {
      AssignAllScalarsOnly(db, id, AssignScalar(d, payload[i]), payload, i + 1);
    }
  }

  /** The endpoint as written fails on a payload that only sets allergens,
      where the corrected one stores them. */
  lemma UpdateAsWrittenDropsRelations(db: MenuDb, id: ItemId, ids: seq<int>)
    requires ValidDb(db) && id in db.items
    requires forall t :: t in ids ==> InCatalog(db.catalog, Allergens, t)
    ensures UpdateItemAsWritten(db, id, [AssignAllergenIds(Some(ids))]) == (Err(RaisedBeforeWrite), db)
    ensures var r := UpdateItemSpec(db, id, [AssignAllergenIds(Some(ids))]);
            r.0.Ok? && r.1.items[id].allergens == (set t | t in ids)
            && Scalars(r.1.items[id]) == Scalars(db.items[id])
  {
    var payload := [AssignAllergenIds(Some(ids))];
    assert HasRelationKey(payload) by { assert IsRelationKey(payload[0]); }
    var d := Draft(db.items[id], {});
    var s := SetTags(db, id, Allergens, ids);
    assert AssignAll(s.1, id, d, payload, 1) == (Ok(d), s.1);
    assert AssignAll(db, id, d, payload, 0) == (Ok(d), s.1);
    assert ItemValid(db.items[id], db);
    assert !SaveRefused(s.1.catalog, d);
  }

  /** Each key occurs at most once, as in the dict the loop runs over. */
  predicate DistinctColumns(payload: seq<Assignment>) {
    forall j, k :: 0 <= j < k < |payload| ==> ColumnOf(payload[j]) != ColumnOf(payload[k])
  }

  /** The stored item holds the value the key set. A NULL in a NOT NULL
      column, or a relation set to null, is never stored. */
  predicate Reflects(it: MenuItem, a: Assignment) {
    match a
    case AssignName(v) => v == Some(it.name)
    case AssignDescription(v) => v == Some(it.description)
    case AssignSpiceLevelId(v) => v == it.spiceLevelId
    case AssignDietaryRequirementIds(v) => v.Some? && it.dietaryRequirements == set t | t in v.value
    case AssignReligiousRestrictionIds(v) => v.Some? && it.religiousRestrictions == set t | t in v.value
    case AssignAllergenIds(v) => v.Some? && it.allergens == set t | t in v.value
    case AssignHasMultiplePortions(v) => v == Some(it.hasMultiplePortions)
    case AssignDisplayOrder(v) => v == Some(it.displayOrder)
    case AssignIsActive(v) => v == Some(it.isActive)
  }

  /** The in-memory object holds the value a column key set, a NULL included. */
  predicate DraftReflects(d: Draft, a: Assignment) {
    match a
    case AssignName(v) => if v.Some? then d.item.name == v.value && "name" !in d.nulls else "name" in d.nulls
    case AssignDescription(v) =>
      if v.Some? then d.item.description == v.value && "description" !in d.nulls else "description" in d.nulls
    case AssignSpiceLevelId(v) => d.item.spiceLevelId == v
    case AssignHasMultiplePortions(v) =>
      if v.Some? then d.item.hasMultiplePortions == v.value && "has_multiple_portions" !in d.nulls
      else "has_multiple_portions" in d.nulls
    case AssignDisplayOrder(v) =>
      if v.Some? then d.item.displayOrder == v.value && "display_order" !in d.nulls else "display_order" in d.nulls
    case AssignIsActive(v) =>
      if v.Some? then d.item.isActive == v.value && "is_active" !in d.nulls else "is_active" in d.nulls
    case _ => true
  }

  /** What a key processed so far has left: relations in the stored row,
      columns in the in-memory object. */
  predicate Done(it: MenuItem, d: Draft, a: Assignment) {
    if IsRelationKey(a) then Reflects(it, a) else DraftReflects(d, a)
  }

  lemma AssignScalarReflects(d: Draft, a: Assignment, b: Assignment)
    requires !IsRelationKey(a)
    ensures DraftReflects(AssignScalar(d, a), a)
    ensures ColumnOf(a) != ColumnOf(b) && DraftReflects(d, b) ==> DraftReflects(AssignScalar(d, a), b)
  {
  }

  lemma WithTagsReflects(it: MenuItem, a: Assignment, b: Assignment)
    requires IsRelationKey(a) && IdsOf(a).Some?
    ensures Reflects(WithTags(it, RelationOf(a), set t | t in IdsOf(a).value), a)
    ensures IsRelationKey(b) && ColumnOf(a) != ColumnOf(b) && Reflects(it, b)
            ==> Reflects(WithTags(it, RelationOf(a), set t | t in IdsOf(a).value), b)
  {
  }

  /** Every key before `n` has left its value. */
  predicate DoneBefore(it: MenuItem, d: Draft, payload: seq<Assignment>, n: nat)
    requires n <= |payload|
  {
    forall k :: 0 <= k < n ==> Done(it, d, payload[k])
  }

  lemma SetTagsKeepsDone(it: MenuItem, it': MenuItem, d: Draft, payload: seq<Assignment>, i: nat)
    requires i < |payload| && DistinctColumns(payload)
    requires IsRelationKey(payload[i]) && IdsOf(payload[i]).Some?
    requires it' == WithTags(it, RelationOf(payload[i]), set t | t in IdsOf(payload[i]).value)
    requires DoneBefore(it, d, payload, i)
    ensures DoneBefore(it', d, payload, i + 1)
  {
    forall k | 0 <= k <= i ensures Done(it', d, payload[k]) {
      WithTagsReflects(it, payload[i], payload[k]);
    }
  }

  lemma AssignScalarKeepsDone(it: MenuItem, d: Draft, payload: seq<Assignment>, i: nat)
    requires i < |payload| && DistinctColumns(payload) && !IsRelationKey(payload[i])
    requires DoneBefore(it, d, payload, i)
    ensures DoneBefore(it, AssignScalar(d, payload[i]), payload, i + 1)
  {
    forall k | 0 <= k <= i ensures Done(it, AssignScalar(d, payload[i]), payload[k]) {
      AssignScalarReflects(d, payload[i], payload[k]);
    }
  }

  /** On success every key processed has left its value, given the keys are distinct. */
  lemma {:induction false} AssignAllReflects(db: MenuDb, id: ItemId, d: Draft, payload: seq<Assignment>, i: nat)
    requires id in db.items && i <= |payload| && DistinctColumns(payload)
    requires DoneBefore(db.items[id], d, payload, i)
    ensures var r := AssignAll(db, id, d, payload, i);
            r.0.Ok? ==> DoneBefore(r.1.items[id], r.0.value, payload, |payload|)
    decreases |payload| - i
  {
    if i < |payload| {
      var a := payload[i];
      if IsRelationKey(a) {
        var ids := IdsOf(a);
        if ids.Some? {
          var s := SetTags(db, id, RelationOf(a), ids.value);
          if s.0.None? {
            SetTagsKeepsDone(db.items[id], s.1.items[id], d, payload, i);
            AssignAllReflects(s.1, id, d, payload, i + 1);
            assert AssignAll(db, id, d, payload, i) == AssignAll(s.1, id, d, payload, i + 1);
          }
        }
      } else {
        AssignScalarKeepsDone(db.items[id], d, payload, i);
        AssignAllReflects(db, id, AssignScalar(d, a), payload, i + 1);
        assert AssignAll(db, id, d, payload, i) == AssignAll(db, id, AssignScalar(d, a), payload, i + 1);
      }
    }
  }

  /** A successful update stores every value the payload set. */
  lemma UpdateAppliesPayload(db: MenuDb, id: ItemId, payload: seq<Assignment>)
    requires DistinctColumns(payload)
    requires UpdateItemSpec(db, id, payload).0.Ok?
    ensures forall k :: 0 <= k < |payload| ==> Reflects(UpdateItemSpec(db, id, payload).1.items[id], payload[k])
  {
    var d := Draft(db.items[id], {});
    var s := AssignAll(db, id, d, payload, 0);
    AssignAllReflects(db, id, d, payload, 0);
    assert DoneBefore(s.1.items[id], s.0.value, payload, |payload|);
    var saved := Saved(s.0.value, s.1.items[id]);
    forall k | 0 <= k < |payload| ensures Reflects(saved, payload[k]) {
      assert Done(s.1.items[id], s.0.value, payload[k]);
    }
  }

  predicate MentionedFrom(payload: seq<Assignment>, column: string, i: nat) {
    exists k :: i <= k < |payload| && ColumnOf(payload[k]) == column
  }

  /** The object's own columns that no key from `i` on names are unchanged,
      and so are the columns the payload cannot name. */
  predicate ColumnsKept(before: MenuItem, after: MenuItem, payload: seq<Assignment>, i: nat) {
    && after.restaurantId == before.restaurantId
    && after.menuCategoryId == before.menuCategoryId
    && after.hasMultiplePrices == before.hasMultiplePrices
    && (!MentionedFrom(payload, "name", i) ==> after.name == before.name)
    && (!MentionedFrom(payload, "description", i) ==> after.description == before.description)
    && (!MentionedFrom(payload, "spice_level_id", i) ==> after.spiceLevelId == before.spiceLevelId)
    && (!MentionedFrom(payload, "has_multiple_portions", i) ==> after.hasMultiplePortions == before.hasMultiplePortions)
    && (!MentionedFrom(payload, "display_order", i) ==> after.displayOrder == before.displayOrder)
    && (!MentionedFrom(payload, "is_active", i) ==> after.isActive == before.isActive)
  }

  /** The relations that no key from `i` on names are unchanged. */
  predicate RelationsKept(before: MenuItem, after: MenuItem, payload: seq<Assignment>, i: nat) {
    && (!MentionedFrom(payload, "dietary_requirement_ids", i) ==> after.dietaryRequirements == before.dietaryRequirements)
    && (!MentionedFrom(payload, "religious_restriction_ids", i) ==> after.religiousRestrictions == before.religiousRestrictions)
    && (!MentionedFrom(payload, "allergen_ids", i) ==> after.allergens == before.allergens)
  }

  lemma MentionedStep(payload: seq<Assignment>, i: nat)
    requires i < |payload|
    ensures forall c :: MentionedFrom(payload, c, i) <==> ColumnOf(payload[i]) == c || MentionedFrom(payload, c, i + 1)
  {
    forall c ensures MentionedFrom(payload, c, i) <==> ColumnOf(payload[i]) == c || MentionedFrom(payload, c, i + 1) {
      if MentionedFrom(payload, c, i) {
        var k :| i <= k < |payload| && ColumnOf(payload[k]) == c;
        if k > i { assert MentionedFrom(payload, c, i + 1); }
      }
      if ColumnOf(payload[i]) == c { assert i <= i < |payload|; }
    }
  }

  lemma {:induction false} AssignAllKeepsRelations(db: MenuDb, id: ItemId, d: Draft, payload: seq<Assignment>, i: nat)
    requires id in db.items && i <= |payload|
    ensures RelationsKept(db.items[id], AssignAll(db, id, d, payload, i).1.items[id], payload, i)
    decreases |payload| - i
  {
    if i < |payload| {
      MentionedStep(payload, i);
      var a := payload[i];
      if IsRelationKey(a) {
        var ids := IdsOf(a);
        if ids.Some? {
          var s := SetTags(db, id, RelationOf(a), ids.value);
          if s.0.None? {
            AssignAllKeepsRelations(s.1, id, d, payload, i + 1);
          }
        }
      } else {
        AssignAllKeepsRelations(db, id, AssignScalar(d, a), payload, i + 1);
      }
    }
  }

  lemma AssignScalarKeeps(d: Draft, a: Assignment, payload: seq<Assignment>, i: nat)
    requires i < |payload| && a == payload[i] && !IsRelationKey(a)
    requires forall c :: MentionedFrom(payload, c, i) <==> ColumnOf(a) == c || MentionedFrom(payload, c, i + 1)
    ensures ColumnsKept(d.item, AssignScalar(d, a).item, payload, i)
  {
  }

  lemma ColumnsKeptTrans(x: MenuItem, y: MenuItem, z: MenuItem, payload: seq<Assignment>, i: nat)
    requires i < |payload|
    requires ColumnsKept(x, y, payload, i) && ColumnsKept(y, z, payload, i + 1)
    requires forall c :: MentionedFrom(payload, c, i + 1) ==> MentionedFrom(payload, c, i)
    ensures ColumnsKept(x, z, payload, i)
  {
  }

  lemma {:induction false} AssignAllKeepsColumns(db: MenuDb, id: ItemId, d: Draft, payload: seq<Assignment>, i: nat)
    requires id in db.items && i <= |payload|
    ensures var r := AssignAll(db, id, d, payload, i);
            r.0.Ok? ==> ColumnsKept(d.item, r.0.value.item, payload, i)
    decreases |payload| - i
  {
    if i < |payload| {
      MentionedStep(payload, i);
      var a := payload[i];
      if IsRelationKey(a) {
        var ids := IdsOf(a);
        if ids.Some? {
          var s := SetTags(db, id, RelationOf(a), ids.value);
          if s.0.None? {
            AssignAllKeepsColumns(s.1, id, d, payload, i + 1);
          }
        }
      } else {
        var d' := AssignScalar(d, a);
        AssignAllKeepsColumns(db, id, d', payload, i + 1);
        var r := AssignAll(db, id, d', payload, i + 1);
        if r.0.Ok? {
          AssignScalarKeeps(d, a, payload, i);
          ColumnsKeptTrans(d.item, d'.item, r.0.value.item, payload, i);
        }
      }
    }
  }

  /** An update leaves every column and relation the payload does not name as
      it was; a failed one also every column it does name. */
  lemma UpdateKeepsUnnamed(db: MenuDb, id: ItemId, payload: seq<Assignment>)
    requires id in db.items
    ensures var it := UpdateItemSpec(db, id, payload).1.items[id];
            RelationsKept(db.items[id], it, payload, 0) && ColumnsKept(db.items[id], it, payload, 0)
  {
    var d := Draft(db.items[id], {});
    var s := AssignAll(db, id, d, payload, 0);
    var it := UpdateItemSpec(db, id, payload).1.items[id];
    AssignAllKeepsRelations(db, id, d, payload, 0);
    if s.0.Ok? {
      AssignAllKeepsColumns(db, id, d, payload, 0);
      var after := SaveItem(s.1, id, s.0.value);
      assert it == after.1.items[id];
      if SaveRefused(s.1.catalog, s.0.value) {
        assert it == s.1.items[id];
        assert Scalars(it) == Scalars(db.items[id]);
      } else {
        assert it == Saved(s.0.value, s.1.items[id]);
      }
    } else {
      assert it == s.1.items[id];
      assert Scalars(it) == Scalars(db.items[id]);
    }
  }

  lemma UpdateItemPreservesValid(db: MenuDb, id: ItemId, payload: seq<Assignment>)
    requires ValidDb(db)
    ensures ValidDb(UpdateItemSpec(db, id, payload).1)
  {
    if id in db.items {
      var d := Draft(db.items[id], {});
      var s := AssignAll(db, id, d, payload, 0);
      var r := UpdateItemSpec(db, id, payload);
      var it := r.1.items[id];
      DesignTablesKeepValid(db, r.1);
      assert ItemValid(db.items[id], db);
      assert TagsFrom(db.items[id], s.1.items[id], db.catalog);
      assert ItemValid(it, r.1) by {
        if r.0.Err? {
          assert Scalars(it) == Scalars(db.items[id]);
          assert it.restaurantId == db.items[id].restaurantId;
        } else {
          assert Scalars(it) == Scalars(s.0.value.item);
          AssignAllKeepsColumns(db, id, d, payload, 0);
        }
      }
      forall i | i in r.1.items ensures i as int < r.1.nextId && ItemValid(r.1.items[i], r.1) {
        if i != id {
          assert ItemValid(db.items[i], db);
        }
      }
    }
  }

  // ---------------------------------------------------------------------------
  // delete_menu_item
  // ---------------------------------------------------------------------------

  /** The ids of the portions of item `id`. */
  function PortionIdsOf(portions: seq<Portion>, id: ItemId): (r: set<PortionId>)
    ensures forall p :: p in r <==> exists k :: 0 <= k < |portions| && portions[k].itemId == id && portions[k].id == p
  {
    set k | 0 <= k < |portions| && portions[k].itemId == id :: portions[k].id
  }

  /** The portions that survive the delete, in their order. */
  function PortionsNotOf(portions: seq<Portion>, id: ItemId): (r: seq<Portion>)
    ensures |r| <= |portions|
    ensures forall p :: p in r <==> p in portions && p.itemId != id
  {
    if portions == [] then []
    else
      var last := portions[|portions| - 1];
      var front := portions[..|portions| - 1];
      assert portions == front + [last];
      PortionsNotOf(front, id) + (if last.itemId != id then [last] else [])
  }

  /** A price goes with the item it belongs to and with the portion it names. */
  predicate PriceCascades(p: Price, id: ItemId, removed: set<PortionId>) {
    p.itemId == id || (p.portionId.Some? && p.portionId.value in removed)
  }

  function PricesNotOf(prices: seq<Price>, id: ItemId, removed: set<PortionId>): (r: seq<Price>)
    ensures |r| <= |prices|
    ensures forall p :: p in r <==> p in prices && !PriceCascades(p, id, removed)
  {
    if prices == [] then []
    else
      var last := prices[|prices| - 1];
      var front := prices[..|prices| - 1];
      assert prices == front + [last];
      PricesNotOf(front, id, removed) + (if !PriceCascades(last, id, removed) then [last] else [])
  }

  function ImagesNotOf(images: seq<ItemImage>, id: ItemId): (r: seq<ItemImage>)
    ensures |r| <= |images|
    ensures forall m :: m in r <==> m in images && m.itemId != id
  {
    if images == [] then []
    else
      var last := images[|images| - 1];
      var front := images[..|images| - 1];
      assert images == front + [last];
      ImagesNotOf(front, id) + (if last.itemId != id then [last] else [])
  }

  /** `menu_item.delete()`: `on_delete=CASCADE` takes the item's portions,
      prices and images with it, and the prices that name one of those
      portions; the relation rows go with the item. */
  function DeleteItemSpec(db: MenuDb, id: ItemId): (r: (Result<(), Failure>, MenuDb))
    ensures id !in db.items ==> r == (Err(NotFound), db)
    ensures id in db.items ==> r.0.Ok?
    // the item and every row that depends on it are gone, and nothing else
    ensures r.0.Ok? ==> r.1.items == db.items - {id}
    ensures r.0.Ok? ==> forall p :: p in r.1.portions <==> p in db.portions && p.itemId != id
    ensures r.0.Ok? ==> forall p :: p in r.1.prices <==>
              p in db.prices && !PriceCascades(p, id, PortionIdsOf(db.portions, id))
    ensures r.0.Ok? ==> forall m :: m in r.1.itemImages <==> m in db.itemImages && m.itemId != id
    ensures r.1 == db.(items := r.1.items, portions := r.1.portions, prices := r.1.prices, itemImages := r.1.itemImages)
  {
    if id !in db.items then (Err(NotFound), db)
    else
      (Ok(()), WithoutItem(db, id))
  }

  /** The tables once the item and the rows that cascade from it are gone. */
  function WithoutItem(db: MenuDb, id: ItemId): MenuDb {
    db.(items := db.items - {id},
        portions := PortionsNotOf(db.portions, id),
        prices := PricesNotOf(db.prices, id, PortionIdsOf(db.portions, id)),
        itemImages := ImagesNotOf(db.itemImages, id))
  }

  /** After a delete no row refers to the item. */
  lemma DeleteItemLeavesNoReference(db: MenuDb, id: ItemId)
    requires id in db.items
    ensures var db' := DeleteItemSpec(db, id).1;
            && id !in db'.items
            && (forall k :: 0 <= k < |db'.portions| ==> db'.portions[k].itemId != id)
            && (forall k :: 0 <= k < |db'.prices| ==> db'.prices[k].itemId != id)
            && (forall k :: 0 <= k < |db'.itemImages| ==> db'.itemImages[k].itemId != id)
  {
    var db' := DeleteItemSpec(db, id).1;
    assert forall k :: 0 <= k < |db'.portions| ==> db'.portions[k] in db'.portions;
    assert forall k :: 0 <= k < |db'.prices| ==> db'.prices[k] in db'.prices;
    assert forall k :: 0 <= k < |db'.itemImages| ==> db'.itemImages[k] in db'.itemImages;
  }

  lemma {:induction false} PortionsNotOfKeepsUnique(portions: seq<Portion>, id: ItemId)
    requires PortionPairsUnique(portions)
    ensures PortionPairsUnique(PortionsNotOf(portions, id))
    decreases |portions|
  {
    if portions != [] {
      var last := portions[|portions| - 1];
      var front := portions[..|portions| - 1];
      assert portions == front + [last];
      assert PortionPairsUnique(front);
      PortionsNotOfKeepsUnique(front, id);
      var r := PortionsNotOf(front, id);
      if last.itemId != id {
        forall j | 0 <= j < |r| ensures (r[j].itemId, r[j].portionSizeId) != (last.itemId, last.portionSizeId) {
          assert r[j] in front;
          var i :| 0 <= i < |front| && front[i] == r[j];
          assert portions[i] == r[j] && portions[|portions| - 1] == last;
        }
        assert PortionsNotOf(portions, id) == r + [last];
      }
    }
  }

  lemma {:induction false} PricesNotOfKeepsUnique(prices: seq<Price>, id: ItemId, removed: set<PortionId>)
    requires PriceTriplesUnique(prices)
    ensures PriceTriplesUnique(PricesNotOf(prices, id, removed))
    decreases |prices|
  {
    if prices != [] {
      var last := prices[|prices| - 1];
      var front := prices[..|prices| - 1];
      assert prices == front + [last];
      assert PriceTriplesUnique(front);
      PricesNotOfKeepsUnique(front, id, removed);
      var r := PricesNotOf(front, id, removed);
      if !PriceCascades(last, id, removed) {
        forall j | 0 <= j < |r| && r[j].portionId.Some? && r[j].pricingTitleId.Some?
          ensures (r[j].itemId, r[j].portionId, r[j].pricingTitleId) != (last.itemId, last.portionId, last.pricingTitleId)
        {
          assert r[j] in front;
          var i :| 0 <= i < |front| && front[i] == r[j];
          assert prices[i] == r[j] && prices[|prices| - 1] == last;
        }
        assert PricesNotOf(prices, id, removed) == r + [last];
      }
    }
  }

  lemma DeleteKeepsPortionsValid(db: MenuDb, id: ItemId)
    requires ValidDb(db) && id in db.items
    ensures PortionsValid(DeleteItemSpec(db, id).1)
  {
    var db' := DeleteItemSpec(db, id).1;
    PortionsNotOfKeepsUnique(db.portions, id);
    forall k | 0 <= k < |db'.portions|
      ensures && db'.portions[k].itemId in db'.items
              && InCatalog(db'.catalog, PortionSizes, db'.portions[k].portionSizeId)
              && db'.portions[k].quantity >= 0
              && db'.portions[k].displayOrder >= 0
              && db'.portions[k].id as int < db'.nextId
    {
      assert db'.portions[k] in db'.portions;
      var i :| 0 <= i < |db.portions| && db.portions[i] == db'.portions[k];
    }
  }

  /** A portion not of the deleted item survives. */
  lemma DeleteKeepsPortion(portions: seq<Portion>, id: ItemId, pid: PortionId)
    requires HasPortion(portions, pid) && pid !in PortionIdsOf(portions, id)
    ensures HasPortion(PortionsNotOf(portions, id), pid)
  {
    var j :| 0 <= j < |portions| && portions[j].id == pid;
    assert portions[j] in PortionsNotOf(portions, id);
    var m :| 0 <= m < |PortionsNotOf(portions, id)| && PortionsNotOf(portions, id)[m] == portions[j];
  }

  lemma DeleteKeepsPricesValid(db: MenuDb, id: ItemId)
    requires ValidDb(db) && id in db.items
    ensures PricesValid(DeleteItemSpec(db, id).1)
  {
    var db' := DeleteItemSpec(db, id).1;
    PricesNotOfKeepsUnique(db.prices, id, PortionIdsOf(db.portions, id));
    forall k | 0 <= k < |db'.prices|
      ensures && db'.prices[k].itemId in db'.items
              && (db'.prices[k].portionId.Some? ==> HasPortion(db'.portions, db'.prices[k].portionId.value))
              && (db'.prices[k].pricingTitleId.Some? ==> InCatalog(db'.catalog, PricingTitles, db'.prices[k].pricingTitleId.value))
              && PriceFits(db'.prices[k].cents)
              && db'.prices[k].id as int < db'.nextId
    {
      var p := db'.prices[k];
      assert p in db'.prices;
      var i :| 0 <= i < |db.prices| && db.prices[i] == p;
      if p.portionId.Some? {
        assert HasPortion(db.portions, p.portionId.value);
        assert !PriceCascades(p, id, PortionIdsOf(db.portions, id));
        DeleteKeepsPortion(db.portions, id, p.portionId.value);
      }
    }
  }

  lemma DeleteItemPreservesValid(db: MenuDb, id: ItemId)
    requires ValidDb(db)
    ensures ValidDb(DeleteItemSpec(db, id).1)
  {
    if id in db.items {
      var db' := DeleteItemSpec(db, id).1;
      DesignTablesKeepValid(db, db');
      forall i | i in db'.items ensures i as int < db'.nextId && ItemValid(db'.items[i], db') {
        assert ItemValid(db.items[i], db);
      }
      DeleteKeepsPortionsValid(db, id);
      DeleteKeepsPricesValid(db, id);
      forall k | 0 <= k < |db'.itemImages| ensures db'.itemImages[k].itemId in db'.items {
        assert db'.itemImages[k] in db'.itemImages;
      }
    }
  }

  // ---------------------------------------------------------------------------
  // update_menu_item_order
  // ---------------------------------------------------------------------------

  /** `update_menu_item_order`: sets the order and saves; the CHECK on the
      positive integer column refuses a negative order. */
  function UpdateItemOrderSpec(db: MenuDb, id: ItemId, order: int): (r: (Result<MenuItem, Failure>, MenuDb))
    ensures id !in db.items ==> r == (Err(NotFound), db)
    ensures id in db.items && order < 0 ==> r == (Err(IntegrityError), db)
    ensures r.0.Ok? <==> id in db.items && order >= 0
    ensures r.0.Ok? ==> (r.0.value == db.items[id].(displayOrder := order)
                         && r.1 == db.(items := db.items[id := r.0.value]))
  {
    if id !in db.items then (Err(NotFound), db)
    else if order < 0 then (Err(IntegrityError), db)
    else
      var it := db.items[id].(displayOrder := order);
      (Ok(it), db.(items := db.items[id := it]))
  }

  /** The order endpoint does what a general update naming only
      `display_order` does, on a consistent database. */
  lemma UpdateItemOrderIsUpdate(db: MenuDb, id: ItemId, order: int)
    requires ValidDb(db)
    ensures UpdateItemOrderSpec(db, id, order) == UpdateItemSpec(db, id, [AssignDisplayOrder(Some(order))])
  {
    if id in db.items {
      var payload := [AssignDisplayOrder(Some(order))];
      var d := Draft(db.items[id], {});
      assert ItemValid(db.items[id], db);
      var d' := AssignScalar(d, payload[0]);
      assert d' == Draft(db.items[id].(displayOrder := order), {});
      assert AssignAll(db, id, d, payload, 0) == AssignAll(db, id, d', payload, 1);
      assert AssignAll(db, id, d', payload, 1) == (Ok(d'), db);
      assert Saved(d', db.items[id]) == db.items[id].(displayOrder := order);
    }
  }

  /** The last order set wins. */
  lemma UpdateItemOrderLastWins(db: MenuDb, id: ItemId, a: int, b: int)
    requires a >= 0 && b >= 0
    ensures UpdateItemOrderSpec(UpdateItemOrderSpec(db, id, a).1, id, b) == UpdateItemOrderSpec(db, id, b)
  {
    if id in db.items {
      var db1 := UpdateItemOrderSpec(db, id, a).1;
      assert db1.items[id].(displayOrder := b) == db.items[id].(displayOrder := b);
      assert db1.items[id := db1.items[id].(displayOrder := b)] == db.items[id := db.items[id].(displayOrder := b)];
    }
  }

  lemma UpdateItemOrderPreservesValid(db: MenuDb, id: ItemId, order: int)
    requires ValidDb(db)
    ensures ValidDb(UpdateItemOrderSpec(db, id, order).1)
  {
    var db' := UpdateItemOrderSpec(db, id, order).1;
    if id in db.items && order >= 0 {
      DesignTablesKeepValid(db, db');
      forall i | i in db'.items ensures i as int < db'.nextId && ItemValid(db'.items[i], db') {
        assert ItemValid(db.items[i], db);
      }
    }
  }

  // ---------------------------------------------------------------------------
  // Constraints kept by item writes
  // ---------------------------------------------------------------------------

  /** Writes confined to the item tables and the counter keep the catalog and
      design constraints. */
  lemma DesignTablesKeepValid(db: MenuDb, db': MenuDb)
    requires ValidDb(db)
    requires db'.restaurants == db.restaurants && db'.catalog == db.catalog && db'.designs == db.designs
    requires db'.designCategories == db.designCategories && db'.designPricings == db.designPricings
    requires db'.nextId >= db.nextId
    ensures CatalogUnique(db'.catalog) && CatalogIdsBelow(db') && DesignsValid(db')
    ensures JoinRowsValid(db'.designCategories, MenuCategories, db') && JoinRowsValid(db'.designPricings, PricingTitles, db')
  {
  }

  lemma HasPortionKept(before: seq<Portion>, after: seq<Portion>, id: PortionId)
    requires HasPortion(before, id)
    requires |before| <= |after| && after[..|before|] == before
    ensures HasPortion(after, id)
  {
    var k :| 0 <= k < |before| && before[k].id == id;
    assert after[k] == before[k];
  }

  /** The accepted insert keeps every constraint: the restaurant exists, the
      design-category row names an existing category, the spice level exists,
      the order is non-negative. */
  lemma InsertItemKeepsValid(db: MenuDb, input: ItemInput)
    requires ValidDb(db)
    requires input.restaurantId in db.restaurants
    requires FindJoinRow(db.designCategories, input.menuCategoryId).Some?
    requires !ItemRefused(db.catalog, input)
    ensures var db1 := InsertItem(db, input, FindJoinRow(db.designCategories, input.menuCategoryId).value.targetId);
            ValidDb(db1) && db.nextId as ItemId in db1.items
  {
    var row := FindJoinRow(db.designCategories, input.menuCategoryId).value;
    var k :| 0 <= k < |db.designCategories| && db.designCategories[k] == row;
    var db1 := InsertItem(db, input, row.targetId);
    DesignTablesKeepValid(db, db1);
    assert ItemValid(db1.items[db.nextId as ItemId], db1);
    forall i | i in db1.items ensures i as int < db1.nextId && ItemValid(db1.items[i], db1) {
      if i != db.nextId as ItemId {
        assert ItemValid(db.items[i], db);
      }
    }
  }

  lemma TagAllKeepsValid(db: MenuDb, id: ItemId, input: ItemInput)
    requires ValidDb(db) && id in db.items
    ensures ValidDb(TagAll(db, id, input).1)
  {
    var db' := TagAll(db, id, input).1;
    DesignTablesKeepValid(db, db');
    forall i | i in db'.items ensures i as int < db'.nextId && ItemValid(db'.items[i], db') {
      assert ItemValid(db.items[i], db);
      if i == id {
        assert Scalars(db'.items[id]) == Scalars(db.items[id]);
        assert db'.items[id].restaurantId == db.items[id].restaurantId;
      }
    }
  }

  lemma PortionStepKeepsValid(db: MenuDb, id: ItemId, input: ItemInput)
    requires ValidDb(db) && id in db.items
    ensures ValidDb(PortionStep(db, id, input).1)
  {
    var db' := PortionStep(db, id, input).1;
    if PortionsRequested(input) {
      var entries := input.portions.value;
      AddPortionsKeepsUnique(db.portions, db.nextId, db.catalog, id, entries, 0);
      DesignTablesKeepValid(db, db');
      forall i | i in db'.items ensures i as int < db'.nextId && ItemValid(db'.items[i], db') {
        assert ItemValid(db.items[i], db);
      }
      forall k | 0 <= k < |db'.portions|
        ensures db'.portions[k].itemId in db'.items && InCatalog(db'.catalog, PortionSizes, db'.portions[k].portionSizeId)
                && db'.portions[k].quantity >= 0 && db'.portions[k].displayOrder >= 0 && db'.portions[k].id as int < db'.nextId
      {
        if k < |db.portions| {
          assert db'.portions[k] == db.portions[k];
        } else {
          assert PortionWritten(db'.portions[k], db.catalog, id, db.nextId, db'.nextId);
        }
      }
      forall k | 0 <= k < |db'.prices| && db'.prices[k].portionId.Some?
        ensures HasPortion(db'.portions, db'.prices[k].portionId.value)
      {
        HasPortionKept(db.portions, db'.portions, db.prices[k].portionId.value);
      }
    }
  }

  lemma PriceStepKeepsValid(db: MenuDb, id: ItemId, entries: seq<PriceEntry>)
    requires ValidDb(db) && id in db.items
    ensures ValidDb(PriceStep(db, id, entries).1)
  {
    var db' := PriceStep(db, id, entries).1;
    AddPricesKeepsUnique(db.prices, db.portions, db.nextId, db.catalog, id, entries, 0);
    DesignTablesKeepValid(db, db');
    forall i | i in db'.items ensures i as int < db'.nextId && ItemValid(db'.items[i], db') {
      assert ItemValid(db.items[i], db);
    }
    forall k | 0 <= k < |db'.prices|
      ensures && db'.prices[k].itemId in db'.items
              && (db'.prices[k].portionId.Some? ==> HasPortion(db'.portions, db'.prices[k].portionId.value))
              && (db'.prices[k].pricingTitleId.Some? ==> InCatalog(db'.catalog, PricingTitles, db'.prices[k].pricingTitleId.value))
              && PriceFits(db'.prices[k].cents)
              && db'.prices[k].id as int < db'.nextId
    {
      if k < |db.prices| {
        assert db'.prices[k] == db.prices[k];
      } else {
        assert PriceWritten(db'.prices[k], db.portions, db.catalog, id, db.nextId, db'.nextId);
      }
    }
  }

  lemma FillItemKeepsValid(db: MenuDb, id: ItemId, input: ItemInput)
    requires ValidDb(db) && id in db.items
    ensures ValidDb(FillItem(db, id, input).1)
  {
    var s1 := TagAll(db, id, input);
    TagAllKeepsValid(db, id, input);
    if s1.0.None? {
      var s2 := PortionStep(s1.1, id, input);
      PortionStepKeepsValid(s1.1, id, input);
      if s2.0 {
        PriceStepKeepsValid(s2.1, id, input.prices);
      }
    }
  }

  /** A create keeps every constraint, whether it succeeds or stops part-way. */
  lemma CreateItemPreservesValid(db: MenuDb, input: ItemInput)
    requires ValidDb(db)
    ensures ValidDb(CreateItemSpec(db, input).1)
  {
    if input.restaurantId in db.restaurants && FindJoinRow(db.designCategories, input.menuCategoryId).Some?
       && !ItemRefused(db.catalog, input) {
      var row := FindJoinRow(db.designCategories, input.menuCategoryId);
      var db1 := InsertItem(db, input, row.value.targetId);
      InsertItemKeepsValid(db, input);
      FillItemKeepsValid(db1, db.nextId as ItemId, input);
      assert CreateItemSpec(db, input).1 == FillItem(db1, db.nextId as ItemId, input).1;
    }
  }
}
