/**
 * The menu configuration tables (menus/models.py) as one value, `MenuDb`,
 * with the schema's constraints as predicates over it.
 *
 * The seven lookup catalogs (menu categories, pricing titles, spice levels,
 * dietary requirements, religious restrictions, allergens, portion sizes)
 * share one row shape and live in one map keyed by (catalog, id). A menu
 * design's category rows and pricing rows share one row shape too. Rows of
 * the other tables carry ids of their own types, so an id of one table
 * cannot stand for an id of another. Every new row takes its id from one
 * counter, `nextId`, that only grows. The database numbers each table
 * separately; the shared counter keeps ids fresh, but their values are not
 * the ones the database hands out.
 */
module MenuSchema {
  import opened Wrappers
  import opened Text

  newtype DesignId = int
  newtype JoinId = int
  newtype ItemId = int
  newtype PortionId = int
  newtype PriceId = int
  newtype ImageId = int

  datatype Catalog =
    | MenuCategories | PricingTitles | SpiceLevels
    | DietaryRequirements | ReligiousRestrictions | Allergens | PortionSizes

  datatype CatalogKey = CatalogKey(kind: Catalog, id: int)

  /** A catalog row. `specialNotes` is a column of menu categories only, and
      `displayOrder` of the catalogs that declare one; elsewhere they hold ""
      and 0. */
  datatype CatalogRow = CatalogRow(
    name: string,
    code: string,
    description: string,
    specialNotes: string,
    displayOrder: int,
    isActive: bool)

  /** `MenuDesign`: at most one per restaurant. */
  datatype Design = Design(restaurantId: int, isMultiplePricing: bool, isActive: bool)

  /** A row of `MenuDesignCategory` (target: a menu category) or of
      `MenuDesignPricing` (target: a pricing title, and `notes` always ""). */
  datatype DesignJoin = DesignJoin(
    id: JoinId,
    designId: DesignId,
    targetId: int,
    notes: string,
    displayOrder: int,
    isCustom: bool)

  /** `MenuItem`; the three many-to-many relations are the sets of catalog ids. */
  datatype MenuItem = MenuItem(
    restaurantId: int,
    menuCategoryId: int,
    name: string,
    description: string,
    hasMultiplePrices: bool,
    spiceLevelId: Option<int>,
    dietaryRequirements: set<int>,
    religiousRestrictions: set<int>,
    allergens: set<int>,
    hasMultiplePortions: bool,
    displayOrder: int,
    isActive: bool)

  datatype Portion = Portion(id: PortionId, itemId: ItemId, portionSizeId: int, quantity: int, displayOrder: int)

  /** `MenuItemPrice`; the price is held in cents. */
  datatype Price = Price(id: PriceId, itemId: ItemId, portionId: Option<PortionId>, pricingTitleId: Option<int>, cents: int)

  datatype ItemImage = ItemImage(id: ImageId, itemId: ItemId, displayOrder: int)

  datatype MenuDb = MenuDb(
    restaurants: set<int>,
    catalog: map<CatalogKey, CatalogRow>,
    designs: map<DesignId, Design>,
    designCategories: seq<DesignJoin>,
    designPricings: seq<DesignJoin>,
    items: map<ItemId, MenuItem>,
    portions: seq<Portion>,
    prices: seq<Price>,
    itemImages: seq<ItemImage>,
    nextId: int)

  /** Why a request failed. No endpoint of the menus API runs in a
      transaction, so a failure keeps whatever was written before it. */
  datatype Failure =
    | NotFound
      /** A NOT NULL, CHECK (non-negative), UNIQUE or FOREIGN KEY constraint refused a write. */
    | IntegrityError
      /** A decimal with more digits than the column allows. */
    | DecimalOverflow
      /** `.get()` matched several rows. */
    | MultipleObjectsReturned
      /** A delete refused by `on_delete=PROTECT`. */
    | ProtectedError
      /** The code raised before reaching the database: a `FieldError` of a bad
          lookup, a `ValueError` of a wrong relation type or an `AttributeError`. */
    | RaisedBeforeWrite

  // ---------------------------------------------------------------------------
  // Constraints
  // ---------------------------------------------------------------------------

  predicate InCatalog(catalog: map<CatalogKey, CatalogRow>, kind: Catalog, id: int) {
    CatalogKey(kind, id) in catalog
  }

  /** `unique=True` on `name` and `code` of every catalog: two rows of the same
      catalog never share either, active or not. */
  predicate CatalogUnique(catalog: map<CatalogKey, CatalogRow>) {
    forall a, b :: a in catalog && b in catalog && a != b && a.kind == b.kind ==>
      catalog[a].name != catalog[b].name && catalog[a].code != catalog[b].code
  }

  /** The `OneToOneField` to the restaurant. */
  predicate OneDesignPerRestaurant(designs: map<DesignId, Design>) {
    forall d, e :: d in designs && e in designs && d != e ==> designs[d].restaurantId != designs[e].restaurantId
  }

  predicate DesignsValid(db: MenuDb) {
    && OneDesignPerRestaurant(db.designs)
    && (forall d :: d in db.designs ==> db.designs[d].restaurantId in db.restaurants && d as int < db.nextId)
  }

  /** Join rows point at an existing design and an existing target, have a
      non-negative order, and an id below the counter. */
  predicate JoinRowsValid(rows: seq<DesignJoin>, kind: Catalog, db: MenuDb) {
    forall k :: 0 <= k < |rows| ==>
      && rows[k].designId in db.designs
      && InCatalog(db.catalog, kind, rows[k].targetId)
      && rows[k].displayOrder >= 0
      && rows[k].id as int < db.nextId
  }

  predicate ItemValid(it: MenuItem, db: MenuDb) {
    && it.restaurantId in db.restaurants
    && InCatalog(db.catalog, MenuCategories, it.menuCategoryId)
    && (it.spiceLevelId.Some? ==> InCatalog(db.catalog, SpiceLevels, it.spiceLevelId.value))
    && (forall t :: t in it.dietaryRequirements ==> InCatalog(db.catalog, DietaryRequirements, t))
    && (forall t :: t in it.religiousRestrictions ==> InCatalog(db.catalog, ReligiousRestrictions, t))
    && (forall t :: t in it.allergens ==> InCatalog(db.catalog, Allergens, t))
    && it.displayOrder >= 0
  }

  predicate ItemsValid(db: MenuDb) {
    forall i :: i in db.items ==> i as int < db.nextId && ItemValid(db.items[i], db)
  }

  /** `unique_together = ['menu_item', 'portion_size']`. */
  predicate PortionPairsUnique(portions: seq<Portion>) {
    forall j, k :: 0 <= j < k < |portions| ==>
      (portions[j].itemId, portions[j].portionSizeId) != (portions[k].itemId, portions[k].portionSizeId)
  }

  predicate PortionsValid(db: MenuDb) {
    && PortionPairsUnique(db.portions)
    && forall k :: 0 <= k < |db.portions| ==>
         && db.portions[k].itemId in db.items
         && InCatalog(db.catalog, PortionSizes, db.portions[k].portionSizeId)
         && db.portions[k].quantity >= 0
         && db.portions[k].displayOrder >= 0
         && db.portions[k].id as int < db.nextId
  }

  predicate HasPortion(portions: seq<Portion>, id: PortionId) {
    exists k :: 0 <= k < |portions| && portions[k].id == id
  }

  /** `unique_together = ['menu_item', 'portion', 'pricing_title']`: SQL compares
      no NULL with anything, so only rows with both a portion and a title clash. */
  predicate PriceTriplesUnique(prices: seq<Price>) {
    forall j, k :: 0 <= j < k < |prices| && prices[j].portionId.Some? && prices[j].pricingTitleId.Some? ==>
      (prices[j].itemId, prices[j].portionId, prices[j].pricingTitleId)
      != (prices[k].itemId, prices[k].portionId, prices[k].pricingTitleId)
  }

  /** `max_digits=10, decimal_places=2`: at most eight digits before the point. */
  predicate PriceFits(cents: int) {
    -10_000_000_000 < cents < 10_000_000_000
  }

  predicate PricesValid(db: MenuDb) {
    && PriceTriplesUnique(db.prices)
    && forall k :: 0 <= k < |db.prices| ==>
         && db.prices[k].itemId in db.items
         && (db.prices[k].portionId.Some? ==> HasPortion(db.portions, db.prices[k].portionId.value))
         && (db.prices[k].pricingTitleId.Some? ==> InCatalog(db.catalog, PricingTitles, db.prices[k].pricingTitleId.value))
         && PriceFits(db.prices[k].cents)
         && db.prices[k].id as int < db.nextId
  }

  predicate ImagesValid(db: MenuDb) {
    forall k :: 0 <= k < |db.itemImages| ==> db.itemImages[k].itemId in db.items
  }

  predicate CatalogIdsBelow(db: MenuDb) {
    forall k :: k in db.catalog ==> k.id < db.nextId
  }

  /** Every constraint the schema declares, and ids below the counter. */
  predicate ValidDb(db: MenuDb) {
    && CatalogUnique(db.catalog)
    && CatalogIdsBelow(db)
    && DesignsValid(db)
    && JoinRowsValid(db.designCategories, MenuCategories, db)
    && JoinRowsValid(db.designPricings, PricingTitles, db)
    && ItemsValid(db)
    && PortionsValid(db)
    && PricesValid(db)
    && ImagesValid(db)
  }

  /** `MinValueValidator(2)` and `MaxValueValidator(100)` on a portion's
      quantity. Model validation runs them; `objects.create` does not. */
  predicate QuantityValidatorAccepts(q: int) {
    2 <= q <= 100
  }

  /** The designs of a restaurant (`MenuDesign.objects.filter(restaurant_id=...)`),
      active or not. */
  function DesignsOf(designs: map<DesignId, Design>, restaurantId: int): (r: set<DesignId>)
    ensures forall d :: d in r <==> d in designs && designs[d].restaurantId == restaurantId
  {
    set d | d in designs && designs[d].restaurantId == restaurantId
  }

  /** Some element of a non-empty set of designs. */
  ghost function PickDesign(s: set<DesignId>): (d: DesignId)
    requires s != {}
    ensures d in s
  {
    assert exists e :: e in s by {
      if forall e :: e !in s { assert false; }
    }
    var d :| d in s; d
  }

  /** The one-to-one relation leaves a restaurant at most one design. */
  lemma AtMostOneDesign(designs: map<DesignId, Design>, restaurantId: int)
    requires OneDesignPerRestaurant(designs)
    ensures |DesignsOf(designs, restaurantId)| <= 1
  {
    var r := DesignsOf(designs, restaurantId);
    if |r| > 1 {
      var d := PickDesign(r);
      assert |r - {d}| == |r| - 1;
      var e := PickDesign(r - {d});
      assert false;
    }
  }
}
