/**
 * The menus API (menus/api.py) as methods of one object that holds the menu
 * tables and updates them in place, statement by statement, as the endpoints
 * do. Each method is proved to leave the tables as the matching function of
 * MenuCatalogs, MenuDesigns or MenuItems says, and to keep every schema
 * constraint; the properties of those functions are proved beside them.
 */
module MenuApi {
  import opened Wrappers
  import opened Sets
  import opened Text
  import opened MenuSchema
  import opened MenuCatalogs
  import opened MenuDesigns
  import opened MenuItems

  /** One more row extends the listing by its entry, if its target exists. */
  lemma TargetsSnoc(rows: seq<DesignJoin>, row: DesignJoin, catalog: map<CatalogKey, CatalogRow>, kind: Catalog)
    ensures Targets(rows + [row], catalog, kind)
            == Targets(rows, catalog, kind)
               + if InCatalog(catalog, kind, row.targetId) then [(row.targetId, catalog[CatalogKey(kind, row.targetId)].name)] else []
  {
    assert (rows + [row])[..|rows|] == rows;
  }

  /** The loop body of the listing: the entry of a row whose target is
      missing is skipped. */
  method TargetsOf(sorted: seq<DesignJoin>, catalog: map<CatalogKey, CatalogRow>, kind: Catalog) returns (out: seq<(int, string)>)
    ensures out == Targets(sorted, catalog, kind)
  {
    out := [];
    var i := 0;
    while i < |sorted|
      invariant 0 <= i <= |sorted|
      invariant out == Targets(sorted[..i], catalog, kind)
    {
      assert sorted[..i + 1] == sorted[..i] + [sorted[i]];
      TargetsSnoc(sorted[..i], sorted[i], catalog, kind);
      var row := sorted[i];
      if CatalogKey(kind, row.targetId) in catalog {
        out := out + [(row.targetId, catalog[CatalogKey(kind, row.targetId)].name)];
      }
      i := i + 1;
    }
    assert sorted[..i] == sorted;
  }

  class MenuStore {
    var restaurants: set<int>
    var catalog: map<CatalogKey, CatalogRow>
    var designs: map<DesignId, Design>
    var designCategories: seq<DesignJoin>
    var designPricings: seq<DesignJoin>
    var items: map<ItemId, MenuItem>
    var portions: seq<Portion>
    var prices: seq<Price>
    var itemImages: seq<ItemImage>
    var nextId: int

    /** The tables as one value. */
    function State(): MenuDb
      reads this
    {
      MenuDb(restaurants, catalog, designs, designCategories, designPricings,
             items, portions, prices, itemImages, nextId)
    }

    constructor (db: MenuDb)
      ensures State() == db
    {
      restaurants, catalog, designs := db.restaurants, db.catalog, db.designs;
      designCategories, designPricings := db.designCategories, db.designPricings;
      items, portions, prices, itemImages := db.items, db.portions, db.prices, db.itemImages;
      nextId := db.nextId;
    }

    // -------------------------------------------------------------------------
    // Catalogs
    // -------------------------------------------------------------------------

    /** `objects.create(...)` of a catalog row. */
    method CreateCatalogRow(kind: Catalog, input: CatalogInput) returns (r: Result<int, Failure>)
      requires ValidDb(State())
      modifies this`catalog, this`nextId
      ensures (r, State()) == CreateCatalogRowSpec(old(State()), kind, input)
      ensures ValidDb(State())
    {
      ghost var db0 := State();
      r := InsertCatalogRow(kind, input);
      CreateCatalogRowPreservesValid(db0, kind, input);
    }

    /** The insert under the next id, with `save()` filling a blank code
        from the name first. */
    method InsertCatalogRow(kind: Catalog, input: CatalogInput) returns (r: Result<int, Failure>)
      requires CatalogIdsBelow(State())
      modifies this`catalog, this`nextId
      ensures (r, State()) == CreateCatalogRowSpec(old(State()), kind, input)
    {
      ghost var db0 := State();
      assert CatalogKey(kind, nextId) !in catalog;
      var code := input.code;
      if SlugDefaulted(kind) && code == [] {
        code := Slugify(input.name);
      }
      assert code == StoredCode(kind, input.name, input.code);
      if RowRefused(kind, input) || Clashes(catalog, kind, input.name, code) {
        assert SaveCatalogRow(db0.catalog, kind, db0.nextId, input) == Err(IntegrityError);
        return Err(IntegrityError);
      }
      var row := CatalogRow(
        input.name, code, input.description.value,
        if HasNotes(kind) then input.specialNotes.value else "",
        if HasDisplayOrder(kind) then input.displayOrder else 0,
        input.isActive);
      catalog := catalog[CatalogKey(kind, nextId) := row];
      assert SaveCatalogRow(db0.catalog, kind, db0.nextId, input) == Ok(catalog);
      r := Ok(nextId);
      nextId := nextId + 1;
    }

    /** `row.delete()` of a catalog row, with the referential actions of the
        foreign keys that point at it. */
    method DeleteCatalogRow(key: CatalogKey) returns (r: Result<(), Failure>)
      requires ValidDb(State())
      modifies this`catalog, this`items
      ensures (r, State()) == DeleteCatalogRowSpec(old(State()), key)
      ensures ValidDb(State())
    {
      ghost var db0 := State();
      if key !in catalog {
        r := Err(NotFound);
      } else if Protected(State(), key) {
        r := Err(ProtectedError);
      } else {
        items := map i | i in items :: Detach(items[i], key);
        catalog := catalog - {key};
        r := Ok(());
      }
      assert (r, State()) == DeleteCatalogRowSpec(db0, key);
      DeleteCatalogRowPreservesValid(db0, key);
    }

    // -------------------------------------------------------------------------
    // Designs
    // -------------------------------------------------------------------------

    /** `create_menu_design`: the design, then one loop per section, each
        entry looked up and written before the next. */
    method CreateDesign(input: DesignInput) returns (r: Result<DesignId, Failure>)
      requires ValidDb(State())
      modifies this`designs, this`designCategories, this`designPricings, this`nextId
      ensures (r, State()) == CreateDesignSpec(old(State()), input)
      ensures ValidDb(State())
    {
      ghost var db0 := State();
      r := InsertDesign(input);
      CreateDesignPreservesValid(db0, input);
    }

    /** The writes of `create_menu_design`, on whatever the tables hold. */
    method InsertDesign(input: DesignInput) returns (r: Result<DesignId, Failure>)
      modifies this`designs, this`designCategories, this`designPricings, this`nextId
      ensures (r, State()) == CreateDesignSpec(old(State()), input)
    {
      ghost var db0 := State();
      if input.restaurantId !in restaurants {
        r := Err(NotFound);
      } else if DesignsOf(designs, input.restaurantId) != {} {
        r := Err(IntegrityError);
      } else {
        var d := nextId as DesignId;
        designs := designs[d := Design(input.restaurantId, input.isMultiplePricing, true)];
        nextId := nextId + 1;
        r := AddDesignRows(d, input);
      }
      assert (r, State()) == CreateDesignSpec(db0, input);
    }

    /** The two loops of `create_menu_design`, once the design exists. */
    method AddDesignRows(d: DesignId, input: DesignInput) returns (r: Result<DesignId, Failure>)
      modifies this`designCategories, this`designPricings, this`nextId
      ensures var step1 := JoinStep(old(State()), d, MenuCategories, input.categories);
              (r, State()) ==
                if step1.0.Some? then (Err(step1.0.value), step1.1)
                else if PricingRequested(input) then
                  var step2 := JoinStep(step1.1, d, PricingTitles, input.pricingTitles.value);
                  if step2.0.Some? then (Err(step2.0.value), step2.1) else (Ok(d), step2.1)
                else (Ok(d), step1.1)
    {
      var failure := AddCategoryRows(d, input.categories);
      if failure.Some? {
        return Err(failure.value);
      }
      if input.isMultiplePricing && input.pricingTitles.Some? && |input.pricingTitles.value| > 0 {
        failure := AddPricingRows(d, input.pricingTitles.value);
        if failure.Some? {
          return Err(failure.value);
        }
      }
      r := Ok(d);
    }

    /** The category loop of `create_menu_design`. */
    method AddCategoryRows(d: DesignId, entries: seq<JoinEntry>) returns (failure: Option<Failure>)
      modifies this`designCategories, this`nextId
      ensures (failure, State()) == JoinStep(old(State()), d, MenuCategories, entries)
    {
      ghost var db0 := State();
      var i := 0;
      while i < |entries|
        invariant 0 <= i <= |entries|
        invariant State() == db0.(designCategories := designCategories, nextId := nextId)
        invariant AddJoinRows(designCategories, nextId, catalog, MenuCategories, d, entries, i)
                  == AddJoinRows(db0.designCategories, db0.nextId, db0.catalog, MenuCategories, d, entries, 0)
      {
        failure := EntryFailure(catalog, MenuCategories, entries[i]);
        if failure.Some? {
          return;
        }
        designCategories := designCategories + [JoinRow(nextId, d, entries[i])];
        nextId := nextId + 1;
        i := i + 1;
      }
      failure := None;
    }

    /** The pricing loop of `create_menu_design`. */
    method AddPricingRows(d: DesignId, entries: seq<JoinEntry>) returns (failure: Option<Failure>)
      modifies this`designPricings, this`nextId
      ensures (failure, State()) == JoinStep(old(State()), d, PricingTitles, entries)
    {
      ghost var db0 := State();
      var i := 0;
      while i < |entries|
        invariant 0 <= i <= |entries|
        invariant State() == db0.(designPricings := designPricings, nextId := nextId)
        invariant AddJoinRows(designPricings, nextId, catalog, PricingTitles, d, entries, i)
                  == AddJoinRows(db0.designPricings, db0.nextId, db0.catalog, PricingTitles, d, entries, 0)
      {
        failure := EntryFailure(catalog, PricingTitles, entries[i]);
        if failure.Some? {
          return;
        }
        designPricings := designPricings + [JoinRow(nextId, d, entries[i])];
        nextId := nextId + 1;
        i := i + 1;
      }
      failure := None;
    }

    /** `get_restaurant_menu_design`. */
    method GetDesign(restaurantId: int) returns (r: Result<DesignOut, Failure>)
      ensures r == GetDesignSpec(State(), restaurantId)
    {
      var found := ActiveDesignsOf(designs, restaurantId);
      if found == {} {
        return Err(NotFound);
      }
      if |found| > 1 {
        return Err(MultipleObjectsReturned);
      }
      assert exists e :: e in found by {
        if forall e :: e !in found { assert false; }
      }
      var d :| d in found;
      SingletonOf(found, d);
      var categories := ListTargets(designCategories, d, MenuCategories);
      var pricingTitles := ListTargets(designPricings, d, PricingTitles);
      r := Ok(DesignOut(d, designs[d].isMultiplePricing, categories, pricingTitles));
    }

    /** One of the two append loops of `get_restaurant_menu_design`: a row
        whose target is missing is skipped. */
    method ListTargets(rows: seq<DesignJoin>, d: DesignId, kind: Catalog) returns (out: seq<(int, string)>)
      ensures out == Listing(rows, d, catalog, kind)
    {
      var sorted := SortByOrder(RowsOf(rows, d));
      out := TargetsOf(sorted, catalog, kind);
    }

    /** `update_category_order` (`kind == MenuCategories`) and
        `update_pricing_order` (`kind == PricingTitles`): one `update()` per
        payload entry. */
    method Reorder(restaurantId: int, kind: Catalog, entries: seq<OrderEntry>) returns (r: Result<seq<DesignJoin>, Failure>)
      requires kind == MenuCategories || kind == PricingTitles
      requires ValidDb(State())
      modifies this`designCategories, this`designPricings
      ensures (r, State()) == ReorderSpec(old(State()), restaurantId, kind, entries)
      ensures ValidDb(State())
    {
      ghost var db0 := State();
      r := ReorderDesignRows(restaurantId, kind, entries);
      ReorderPreservesValid(db0, restaurantId, kind, entries);
    }

    /** The reorder itself, on whatever the tables hold. */
    method ReorderDesignRows(restaurantId: int, kind: Catalog, entries: seq<OrderEntry>) returns (r: Result<seq<DesignJoin>, Failure>)
      requires kind == MenuCategories || kind == PricingTitles
      modifies this`designCategories, this`designPricings
      ensures (r, State()) == ReorderSpec(old(State()), restaurantId, kind, entries)
    {
      ghost var db0 := State();
      var found := DesignsOf(designs, restaurantId);
      if found == {} {
        r := Err(NotFound);
      } else if |found| > 1 {
        r := Err(MultipleObjectsReturned);
      } else {
        assert exists e :: e in found by {
          if forall e :: e !in found { assert false; }
        }
        var d :| d in found;
        SingletonOf(found, d);
        var table := if kind == MenuCategories then designCategories else designPricings;
        var ok;
        table, ok := ReorderTable(table, d, entries);
        if kind == MenuCategories {
          designCategories := table;
        } else {
          designPricings := table;
        }
        r := if ok then Ok(SortByOrder(RowsOf(table, d))) else Err(IntegrityError);
      }
      assert (r, State()) == ReorderSpec(db0, restaurantId, kind, entries);
    }

    /** The `filter().update()` loop of the reorder endpoints, on the rows of
        one join table: the first update the CHECK constraint refuses ends it. */
    method ReorderTable(table: seq<DesignJoin>, d: DesignId, entries: seq<OrderEntry>) returns (rows: seq<DesignJoin>, ok: bool)
      ensures (rows, ok) == ReorderFrom(table, d, entries, 0)
    {
      rows := table;
      var i := 0;
      while i < |entries|
        invariant 0 <= i <= |entries|
        invariant ReorderFrom(rows, d, entries, i) == ReorderFrom(table, d, entries, 0)
      {
        var e := entries[i];
        if Matches(rows, d, e.targetId) && e.displayOrder < 0 {
          return rows, false;
        }
        rows := SetOrder(rows, d, e.targetId, e.displayOrder);
        i := i + 1;
      }
      ok := true;
    }

    /** `design.delete()`. */
    method DeleteDesign(d: DesignId) returns (r: Result<(), Failure>)
      requires ValidDb(State())
      modifies this`designs, this`designCategories, this`designPricings
      ensures (r, State()) == DeleteDesignSpec(old(State()), d)
      ensures ValidDb(State())
    {
      ghost var db0 := State();
      if d !in designs {
        r := Err(NotFound);
      } else {
        designs := designs - {d};
        designCategories := RowsNotOf(designCategories, d);
        designPricings := RowsNotOf(designPricings, d);
        r := Ok(());
      }
      assert (r, State()) == DeleteDesignSpec(db0, d);
      DeleteDesignPreservesValid(db0, d);
    }

    // -------------------------------------------------------------------------
    // Items
    // -------------------------------------------------------------------------

    /** `create_menu_item` with the menu category taken from the
        design-category row the request names. */
    method CreateItem(input: ItemInput) returns (r: Result<ItemId, Failure>)
      requires ValidDb(State())
      modifies this`items, this`portions, this`prices, this`nextId
      ensures (r, State()) == CreateItemSpec(old(State()), input)
      ensures ValidDb(State())
    {
      ghost var db0 := State();
      var row := FindJoinRow(designCategories, input.menuCategoryId);
      if input.restaurantId !in restaurants || row.None? {
        r := Err(NotFound);
      } else if ItemRefused(catalog, input) {
        r := Err(IntegrityError);
      } else {
        var id := nextId as ItemId;
        items := items[id := NewItem(input, row.value.targetId)];
        nextId := nextId + 1;
        assert State() == InsertItem(db0, input, row.value.targetId);
        var failure := FillNewItem(id, input);
        r := if failure.Some? then Err(failure.value) else Ok(id);
      }
      assert (r, State()) == CreateItemSpec(db0, input);
      CreateItemPreservesValid(db0, input);
    }

    /** What `create_menu_item` does once the item exists: its tags, its
        portions, its prices. */
    method FillNewItem(id: ItemId, input: ItemInput) returns (failure: Option<Failure>)
      requires id in items
      modifies this`items, this`portions, this`prices, this`nextId
      ensures (failure, State()) == FillItem(old(State()), id, input)
    {
      ghost var db1 := State();
      failure := SetRelation(id, DietaryRequirements, input.dietaryRequirementIds);
      if failure.Some? {
        return;
      }
      failure := SetRelation(id, ReligiousRestrictions, input.religiousRestrictionIds);
      if failure.Some? {
        return;
      }
      failure := SetRelation(id, Allergens, input.allergenIds);
      if failure.Some? {
        return;
      }
      ghost var db2 := State();
      assert TagAll(db1, id, input) == (None, db2);
      if input.hasMultiplePortions && input.portions.Some? && |input.portions.value| > 0 {
        var ok := AddPortionRows(id, input.portions.value);
        if !ok {
          return Some(IntegrityError);
        }
      }
      ghost var db3 := State();
      assert PortionStep(db2, id, input) == (true, db3);
      failure := AddPriceRows(id, input.prices);
    }

    /** `if ids: item.<relation>.set(ids)`. */
    method SetRelation(id: ItemId, kind: Catalog, ids: Option<seq<int>>) returns (failure: Option<Failure>)
      requires id in items && IsTagKind(kind)
      modifies this`items
      ensures (failure, State()) == TagStep(old(State()), id, kind, ids)
    {
      if ids.Some? && |ids.value| > 0 {
        if !(forall t :: t in ids.value ==> CatalogKey(kind, t) in catalog) {
          return Some(IntegrityError);
        }
        items := items[id := WithTags(items[id], kind, set t | t in ids.value)];
      }
      failure := None;
    }

    /** The portion loop of `create_menu_item`. */
    method AddPortionRows(id: ItemId, entries: seq<PortionEntry>) returns (ok: bool)
      modifies this`portions, this`nextId
      ensures var a := AddPortions(old(portions), old(nextId), catalog, id, entries, 0);
              ok == a.2 && State() == old(State()).(portions := a.0, nextId := a.1)
    {
      ghost var db0 := State();
      var i := 0;
      while i < |entries|
        invariant 0 <= i <= |entries|
        invariant State() == db0.(portions := portions, nextId := nextId)
        invariant AddPortions(portions, nextId, catalog, id, entries, i)
                  == AddPortions(db0.portions, db0.nextId, catalog, id, entries, 0)
      {
        if PortionRefused(portions, catalog, id, entries[i]) {
          return false;
        }
        portions := portions + [PortionRow(nextId, id, entries[i])];
        nextId := nextId + 1;
        i := i + 1;
      }
      ok := true;
    }

    /** The price loop of `create_menu_item`. */
    method AddPriceRows(id: ItemId, entries: seq<PriceEntry>) returns (failure: Option<Failure>)
      modifies this`prices, this`nextId
      ensures (failure, State()) == PriceStep(old(State()), id, entries)
    {
      ghost var db0 := State();
      var i := 0;
      while i < |entries|
        invariant 0 <= i <= |entries|
        invariant State() == db0.(prices := prices, nextId := nextId)
        invariant AddPrices(prices, portions, nextId, catalog, id, entries, i)
                  == AddPrices(db0.prices, portions, db0.nextId, catalog, id, entries, 0)
      {
        failure := PriceFailure(prices, portions, catalog, id, entries[i]);
        if failure.Some? {
          return;
        }
        prices := prices + [PriceRow(nextId, id, entries[i])];
        nextId := nextId + 1;
        i := i + 1;
      }
      failure := None;
    }

    /** `update_menu_item` with each `_ids` key mapped to its plural relation:
        a relation is written when its key is reached, the columns when the
        loop is over. */
    method UpdateItem(id: ItemId, payload: seq<Assignment>) returns (r: Result<MenuItem, Failure>)
      requires ValidDb(State())
      modifies this`items
      ensures (r, State()) == UpdateItemSpec(old(State()), id, payload)
      ensures ValidDb(State())
    {
      ghost var db0 := State();
      if id !in items {
        r := Err(NotFound);
      } else {
        var d := AssignPayload(id, payload);
        if d.Err? {
          r := Err(d.error);
        } else if SaveRefused(catalog, d.value) {
          r := Err(IntegrityError);
        } else {
          var saved := Saved(d.value, items[id]);
          items := items[id := saved];
          r := Ok(saved);
        }
      }
      assert (r, State()) == UpdateItemSpec(db0, id, payload);
      UpdateItemPreservesValid(db0, id, payload);
    }

    /** The `setattr` loop of `update_menu_item`. */
    method AssignPayload(id: ItemId, payload: seq<Assignment>) returns (r: Result<Draft, Failure>)
      requires id in items
      modifies this`items
      ensures (r, State()) == AssignAll(old(State()), id, Draft(old(items)[id], {}), payload, 0)
    {
      ghost var db0 := State();
      var d := Draft(items[id], {});
      var i := 0;
      while i < |payload|
        invariant 0 <= i <= |payload|
        invariant id in items && State() == db0.(items := items)
        invariant AssignAll(State(), id, d, payload, i) == AssignAll(db0, id, Draft(db0.items[id], {}), payload, 0)
      {
        var a := payload[i];
        if IsRelationKey(a) {
          var ids := IdsOf(a);
          if ids.None? {
            return Err(RaisedBeforeWrite);
          }
          if !(forall t :: t in ids.value ==> CatalogKey(RelationOf(a), t) in catalog) {
            return Err(IntegrityError);
          }
          items := items[id := WithTags(items[id], RelationOf(a), set t | t in ids.value)];
        } else {
          d := AssignScalar(d, a);
        }
        i := i + 1;
      }
      r := Ok(d);
    }

    /** `delete_menu_item`: the cascade takes the item's portions, prices and
        images, and the prices naming those portions. */
    method DeleteItem(id: ItemId) returns (r: Result<(), Failure>)
      requires ValidDb(State())
      modifies this`items, this`portions, this`prices, this`itemImages
      ensures (r, State()) == DeleteItemSpec(old(State()), id)
      ensures ValidDb(State())
    {
      ghost var db0 := State();
      if id !in items {
        r := Err(NotFound);
      } else {
        RemoveItemRows(id);
        r := Ok(());
      }
      assert (r, State()) == DeleteItemSpec(db0, id);
      DeleteItemPreservesValid(db0, id);
    }

    /** The rows the delete collects: the item, the prices of the item or of
        its portions, its portions and its images. */
    method RemoveItemRows(id: ItemId)
      modifies this`items, this`portions, this`prices, this`itemImages
      ensures State() == WithoutItem(old(State()), id)
    {
      var next := WithoutItem(State(), id);
      items := next.items;
      portions := next.portions;
      prices := next.prices;
      itemImages := next.itemImages;
    }

    /** `update_menu_item_order`. */
    method UpdateItemOrder(id: ItemId, order: int) returns (r: Result<MenuItem, Failure>)
      requires ValidDb(State())
      modifies this`items
      ensures (r, State()) == UpdateItemOrderSpec(old(State()), id, order)
      ensures ValidDb(State())
    {
      ghost var db0 := State();
      if id !in items {
        r := Err(NotFound);
      } else if order < 0 {
        r := Err(IntegrityError);
      } else {
        var it := items[id].(displayOrder := order);
        items := items[id := it];
        r := Ok(it);
      }
      assert (r, State()) == UpdateItemOrderSpec(db0, id, order);
      UpdateItemOrderPreservesValid(db0, id, order);
    }
  }
}
