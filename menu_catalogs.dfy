/**
 * The seven lookup catalogs: creating a row (`save()` with its slug default
 * and the columns' constraints), the list and detail endpoints for menu
 * categories and pricing titles, and deleting a row with the referential
 * action each foreign key declares.
 */
module MenuCatalogs {
  import opened Wrappers
  import opened Text
  import opened MenuSchema

  /** The catalogs whose `save()` fills a blank code with the slug of the name. */
  predicate SlugDefaulted(kind: Catalog) {
    kind == MenuCategories || kind == PricingTitles || kind == SpiceLevels
  }

  /** Only menu categories have a `special_notes` column. */
  predicate HasNotes(kind: Catalog) {
    kind == MenuCategories
  }

  /** The catalogs with a `display_order` column (a `PositiveIntegerField`). */
  predicate HasDisplayOrder(kind: Catalog) {
    kind == PricingTitles || kind == SpiceLevels || kind == DietaryRequirements || kind == PortionSizes
  }

  /** The fields a create passes. The text fields the API schemas make optional
      arrive as `None` when omitted. */
  datatype CatalogInput = CatalogInput(
    name: string,
    code: string,
    description: Option<string>,
    specialNotes: Option<string>,
    displayOrder: int,
    isActive: bool)

  /** `create_category`'s payload: the schema has no code field. */
  function CategoryCreate(name: string, description: Option<string>, specialNotes: Option<string>, isActive: bool): CatalogInput {
    CatalogInput(name, "", description, specialNotes, 0, isActive)
  }

  /** `create_pricing_title`'s payload. */
  function PricingTitleCreate(name: string, description: Option<string>, displayOrder: int, isActive: bool): CatalogInput {
    CatalogInput(name, "", description, None, displayOrder, isActive)
  }

  /** The code `save()` stores. */
  function StoredCode(kind: Catalog, name: string, code: string): string {
    if SlugDefaulted(kind) && code == [] then Slugify(name) else code
  }

  /** Whether some other row of the catalog already holds this name or code. */
  predicate Clashes(catalog: map<CatalogKey, CatalogRow>, kind: Catalog, name: string, code: string) {
    exists k :: k in catalog && k.kind == kind && (catalog[k].name == name || catalog[k].code == code)
  }

  /** Whether the insert breaks a NOT NULL or CHECK constraint of the row itself. */
  predicate RowRefused(kind: Catalog, input: CatalogInput) {
    || input.description.None?
    || (HasNotes(kind) && input.specialNotes.None?)
    || (HasDisplayOrder(kind) && input.displayOrder < 0)
  }

  /** `objects.create(...)` of a catalog row under the fresh id `id`. */
  function SaveCatalogRow(catalog: map<CatalogKey, CatalogRow>, kind: Catalog, id: int, input: CatalogInput)
    : (r: Result<map<CatalogKey, CatalogRow>, Failure>)
    requires CatalogKey(kind, id) !in catalog
    // refused exactly when a constraint fails, and then always as an integrity error
    ensures r.Err? <==> RowRefused(kind, input) || Clashes(catalog, kind, input.name, StoredCode(kind, input.name, input.code))
    ensures r.Err? ==> r.error == IntegrityError
    // on success exactly one row is added, holding what was given
    ensures r.Ok? ==> r.value.Keys == catalog.Keys + {CatalogKey(kind, id)}
    ensures r.Ok? ==> forall k :: k in catalog ==> r.value[k] == catalog[k]
    ensures r.Ok? ==> var row := r.value[CatalogKey(kind, id)];
              && row.name == input.name && row.description == input.description.value
              && row.isActive == input.isActive
              && (HasNotes(kind) ==> row.specialNotes == input.specialNotes.value)
              && (HasDisplayOrder(kind) ==> row.displayOrder == input.displayOrder)
    // names and codes stay unique within the catalog
    ensures r.Ok? && CatalogUnique(catalog) ==> CatalogUnique(r.value)
  {
    var code := StoredCode(kind, input.name, input.code);
    if RowRefused(kind, input) || Clashes(catalog, kind, input.name, code) then Err(IntegrityError)
    else
      var row := CatalogRow(
        input.name, code, input.description.value,
        if HasNotes(kind) then input.specialNotes.value else "",
        if HasDisplayOrder(kind) then input.displayOrder else 0,
        input.isActive);
      Ok(catalog[CatalogKey(kind, id) := row])
  }

  /** `create_category`, `create_pricing_title` and the admin's create for the
      other catalogs: the row takes the next id, and a refused insert changes
      nothing. */
  function CreateCatalogRowSpec(db: MenuDb, kind: Catalog, input: CatalogInput): (r: (Result<int, Failure>, MenuDb))
    requires CatalogIdsBelow(db)
    ensures r.0.Err? ==> r == (Err(IntegrityError), db)
    ensures r.0.Ok? <==> SaveCatalogRow(db.catalog, kind, db.nextId, input).Ok?
    ensures r.0.Ok? ==> && r.0.value == db.nextId
                        && r.1 == db.(catalog := SaveCatalogRow(db.catalog, kind, db.nextId, input).value, nextId := db.nextId + 1)
  {
    assert CatalogKey(kind, db.nextId) !in db.catalog;
    var saved := SaveCatalogRow(db.catalog, kind, db.nextId, input);
    if saved.Err? then (Err(saved.error), db)
    else (Ok(db.nextId), db.(catalog := saved.value, nextId := db.nextId + 1))
  }

  /** A new catalog row keeps every constraint: existing references stay
      valid and the new id is below the counter. */
  lemma CreateCatalogRowPreservesValid(db: MenuDb, kind: Catalog, input: CatalogInput)
    requires ValidDb(db)
    ensures ValidDb(CreateCatalogRowSpec(db, kind, input).1)
  {
    var r := CreateCatalogRowSpec(db, kind, input);
    if r.0.Ok? {
      CatalogGrowthKeepsValid(db, r.1);
    }
  }

  /** References into the catalog survive when rows are only added. */
  lemma CatalogGrowthKeepsValid(db: MenuDb, db': MenuDb)
    requires ValidDb(db)
    requires db' == db.(catalog := db'.catalog, nextId := db'.nextId)
    requires db.catalog.Keys <= db'.catalog.Keys && db'.nextId >= db.nextId
    requires CatalogUnique(db'.catalog) && CatalogIdsBelow(db')
    ensures ValidDb(db')
  {
    assert DesignsValid(db');
    assert JoinRowsValid(db'.designCategories, MenuCategories, db');
    assert JoinRowsValid(db'.designPricings, PricingTitles, db');
    assert ItemsValid(db') by {
      forall i | i in db'.items ensures i as int < db'.nextId && ItemValid(db'.items[i], db') {
        assert ItemValid(db.items[i], db);
      }
    }
    assert PortionsValid(db');
    assert PricesValid(db');
  }

  /** A blank code becomes the slug of the name in the three catalogs whose
      `save()` says so, and stays blank in the four others. */
  lemma CodeDefaultsToSlug(catalog: map<CatalogKey, CatalogRow>, kind: Catalog, id: int, input: CatalogInput)
    requires CatalogKey(kind, id) !in catalog && input.code == []
    requires SaveCatalogRow(catalog, kind, id, input).Ok?
    ensures var row := SaveCatalogRow(catalog, kind, id, input).value[CatalogKey(kind, id)];
            && (SlugDefaulted(kind) ==> row.code == Slugify(input.name))
            && (!SlugDefaulted(kind) ==> row.code == [])
  {
  }

  /** In a catalog without the slug default, a blank code is a value like any
      other: once one row holds it, a second blank-coded row is refused. */
  lemma SecondBlankCodeRefused(catalog: map<CatalogKey, CatalogRow>, kind: Catalog, id: int, input: CatalogInput, holder: CatalogKey)
    requires !SlugDefaulted(kind) && input.code == []
    requires CatalogKey(kind, id) !in catalog
    requires holder in catalog && holder.kind == kind && catalog[holder].code == []
    ensures SaveCatalogRow(catalog, kind, id, input) == Err(IntegrityError)
  {
  }

  /** `create_category` with the schema's defaults for `description` and
      `special_notes` (both `None`) is refused by the NOT NULL text columns. */
  lemma CategoryWithDefaultsRefused(catalog: map<CatalogKey, CatalogRow>, id: int, name: string, isActive: bool)
    requires CatalogKey(MenuCategories, id) !in catalog
    ensures SaveCatalogRow(catalog, MenuCategories, id, CategoryCreate(name, None, None, isActive)) == Err(IntegrityError)
  {
  }

  /** A pricing title needs a description but no notes: with a description and a
      non-negative order, only a clash of name or slug can refuse it. */
  lemma PricingTitleNeedsOnlyDescription(catalog: map<CatalogKey, CatalogRow>, id: int, name: string, description: string, displayOrder: int, isActive: bool)
    requires CatalogKey(PricingTitles, id) !in catalog && displayOrder >= 0
    ensures SaveCatalogRow(catalog, PricingTitles, id, PricingTitleCreate(name, Some(description), displayOrder, isActive)).Err?
            <==> Clashes(catalog, PricingTitles, name, Slugify(name))
  {
  }

  // ---------------------------------------------------------------------------
  // Queries
  // ---------------------------------------------------------------------------

  /** `list_categories` / `list_pricing_titles`: the ids of the active rows. */
  function ActiveIds(catalog: map<CatalogKey, CatalogRow>, kind: Catalog): (r: set<int>)
    ensures forall id :: id in r ==> InCatalog(catalog, kind, id) && catalog[CatalogKey(kind, id)].isActive
    ensures forall k :: k in catalog && k.kind == kind && catalog[k].isActive ==> k.id in r
  {
    set k | k in catalog && k.kind == kind && catalog[k].isActive :: k.id
  }

  /** `get_category` / `get_pricing_title`: found by id whether active or not. */
  function GetCatalogRow(catalog: map<CatalogKey, CatalogRow>, kind: Catalog, id: int): (r: Result<CatalogRow, Failure>)
    ensures r.Ok? <==> InCatalog(catalog, kind, id)
    ensures r.Ok? ==> r.value == catalog[CatalogKey(kind, id)]
    ensures r.Err? ==> r.error == NotFound
  {
    if CatalogKey(kind, id) in catalog then Ok(catalog[CatalogKey(kind, id)]) else Err(NotFound)
  }

  /** An inactive row drops out of the list yet stays reachable by id. */
  lemma InactiveListedNowhereButFound(catalog: map<CatalogKey, CatalogRow>, kind: Catalog, id: int)
    requires InCatalog(catalog, kind, id) && !catalog[CatalogKey(kind, id)].isActive
    ensures id !in ActiveIds(catalog, kind)
    ensures GetCatalogRow(catalog, kind, id) == Ok(catalog[CatalogKey(kind, id)])
  {
  }

  // ---------------------------------------------------------------------------
  // Deletion
  // ---------------------------------------------------------------------------

  /** Whether a row that `on_delete=PROTECT` guards still references the key. */
  predicate Protected(db: MenuDb, key: CatalogKey) {
    match key.kind
    case MenuCategories =>
      || (exists k :: 0 <= k < |db.designCategories| && db.designCategories[k].targetId == key.id)
      || (exists i :: i in db.items && db.items[i].menuCategoryId == key.id)
    case PricingTitles =>
      || (exists k :: 0 <= k < |db.designPricings| && db.designPricings[k].targetId == key.id)
      || (exists k :: 0 <= k < |db.prices| && db.prices[k].pricingTitleId == Some(key.id))
    case PortionSizes =>
      exists k :: 0 <= k < |db.portions| && db.portions[k].portionSizeId == key.id
    case _ => false
  }

  /** The item after its reference to a deleted catalog row is dropped: the
      spice level is set to NULL, a many-to-many link is removed. */
  function Detach(it: MenuItem, key: CatalogKey): (r: MenuItem)
    // only the reference columns may change
    ensures r == it.(spiceLevelId := r.spiceLevelId, dietaryRequirements := r.dietaryRequirements,
                     religiousRestrictions := r.religiousRestrictions, allergens := r.allergens)
    // the spice level becomes NULL exactly when it named the deleted row
    ensures r.spiceLevelId == (if key.kind == SpiceLevels && it.spiceLevelId == Some(key.id) then None else it.spiceLevelId)
    // a many-to-many relation of the deleted row's catalog loses that id and no other
    ensures key.kind == DietaryRequirements ==>
              key.id !in r.dietaryRequirements && (forall x :: x in it.dietaryRequirements && x != key.id <==> x in r.dietaryRequirements)
    ensures key.kind == ReligiousRestrictions ==>
              key.id !in r.religiousRestrictions && (forall x :: x in it.religiousRestrictions && x != key.id <==> x in r.religiousRestrictions)
    ensures key.kind == Allergens ==>
              key.id !in r.allergens && (forall x :: x in it.allergens && x != key.id <==> x in r.allergens)
    // relations of other catalogs are untouched
    ensures key.kind != DietaryRequirements ==> r.dietaryRequirements == it.dietaryRequirements
    ensures key.kind != ReligiousRestrictions ==> r.religiousRestrictions == it.religiousRestrictions
    ensures key.kind != Allergens ==> r.allergens == it.allergens
  {
    match key.kind
    case SpiceLevels => if it.spiceLevelId == Some(key.id) then it.(spiceLevelId := None) else it
    case DietaryRequirements => it.(dietaryRequirements := it.dietaryRequirements - {key.id})
    case ReligiousRestrictions => it.(religiousRestrictions := it.religiousRestrictions - {key.id})
    case Allergens => it.(allergens := it.allergens - {key.id})
    case _ => it
  }

  /** `row.delete()` of a catalog row. */
  function DeleteCatalogRowSpec(db: MenuDb, key: CatalogKey): (r: (Result<(), Failure>, MenuDb))
    ensures key !in db.catalog ==> r == (Err(NotFound), db)
    // a protected row stays, and nothing changes
    ensures key in db.catalog && Protected(db, key) ==> r == (Err(ProtectedError), db)
    // otherwise the row goes; only items change besides it
    ensures r.0.Ok? <==> key in db.catalog && !Protected(db, key)
    ensures r.0.Ok? ==> r.1.catalog == db.catalog - {key}
    ensures r.0.Ok? ==> r.1 == db.(catalog := r.1.catalog, items := r.1.items)
    ensures r.1.items.Keys == db.items.Keys
    // each item loses its reference to the deleted row and nothing else
    ensures r.0.Ok? ==> forall i :: i in db.items ==> r.1.items[i] == Detach(db.items[i], key)
    // no item keeps a reference to the deleted row
    ensures r.0.Ok? ==> forall i :: i in r.1.items ==>
              && (key.kind == SpiceLevels ==> r.1.items[i].spiceLevelId != Some(key.id))
              && (key.kind == DietaryRequirements ==> key.id !in r.1.items[i].dietaryRequirements)
              && (key.kind == ReligiousRestrictions ==> key.id !in r.1.items[i].religiousRestrictions)
              && (key.kind == Allergens ==> key.id !in r.1.items[i].allergens)
  {
    if key !in db.catalog then (Err(NotFound), db)
    else if Protected(db, key) then (Err(ProtectedError), db)
    else
      var items := map i | i in db.items :: Detach(db.items[i], key);
      (Ok(()), db.(catalog := db.catalog - {key}, items := items))
  }

  /** Deleting a catalog row keeps every constraint. */
  lemma DeleteCatalogRowPreservesValid(db: MenuDb, key: CatalogKey)
    requires ValidDb(db)
    ensures ValidDb(DeleteCatalogRowSpec(db, key).1)
  {
    var (res, db') := DeleteCatalogRowSpec(db, key);
    if res.Ok? {
      DeleteKeepsJoinRows(db, key, db'.designCategories, MenuCategories);
      DeleteKeepsJoinRows(db, key, db'.designPricings, PricingTitles);
      DeleteKeepsItems(db, key);
      DeleteKeepsPortionsAndPrices(db, key);
    }
  }

  lemma DeleteKeepsJoinRows(db: MenuDb, key: CatalogKey, rows: seq<DesignJoin>, kind: Catalog)
    requires ValidDb(db) && key in db.catalog && !Protected(db, key)
    requires kind == MenuCategories || kind == PricingTitles
    requires rows == (if kind == MenuCategories then db.designCategories else db.designPricings)
    ensures JoinRowsValid(rows, kind, DeleteCatalogRowSpec(db, key).1)
  {
    var db' := DeleteCatalogRowSpec(db, key).1;
    forall k | 0 <= k < |rows|
      ensures InCatalog(db'.catalog, kind, rows[k].targetId)
    {
      assert InCatalog(db.catalog, kind, rows[k].targetId);
    }
  }

  lemma DeleteKeepsItems(db: MenuDb, key: CatalogKey)
    requires ValidDb(db) && key in db.catalog && !Protected(db, key)
    ensures ItemsValid(DeleteCatalogRowSpec(db, key).1)
  {
    var db' := DeleteCatalogRowSpec(db, key).1;
    forall i | i in db'.items ensures i as int < db'.nextId && ItemValid(db'.items[i], db') {
      var it := db.items[i];
      assert ItemValid(it, db);
      assert db'.items[i] == Detach(it, key);
      assert key.kind == MenuCategories ==> it.menuCategoryId != key.id;
      DetachKeepsItemValid(it, db, db', key);
    }
  }

  /** An item stays valid once its link to a deleted row is dropped, unless
      that row is its menu category. */
  lemma DetachKeepsItemValid(it: MenuItem, db: MenuDb, db': MenuDb, key: CatalogKey)
    requires ItemValid(it, db)
    requires db'.restaurants == db.restaurants && db'.catalog == db.catalog - {key}
    requires key.kind == MenuCategories ==> it.menuCategoryId != key.id
    ensures ItemValid(Detach(it, key), db')
  {
    var it' := Detach(it, key);
    forall t | t in it'.dietaryRequirements ensures InCatalog(db'.catalog, DietaryRequirements, t) {
      assert InCatalog(db.catalog, DietaryRequirements, t);
    }
    forall t | t in it'.religiousRestrictions ensures InCatalog(db'.catalog, ReligiousRestrictions, t) {
      assert InCatalog(db.catalog, ReligiousRestrictions, t);
    }
    forall t | t in it'.allergens ensures InCatalog(db'.catalog, Allergens, t) {
      assert InCatalog(db.catalog, Allergens, t);
    }
  }

  lemma DeleteKeepsPortionsAndPrices(db: MenuDb, key: CatalogKey)
    requires ValidDb(db) && key in db.catalog && !Protected(db, key)
    ensures PortionsValid(DeleteCatalogRowSpec(db, key).1)
    ensures PricesValid(DeleteCatalogRowSpec(db, key).1)
  {
    var db' := DeleteCatalogRowSpec(db, key).1;
    forall k | 0 <= k < |db'.portions|
      ensures InCatalog(db'.catalog, PortionSizes, db'.portions[k].portionSizeId)
    {
      assert InCatalog(db.catalog, PortionSizes, db.portions[k].portionSizeId);
    }
    forall k | 0 <= k < |db'.prices| && db'.prices[k].pricingTitleId.Some?
      ensures InCatalog(db'.catalog, PricingTitles, db'.prices[k].pricingTitleId.value)
    {
      assert InCatalog(db.catalog, PricingTitles, db.prices[k].pricingTitleId.value);
    }
  }
}
