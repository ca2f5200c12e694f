/**
 * The restaurant view set (restaurants/views.py) over the restaurant tables
 * (restaurants/models.py), with the parts of restaurants/serializers.py the
 * views rely on: who sees which restaurant, which action is gated, approval,
 * opening hours, image uploads, the amenities record, and creation.
 *
 * `RestaurantsDb` is the state as a value and the spec functions say what each
 * endpoint does to it; `RestaurantStore` holds the same tables as fields and
 * its methods, which run the source's loops, are proved to agree with the
 * spec functions.
 */
module Restaurants {
  import opened Wrappers
  import opened Users
  import opened Amenities
  import opened Text

  // ---------------------------------------------------------------------------
  // Rows
  // ---------------------------------------------------------------------------

  /** A restaurant row (address, contact and logo fields are not modelled). */
  datatype Restaurant = Restaurant(
    id: int,
    ownerId: int,
    name: string,
    isApproved: bool,
    venueTypes: set<int>,
    cuisineStyles: set<int>)

  /** An amenity of the catalog; (category, code) is unique. */
  datatype Amenity = Amenity(categoryId: int, code: string, isActive: bool)

  /** The one amenities record a restaurant may have. */
  datatype AmenityRecord = AmenityRecord(selected: set<int>, additional: string)

  datatype RestaurantImage = RestaurantImage(
    restaurantId: int,
    image: string,
    isVideoThumbnail: bool,
    videoUrl: Option<string>)

  /** Times of day are seconds since midnight; parsing the submitted text is not modelled. */
  datatype OperatingHours = OperatingHours(restaurantId: int, day: string, openTime: int, closeTime: int, isClosed: bool)

  datatype HolidayHours = HolidayHours(
    restaurantId: int,
    holidayId: int,
    openTime: Option<int>,
    closeTime: Option<int>,
    isClosed: bool)

  /** The `DAYS_OF_WEEK` codes. */
  const DayCodes: seq<string> := ["MON", "TUE", "WED", "THU", "FRI", "SAT", "SUN"]

  /** An `is_active` flag per row id, for the catalogs only their active rows matter to. */
  type ActiveFlags = map<int, bool>

  datatype RestaurantsDb = RestaurantsDb(
    restaurants: map<int, Restaurant>,
    venueTypes: ActiveFlags,
    cuisineTypes: ActiveFlags,
    amenities: map<int, Amenity>,
    holidays: set<int>,
    images: seq<RestaurantImage>,
    operatingHours: seq<OperatingHours>,
    holidayHours: seq<HolidayHours>,
    amenityRecords: map<int, AmenityRecord>)

  /** The (restaurant, holiday) pairs of the holiday-hours rows. */
  function HolidayPairs(rows: seq<HolidayHours>): set<(int, int)> {
    set k | 0 <= k < |rows| :: (rows[k].restaurantId, rows[k].holidayId)
  }

  /** `unique_together = ['restaurant', 'holiday']`. */
  predicate UniqueHolidayPairs(rows: seq<HolidayHours>) {
    forall j, k :: 0 <= j < k < |rows| ==>
      (rows[j].restaurantId, rows[j].holidayId) != (rows[k].restaurantId, rows[k].holidayId)
  }

  /** `unique_together = ['category', 'code']` on amenities. */
  predicate UniqueAmenityCodes(amenities: map<int, Amenity>) {
    forall a, b :: a in amenities && b in amenities && a != b ==>
      (amenities[a].categoryId, amenities[a].code) != (amenities[b].categoryId, amenities[b].code)
  }

  /** The schema's constraints: keys match ids, foreign keys resolve, days are
      declared codes, and the unique pairs are unique. The amenities record is
      keyed by its restaurant, which makes it one-to-one. */
  predicate ValidDb(db: RestaurantsDb) {
    && (forall id :: id in db.restaurants ==> db.restaurants[id].id == id)
    && (forall k :: 0 <= k < |db.operatingHours| ==>
          db.operatingHours[k].day in DayCodes && db.operatingHours[k].restaurantId in db.restaurants)
    && UniqueHolidayPairs(db.holidayHours)
    && (forall k :: 0 <= k < |db.holidayHours| ==>
          db.holidayHours[k].holidayId in db.holidays && db.holidayHours[k].restaurantId in db.restaurants)
    && (forall k :: 0 <= k < |db.images| ==> db.images[k].restaurantId in db.restaurants)
    && db.amenityRecords.Keys <= db.restaurants.Keys
    && UniqueAmenityCodes(db.amenities)
  }

  // ---------------------------------------------------------------------------
  // get_queryset and get_permissions
  // ---------------------------------------------------------------------------

  /** Whether one restaurant is visible to the caller, row by row. */
  predicate VisibleTo(c: Caller, r: Restaurant) {
    IsStaff(c)
    || (!IsStaff(c) && c.Authenticated? && IsRestaurantOwner(c.user) && r.ownerId == c.user.id)
    || (!IsStaff(c) && !(c.Authenticated? && IsRestaurantOwner(c.user)) && r.isApproved)
  }

  /** `RestaurantViewSet.get_queryset`: the ids of the restaurants the caller may address. */
  function Queryset(c: Caller, table: map<int, Restaurant>): (r: set<int>)
    ensures r <= table.Keys
    ensures forall id :: id in table ==> (id in r <==> VisibleTo(c, table[id]))
  {
    if IsStaff(c) then table.Keys
    else if c.Authenticated? then
      if IsRestaurantOwner(c.user) then set id | id in table && table[id].ownerId == c.user.id
      else set id | id in table && table[id].isApproved
    else set id | id in table && table[id].isApproved
  }

  /** Staff see every restaurant. */
  lemma StaffSeeAll(c: Caller, table: map<int, Restaurant>)
    requires IsStaff(c)
    ensures Queryset(c, table) == table.Keys
  {
  }

  /** A non-staff owner sees exactly their own restaurants, approved or not. */
  lemma OwnerSeesOwn(c: Caller, table: map<int, Restaurant>)
    requires !IsStaff(c) && c.Authenticated? && IsRestaurantOwner(c.user)
    ensures Queryset(c, table) == set id | id in table && table[id].ownerId == c.user.id
  {
  }

  /** Every other caller, anonymous or not, sees exactly the approved restaurants. */
  lemma OthersSeeApproved(c: Caller, table: map<int, Restaurant>)
    requires !IsStaff(c) && !(c.Authenticated? && IsRestaurantOwner(c.user))
    ensures Queryset(c, table) == set id | id in table && table[id].isApproved
  {
  }

  /** Nobody sees more than staff do, and an approved restaurant is visible to
      every caller that is not a non-staff owner. */
  lemma VisibilityBounds(c: Caller, staff: Caller, table: map<int, Restaurant>, id: int)
    requires IsStaff(staff)
    requires id in table && table[id].isApproved
    requires IsStaff(c) || !(c.Authenticated? && IsRestaurantOwner(c.user))
    ensures Queryset(c, table) <= Queryset(staff, table)
    ensures id in Queryset(c, table)
  {
  }

  datatype Action =
    | List | Retrieve | Create | Update | PartialUpdate | Destroy
    | UploadImages | SetHours | SetAmenities | Approve

  datatype PermissionClass = OwnerGate | AllowAny

  /** `RestaurantViewSet.get_permissions`. */
  function PermissionFor(a: Action): (p: PermissionClass)
    ensures p == OwnerGate <==> a.Create? || a.Update? || a.PartialUpdate? || a.Destroy?
  {
    if a in {Create, Update, PartialUpdate, Destroy} then OwnerGate else AllowAny
  }

  /** Whether the action's permission class lets the caller in. The class
      behind `OwnerGate` lives in a file outside this model, so its verdict is
      the parameter `ownerGate`. */
  predicate HasPermission(a: Action, c: Caller, ownerGate: Caller -> bool) {
    match PermissionFor(a)
    case OwnerGate => ownerGate(c)
    case AllowAny => true
  }

  /** The custom actions, approve included, are open to every caller; whatever
      protects them is in their own bodies and in the queryset. */
  lemma CustomActionsAllowAny(a: Action, c: Caller, ownerGate: Caller -> bool)
    requires a.UploadImages? || a.SetHours? || a.SetAmenities? || a.Approve? || a.List? || a.Retrieve?
    ensures HasPermission(a, c, ownerGate)
  {
  }

  // ---------------------------------------------------------------------------
  // approve
  // ---------------------------------------------------------------------------

  datatype Status = Success | Created | BadRequest | Forbidden | NotFound

  /** `RestaurantViewSet.approve`: refused to non-staff before the lookup. */
  function ApproveSpec(db: RestaurantsDb, c: Caller, pk: int): (r: (Status, RestaurantsDb))
    ensures !IsStaff(c) ==> r == (Forbidden, db)
    ensures IsStaff(c) && pk !in db.restaurants ==> r == (NotFound, db)
    ensures r.0 == Success <==> IsStaff(c) && pk in db.restaurants
    ensures r.0 == Success ==> pk in r.1.restaurants && r.1.restaurants[pk].isApproved
    // only the approval flag of that one restaurant changes
    ensures r.1.restaurants.Keys == db.restaurants.Keys
    ensures forall id :: id in db.restaurants && id != pk ==> r.1.restaurants[id] == db.restaurants[id]
    ensures pk in db.restaurants ==> r.1.restaurants[pk] == db.restaurants[pk].(isApproved := r.1.restaurants[pk].isApproved)
    ensures r.1 == db.(restaurants := r.1.restaurants)
  {
    if !IsStaff(c) then (Forbidden, db)
    else if pk !in Queryset(c, db.restaurants) then (NotFound, db)
    else
      var rest := db.restaurants[pk];
      (Success, db.(restaurants := db.restaurants[pk := rest.(isApproved := true)]))
  }

  /** Approving twice leaves the same state as approving once. */
  lemma ApproveIdempotent(db: RestaurantsDb, c: Caller, pk: int)
    ensures ApproveSpec(ApproveSpec(db, c, pk).1, c, pk).1 == ApproveSpec(db, c, pk).1
  {
    var once := ApproveSpec(db, c, pk).1;
    if IsStaff(c) && pk in db.restaurants {
      assert once.restaurants[pk := once.restaurants[pk].(isApproved := true)] == once.restaurants;
    }
  }

  /** Once approved, a restaurant is visible to every caller but a non-staff
      owner other than its own. */
  lemma ApprovedIsPublic(db: RestaurantsDb, staff: Caller, pk: int, viewer: Caller)
    requires IsStaff(staff) && pk in db.restaurants
    requires !(viewer.Authenticated? && IsRestaurantOwner(viewer.user)) || IsStaff(viewer)
    ensures pk in Queryset(viewer, ApproveSpec(db, staff, pk).1.restaurants)
  {
  }

  /** Approval keeps the schema constraints. */
  lemma ApprovePreservesValid(db: RestaurantsDb, c: Caller, pk: int)
    requires ValidDb(db)
    ensures ValidDb(ApproveSpec(db, c, pk).1)
  {
  }

  // ---------------------------------------------------------------------------
  // set_hours
  // ---------------------------------------------------------------------------

  /** One field of a submitted entry as its serializer field reads it: not
      submitted, an explicit null, a value it accepts, or one it cannot read. */
  datatype Submitted<T> = Missing | Null | Parsed(value: T) | Unparseable

  /** One element of the submitted operating-hours list. An element that is not
      a mapping (a character of a text value, say) has no fields to read. */
  datatype OperatingHoursInput =
    | OperatingEntry(day: Submitted<string>, openTime: Submitted<int>, closeTime: Submitted<int>,
                     isClosed: Submitted<bool>)
    | OperatingNotAMapping

  /** One element of the submitted holiday-hours list. */
  datatype HolidayHoursInput =
    | HolidayEntry(holiday: Submitted<int>, openTime: Submitted<int>, closeTime: Submitted<int>,
                   isClosed: Submitted<bool>)
    | HolidayNotAMapping

  /** A field with a model default: it may be left out, but not null or unreadable. */
  predicate Omittable<T>(f: Submitted<T>) {
    f.Missing? || f.Parsed?
  }

  /** `OperatingHoursSerializer.is_valid()`: a mapping with a declared day and
      both times; `is_closed` may be left out. */
  predicate ValidOperatingInput(e: OperatingHoursInput) {
    && e.OperatingEntry?
    && e.day.Parsed? && e.day.value in DayCodes
    && e.openTime.Parsed? && e.closeTime.Parsed?
    && Omittable(e.isClosed)
  }

  /** `HolidayHoursSerializer.is_valid()`: a mapping naming an existing holiday;
      the times may be left out or null, `is_closed` left out. The serializer
      does not check the (restaurant, holiday) pair, since `restaurant` is not
      one of its fields. */
  predicate ValidHolidayInput(e: HolidayHoursInput, holidays: set<int>) {
    && e.HolidayEntry?
    && e.holiday.Parsed? && e.holiday.value in holidays
    && !e.openTime.Unparseable? && !e.closeTime.Unparseable?
    && Omittable(e.isClosed)
  }

  /** The row an accepted operating-hours entry saves: `is_closed` defaults to false. */
  function OperatingRow(rid: int, e: OperatingHoursInput): (h: OperatingHours)
    requires ValidOperatingInput(e)
    ensures h.restaurantId == rid && h.day == e.day.value && h.day in DayCodes
    ensures h.openTime == e.openTime.value && h.closeTime == e.closeTime.value
    ensures h.isClosed <==> e.isClosed == Parsed(true)
  {
    OperatingHours(rid, e.day.value, e.openTime.value, e.closeTime.value,
                   if e.isClosed.Parsed? then e.isClosed.value else false)
  }

  /** A nullable time column: a value left out or null is stored as null. */
  function TimeOrNull(t: Submitted<int>): (r: Option<int>)
    ensures r.Some? <==> t.Parsed?
    ensures r.Some? ==> r.value == t.value
  {
    if t.Parsed? then Some(t.value) else None
  }

  /** The row an accepted holiday-hours entry saves: `is_closed` defaults to true. */
  function HolidayRow(rid: int, e: HolidayHoursInput): (h: HolidayHours)
    requires e.HolidayEntry? && e.holiday.Parsed?
    ensures h.restaurantId == rid && h.holidayId == e.holiday.value
    ensures h.openTime == TimeOrNull(e.openTime) && h.closeTime == TimeOrNull(e.closeTime)
    ensures !h.isClosed <==> e.isClosed == Parsed(false)
  {
    HolidayHours(rid, e.holiday.value, TimeOrNull(e.openTime), TimeOrNull(e.closeTime),
                 if e.isClosed.Parsed? then e.isClosed.value else true)
  }

  /** The operating-hours loop from entry `i` on: each valid entry is saved in
      turn; the first invalid one stops the loop and is reported. */
  function OperatingFrom(rows: seq<OperatingHours>, rid: int, entries: seq<OperatingHoursInput>, i: nat)
    : (r: (seq<OperatingHours>, Option<nat>))
    requires i <= |entries|
    ensures |rows| <= |r.0| && r.0[..|rows|] == rows
    ensures r.1.None? ==> forall k :: i <= k < |entries| ==> ValidOperatingInput(entries[k])
    ensures r.1.Some? ==> i <= r.1.value < |entries| && !ValidOperatingInput(entries[r.1.value])
    ensures r.1.Some? ==> forall k :: i <= k < r.1.value ==> ValidOperatingInput(entries[k])
    ensures |r.0| == |rows| + (if r.1.Some? then r.1.value else |entries|) - i
    ensures forall k :: |rows| <= k < |r.0| ==>
              i + k - |rows| < |entries| && ValidOperatingInput(entries[i + k - |rows|])
              && r.0[k] == OperatingRow(rid, entries[i + k - |rows|])
    decreases |entries| - i
  {
    if i == |entries| then (rows, None)
    else if !ValidOperatingInput(entries[i]) then (rows, Some(i))
    else
      var r := OperatingFrom(rows + [OperatingRow(rid, entries[i])], rid, entries, i + 1);
      assert r.0[..|rows| + 1][..|rows|] == rows;
      r
  }

  /** Appending a row whose (restaurant, holiday) pair is new keeps the pairs
      unique and keeps every pair already there. */
  lemma AppendHolidayRow(rows: seq<HolidayHours>, row: HolidayHours)
    requires (row.restaurantId, row.holidayId) !in HolidayPairs(rows)
    ensures UniqueHolidayPairs(rows) ==> UniqueHolidayPairs(rows + [row])
    ensures HolidayPairs(rows) <= HolidayPairs(rows + [row])
  {
    var rows' := rows + [row];
    if UniqueHolidayPairs(rows) {
      forall j, k | 0 <= j < k < |rows'|
        ensures (rows'[j].restaurantId, rows'[j].holidayId) != (rows'[k].restaurantId, rows'[k].holidayId)
      {
        if k == |rows| {
          assert (rows[j].restaurantId, rows[j].holidayId) in HolidayPairs(rows);
        }
      }
    }
    forall p | p in HolidayPairs(rows) ensures p in HolidayPairs(rows') {
      var k :| 0 <= k < |rows| && p == (rows[k].restaurantId, rows[k].holidayId);
      assert rows'[k] == rows[k];
    }
  }

  datatype HolidayStop = AllSaved | InvalidAt(index: nat) | DuplicateAt(index: nat)

  /** The holiday-hours loop from entry `i` on. A valid entry whose pair is
      already stored makes the insert fail on the unique constraint, which
      nothing catches: the loop stops there too. */
  function HolidayFrom(rows: seq<HolidayHours>, holidays: set<int>, rid: int, entries: seq<HolidayHoursInput>, i: nat)
    : (r: (seq<HolidayHours>, HolidayStop))
    requires i <= |entries|
    ensures |rows| <= |r.0| && r.0[..|rows|] == rows
    ensures r.1.AllSaved? ==> forall k :: i <= k < |entries| ==> ValidHolidayInput(entries[k], holidays)
    ensures r.1.InvalidAt? ==> i <= r.1.index < |entries| && !ValidHolidayInput(entries[r.1.index], holidays)
    ensures r.1.DuplicateAt? ==> i <= r.1.index < |entries| && ValidHolidayInput(entries[r.1.index], holidays)
                                  && (rid, entries[r.1.index].holiday.value) in HolidayPairs(r.0)
    ensures |r.0| == |rows| + (if r.1.AllSaved? then |entries| else r.1.index) - i
    ensures forall k :: i <= k < i + |r.0| - |rows| ==> ValidHolidayInput(entries[k], holidays)
    ensures forall k :: |rows| <= k < |r.0| ==>
              i + k - |rows| < |entries| && ValidHolidayInput(entries[i + k - |rows|], holidays)
              && r.0[k] == HolidayRow(rid, entries[i + k - |rows|])
    ensures UniqueHolidayPairs(rows) ==> UniqueHolidayPairs(r.0)
    decreases |entries| - i
  {
    if i == |entries| then (rows, AllSaved)
    else if !ValidHolidayInput(entries[i], holidays) then (rows, InvalidAt(i))
    else if (rid, entries[i].holiday.value) in HolidayPairs(rows) then (rows, DuplicateAt(i))
    else
      var row := HolidayRow(rid, entries[i]);
      var rows' := rows + [row];
      AppendHolidayRow(rows, row);
      var r := HolidayFrom(rows', holidays, rid, entries, i + 1);
      assert r.0[..|rows'|][..|rows|] == rows;
      assert r.0[|rows|] == r.0[..|rows'|][|rows|] == row;
      r
  }

  datatype HoursSection = OperatingSection | HolidaySection

  datatype HoursOutcome =
    | HoursUpdated
    | HoursNotFound
      /** 400 with the serializer's errors for the entry at `index`. */
    | HoursRejected(section: HoursSection, index: nat)
      /** The unique (restaurant, holiday) constraint raised at the entry at `index`. */
    | HoursIntegrityError(index: nat)

  /** `RestaurantViewSet.set_hours`. Nothing is rolled back: the entries saved
      before a failure stay saved. */
  function SetHoursSpec(db: RestaurantsDb, c: Caller, pk: int,
                        ops: seq<OperatingHoursInput>, hols: seq<HolidayHoursInput>): (r: (HoursOutcome, RestaurantsDb))
    ensures pk !in Queryset(c, db.restaurants) ==> r == (HoursNotFound, db)
    // only the two hours tables change, and only by appending rows of this restaurant
    ensures r.1 == db.(operatingHours := r.1.operatingHours, holidayHours := r.1.holidayHours)
    ensures |db.operatingHours| <= |r.1.operatingHours| && r.1.operatingHours[..|db.operatingHours|] == db.operatingHours
    ensures |db.holidayHours| <= |r.1.holidayHours| && r.1.holidayHours[..|db.holidayHours|] == db.holidayHours
    // each appended row is the row of the entry at the same position of its list
    ensures forall k :: |db.operatingHours| <= k < |r.1.operatingHours| ==>
              k - |db.operatingHours| < |ops| && ValidOperatingInput(ops[k - |db.operatingHours|])
              && r.1.operatingHours[k] == OperatingRow(pk, ops[k - |db.operatingHours|])
    ensures forall k :: |db.holidayHours| <= k < |r.1.holidayHours| ==>
              k - |db.holidayHours| < |hols| && ValidHolidayInput(hols[k - |db.holidayHours|], db.holidays)
              && r.1.holidayHours[k] == HolidayRow(pk, hols[k - |db.holidayHours|])
    // success: every operating entry saved in order, every holiday entry saved
    ensures r.0 == HoursUpdated ==> |r.1.operatingHours| == |db.operatingHours| + |ops|
                                    && |r.1.holidayHours| == |db.holidayHours| + |hols|
    // an invalid operating entry stops everything: the earlier ones are kept, no holiday is processed
    ensures r.0.HoursRejected? && r.0.section == OperatingSection
            ==> r.0.index < |ops| && !ValidOperatingInput(ops[r.0.index])
                && |r.1.operatingHours| == |db.operatingHours| + r.0.index
                && r.1.holidayHours == db.holidayHours
    ensures r.0.HoursRejected? && r.0.section == HolidaySection
            ==> r.0.index < |hols| && !ValidHolidayInput(hols[r.0.index], db.holidays)
    // a valid holiday entry whose pair is already stored raises on the unique constraint
    ensures r.0.HoursIntegrityError?
            ==> r.0.index < |hols| && ValidHolidayInput(hols[r.0.index], db.holidays)
                && (pk, hols[r.0.index].holiday.value) in HolidayPairs(r.1.holidayHours)
    // a holiday failure comes after every operating entry was saved, and keeps the holidays before it
    ensures (r.0.HoursRejected? && r.0.section == HolidaySection) || r.0.HoursIntegrityError?
            ==> |r.1.operatingHours| == |db.operatingHours| + |ops|
                && |r.1.holidayHours| == |db.holidayHours| + r.0.index
    ensures pk in Queryset(c, db.restaurants) ==> r.0 != HoursNotFound
    ensures r.0.HoursRejected? || r.0.HoursIntegrityError? || r.0 == HoursUpdated
            ==> pk in Queryset(c, db.restaurants)
  {
    if pk !in Queryset(c, db.restaurants) then (HoursNotFound, db)
    else
      var (ohs, stop) := OperatingFrom(db.operatingHours, pk, ops, 0);
      if stop.Some? then (HoursRejected(OperatingSection, stop.value), db.(operatingHours := ohs))
      else
        var (hhs, hstop) := HolidayFrom(db.holidayHours, db.holidays, pk, hols, 0);
        var db' := db.(operatingHours := ohs, holidayHours := hhs);
        match hstop
        case AllSaved => (HoursUpdated, db')
        case InvalidAt(k) => (HoursRejected(HolidaySection, k), db')
        case DuplicateAt(k) => (HoursIntegrityError(k), db')
  }

  /** set_hours keeps the schema constraints, including the unique
      (restaurant, holiday) pair, whatever the outcome. */
  lemma SetHoursPreservesValid(db: RestaurantsDb, c: Caller, pk: int,
                               ops: seq<OperatingHoursInput>, hols: seq<HolidayHoursInput>)
    requires ValidDb(db)
    ensures ValidDb(SetHoursSpec(db, c, pk, ops, hols).1)
  {
    var r := SetHoursSpec(db, c, pk, ops, hols).1;
    if pk in Queryset(c, db.restaurants) {
      var (ohs, stop) := OperatingFrom(db.operatingHours, pk, ops, 0);
      forall k | 0 <= k < |r.operatingHours|
        ensures r.operatingHours[k].day in DayCodes && r.operatingHours[k].restaurantId in r.restaurants
      {
        if k < |db.operatingHours| {
          assert r.operatingHours[k] == db.operatingHours[k];
        } else {
          assert r.operatingHours[k] == ohs[k];
        }
      }
      if stop.None? {
        var (hhs, _) := HolidayFrom(db.holidayHours, db.holidays, pk, hols, 0);
        forall k | 0 <= k < |r.holidayHours|
          ensures r.holidayHours[k].holidayId in r.holidays && r.holidayHours[k].restaurantId in r.restaurants
        {
          if k < |db.holidayHours| {
            assert r.holidayHours[k] == db.holidayHours[k];
          }
        }
      }
    }
  }

  /** Setting hours is not behind any permission: any caller, the anonymous one
      included, reaches the loops for an approved restaurant. */
  lemma AnyoneMaySetHoursOfApproved(db: RestaurantsDb, pk: int, ops: seq<OperatingHoursInput>)
    requires pk in db.restaurants && db.restaurants[pk].isApproved
    requires |ops| > 0 && ValidOperatingInput(ops[0])
    ensures |SetHoursSpec(db, Anonymous, pk, ops, []).1.operatingHours| > |db.operatingHours|
  {
    var r := OperatingFrom(db.operatingHours, pk, ops, 0);
    if r.1.Some? {
      assert r.1.value != 0;
    }
  }

  /** A list field of a form payload as `request.data.get(name, [])` returns it:
      the submitted text itself, so the loop runs over its characters, none of
      which is a mapping. A field not submitted is the empty list. */
  function FormOperatingEntries(text: Option<string>): (r: seq<OperatingHoursInput>)
    ensures |r| == if text.Some? then |text.value| else 0
    ensures forall k :: 0 <= k < |r| ==> !ValidOperatingInput(r[k])
  {
    if text.None? then [] else seq(|text.value|, _ => OperatingNotAMapping)
  }

  function FormHolidayEntries(text: Option<string>, holidays: set<int>): (r: seq<HolidayHoursInput>)
    ensures |r| == if text.Some? then |text.value| else 0
    ensures forall k :: 0 <= k < |r| ==> !ValidHolidayInput(r[k], holidays)
  {
    if text.None? then [] else seq(|text.value|, _ => HolidayNotAMapping)
  }

  /** `set_hours` as deployed: the view set parses only multipart and form
      payloads, so each hours list arrives as text. No row is ever saved, and
      a non-empty operating-hours value is refused at its first character. */
  function SetHoursAsWritten(db: RestaurantsDb, c: Caller, pk: int, opsText: Option<string>,
                             holsText: Option<string>): (r: (HoursOutcome, RestaurantsDb))
    ensures r.1 == db
    ensures pk in Queryset(c, db.restaurants) && opsText.Some? && opsText.value != []
            ==> r.0 == HoursRejected(OperatingSection, 0)
    ensures r.0 == HoursUpdated ==> (opsText.None? || opsText.value == []) && (holsText.None? || holsText.value == [])
  {
    var ops := FormOperatingEntries(opsText);
    var hols := FormHolidayEntries(holsText, db.holidays);
    var r := SetHoursSpec(db, c, pk, ops, hols);
    assert |r.1.operatingHours| == |db.operatingHours|;
    assert |r.1.holidayHours| == |db.holidayHours|;
    assert r.1.operatingHours == r.1.operatingHours[..|db.operatingHours|];
    assert r.1.holidayHours == r.1.holidayHours[..|db.holidayHours|];
    r
  }

  /** Any list submitted as a form value is lost: the deployed endpoint saves
      nothing and reports the first character as invalid, where the same list
      read as entries has its first valid entry saved. */
  lemma FormHoursListNeverSaved(db: RestaurantsDb, c: Caller, pk: int, opsText: string,
                                holsText: Option<string>, parsed: seq<OperatingHoursInput>)
    requires pk in Queryset(c, db.restaurants)
    requires opsText != [] && |parsed| > 0 && ValidOperatingInput(parsed[0])
    ensures SetHoursAsWritten(db, c, pk, Some(opsText), holsText) == (HoursRejected(OperatingSection, 0), db)
    ensures |SetHoursSpec(db, c, pk, parsed, []).1.operatingHours| > |db.operatingHours|
  {
    var r := OperatingFrom(db.operatingHours, pk, parsed, 0);
    if r.1.Some? {
      assert r.1.value != 0;
    }
  }

  // ---------------------------------------------------------------------------
  // upload_images
  // ---------------------------------------------------------------------------

  /** An uploaded file: its name and whether the image decoder accepts it. */
  datatype ImageFile = ImageFile(name: string, isImage: bool)

  /** The strings `BooleanField` reads as true / false. */
  const TrueStrings: set<string> := {"t", "T", "y", "Y", "yes", "Yes", "YES", "true", "True", "TRUE", "on", "On", "ON", "1"}
  const FalseStrings: set<string> := {"f", "F", "n", "N", "no", "No", "NO", "false", "False", "FALSE", "off", "Off", "OFF", "0"}

  /** `request.data.get('is_video_thumbnail', False)` used as a condition:
      absent is `False`, a submitted string is truthy unless empty. */
  predicate Truthy(raw: Option<string>) {
    raw.Some? && raw.value != ""
  }

  /** The serializer's reading of the same value; `None` when it is invalid. */
  function ParseBoolean(raw: Option<string>): (r: Option<bool>)
    ensures raw.None? ==> r == Some(false)
    ensures raw == Some("") ==> r.None?
    ensures r == Some(true) ==> Truthy(raw)
    ensures r == Some(true) <==> raw.Some? && raw.value in TrueStrings
    ensures r == Some(false) <==> raw.None? || raw.value in FalseStrings
    ensures r.None? <==> raw.Some? && raw.value !in TrueStrings && raw.value !in FalseStrings
  {
    if raw.None? then Some(false)
    else if raw.value in TrueStrings then Some(true)
    else if raw.value in FalseStrings then Some(false)
    else None
  }

  /** The submitted text "false" is truthy, so the video URL is stored, while
      the flag itself is saved as false. */
  lemma FalseStringStillStoresVideoUrl()
    ensures Truthy(Some("false")) && ParseBoolean(Some("false")) == Some(false)
  {
  }

  /** The two form values every per-file serializer receives, as the serializer
      reads them: the flag (`None` when invalid) and `video_url if
      is_video_thumbnail else None`, where the view tests the raw submitted flag. */
  datatype ImageFields = ImageFields(isVideoThumbnail: Option<bool>, videoUrl: Option<string>)

  /** A nullable `URLField` with the default `trim_whitespace=True`: null stays
      null, and any text is stripped, so text of only whitespace becomes "". */
  function TrimmedUrl(raw: Option<string>): (r: Option<string>)
    ensures r.None? <==> raw.None?
    ensures r.Some? ==> r.value == Strip(raw.value) && Stripped(r.value)
    ensures r.Some? ==> (r.value == "" <==> AllSpace(raw.value))
  {
    if raw.None? then None else Some(Strip(raw.value))
  }

  function ImageFieldsOf(videoUrl: Option<string>, thumb: Option<string>): (f: ImageFields)
    ensures f.isVideoThumbnail == ParseBoolean(thumb)
    ensures Truthy(thumb) && videoUrl.Some? ==> f.videoUrl == Some(Strip(videoUrl.value))
    ensures Truthy(thumb) && videoUrl.Some? && AllSpace(videoUrl.value) ==> f.videoUrl == Some("")
    ensures !Truthy(thumb) || videoUrl.None? ==> f.videoUrl.None?
  {
    ImageFields(ParseBoolean(thumb), if Truthy(thumb) then TrimmedUrl(videoUrl) else None)
  }

  /** `RestaurantImageSerializer.is_valid()`: the image decodes, the flag parses,
      and the stripped URL, when given and not blank, passes the URL validator
      `validUrl`; a blank URL skips the validators. */
  predicate ValidImageInput(file: ImageFile, fields: ImageFields, validUrl: string -> bool) {
    file.isImage && fields.isVideoThumbnail.Some?
    && (fields.videoUrl.None? || fields.videoUrl.value == "" || validUrl(fields.videoUrl.value))
  }

  function ImageRow(rid: int, file: ImageFile, fields: ImageFields): RestaurantImage
    requires fields.isVideoThumbnail.Some?
  {
    RestaurantImage(rid, file.name, fields.isVideoThumbnail.value, fields.videoUrl)
  }

  /** The files the serializer accepts, in upload order. */
  function ValidFiles(files: seq<ImageFile>, fields: ImageFields, validUrl: string -> bool): (r: seq<ImageFile>)
    ensures |r| <= |files|
    ensures forall f :: f in r <==> f in files && ValidImageInput(f, fields, validUrl)
    ensures forall k :: 0 <= k < |r| ==> ValidImageInput(r[k], fields, validUrl)
    ensures (forall k :: 0 <= k < |files| ==> ValidImageInput(files[k], fields, validUrl)) ==> r == files
  {
    if files == [] then []
    else
      var init := files[..|files| - 1];
      var last := files[|files| - 1];
      assert files == init + [last];
      ValidFiles(init, fields, validUrl) + (if ValidImageInput(last, fields, validUrl) then [last] else [])
  }

  /** Filtering distributes over concatenation: files accepted from a later
      part of the upload come after those accepted from an earlier part. */
  lemma {:induction false} ValidFilesAppend(a: seq<ImageFile>, b: seq<ImageFile>, fields: ImageFields,
                                            validUrl: string -> bool)
    ensures ValidFiles(a + b, fields, validUrl) == ValidFiles(a, fields, validUrl) + ValidFiles(b, fields, validUrl)
    decreases |b|
  {
    if b == [] {
      assert a + b == a;
    } else {
      var b' := b[..|b| - 1];
      assert (a + b)[..|a + b| - 1] == a + b';
      assert (a + b)[|a + b| - 1] == b[|b| - 1];
      ValidFilesAppend(a, b', fields, validUrl);
    }
  }

  /** The rows the upload loop creates for `files`: one per accepted file, in
      upload order, each holding that file and the shared form values. */
  function UploadRows(rid: int, files: seq<ImageFile>, fields: ImageFields, validUrl: string -> bool)
    : (r: seq<RestaurantImage>)
    ensures |r| == |ValidFiles(files, fields, validUrl)| <= |files|
    ensures forall k :: 0 <= k < |r| ==> r[k] == ImageRow(rid, ValidFiles(files, fields, validUrl)[k], fields)
    ensures forall k :: 0 <= k < |r| ==>
              r[k].restaurantId == rid && r[k].videoUrl == fields.videoUrl
              && Some(r[k].isVideoThumbnail) == fields.isVideoThumbnail
    ensures (forall k :: 0 <= k < |files| ==> !ValidImageInput(files[k], fields, validUrl)) ==> r == []
  {
    if files == [] then []
    else
      var last := files[|files| - 1];
      UploadRows(rid, files[..|files| - 1], fields, validUrl)
      + (if ValidImageInput(last, fields, validUrl) then [ImageRow(rid, last, fields)] else [])
  }

  /** When the flag or the URL is rejected, every file is skipped. */
  lemma BadFieldsSkipEveryFile(rid: int, files: seq<ImageFile>, videoUrl: Option<string>, thumb: Option<string>,
                               validUrl: string -> bool)
    requires ParseBoolean(thumb).None?
             || (Truthy(thumb) && videoUrl.Some? && !AllSpace(videoUrl.value) && !validUrl(Strip(videoUrl.value)))
    ensures UploadRows(rid, files, ImageFieldsOf(videoUrl, thumb), validUrl) == []
  {
  }

  /** `RestaurantViewSet.upload_images`: 404 if the caller cannot see the
      restaurant, otherwise 201 whatever was skipped. */
  function UploadImagesSpec(db: RestaurantsDb, c: Caller, pk: int, files: seq<ImageFile>,
                            videoUrl: Option<string>, thumb: Option<string>, validUrl: string -> bool)
    : (r: (Status, seq<RestaurantImage>, RestaurantsDb))
    ensures pk !in Queryset(c, db.restaurants) ==> r == (NotFound, [], db)
    ensures pk in Queryset(c, db.restaurants) ==> r.0 == Created
    // only the image table changes, by appending the created rows
    ensures r.2 == db.(images := db.images + r.1)
    ensures |r.1| <= |files|
    // one row per accepted file, in upload order, carrying that file
    ensures pk in Queryset(c, db.restaurants) ==>
              var accepted := ValidFiles(files, ImageFieldsOf(videoUrl, thumb), validUrl);
              |r.1| == |accepted|
              && forall k :: 0 <= k < |r.1| ==> r.1[k] == ImageRow(pk, accepted[k], ImageFieldsOf(videoUrl, thumb))
    // every created row belongs to the restaurant; the URL is kept, stripped, only for a truthy flag
    ensures forall k :: 0 <= k < |r.1| ==>
              r.1[k].restaurantId == pk && r.1[k].videoUrl == (if Truthy(thumb) then TrimmedUrl(videoUrl) else None)
  {
    if pk !in Queryset(c, db.restaurants) then (NotFound, [], db)
    else
      var rows := UploadRows(pk, files, ImageFieldsOf(videoUrl, thumb), validUrl);
      (Created, rows, db.(images := db.images + rows))
  }

  /** A video URL of only blanks is stored as "" rather than refused: the field
      strips it to a blank value, which skips the URL validator. */
  lemma BlankVideoUrlStoredEmpty(db: RestaurantsDb, c: Caller, pk: int, file: ImageFile, validUrl: string -> bool)
    requires pk in Queryset(c, db.restaurants) && file.isImage
    ensures UploadImagesSpec(db, c, pk, [file], Some("   "), Some("true"), validUrl).1
            == [RestaurantImage(pk, file.name, true, Some(""))]
  {
    assert AllSpace("   ") by {
      assert forall k :: 0 <= k < 3 ==> "   "[k] == ' ';
    }
    var fields := ImageFieldsOf(Some("   "), Some("true"));
    assert fields == ImageFields(Some(true), Some(""));
    assert ValidImageInput(file, fields, validUrl);
    assert [file][..0] == [];
  }

  lemma UploadPreservesValid(db: RestaurantsDb, c: Caller, pk: int, files: seq<ImageFile>,
                             videoUrl: Option<string>, thumb: Option<string>, validUrl: string -> bool)
    requires ValidDb(db)
    ensures ValidDb(UploadImagesSpec(db, c, pk, files, videoUrl, thumb, validUrl).2)
  {
    var r := UploadImagesSpec(db, c, pk, files, videoUrl, thumb, validUrl);
    forall k | 0 <= k < |r.2.images| ensures r.2.images[k].restaurantId in r.2.restaurants {
      if k >= |db.images| {
        assert r.2.images[k] == r.1[k - |db.images|];
      }
    }
  }

  // ---------------------------------------------------------------------------
  // Primary-key fields restricted to active rows, and restaurant creation
  // ---------------------------------------------------------------------------

  /** A `PrimaryKeyRelatedField(many=True, queryset=....filter(is_active=True))`:
      the set of ids when all name active rows, otherwise the position of the
      first id that does not. */
  function ValidateActiveIds(ids: seq<int>, rows: ActiveFlags): (r: Result<set<int>, nat>)
    ensures r.Ok? <==> forall k :: 0 <= k < |ids| ==> ids[k] in rows && rows[ids[k]]
    ensures r.Ok? ==> forall x :: x in r.value <==> x in ids
    ensures r.Err? ==> r.error < |ids| && !(ids[r.error] in rows && rows[ids[r.error]])
                       && forall k :: 0 <= k < r.error ==> ids[k] in rows && rows[ids[k]]
  {
    if ids == [] then Ok({})
    else if !(ids[0] in rows && rows[ids[0]]) then Err(0)
    else
      match ValidateActiveIds(ids[1..], rows)
      case Ok(rest) =>
        assert forall x :: x in ids <==> x == ids[0] || x in ids[1..] by {
          assert ids == [ids[0]] + ids[1..];
        }
        Ok({ids[0]} + rest)
      case Err(k) =>
        assert forall j :: 1 <= j < k + 1 ==> ids[j] == ids[1..][j - 1];
        Err(k + 1)
  }

  /** The write payload of the restaurant serializer. `owner` and `is_approved`
      may be submitted but are read-only. The view set parses only multipart
      and form payloads, where a many-valued field reads every value submitted
      under its name: an id list that was not submitted is the empty list,
      which the field accepts. */
  datatype RestaurantInput = RestaurantInput(
    name: string,
    owner: Option<int>,
    isApproved: Option<bool>,
    venueTypeIds: seq<int>,
    cuisineStyleIds: seq<int>)

  datatype CreateOutcome =
    | CreatedRestaurant(id: int)
    | CreateForbidden
      /** The id at `index` of the named list is not an active row. */
    | InactiveId(field: string, index: nat)
      /** The name is blank once stripped. */
    | BlankName
      /** The gate let an anonymous caller through and the owner cannot be assigned. */
    | AnonymousOwner

  /** `create` on the view set: the owner gate, the serializer's validation, then
      `RestaurantSerializer.create` with the caller as owner. A new restaurant is
      never approved. The name is a `CharField` with the defaults, so it is
      stored stripped and refused when blank. DRF reports every failing field
      at once; the outcome names the first, in the serializer's field order,
      where the declared id lists come before the model's `name`. */
  function CreateRestaurantSpec(db: RestaurantsDb, c: Caller, input: RestaurantInput, newId: int,
                                ownerGate: Caller -> bool): (r: (CreateOutcome, RestaurantsDb))
    requires newId !in db.restaurants
    ensures !ownerGate(c) ==> r == (CreateForbidden, db)
    ensures r.0.CreatedRestaurant? ==>
              r.0.id == newId && c.Authenticated? && newId in r.1.restaurants
              && r.1 == db.(restaurants := db.restaurants[newId := r.1.restaurants[newId]])
    ensures r.0.CreatedRestaurant? ==> var made := r.1.restaurants[newId];
            made.ownerId == c.user.id && !made.isApproved
            && made.name == Strip(input.name) && made.name != [] && Stripped(made.name)
    ensures !r.0.CreatedRestaurant? ==> r.1 == db
    ensures r.0.CreatedRestaurant? ==> var made := r.1.restaurants[newId];
            made.venueTypes == (set x | x in input.venueTypeIds)
            && made.cuisineStyles == (set x | x in input.cuisineStyleIds)
    ensures r.0.CreatedRestaurant? <==>
              (ownerGate(c) && c.Authenticated?
               && ValidateActiveIds(input.venueTypeIds, db.venueTypes).Ok?
               && ValidateActiveIds(input.cuisineStyleIds, db.cuisineTypes).Ok?
               && !AllSpace(input.name))
    ensures r.0 == BlankName <==>
              (ownerGate(c)
               && ValidateActiveIds(input.venueTypeIds, db.venueTypes).Ok?
               && ValidateActiveIds(input.cuisineStyleIds, db.cuisineTypes).Ok?
               && AllSpace(input.name))
  {
    if !ownerGate(c) then (CreateForbidden, db)
    else
      match ValidateActiveIds(input.venueTypeIds, db.venueTypes)
      case Err(k) => (InactiveId("venue_type_ids", k), db)
      case Ok(venues) =>
        match ValidateActiveIds(input.cuisineStyleIds, db.cuisineTypes)
        case Err(k) => (InactiveId("cuisine_style_ids", k), db)
        case Ok(cuisines) =>
          var name := Strip(input.name);
          if name == [] then (BlankName, db)
          else if c.Anonymous? then (AnonymousOwner, db)
          else
            var made := Restaurant(newId, c.user.id, name, false, venues, cuisines);
            (CreatedRestaurant(newId), db.(restaurants := db.restaurants[newId := made]))
  }

  /** Whatever owner and approval flag the payload names, the new restaurant
      belongs to the caller and is unapproved. */
  lemma CreateIgnoresReadOnlyFields(db: RestaurantsDb, c: Caller, input: RestaurantInput, newId: int,
                                    ownerGate: Caller -> bool, owner: Option<int>, approved: Option<bool>)
    requires newId !in db.restaurants
    ensures CreateRestaurantSpec(db, c, input.(owner := owner, isApproved := approved), newId, ownerGate)
            == CreateRestaurantSpec(db, c, input, newId, ownerGate)
  {
  }

  /** A form that submits neither id list creates a restaurant with no venue
      types and no cuisine styles. */
  lemma CreatedWithoutIdLists(db: RestaurantsDb, c: Caller, input: RestaurantInput, newId: int,
                              ownerGate: Caller -> bool)
    requires newId !in db.restaurants
    requires ownerGate(c) && c.Authenticated? && input.venueTypeIds == [] && input.cuisineStyleIds == []
    ensures var r := CreateRestaurantSpec(db, c, input, newId, ownerGate);
            !AllSpace(input.name) ==>
              r.0 == CreatedRestaurant(newId)
              && r.1.restaurants[newId].venueTypes == {} && r.1.restaurants[newId].cuisineStyles == {}
    ensures AllSpace(input.name) ==> CreateRestaurantSpec(db, c, input, newId, ownerGate).0 == BlankName
  {
  }

  /** A restaurant the caller just created is visible to them when they are an
      owner, and hidden from the public until approved. */
  lemma CreatedVisibility(db: RestaurantsDb, c: Caller, input: RestaurantInput, newId: int,
                          ownerGate: Caller -> bool, viewer: Caller)
    requires newId !in db.restaurants
    requires CreateRestaurantSpec(db, c, input, newId, ownerGate).0.CreatedRestaurant?
    requires !IsStaff(viewer) && !(viewer.Authenticated? && IsRestaurantOwner(viewer.user))
    ensures newId !in Queryset(viewer, CreateRestaurantSpec(db, c, input, newId, ownerGate).1.restaurants)
    ensures IsRestaurantOwner(c.user) && !IsStaff(c)
            ==> newId in Queryset(c, CreateRestaurantSpec(db, c, input, newId, ownerGate).1.restaurants)
  {
  }

  // ---------------------------------------------------------------------------
  // set_amenities, and inserting into the amenity catalog
  // ---------------------------------------------------------------------------

  datatype AmenitiesOutcome = AmenitiesSaved(record: AmenityRecord) | AmenitiesNotFound | AmenityInactive(index: nat)

  function ActiveAmenityFlags(amenities: map<int, Amenity>): (r: ActiveFlags)
    ensures r.Keys == amenities.Keys
    ensures forall id :: id in r ==> r[id] == amenities[id].isActive
  {
    map id | id in amenities :: amenities[id].isActive
  }

  predicate ActiveAmenity(amenities: map<int, Amenity>, id: int) {
    id in amenities && amenities[id].isActive
  }

  /** `RestaurantViewSet.set_amenities` with a partial
      `RestaurantAmenitiesSerializer`: a field not submitted keeps its stored
      value (or its default on creation); submitted text is normalised. */
  function SetAmenitiesSpec(db: RestaurantsDb, c: Caller, pk: int, selectedIds: Option<seq<int>>,
                            additional: Option<string>): (r: (AmenitiesOutcome, RestaurantsDb))
    ensures pk !in Queryset(c, db.restaurants) ==> r == (AmenitiesNotFound, db)
    ensures !r.0.AmenitiesSaved? ==> r.1 == db
    ensures r.0.AmenitiesSaved? ==> r.1 == db.(amenityRecords := db.amenityRecords[pk := r.0.record])
    ensures r.0.AmenitiesSaved? && additional.Some?
            ==> r.0.record.additional == NormalizeAdditionalAmenities(additional.value)
    ensures r.0.AmenitiesSaved? && additional.None?
            ==> r.0.record.additional == (if pk in db.amenityRecords then db.amenityRecords[pk].additional else "")
    ensures r.0.AmenitiesSaved? && selectedIds.None?
            ==> r.0.record.selected == (if pk in db.amenityRecords then db.amenityRecords[pk].selected else {})
    ensures r.0.AmenitiesSaved? && selectedIds.Some?
            ==> forall id :: id in r.0.record.selected ==> id in db.amenities && db.amenities[id].isActive
    // submitted ids replace the selection as a whole
    ensures r.0.AmenitiesSaved? && selectedIds.Some?
            ==> r.0.record.selected == set x | x in selectedIds.value
    // refused exactly when some submitted id is not an active amenity; the first one is reported
    ensures r.0.AmenityInactive? <==>
              pk in Queryset(c, db.restaurants) && selectedIds.Some?
              && exists k :: 0 <= k < |selectedIds.value| && !ActiveAmenity(db.amenities, selectedIds.value[k])
    ensures r.0.AmenityInactive? ==>
              r.0.index < |selectedIds.value| && !ActiveAmenity(db.amenities, selectedIds.value[r.0.index])
              && forall k :: 0 <= k < r.0.index ==> ActiveAmenity(db.amenities, selectedIds.value[k])
    ensures r.0.AmenitiesSaved? <==> pk in Queryset(c, db.restaurants) && !r.0.AmenityInactive?
  {
    if pk !in Queryset(c, db.restaurants) then (AmenitiesNotFound, db)
    else
      var old_ := if pk in db.amenityRecords then db.amenityRecords[pk] else AmenityRecord({}, "");
      var text := if additional.Some? then NormalizeAdditionalAmenities(additional.value) else old_.additional;
      if selectedIds.Some? then
        match ValidateActiveIds(selectedIds.value, ActiveAmenityFlags(db.amenities))
        case Err(k) => (AmenityInactive(k), db)
        case Ok(sel) =>
          var rec := AmenityRecord(sel, text);
          (AmenitiesSaved(rec), db.(amenityRecords := db.amenityRecords[pk := rec]))
      else
        var rec := AmenityRecord(old_.selected, text);
        (AmenitiesSaved(rec), db.(amenityRecords := db.amenityRecords[pk := rec]))
  }

  /** The stored amenities text reads back as the same list as the submitted text. */
  lemma SetAmenitiesKeepsList(db: RestaurantsDb, c: Caller, pk: int, selectedIds: Option<seq<int>>, text: string)
    requires SetAmenitiesSpec(db, c, pk, selectedIds, Some(text)).0.AmenitiesSaved?
    ensures AdditionalAmenitiesList(SetAmenitiesSpec(db, c, pk, selectedIds, Some(text)).0.record.additional)
            == AdditionalAmenitiesList(text)
  {
    NormalizeRoundTrip(text);
  }

  lemma SetAmenitiesPreservesValid(db: RestaurantsDb, c: Caller, pk: int, selectedIds: Option<seq<int>>,
                                   additional: Option<string>)
    requires ValidDb(db)
    ensures ValidDb(SetAmenitiesSpec(db, c, pk, selectedIds, additional).1)
  {
  }

  /** An insert into the amenity catalog: refused when the (category, code)
      pair is taken, so the pair stays unique. */
  function InsertAmenity(amenities: map<int, Amenity>, id: int, a: Amenity): (r: Result<map<int, Amenity>, string>)
    requires id !in amenities
    ensures r.Ok? <==> forall b :: b in amenities ==> (amenities[b].categoryId, amenities[b].code) != (a.categoryId, a.code)
    ensures r.Ok? ==> r.value == amenities[id := a]
    ensures UniqueAmenityCodes(amenities) && r.Ok? ==> UniqueAmenityCodes(r.value)
  {
    if exists b :: b in amenities && (amenities[b].categoryId, amenities[b].code) == (a.categoryId, a.code)
    then Err("UNIQUE constraint failed: category, code")
    else Ok(amenities[id := a])
  }

  // ---------------------------------------------------------------------------
  // The store
  // ---------------------------------------------------------------------------

  /** The per-file loop of `upload_images`: a file the serializer accepts
      becomes a row, the others are skipped. */
  method UploadLoop(pk: int, files: seq<ImageFile>, fields: ImageFields, validUrl: string -> bool)
    returns (created: seq<RestaurantImage>)
    ensures created == UploadRows(pk, files, fields, validUrl)
  {
    created := [];
    var i := 0;
    while i < |files|
      invariant 0 <= i <= |files|
      invariant created == UploadRows(pk, files[..i], fields, validUrl)
    {
      assert files[..i + 1][..i] == files[..i] && files[..i + 1][i] == files[i];
      assert UploadRows(pk, files[..i + 1], fields, validUrl)
             == UploadRows(pk, files[..i], fields, validUrl)
                + (if ValidImageInput(files[i], fields, validUrl) then [ImageRow(pk, files[i], fields)] else []);
      if ValidImageInput(files[i], fields, validUrl) {
        created := created + [ImageRow(pk, files[i], fields)];
      }
      i := i + 1;
    }
    assert files[..i] == files;
  }

  /** The restaurant tables, updated in place by the endpoints. */
  class RestaurantStore {
    var restaurants: map<int, Restaurant>
    var venueTypes: ActiveFlags
    var cuisineTypes: ActiveFlags
    var amenities: map<int, Amenity>
    var holidays: set<int>
    var images: seq<RestaurantImage>
    var operatingHours: seq<OperatingHours>
    var holidayHours: seq<HolidayHours>
    var amenityRecords: map<int, AmenityRecord>

    function State(): RestaurantsDb
      reads this
    {
      RestaurantsDb(restaurants, venueTypes, cuisineTypes, amenities, holidays,
                    images, operatingHours, holidayHours, amenityRecords)
    }

    constructor (db: RestaurantsDb)
      ensures State() == db
    {
      restaurants, venueTypes, cuisineTypes, amenities, holidays := db.restaurants, db.venueTypes, db.cuisineTypes, db.amenities, db.holidays;
      images, operatingHours, holidayHours, amenityRecords := db.images, db.operatingHours, db.holidayHours, db.amenityRecords;
    }

    /** `approve`. */
    method Approve(c: Caller, pk: int) returns (status: Status)
      requires ValidDb(State())
      modifies this`restaurants
      ensures (status, State()) == ApproveSpec(old(State()), c, pk)
      ensures ValidDb(State())
    {
      ApprovePreservesValid(State(), c, pk);
      if !IsStaff(c) {
        return Forbidden;
      }
      if pk !in restaurants {
        return NotFound;
      }
      var rest := restaurants[pk];
      rest := rest.(isApproved := true);
      restaurants := restaurants[pk := rest];
      status := Success;
    }

    /** `set_hours`: two loops that save entry by entry and return at the first failure. */
    method SetHours(c: Caller, pk: int, ops: seq<OperatingHoursInput>, hols: seq<HolidayHoursInput>)
      returns (outcome: HoursOutcome)
      requires ValidDb(State())
      modifies this`operatingHours, this`holidayHours
      ensures (outcome, State()) == SetHoursSpec(old(State()), c, pk, ops, hols)
      ensures ValidDb(State())
    {
      SetHoursPreservesValid(State(), c, pk, ops, hols);
      outcome := WriteHours(c, pk, ops, hols);
    }

    /** The two loops of `set_hours`, on whatever the tables hold. */
    method WriteHours(c: Caller, pk: int, ops: seq<OperatingHoursInput>, hols: seq<HolidayHoursInput>)
      returns (outcome: HoursOutcome)
      modifies this`operatingHours, this`holidayHours
      ensures (outcome, State()) == SetHoursSpec(old(State()), c, pk, ops, hols)
    {
      if !(pk in restaurants && VisibleTo(c, restaurants[pk])) {
        return HoursNotFound;
      }
      var i := 0;
      while i < |ops|
        invariant 0 <= i <= |ops|
        invariant OperatingFrom(operatingHours, pk, ops, i) == OperatingFrom(old(operatingHours), pk, ops, 0)
        invariant holidayHours == old(holidayHours)
      {
        if !ValidOperatingInput(ops[i]) {
          return HoursRejected(OperatingSection, i);
        }
        operatingHours := operatingHours + [OperatingRow(pk, ops[i])];
        i := i + 1;
      }
      var j := 0;
      while j < |hols|
        invariant 0 <= j <= |hols|
        invariant OperatingFrom(old(operatingHours), pk, ops, 0) == (operatingHours, None)
        invariant HolidayFrom(holidayHours, holidays, pk, hols, j) == HolidayFrom(old(holidayHours), holidays, pk, hols, 0)
      {
        if !ValidHolidayInput(hols[j], holidays) {
          return HoursRejected(HolidaySection, j);
        }
        if (pk, hols[j].holiday.value) in HolidayPairs(holidayHours) {
          return HoursIntegrityError(j);
        }
        holidayHours := holidayHours + [HolidayRow(pk, hols[j])];
        j := j + 1;
      }
      outcome := HoursUpdated;
    }

    /** `upload_images`: one serializer per file; valid ones are saved and
        collected, invalid ones skipped. */
    method UploadImages(c: Caller, pk: int, files: seq<ImageFile>, videoUrl: Option<string>,
                        thumb: Option<string>, validUrl: string -> bool)
      returns (status: Status, created: seq<RestaurantImage>)
      requires ValidDb(State())
      modifies this`images
      ensures (status, created, State()) == UploadImagesSpec(old(State()), c, pk, files, videoUrl, thumb, validUrl)
      ensures ValidDb(State())
    {
      UploadPreservesValid(State(), c, pk, files, videoUrl, thumb, validUrl);
      status, created := SaveImages(c, pk, files, videoUrl, thumb, validUrl);
    }

    /** The loop of `upload_images`, on whatever the tables hold. */
    method SaveImages(c: Caller, pk: int, files: seq<ImageFile>, videoUrl: Option<string>,
                      thumb: Option<string>, validUrl: string -> bool)
      returns (status: Status, created: seq<RestaurantImage>)
      modifies this`images
      ensures (status, created, State()) == UploadImagesSpec(old(State()), c, pk, files, videoUrl, thumb, validUrl)
    {
      if pk !in Queryset(c, restaurants) {
        return NotFound, [];
      }
      var fields := ImageFieldsOf(videoUrl, thumb);
      created := UploadLoop(pk, files, fields, validUrl);
      images := images + created;
      status := Created;
      assert State() == old(State()).(images := old(State()).images + created);
    }
  }
}
