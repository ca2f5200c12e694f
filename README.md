# Restaurant backend: menus, restaurants and accounts

This project models, in Dafny, the core of a Django restaurant-listing backend. The backend has three apps:

- **users**
  - User accounts have one of three roles: `CUSTOMER`, `OWNER` or `ADMIN`.
  - Permission classes are built on those roles.
  - The login and registration forms validate their input.
  - A migration hook provisions the default groups.
  - The admin site's `save_model` makes an `ADMIN` a staff member of the "Website Admins" group.
- **restaurants**
  - Which restaurants a caller may see.
  - Which actions need the owner permission.
  - Staff approval.
  - The `set_hours` and `upload_images` record loops.
  - Restaurant creation with its read-only owner.
  - Free-text "additional amenities", normalised on input and parsed on output.
- **menus**
  - Seven lookup catalogs: menu categories, pricing titles, spice levels, dietary requirements, religious restrictions, allergens and portion sizes.
  - A restaurant's single menu design, with category and pricing join rows.
  - Menu items, with tag relations, portions, prices and images.
  - The JSON endpoints that create, read, reorder, update and delete these.

## Model structure

- **Pure logic** becomes functions with named results, plus lemmas about them.
  - Role predicates: `Users`.
  - Login and registration decisions: `Accounts`.
  - Whitespace stripping, splitting, joining and slugs: `Text`.
  - Amenity text: `Amenities`.
  - Visibility and permissions: `Restaurants`.
- **Data that is changed in place** becomes a class whose fields are the database tables.
  - `Groups.AuthStore` holds groups, users and memberships.
  - `Restaurants.RestaurantStore` holds restaurants, hours and images.
  - `MenuApi.MenuStore` holds the menu tables.
  - Each class has a `State()` function that bundles its fields into one value.
  - Each method is proved to produce exactly the `(result, State())` pair given by a specification function over the old state. Examples: `CreateDesignSpec`, `ReorderSpec`, `CreateItemSpec`, `SetHoursSpec`.
  - The loops of the endpoints (creating join rows, portion rows and price rows; applying a reorder payload; the `setattr` loop of an update; the hours and image loops) are `while` loops with invariants.
  - The properties of the endpoints are lemmas about the specification functions. Examples:
    - schema validity is preserved;
    - which rows change;
    - nothing else changes;
    - reorder is idempotent;
    - normalising, then parsing, round-trips.
- **The menu database** is one value, `MenuSchema.MenuDb`.
  - `MenuSchema.ValidDb` collects every constraint the schema declares:
    - unique catalog names and codes;
    - one design per restaurant;
    - foreign keys that resolve;
    - the unique (item, portion size) and (item, portion, pricing title) tuples;
    - the non-negative `PositiveIntegerField` columns;
    - the decimal bound on prices.
  - Every store method keeps `ValidDb`.
  - Every new row takes its id from one counter that only grows and that all menu tables share. The database numbers each table separately, so the model's ids are fresh but their values differ from the database's (see "## Left out").

No endpoint of the menus API runs in a transaction, so the model keeps partial writes. A `create_menu_design` whose third category id is unknown fails `NotFound` after the design and the first two join rows are stored. A reader might expect these writes to be atomic; the code has no transaction.

Calls into code that is not modelled become parameters:

- Django's `authenticate` is a function `(username, password) -> Option<User>`.
- The unseen `restaurants.permissions.IsRestaurantOwner` is a predicate `ownerGate`.
- URL validation is a predicate `validUrl`.

## Model

| member | source | states |
|---|---|---|
| Users.IsRestaurantOwner | users/models.py:49-50 | the owner role is the `OWNER` user type |
| Users.IsWebsiteAdmin | users/models.py:52-53 | the website-admin role is the `ADMIN` user type |
| Users.IsCustomer | users/models.py:55-56 | the customer role is the `CUSTOMER` user type |
| Users.HasWebsiteAdminPermission | users/permissions.py:3-5 | an authenticated caller whose user is a website admin |
| Users.HasRestaurantOwnerPermission | users/permissions.py:7-9 | an authenticated caller whose user is a restaurant owner |
| Users.HasCustomerPermission | users/permissions.py:11-13 | an authenticated caller whose user is a customer |
| Sets.SingletonOf | menus/models.py:55-59 | a set of at most one row holding x is {x}; the one-to-one lookups rely on it |
| Users.RolesExclusive | users/models.py:49-56 | no user is two of owner, website admin and customer at once |
| Users.RoleIffDeclaredChoice | users/models.py:8-12 | some role predicate holds exactly when `user_type` is one of the three declared choices, so an undeclared type has no role |
| Users.PermissionClassesPartitionRoles | users/permissions.py:3-13 | each permission class holds exactly for an authenticated caller of its role; an anonymous caller passes none, and no caller passes two |
| Accounts.AuthenticateStep | users/serializers.py:67-84 | a failed authenticate is "Invalid credentials"; success exactly when the oracle returns an active account, which is stored as `attrs['user']` with the other fields kept |
| Accounts.LoginByEmail | users/serializers.py:49-56 | no account with the email is "No account found with email"; several raise `MultipleObjectsReturned`; exactly one authenticates with that account's username |
| Accounts.LoginByUsername | users/serializers.py:57-64 | no account with the username is "No account found with username"; several raise; exactly one authenticates with that username |
| Accounts.ValidateLogin | users/serializers.py:39-84 | `validate` alone: a blank identifier or password after stripping is refused as `BothRequired` before any lookup (a case `ValidateLoginForm` never lets through); an identifier with '@' is looked up by email, any other by username; success carries an active account and the original fields |
| Accounts.CharFieldValue | users/serializers.py:23-37 | a `CharField` with the defaults: a value not sent gets the `required` message, a value blank once stripped gets the `blank` message, a stripped value holding a NUL character gets "Null characters are not allowed.", and any other value passes on stripped, non-empty and fixed under stripping |
| Accounts.NullCharacterRefused | users/serializers.py:23-37 | a value holding a NUL character anywhere never passes a field check |
| Accounts.ValidateLoginForm | users/serializers.py:23-84 | the field errors are reported exactly when a field check fails, identifier first; otherwise `validate` runs on the stripped values |
| Accounts.LoginFormMessages | users/serializers.py:23-37 | a missing identifier is the first error ("Please provide email or username."), a blank password the last ("Password cannot be blank.") |
| Accounts.FieldChecksPreemptBothRequired | users/serializers.py:23-45 | whatever is submitted, `is_valid()` never ends in the `BothRequired` error of `validate` |
| Accounts.InactiveByEmail | users/serializers.py:78-81 | the inactive-account error on the email path implies authenticate accepted the password for some inactive account |
| Accounts.InactiveByUsername | users/serializers.py:78-81 | the same for the username path |
| Accounts.InactiveOnlyAfterAuthentication | users/serializers.py:67-81 | the inactive-account error is only ever raised after authenticate succeeded |
| Accounts.ValidateRegistration | users/serializers.py:106-118 | accepted exactly when the passwords match, the type is declared and the email is unused; the first failing check in that order decides the error; `confirm_password` is removed |
| Accounts.LastAt | users/serializers.py:121-123 | the position of the last '@', present exactly when the text holds one |
| Accounts.LowerDomain | users/serializers.py:121-123 | same length; the part before the last '@' is kept, and every character after it is lower-cased, so no ASCII capital remains |
| Accounts.NormalizeEmail | users/serializers.py:121-123 | `create_user`'s `normalize_email`: text without '@' is unchanged; otherwise the stripped text split at its last '@', with the part after it lower-cased |
| Accounts.LastAtUnique | users/serializers.py:121-123 | an '@' with no '@' after it is the last one |
| Accounts.NormalizeSplitsAtLastAt | users/serializers.py:121-123 | a stripped address keeps everything up to its last '@' and has the rest lower-cased |
| Accounts.CaseVariantNormalises | users/serializers.py:121-123 | "ann@EXAMPLE.com" is stored as "ann@example.com" |
| Accounts.CreateRegisteredUser | users/serializers.py:120-130 | the new account keeps username and type and stores the normalised email; a submitted phone number or about-me is stored as given, an absent one and an absent gender become ""; it is active and not staff |
| Accounts.RegisteredGenderBypassesModelDefault | users/serializers.py:128 | registering without a gender stores "", not the model default 'N' |
| Accounts.RegisteredAccountIsFresh | users/serializers.py:106-130 | an account created from accepted data has a declared type, hence a role; the email as submitted was on no stored account, and the stored (normalised) email is on none either when normalising leaves it unchanged |
| Accounts.CaseVariantEmailRegistersTwice | users/serializers.py:114-123 | the uniqueness check compares the submitted email but the normalised one is stored: "ann@EXAMPLE.com" registers beside "ann@example.com" and gets the same stored email |
| Accounts.NormalisedDuplicateBlocksLogin | users/serializers.py:114-123 | when an account already holds the normalised form of an accepted registration's email, a login with that email afterwards raises `MultipleObjectsReturned` |
| Accounts.AddedTwinBlocksLogin | users/serializers.py:49-56 | adding an account whose email another account holds makes a login with that email raise `MultipleObjectsReturned` |
| Accounts.SharedEmailBlocksLogin | users/serializers.py:49-56 | two accounts with one email make a login with that email raise `MultipleObjectsReturned` |
| Accounts.ValidateGender | users/serializers.py:147-150 | accepts exactly the empty value and M, F, O, N, returning it unchanged; otherwise "Invalid gender selected." |
| Accounts.GenderDisplay | users/models.py:14-19 | a declared gender code is shown as a non-empty label that is not itself a code; any other value is shown unchanged |
| Accounts.UserRepresentation | users/serializers.py:16-20 | an unauthenticated caller serialises to the empty map; an authenticated one to the declared fields with its own id, email, type and gender display |
| Groups.AdminPermissions | users/signals.py:21-23 | exactly the permissions whose app label is users, restaurants, reviews or menus |
| Groups.GetOrCreate | users/signals.py:15-17 | reports creation exactly when the name was absent; afterwards the group exists, a new one is empty, and every other group is unchanged |
| Groups.EnsureAdminGroup | users/admin.py:47-55 | the admin group exists afterwards; if new it has exactly the admin permissions; existing groups keep theirs |
| Groups.ProvisionGroups | users/signals.py:6-24 | does nothing unless the sender is `users`; then the three groups exist, an existing group keeps its permissions, and a new admin group gets exactly the admin permissions |
| Groups.ProvisionIdempotent | users/signals.py:11-24 | running the handler twice equals running it once: no duplicate group, no permission change |
| Groups.SaveModelSpec | users/admin.py:41-63 | an ADMIN is saved as staff and joins the admin group, which is created with the admin permissions only if new; anyone else is saved as given with groups untouched |
| Groups.SaveModelIdempotent | users/admin.py:41-63 | saving the same user twice equals saving once |
| Groups.SavedAdminIsStaffMember | users/admin.py:43-61 | a saved ADMIN is staff, passes the website-admin role, and is a member of "Website Admins" |
| Groups.AuthStore.GetOrCreateGroup | users/signals.py:15 | the group table and the created flag are those of `GetOrCreate` |
| Groups.AuthStore.SetGroupPermissions | users/signals.py:24 | only the named group's permissions change, to the given set |
| Groups.AuthStore.CreateInitialUserGroups | users/signals.py:6-24 | the new state is `ProvisionGroups` of the old |
| Groups.AuthStore.SaveModel | users/admin.py:41-63 | the new state is `SaveModelSpec` of the old |
| Text.TrimLeft | restaurants/models.py:187 | the result is a suffix of the input, only whitespace was dropped, and it does not start with whitespace |
| Text.TrimRight | restaurants/models.py:187 | the result is a prefix, only whitespace was dropped, and it does not end with whitespace |
| Text.Strip | restaurants/models.py:187 | the result is the slice of the input between two runs of whitespace; it is stripped, holds only input characters, is empty exactly for all-whitespace input, and leaves a stripped input unchanged |
| Text.NonSpaceSurvivesStrip | users/serializers.py:23-37 | a character that is not whitespace and occurs in the input occurs in the stripped text |
| Text.StripLeadingSpace | restaurants/serializers.py:57 | a leading blank does not change the stripped value |
| Text.Split | restaurants/serializers.py:57 | one piece more than the separator count, and no piece contains the separator |
| Text.JoinSplit | restaurants/serializers.py:57-58 | joining the pieces of a split with the same separator gives back the input |
| Text.SplitAfterPiece | restaurants/serializers.py:57 | a separator-free prefix and a separator split off as the first piece |
| Text.SplitCons | restaurants/serializers.py:57 | a non-separator character joins the first piece |
| Text.KeepSlugSource | menus/models.py:28 | only slug characters and ASCII whitespace remain |
| Text.KeepSlugSourceKey | menus/models.py:28 | the ASCII letters and digits of the name are all kept, lower-cased, in order |
| Text.KeepSlugSourceOfSlug | menus/models.py:28 | a string of slug characters is its own slug source |
| Text.DropSeparators | menus/models.py:28 | the result is a suffix with no leading hyphen or whitespace |
| Text.DropSeparatorsKey | menus/models.py:28 | dropping leading separators loses no letter or digit |
| Text.CollapseSeparators | menus/models.py:28 | after each run of hyphens and whitespace is replaced by one hyphen, only slug characters remain |
| Text.CollapseSeparatorsKey | menus/models.py:28 | collapsing leaves the letters and digits unchanged, in order |
| Text.CollapseSeparatorsShape | menus/models.py:28 | after collapsing no two hyphens are adjacent, and a leading non-separator stays first |
| Text.CollapseSeparatorsOfSlug | menus/models.py:28 | collapsing a string of slug characters with no doubled hyphen changes nothing |
| Text.StripDashUnderscore | menus/models.py:28 | the result has no leading or trailing hyphen or underscore and no character the input lacks |
| Text.StripDashUnderscoreKeeps | menus/models.py:28 | stripping loses no letter or digit and introduces no doubled hyphen |
| Text.Slugify | menus/models.py:28 | the slug holds only lower-case letters, digits, '_' and '-', does not start or end with '-' or '_', has no two hyphens in a row, and its letters and digits are the name's ASCII letters and digits, lower-cased, in order |
| Text.SlugifyIdempotent | menus/models.py:28 | the slug of a slug is the slug itself |
| Amenities.StripEach | restaurants/serializers.py:57 | one stripped piece per input piece |
| Amenities.DropEmpty | restaurants/serializers.py:58 | keeps only non-empty items, each from the input |
| Amenities.DropEmptyAppend | restaurants/serializers.py:58 | filtering distributes over concatenation, so order is kept |
| Amenities.StripEachClean | restaurants/models.py:187 | stripped comma-free pieces stay comma-free and are stripped |
| Amenities.AdditionalAmenitiesList | restaurants/models.py:184-187 | empty text gives []; every element is non-empty, unpadded and comma-free; at most one more element than commas |
| Amenities.DropEmptyClean | restaurants/models.py:187 | dropping empties from stripped comma-free pieces leaves only clean amenities |
| Amenities.NormalizeAdditionalAmenities | restaurants/serializers.py:54-59 | empty text is kept; other text is split on commas, each piece stripped, empty pieces dropped, and the rest joined with ", " |
| Amenities.NormalizeIsJoinedList | restaurants/serializers.py:54-59 | the normalised text is the parsed list joined with ", " |
| Amenities.ListOfJoined | restaurants/models.py:184-187 | parsing a ", "-join of clean amenities gives back exactly that list |
| Amenities.ListOfJoinedStep | restaurants/models.py:187 | parsing `x, rest` is x followed by the parse of rest |
| Amenities.StripEachAfterBlank | restaurants/models.py:187 | the blank after ", " disappears in stripping |
| Amenities.NormalizeRoundTrip | restaurants/serializers.py:54-59 | parsing the normalised value gives the same list as parsing the original |
| Amenities.NormalizeIdempotent | restaurants/serializers.py:54-59 | normalising twice equals normalising once |
| Amenities.PiecesOfSeparatorsAreBlank | restaurants/serializers.py:57 | splitting text of only commas and whitespace gives blank pieces |
| Amenities.DropEmptyOfBlanks | restaurants/serializers.py:58 | filtering all-empty items gives [] |
| Amenities.NormalizeOnlySeparators | restaurants/serializers.py:54-59 | text of only commas and whitespace normalises to "" |
| Restaurants.VisibleTo | restaurants/views.py:24-31 | staff see everything; an authenticated non-staff owner sees their own restaurants; everyone else sees the approved ones |
| Restaurants.Queryset | restaurants/views.py:24-31 | a restaurant is in the queryset exactly when it is visible to the caller, row by row |
| Restaurants.StaffSeeAll | restaurants/views.py:25-26 | staff see every restaurant |
| Restaurants.OwnerSeesOwn | restaurants/views.py:27-29 | an authenticated non-staff owner sees exactly their own restaurants, approved or not |
| Restaurants.OthersSeeApproved | restaurants/views.py:30-31 | every other caller, anonymous included, sees exactly the approved restaurants |
| Restaurants.VisibilityBounds | restaurants/views.py:24-31 | an approved restaurant is visible to staff and every non-owner; nobody sees more than staff |
| Restaurants.PermissionFor | restaurants/views.py:33-38 | the owner gate applies exactly to create, update, partial_update and destroy |
| Restaurants.CustomActionsAllowAny | restaurants/views.py:36-37 | the custom actions, approve included, and list and retrieve pass for any caller |
| Restaurants.ApproveSpec | restaurants/views.py:103-117 | a non-staff caller gets 403 and nothing changes; staff approve an existing restaurant, and only its approval flag changes |
| Restaurants.ApproveIdempotent | restaurants/views.py:110-112 | approving twice equals approving once |
| Restaurants.ApprovedIsPublic | restaurants/views.py:30-31 | after staff approval the restaurant is visible to anonymous and non-owner callers |
| Restaurants.ApprovePreservesValid | restaurants/models.py:120 | approval keeps the schema constraints |
| Restaurants.OperatingRow | restaurants/models.py:145-149 | the saved row belongs to the restaurant, has a declared day, and is closed only when asked |
| Restaurants.TimeOrNull | restaurants/views.py:76-82 | a time that was sent is stored; an absent or null one is stored as NULL |
| Restaurants.HolidayRow | restaurants/models.py:166-170 | the saved row belongs to the restaurant and holiday, carries the entry's times or NULL, and is closed unless `is_closed` is false |
| Restaurants.OperatingFrom | restaurants/views.py:67-73 | valid entries are appended in order up to the first invalid one, which is reported; rows before are kept |
| Restaurants.HolidayFrom | restaurants/views.py:76-82 | valid entries are appended in order, each row the `HolidayRow` of the entry at its position; the first invalid entry or duplicate (restaurant, holiday) pair stops the loop and is reported; rows before are kept and uniqueness is kept |
| Restaurants.SetHoursSpec | restaurants/views.py:63-85 | a hidden restaurant is not found; only the hours tables grow; each appended row is the `OperatingRow` or `HolidayRow` of the entry at the same position of its list; a visible restaurant is never reported not found; success saves every entry; an invalid operating entry stops before any holiday is processed and keeps the earlier rows; a holiday failure comes after every operating entry was saved and keeps the holidays before it; an integrity error is a valid entry whose (restaurant, holiday) pair is already stored |
| Restaurants.SetHoursPreservesValid | restaurants/models.py:135-176 | days stay declared codes and (restaurant, holiday) stays unique |
| Restaurants.FormOperatingEntries | restaurants/views.py:67 | a form field read as text gives one entry per character, none of them a valid entry |
| Restaurants.FormHolidayEntries | restaurants/views.py:76 | the same for the holiday field |
| Restaurants.SetHoursAsWritten | restaurants/views.py:63-85 | under the view set's form parsers the database is never changed; a non-empty operating field is refused at entry 0; success only when both fields are absent or empty |
| Restaurants.FormHoursListNeverSaved | restaurants/views.py:63-85 | a list of hours whose first entry is valid is saved by the corrected endpoint but refused at entry 0 as written |
| Restaurants.AnyoneMaySetHoursOfApproved | restaurants/views.py:33-38 | an anonymous caller can add hours to an approved restaurant |
| Restaurants.ParseBoolean | restaurants/serializers.py:7-10 | an absent flag reads false; a submitted string reads true exactly when it is one of `BooleanField`'s true strings, false exactly when it is one of its false strings, and is invalid otherwise, the empty string included |
| Restaurants.FalseStringStillStoresVideoUrl | restaurants/views.py:47-54 | the string "false" is truthy in the view, though the serializer reads it as false |
| Restaurants.TrimmedUrl | restaurants/models.py:131 | the nullable URL field keeps null and strips any text, so text of only whitespace becomes "" |
| Restaurants.ImageFieldsOf | restaurants/views.py:46-55 | the video URL is passed only for a truthy thumbnail flag, and reaches the serializer stripped; a URL of only whitespace becomes "" |
| Restaurants.ValidFiles | restaurants/views.py:50-58 | exactly the files that pass the serializer, in upload order; all valid keeps every file |
| Restaurants.ValidFilesAppend | restaurants/views.py:50-58 | the filter distributes over concatenation, so upload order is kept |
| Restaurants.UploadRows | restaurants/views.py:49-58 | one row per valid file, in order, the k-th row being the `ImageRow` of the k-th valid file for the restaurant with the given fields; none valid gives none |
| Restaurants.BadFieldsSkipEveryFile | restaurants/views.py:50-58 | an invalid flag, or a non-blank URL whose stripped text the validator refuses, skips every file silently |
| Restaurants.BlankVideoUrlStoredEmpty | restaurants/views.py:46-58 | a video URL of only blanks with a true flag does not stop the upload: the image is saved with the URL "" |
| Restaurants.UploadImagesSpec | restaurants/views.py:41-60 | a hidden restaurant is not found; otherwise always 201; only the image table grows, by one row of this restaurant per accepted file, in upload order, each carrying that file; the stored URL is the stripped one, and only for a truthy flag |
| Restaurants.UploadPreservesValid | restaurants/models.py:128 | image rows keep resolving to a restaurant |
| Restaurants.ValidateActiveIds | restaurants/serializers.py:78-85 | accepted exactly when every id names an active row; the first bad id is reported |
| Restaurants.CreateRestaurantSpec | restaurants/serializers.py:78-95 | created exactly when the owner gate passes, the caller is authenticated, every submitted venue-type and cuisine id is active, and the name is not blank; a blank name is refused exactly when the gate and the id lists pass; the owner is the requesting user, the restaurant starts unapproved, its name is the submitted name stripped, its venue types and cuisines are the submitted ids, and only that row is added |
| Restaurants.CreatedWithoutIdLists | restaurants/views.py:22 | a form that sends no id lists reads them as empty: with a non-blank name the restaurant is created with no venue types or cuisines, with a blank one the name is refused |
| Restaurants.CreateIgnoresReadOnlyFields | restaurants/serializers.py:90 | payload values for owner and is_approved do not affect the outcome |
| Restaurants.CreatedVisibility | restaurants/views.py:27-31 | a new restaurant is hidden from every caller that is neither staff nor an owner, and visible to its creator when that creator is a non-staff owner |
| Restaurants.ActiveAmenityFlags | restaurants/serializers.py:42 | one flag per amenity, equal to its active flag |
| Restaurants.SetAmenitiesSpec | restaurants/views.py:87-100 | a hidden restaurant is not found and a refusal changes nothing; refused exactly when some submitted id is not an active amenity, the first such id being reported; otherwise saved, changing only the one amenities record, whose selection becomes exactly the submitted ids and whose text is normalised; absent fields keep their stored values |
| Restaurants.SetAmenitiesKeepsList | restaurants/models.py:184-187 | the stored text parses to the same list as the text sent |
| Restaurants.SetAmenitiesPreservesValid | restaurants/models.py:180 | amenities records stay one per existing restaurant |
| Restaurants.InsertAmenity | restaurants/models.py:62 | an insert succeeds exactly when (category, code) is free, and keeps it unique |
| Restaurants.UploadLoop | restaurants/views.py:49-58 | the loop creates exactly `UploadRows` |
| Restaurants.RestaurantStore.Approve | restaurants/views.py:103-117 | the status and new state are `ApproveSpec`; the schema stays valid |
| Restaurants.RestaurantStore.SetHours | restaurants/views.py:63-85 | the outcome and new state are `SetHoursSpec`; the schema stays valid |
| Restaurants.RestaurantStore.WriteHours | restaurants/views.py:67-82 | the two loops produce exactly `SetHoursSpec` |
| Restaurants.RestaurantStore.UploadImages | restaurants/views.py:41-60 | the status, rows and new state are `UploadImagesSpec`; the schema stays valid |
| Restaurants.RestaurantStore.SaveImages | restaurants/views.py:49-60 | the loop's rows are appended to the image table, as `UploadImagesSpec` says |
| MenuSchema.DesignsOf | menus/api.py:279 | the designs of the restaurant, active or not |
| MenuSchema.AtMostOneDesign | menus/models.py:55-59 | the one-to-one field leaves a restaurant at most one design |
| MenuCatalogs.SaveCatalogRow | menus/models.py:26-29 | refused, as an integrity error, exactly for a NULL text, a negative order, or a name or stored code already in the catalog; otherwise exactly one row is added with the given fields, and uniqueness is kept |
| MenuCatalogs.CreateCatalogRowSpec | menus/api.py:165-169 | a refusal changes nothing; success returns a fresh id (the shared counter's value) and adds that one row |
| MenuCatalogs.CreateCatalogRowPreservesValid | menus/models.py:9-10 | creating a catalog row keeps the schema valid |
| MenuCatalogs.CatalogGrowthKeepsValid | menus/models.py:8-183 | adding unique catalog rows keeps every other table valid |
| MenuCatalogs.StoredCode | menus/models.py:26-29 | the code a save stores: a blank code becomes the slug of the name in the catalogs that override `save`, any other code is kept |
| MenuCatalogs.CodeDefaultsToSlug | menus/models.py:26-29 | a blank code becomes the slug of the name for categories, pricing titles and spice levels, and stays blank elsewhere |
| MenuCatalogs.SecondBlankCodeRefused | menus/models.py:129 | in a catalog without the override, a second blank code clashes with the first |
| MenuCatalogs.CategoryWithDefaultsRefused | menus/api.py:165-169 | a category created without description or notes is refused |
| MenuCatalogs.PricingTitleNeedsOnlyDescription | menus/api.py:182-186 | a pricing title with a description is refused exactly when its name or slug is taken |
| MenuCatalogs.ActiveIds | menus/api.py:160-163 | exactly the active rows of the catalog |
| MenuCatalogs.GetCatalogRow | menus/api.py:171-174 | the row when present, NotFound otherwise |
| MenuCatalogs.InactiveListedNowhereButFound | menus/api.py:171-174 | an inactive row is not listed but is still fetched by id |
| MenuCatalogs.Detach | menus/models.py:185-194 | only the reference columns change: the spice level becomes NULL exactly when it names the deleted row, and the relation of the deleted row's catalog loses that id and no other |
| MenuCatalogs.DeleteCatalogRowSpec | menus/models.py:185-194 | an unknown row is not found; a referenced category, title or portion size is refused with no change; otherwise the row goes, every item becomes `Detach` of itself, and no other table changes |
| MenuCatalogs.DeleteCatalogRowPreservesValid | menus/models.py:185-194 | the delete keeps the schema valid |
| MenuCatalogs.DeleteKeepsJoinRows | menus/models.py:73 | join rows keep resolving after an unprotected delete |
| MenuCatalogs.DeleteKeepsItems | menus/models.py:191-194 | items stay valid after the delete |
| MenuCatalogs.DetachKeepsItemValid | menus/models.py:191 | an item detached from the deleted row stays valid |
| MenuCatalogs.DeleteKeepsPortionsAndPrices | menus/models.py:211 | portions and prices stay valid after the delete |
| MenuDesigns.RowsOf | menus/api.py:236-237 | exactly the join rows of the design |
| MenuDesigns.RowsNotOf | menus/models.py:72 | exactly the join rows of other designs |
| MenuDesigns.InsertByOrder | menus/models.py:81 | inserting into a sorted listing keeps it sorted and adds exactly that row |
| MenuDesigns.SortByOrder | menus/models.py:80-81 | sorted by display order and a permutation of the input |
| MenuDesigns.Targets | menus/api.py:247-266 | at most one entry per row; with every target present, one (id, name) per row in row order |
| MenuDesigns.ListingFollowsDisplayOrder | menus/api.py:247-266 | the listing follows the rows sorted by display order, one entry per row of the design |
| MenuDesigns.AddJoinRows | menus/api.py:206-213 | rows are only appended, one per entry in payload order, with that entry's target, notes and order; the first failing entry stops the loop and is reported |
| MenuDesigns.JoinStep | menus/api.py:206-223 | one loop writes only its join table and the counter; on success one row per entry with its target and order |
| MenuDesigns.CreateDesignSpec | menus/api.py:194-225 | an unknown restaurant or an existing design fails with no write; otherwise the active design is written first and stays whatever follows; only design tables change |
| MenuDesigns.CreateDesignCategoryRows | menus/api.py:206-213 | category rows are only appended, for the new design, with existing targets and fresh ids |
| MenuDesigns.CreateDesignFollowsPayload | menus/api.py:206-213 | on success one category row per payload entry, in order, with its target and order |
| MenuDesigns.CreateDesignPricingRows | menus/api.py:215-223 | pricing rows are written only when multiple pricing is on and titles are given, then one per title in order |
| MenuDesigns.SecondDesignRefused | menus/models.py:55-59 | a second design for a restaurant is an integrity error with nothing written |
| MenuDesigns.FailedCreateBlocksRetry | menus/api.py:200-223 | a create that fails after the design insert leaves a design that makes the same request fail again |
| MenuDesigns.CreateDesignPreservesValid | menus/models.py:54-105 | creating a design, even partially, keeps the schema valid |
| MenuDesigns.WrittenJoinRowsValid | menus/models.py:71-94 | appended rows of the new design keep the join table valid |
| MenuDesigns.OtherTablesKeepValid | menus/models.py:185-235 | the item tables stay valid when only design tables change |
| MenuDesigns.ActiveDesignsOf | menus/api.py:231-233 | the active designs of the restaurant |
| MenuDesigns.GetDesignSpec | menus/api.py:227-274 | no active design is "No active menu design found"; otherwise the design's id, pricing flag and target listings, skipping missing targets |
| MenuDesigns.GetDesignOnValid | menus/api.py:229-271 | on a valid database the read never raises `MultipleObjectsReturned`: it succeeds or is not found, and it is not found when no design of the restaurant is active |
| MenuDesigns.CreateThenGet | menus/api.py:194-268 | right after a create, the read returns the new design with the requested pricing flag, with one listed entry per category given and no other category |
| MenuDesigns.CreatedCategoryListing | menus/api.py:247-256 | the new design's category listing names each given category once per entry |
| MenuDesigns.ReadOfSoleActive | menus/api.py:231-268 | with one active design the read returns it and its listings |
| MenuDesigns.ListingOfNewRows | menus/api.py:247-256 | rows appended for a design are listed with their targets |
| MenuDesigns.PermutedListing | menus/api.py:247-256 | sorting does not change which entries are listed |
| MenuDesigns.CreatedDesignIsTheActiveOne | menus/api.py:200-203 | after a create the new design is the restaurant's only active design |
| MenuDesigns.OwnRowsAreSuffix | menus/api.py:206-213 | the new design's rows are exactly those appended |
| MenuDesigns.SetOrder | menus/api.py:282-285 | only the display order of the design's rows with that target changes |
| MenuDesigns.MatchesOfSameShape | menus/api.py:282-285 | changing orders does not change which rows match |
| MenuDesigns.ReorderFrom | menus/api.py:281-285 | only display orders of the design's rows change; all updates run unless a matching entry sets a negative order |
| MenuDesigns.ReorderLastWins | menus/api.py:281-285 | each row ends with the order of the last entry naming its target, and other rows are unchanged |
| MenuDesigns.ReorderIdempotent | menus/api.py:281-285 | applying the same payload again changes nothing |
| MenuDesigns.LaterDuplicateWins | menus/api.py:281-285 | of two entries for one target, the later one wins |
| MenuDesigns.ReorderSpec | menus/api.py:276-300 | a restaurant without any design is not found; the design is found active or not; only its join table changes, as `ReorderFrom` says; the result lists the design's rows sorted by order |
| MenuDesigns.ReorderPreservesValid | menus/api.py:276-300 | reordering keeps the schema valid |
| MenuDesigns.RestaurantPricingTitlesAsWritten | menus/api.py:302-309 | the query as written always fails |
| MenuDesigns.RestaurantPricingTitles | menus/api.py:302-309 | a title is listed exactly when a pricing row links it to the restaurant's active multi-pricing design; each title once |
| MenuDesigns.PricingTitlesQueryFails | menus/api.py:305-309 | on a database with one linked title the intended query lists it and the written one fails |
| MenuDesigns.SinglePricingDesignListsNoTitles | menus/api.py:305-309 | a new single-pricing design lists no pricing titles |
| MenuDesigns.DeleteDesignSpec | menus/models.py:72 | the design goes with every join row of it; all other rows stay; nothing else changes |
| MenuDesigns.DeleteDesignPreservesValid | menus/models.py:92 | the cascade keeps the schema valid |
| MenuItems.ListMenuItems | menus/api.py:312-318 | no or zero restaurant id lists every item; any other lists exactly that restaurant's items |
| MenuItems.GetMenuItem | menus/api.py:366-369 | the item when present, NotFound otherwise |
| MenuItems.WithTags | menus/api.py:339 | sets exactly one relation to the given ids; the other relations and the columns are unchanged |
| MenuItems.SetTags | menus/api.py:339-343 | succeeds exactly when every id exists, then sets the relation; a failure changes nothing |
| MenuItems.FindJoinRow | menus/api.py:324 | the design-category row with that id, if any |
| MenuItems.CreateItemAsWritten | menus/api.py:320-335 | lookups fail NotFound in order; past them the item insert always fails and nothing is written |
| MenuItems.TagStep | menus/api.py:338-343 | a relation is set only when its id list is non-empty; only this item changes |
| MenuItems.TagAll | menus/api.py:338-343 | only the item's relations change, each only to existing ids |
| MenuItems.TagAllSetsRequested | menus/api.py:338-343 | on success each non-empty list is set and an empty or absent one keeps the relation |
| MenuItems.AppendPortionKeepsUnique | menus/models.py:217 | a portion for a free (item, size) pair keeps pairs unique |
| MenuItems.AddPortions | menus/api.py:346-353 | one portion per entry in order, with its size, quantity and order; the first refused entry stops the loop |
| MenuItems.AddPortionsKeepsUnique | menus/models.py:217 | the portion loop keeps (item, size) unique |
| MenuItems.PortionStep | menus/api.py:346-353 | nothing happens unless multiple portions are on and portions are given |
| MenuItems.AppendPriceKeepsUnique | menus/models.py:226 | a price whose triple is free keeps triples unique |
| MenuItems.AddPrices | menus/api.py:356-362 | one price per entry in order; the first refused entry stops the loop and is reported |
| MenuItems.AddPricesKeepsUnique | menus/models.py:226 | the price loop keeps (item, portion, title) unique |
| MenuItems.PriceStep | menus/api.py:356-362 | the price loop writes only the price table and the counter |
| MenuItems.FillItem | menus/api.py:338-362 | after the item insert only this item's tags, the portion and price tables and the counter change, by appending |
| MenuItems.CreateItemSpec | menus/api.py:320-364 | both lookups and the item insert fail before any write; only item tables change; success returns the new id |
| MenuItems.InsertItem | menus/api.py:327-335 | the item row is added under the next id |
| MenuItems.CreateItemAsWrittenRefusesValidRequest | menus/api.py:324 | a request the corrected endpoint accepts is refused as written |
| MenuItems.PortionQuantityNotValidated | menus/models.py:212 | a quantity of 1, which the validator rejects, is stored by the create endpoint |
| MenuItems.CreateItemWritesItem | menus/api.py:327-335 | a fresh item with the payload's columns, under the category the join row names, and other items unchanged |
| MenuItems.CreateItemTags | menus/api.py:338-343 | the new item's relations are the non-empty id lists, or empty |
| MenuItems.FillItemTags | menus/api.py:338-343 | the relations after the tag step |
| MenuItems.CreateItemPortionsOnlyWhenRequested | menus/api.py:346 | no portion row is written unless multiple portions are on and portions are given |
| MenuItems.CreateItemPortions | menus/api.py:346-353 | on success one portion row per entry in order |
| MenuItems.FillItemPortions | menus/api.py:346-353 | the portion rows follow the payload |
| MenuItems.CreateItemPrices | menus/api.py:356-362 | on success exactly one price row per payload price, in order |
| MenuItems.FillItemPrices | menus/api.py:356-362 | the price rows follow the payload |
| MenuItems.RelationOf | menus/api.py:378-381 | an `_ids` key names one of the three tag relations |
| MenuItems.AssignScalar | menus/api.py:383 | assigning a column leaves the relations unchanged |
| MenuItems.Saved | menus/api.py:385 | save writes the object's columns and leaves stored relations |
| MenuItems.SaveItem | menus/api.py:385 | refused with no change for a NULL column, negative order or missing spice level; otherwise only this row changes |
| MenuItems.AssignAsWritten | menus/api.py:377-383 | the loop as written fails exactly when some key ends in `_ids` |
| MenuItems.UpdateItemAsWritten | menus/api.py:371-386 | an unknown item is not found; any `_ids` key fails with nothing written |
| MenuItems.AssignAll | menus/api.py:377-383 | the loop changes only this item's relations, each to existing ids, and keeps its stored columns |
| MenuItems.UpdateItemSpec | menus/api.py:371-386 | an unknown item is not found; only this item's row changes; a failure keeps its columns; success returns the stored row |
| MenuItems.UpdateWithoutRelationKeys | menus/api.py:377-385 | without `_ids` keys the written and corrected update agree |
| MenuItems.AssignAllScalarsOnly | menus/api.py:377-383 | without `_ids` keys the corrected loop is the written one |
| MenuItems.UpdateAsWrittenDropsRelations | menus/api.py:378-381 | setting allergens fails as written and succeeds corrected, with only the relation changed |
| MenuItems.AssignScalarReflects | menus/api.py:383 | the object holds the value a key set, and keeps earlier keys for other columns |
| MenuItems.WithTagsReflects | menus/api.py:381 | the stored relation holds the ids a key set |
| MenuItems.SetTagsKeepsDone | menus/api.py:377-383 | setting a relation keeps what earlier keys did |
| MenuItems.AssignScalarKeepsDone | menus/api.py:377-383 | assigning a column keeps what earlier keys did |
| MenuItems.AssignAllReflects | menus/api.py:377-383 | after the loop every key's effect holds |
| MenuItems.UpdateAppliesPayload | menus/api.py:371-386 | after a successful update whose keys name distinct fields, each key's value is stored |
| MenuItems.MentionedStep | menus/api.py:377 | a column is named from i on exactly when key i or a later key names it |
| MenuItems.AssignAllKeepsRelations | menus/api.py:377-383 | relations no key names are unchanged |
| MenuItems.AssignScalarKeeps | menus/api.py:383 | columns other than the key's are unchanged |
| MenuItems.ColumnsKeptTrans | menus/api.py:377-383 | unchanged columns compose across steps |
| MenuItems.AssignAllKeepsColumns | menus/api.py:377-383 | columns no key names are unchanged |
| MenuItems.UpdateKeepsUnnamed | menus/api.py:371-386 | an update changes only columns and relations the payload names |
| MenuItems.UpdateItemPreservesValid | menus/api.py:371-386 | updating keeps the schema valid |
| MenuItems.PortionIdsOf | menus/models.py:210 | exactly the ids of the item's portions |
| MenuItems.PortionsNotOf | menus/models.py:210 | exactly the portions of other items |
| MenuItems.PricesNotOf | menus/models.py:220-221 | exactly the prices neither of the item nor of its portions |
| MenuItems.ImagesNotOf | menus/models.py:229 | exactly the images of other items |
| MenuItems.DeleteItemSpec | menus/api.py:388-393 | an unknown item is not found; otherwise the item, its portions, their prices, its prices and its images go, and nothing else |
| MenuItems.DeleteItemLeavesNoReference | menus/models.py:210-229 | no remaining row refers to the deleted item |
| MenuItems.PortionsNotOfKeepsUnique | menus/models.py:217 | the cascade keeps portion pairs unique |
| MenuItems.PricesNotOfKeepsUnique | menus/models.py:226 | the cascade keeps price triples unique |
| MenuItems.DeleteKeepsPortionsValid | menus/models.py:209-217 | portions stay valid after the delete |
| MenuItems.DeleteKeepsPortion | menus/models.py:221 | a portion of another item survives |
| MenuItems.DeleteKeepsPricesValid | menus/models.py:219-226 | prices stay valid after the delete |
| MenuItems.DeleteItemPreservesValid | menus/api.py:388-393 | deleting keeps the schema valid |
| MenuItems.UpdateItemOrderSpec | menus/api.py:411-417 | an unknown item is not found; a negative order is refused; otherwise only the item's display order changes |
| MenuItems.UpdateItemOrderIsUpdate | menus/api.py:411-417 | reordering is an update that names only the display order |
| MenuItems.UpdateItemOrderLastWins | menus/api.py:411-417 | two reorders leave the second order |
| MenuItems.UpdateItemOrderPreservesValid | menus/api.py:411-417 | reordering keeps the schema valid |
| MenuItems.DesignTablesKeepValid | menus/models.py:54-105 | the design tables stay valid when only item tables change |
| MenuItems.HasPortionKept | menus/models.py:221 | appending keeps a portion present |
| MenuItems.InsertItemKeepsValid | menus/api.py:327-335 | the item insert keeps the schema valid |
| MenuItems.TagAllKeepsValid | menus/api.py:338-343 | the tag step keeps the schema valid |
| MenuItems.PortionStepKeepsValid | menus/api.py:346-353 | the portion loop keeps the schema valid |
| MenuItems.PriceStepKeepsValid | menus/api.py:356-362 | the price loop keeps the schema valid |
| MenuItems.FillItemKeepsValid | menus/api.py:338-362 | the steps after the insert keep the schema valid |
| MenuItems.CreateItemPreservesValid | menus/api.py:320-364 | creating an item, even partially, keeps the schema valid |
| MenuApi.TargetsSnoc | menus/api.py:247-256 | one more row adds its entry, if its target exists |
| MenuApi.TargetsOf | menus/api.py:247-266 | the append loop builds exactly `Targets` |
| MenuApi.MenuStore.CreateCatalogRow | menus/api.py:165-169 | the result and new state are `CreateCatalogRowSpec`; the schema stays valid |
| MenuApi.MenuStore.InsertCatalogRow | menus/models.py:26-29 | the save computes the code and inserts, as `CreateCatalogRowSpec` says |
| MenuApi.MenuStore.DeleteCatalogRow | menus/models.py:185-194 | the result and new state are `DeleteCatalogRowSpec`; the schema stays valid |
| MenuApi.MenuStore.CreateDesign | menus/api.py:194-225 | the result and new state are `CreateDesignSpec`; the schema stays valid |
| MenuApi.MenuStore.InsertDesign | menus/api.py:197-203 | the lookups and the design insert, then the loops, as `CreateDesignSpec` says |
| MenuApi.MenuStore.AddDesignRows | menus/api.py:205-223 | the category loop, then the pricing loop only when requested, each stopping at its first failure |
| MenuApi.MenuStore.AddCategoryRows | menus/api.py:206-213 | the category loop is `JoinStep` on category rows |
| MenuApi.MenuStore.AddPricingRows | menus/api.py:217-223 | the pricing loop is `JoinStep` on pricing rows |
| MenuApi.MenuStore.GetDesign | menus/api.py:227-274 | returns `GetDesignSpec` of the state and changes nothing |
| MenuApi.MenuStore.ListTargets | menus/api.py:247-266 | the listing of the design's rows in display order |
| MenuApi.MenuStore.Reorder | menus/api.py:276-300 | the result and new state are `ReorderSpec`; the schema stays valid |
| MenuApi.MenuStore.ReorderDesignRows | menus/api.py:279-287 | the lookup and the update loop, as `ReorderSpec` says |
| MenuApi.MenuStore.ReorderTable | menus/api.py:281-285 | the update loop computes `ReorderFrom` |
| MenuApi.MenuStore.DeleteDesign | menus/models.py:72 | the result and new state are `DeleteDesignSpec`; the schema stays valid |
| MenuApi.MenuStore.CreateItem | menus/api.py:320-364 | the result and new state are `CreateItemSpec`; the schema stays valid |
| MenuApi.MenuStore.FillNewItem | menus/api.py:338-362 | the tag, portion and price steps are `FillItem` |
| MenuApi.MenuStore.SetRelation | menus/api.py:338-343 | one tag step is `TagStep` |
| MenuApi.MenuStore.AddPortionRows | menus/api.py:347-353 | the portion loop computes `AddPortions` |
| MenuApi.MenuStore.AddPriceRows | menus/api.py:356-362 | the price loop is `PriceStep` |
| MenuApi.MenuStore.UpdateItem | menus/api.py:371-386 | the result and new state are `UpdateItemSpec`; the schema stays valid |
| MenuApi.MenuStore.AssignPayload | menus/api.py:377-383 | the key loop computes `AssignAll` |
| MenuApi.MenuStore.DeleteItem | menus/api.py:388-393 | the result and new state are `DeleteItemSpec`; the schema stays valid |
| MenuApi.MenuStore.RemoveItemRows | menus/models.py:210-229 | removes the item and the rows that cascade from it |
| MenuApi.MenuStore.UpdateItemOrder | menus/api.py:411-417 | the result and new state are `UpdateItemOrderSpec`; the schema stays valid |

## Left out

- HTTP routing, response schemas and status wrapping are left out; an endpoint's result is a value or a `Failure`.
- JWT issuance and the login and registration views are left out.
- Django's `authenticate` is a parameter of the login functions, and `validate_password` is not modelled.
- Password hashing is not modelled.
- Profile pictures, restaurant logos and stored image bytes are left out. Image rows record the file's validity only.
- The menu item image upload endpoint (menus/api.py:395-409) is left out: it stores files and returns their URLs.
- The admin UI, the dashboard statistics cache and the browser scripts are left out.
- Prices are integer cents. The float a request carries, and its rounding to two places, are not modelled. The decimal column's overflow appears as the `DecimalOverflow` failure.
- Latitude, longitude and the automatic timestamps are left out.
- `max_length` limits of text columns are not modelled. A name too long for its column is stored as given.
- List endpoints return sets of ids: `Meta.ordering` of catalogs and items is not modelled.
- Rows of equal display order are listed in table order. The database leaves that order unspecified.
- Deleting a restaurant is not modelled, so neither is the cascade to its designs, items, hours and images. Restaurants of the menu tables are a fixed set of ids.
- Concurrent requests are left out. Each endpoint runs alone on the store.
- Restaurant update, partial update and destroy are not modelled beyond their permission class.
- The `UserUpdateSerializer.update` method (users/serializers.py:152-163) is not modelled. It deletes files.
- `restaurants.permissions` is not part of this model. Its `IsRestaurantOwner` is the parameter `ownerGate`.
- Text.Slugify: an ASCII approximation of Django's `slugify`. Non-ASCII letters are dropped rather than folded to ASCII first.
- Text.Strip: Python's whitespace is a fixed character predicate. Unicode normalisation is not modelled.
- MenuDesigns.GetDesignSpec: a read that raises for any reason other than "not found" is reported as the failure that raised. The model does not produce the 500 body with the exception text.
- Restaurants.SetAmenitiesSpec: the serializer's other validation errors, such as a malformed payload, are not modelled. Only an unknown or inactive amenity id refuses the request.
- Accounts.ValidateRegistration: requires the four required fields to be present, since the serializer's field checks run first. Those field checks are not modelled.
- Restaurants.CreateRestaurantSpec: only the owner gate, the active-id fields and the blank-name check decide success. The other required fields and the field validators (phone, URL, email) are not modelled, and only the first failing field is reported where DRF reports all of them.
- MenuCatalogs.CreateCatalogRowSpec: the returned id is the value of the one counter all menu tables share. The database numbers each table separately, so the id is fresh but is not the value the database returns. In the model, ids of rows of different tables never coincide.
- MenuDesigns.CreateDesignSpec: the design id and the join-row ids come from the shared counter. They are fresh but are not the database's per-table values.
- MenuItems.CreateItemSpec: the item, portion and price ids come from the shared counter. They are fresh but are not the database's per-table values.
- Accounts.CreateRegisteredUser: `normalize_username` (NFKC normalisation of the username) is not modelled, and the email's domain is lower-cased for ASCII letters only, where Python lower-cases every letter.
- The view set accepts only multipart and form bodies (restaurants/views.py:22). A JSON body is refused by the parsers; that refusal is not modelled. An id list the form does not send is read as empty, as `CreatedWithoutIdLists` states.

## Findings

| source | as written | input that shows it | evidently intended | confidence | as-written member | corrected member |
|---|---|---|---|---|---|---|
| menus/api.py:324 | `menu_category_id` is fetched as a `MenuDesignCategory` and assigned to `MenuItem.menu_category`, a foreign key to `MenuCategory`; Django refuses the assignment, so no item is ever created | restaurant 7 with design-category row 4 for category 1, payload `menu_category_id=4` | the item is filed under the category the design row names. This assumes the client sends a design-category row id, as the lookup does; the design read also returns plain `MenuCategory` ids (menus/api.py:250-252), and a client sending one of those would instead need a `MenuCategory` lookup, which the model does not cover | not executed | MenuItems.CreateItemAsWrittenRefusesValidRequest | MenuItems.CreateItemSpec |
| menus/api.py:378-381 | a key ending in `_ids` names the attribute without the suffix (`allergen`), but the relations are plural (`allergens`); `getattr` raises and nothing is saved | any update payload with `allergen_ids` | the relation named by the key is set to the ids | not executed | MenuItems.UpdateAsWrittenDropsRelations | MenuItems.UpdateItemSpec |
| restaurants/views.py:67-82 | the view set parses only multipart and form bodies (restaurants/views.py:22), so `request.data.get('operating_hours', [])` is a string and the loop validates its characters; the first is not a mapping and the request fails with 400 | form field `operating_hours=[{"day": "MON", "open_time": "09:00", "close_time": "17:00"}]` on a visible restaurant | each listed entry is validated and saved | not executed | Restaurants.FormHoursListNeverSaved | Restaurants.SetHoursSpec |
| menus/api.py:305-308 | the filter goes through `menudesignpricing`, but the pricing rows' reverse name is `menu_designs` (menus/models.py:93); the query raises a field error | one active multi-pricing design with one linked title | the distinct titles of the restaurant's active multi-pricing design | not executed | MenuDesigns.PricingTitlesQueryFails | MenuDesigns.RestaurantPricingTitles |
