/**
 * Accounts and roles (users/models.py) and the three role-based permission
 * classes (users/permissions.py).
 */
module Users {

  const CUSTOMER: string := "CUSTOMER"
  const OWNER: string := "OWNER"
  const ADMIN: string := "ADMIN"

  /** The declared `user_type` choices. The column itself is free text, so a
      stored value may lie outside them. */
  const UserTypeChoices: seq<string> := [CUSTOMER, OWNER, ADMIN]

  /** The declared `gender` choices. */
  const GenderChoices: seq<string> := ["M", "F", "O", "N"]

  /** Model-level default of `gender`. */
  const DefaultGender: string := "N"

  /** A row of the user table (profile picture files are not modelled). */
  datatype User = User(
    id: int,
    username: string,
    email: string,
    firstName: string,
    lastName: string,
    userType: string,
    phoneNumber: string,
    aboutMe: string,
    gender: string,
    isStaff: bool,
    isActive: bool)

  /** The identity a request carries: the anonymous user or a stored account. */
  datatype Caller = Anonymous | Authenticated(user: User)

  /** `User.is_restaurant_owner`. */
  predicate IsRestaurantOwner(u: User) {
    u.userType == OWNER
  }

  /** `User.is_website_admin`. */
  predicate IsWebsiteAdmin(u: User) {
    u.userType == ADMIN
  }

  /** `User.is_customer`. */
  predicate IsCustomer(u: User) {
    u.userType == CUSTOMER
  }

  /** `request.user.is_authenticated`. */
  predicate IsAuthenticated(c: Caller) {
    c.Authenticated?
  }

  /** `request.user.is_staff`; the anonymous user is never staff. */
  predicate IsStaff(c: Caller) {
    c.Authenticated? && c.user.isStaff
  }

  /** No account holds two roles at once. */
  lemma RolesExclusive(u: User)
    ensures !(IsRestaurantOwner(u) && IsWebsiteAdmin(u))
    ensures !(IsRestaurantOwner(u) && IsCustomer(u))
    ensures !(IsWebsiteAdmin(u) && IsCustomer(u))
  {
  }

  /** A role predicate holds exactly when the user type is one of the declared choices. */
  lemma RoleIffDeclaredChoice(u: User)
    ensures (IsRestaurantOwner(u) || IsWebsiteAdmin(u) || IsCustomer(u)) <==> u.userType in UserTypeChoices
  {
  }

  // ---------------------------------------------------------------------------
  // users/permissions.py
  // ---------------------------------------------------------------------------

  /** `IsWebsiteAdmin.has_permission`. */
  predicate HasWebsiteAdminPermission(c: Caller) {
    c.Authenticated? && IsWebsiteAdmin(c.user)
  }

  /** `IsRestaurantOwner.has_permission`. */
  predicate HasRestaurantOwnerPermission(c: Caller) {
    c.Authenticated? && IsRestaurantOwner(c.user)
  }

  /** `IsCustomer.has_permission`. */
  predicate HasCustomerPermission(c: Caller) {
    c.Authenticated? && IsCustomer(c.user)
  }

  /** Each permission class holds exactly for an authenticated caller of its role;
      the anonymous caller passes none, and no caller passes two. */
  lemma PermissionClassesPartitionRoles(c: Caller)
    ensures HasWebsiteAdminPermission(c) <==> IsAuthenticated(c) && c.user.userType == ADMIN
    ensures HasRestaurantOwnerPermission(c) <==> IsAuthenticated(c) && c.user.userType == OWNER
    ensures HasCustomerPermission(c) <==> IsAuthenticated(c) && c.user.userType == CUSTOMER
    ensures c.Anonymous? ==> !HasWebsiteAdminPermission(c) && !HasRestaurantOwnerPermission(c) && !HasCustomerPermission(c)
    ensures !(HasWebsiteAdminPermission(c) && HasRestaurantOwnerPermission(c))
    ensures !(HasWebsiteAdminPermission(c) && HasCustomerPermission(c))
    ensures !(HasRestaurantOwnerPermission(c) && HasCustomerPermission(c))
  {
  }
}
