/**
 * Group provisioning: the post-migrate handler that creates the three
 * role groups (users/signals.py) and the admin site's `save_model`, which
 * makes an ADMIN account staff and puts it in the "Website Admins" group
 * (users/admin.py). Groups are keyed by their unique name; each holds the
 * set of permissions assigned to it.
 */
module Groups {
  import opened Users

  datatype Permission = Permission(id: int, appLabel: string, codename: string)

  /** The part of the auth tables these operations touch. */
  datatype AuthDb = AuthDb(
    groups: map<string, set<Permission>>,
    permissions: set<Permission>,
    users: map<int, User>,
    memberships: set<(int, string)>)

  const CustomersGroup: string := "Customers"
  const OwnersGroup: string := "Restaurant Owners"
  const AdminsGroup: string := "Website Admins"

  /** The app labels whose permissions the admin group receives. */
  const AdminAppLabels: set<string> := {"users", "restaurants", "reviews", "menus"}

  /** `Permission.objects.filter(content_type__app_label__in=[...])`. */
  function AdminPermissions(perms: set<Permission>): (r: set<Permission>)
    ensures r <= perms
    ensures forall p :: p in perms ==> (p in r <==> p.appLabel in AdminAppLabels)
  {
    set p | p in perms && p.appLabel in AdminAppLabels
  }

  /** `Group.objects.get_or_create(name=name)`: the new group table and whether
      a row was created. A new group has no permissions. */
  function GetOrCreate(groups: map<string, set<Permission>>, name: string): (r: (map<string, set<Permission>>, bool))
    ensures r.1 <==> name !in groups
    ensures name in r.0 && r.0.Keys == groups.Keys + {name}
    ensures forall g :: g in groups ==> r.0[g] == groups[g]
    ensures r.1 ==> r.0[name] == {}
  {
    if name in groups then (groups, false) else (groups[name := {}], true)
  }

  /** Get-or-create of the admin group, followed by `permissions.set(...)` when
      the group was just created; both callers share this step. */
  function EnsureAdminGroup(db: AuthDb): (r: AuthDb)
    ensures AdminsGroup in r.groups && r.groups.Keys == db.groups.Keys + {AdminsGroup}
    ensures AdminsGroup !in db.groups ==> r.groups[AdminsGroup] == AdminPermissions(db.permissions)
    ensures forall g :: g in db.groups ==> r.groups[g] == db.groups[g]
    ensures r.permissions == db.permissions && r.users == db.users && r.memberships == db.memberships
  {
    var (groups, created) := GetOrCreate(db.groups, AdminsGroup);
    var groups' := if created then groups[AdminsGroup := AdminPermissions(db.permissions)] else groups;
    db.(groups := groups')
  }

  /** `create_initial_user_groups`. */
  function ProvisionGroups(db: AuthDb, senderName: string): (r: AuthDb)
    // only the users app's migration triggers it
    ensures senderName != "users" ==> r == db
    ensures senderName == "users" ==> r.groups.Keys == db.groups.Keys + {CustomersGroup, OwnersGroup, AdminsGroup}
    // an existing group, the admin group included, keeps its permissions
    ensures forall g :: g in db.groups ==> r.groups[g] == db.groups[g]
    // the admin group, when it is new, gets exactly the permissions of the four apps
    ensures senderName == "users" && AdminsGroup !in db.groups
            ==> r.groups[AdminsGroup] == AdminPermissions(db.permissions)
    // the two other groups, when new, have no permissions
    ensures senderName == "users" && CustomersGroup !in db.groups ==> r.groups[CustomersGroup] == {}
    ensures senderName == "users" && OwnersGroup !in db.groups ==> r.groups[OwnersGroup] == {}
    ensures r.permissions == db.permissions && r.users == db.users && r.memberships == db.memberships
  {
    if senderName != "users" then db
    else
      var (g1, _) := GetOrCreate(db.groups, CustomersGroup);
      var (g2, _) := GetOrCreate(g1, OwnersGroup);
      EnsureAdminGroup(db.(groups := g2))
  }

  /** Running the handler a second time changes nothing. */
  lemma ProvisionIdempotent(db: AuthDb, senderName: string)
    ensures ProvisionGroups(ProvisionGroups(db, senderName), senderName) == ProvisionGroups(db, senderName)
  {
    var once := ProvisionGroups(db, senderName);
    if senderName == "users" {
      assert ProvisionGroups(once, senderName).groups == once.groups;
    }
  }

  /** `CustomUserAdmin.save_model` for the saved form object `obj`. */
  function SaveModelSpec(db: AuthDb, obj: User): (r: AuthDb)
    // an ADMIN is saved as staff and ends up in the admin group
    ensures obj.userType == ADMIN ==> r.users == db.users[obj.id := obj.(isStaff := true)]
    ensures obj.userType == ADMIN ==> r.memberships == db.memberships + {(obj.id, AdminsGroup)}
    ensures obj.userType == ADMIN ==> AdminsGroup in r.groups
    ensures obj.userType == ADMIN && AdminsGroup !in db.groups
            ==> r.groups[AdminsGroup] == AdminPermissions(db.permissions)
    // no group but the admin group is ever created, and existing groups keep their permissions
    ensures r.groups.Keys == db.groups.Keys + (if obj.userType == ADMIN then {AdminsGroup} else {})
    ensures forall g :: g in db.groups ==> r.groups[g] == db.groups[g]
    // anyone else is saved as given, with groups and memberships untouched
    ensures obj.userType != ADMIN ==> r == db.(users := db.users[obj.id := obj])
    ensures r.permissions == db.permissions
  {
    if obj.userType == ADMIN then
      var staff := obj.(isStaff := true);
      var db' := EnsureAdminGroup(db);
      db'.(users := db'.users[obj.id := staff], memberships := db'.memberships + {(obj.id, AdminsGroup)})
    else
      db.(users := db.users[obj.id := obj])
  }

  /** Saving the same form object twice leaves the same state as saving it once:
      the second save finds the group and creates no other. */
  lemma SaveModelIdempotent(db: AuthDb, obj: User)
    ensures SaveModelSpec(SaveModelSpec(db, obj), obj) == SaveModelSpec(db, obj)
  {
    var once := SaveModelSpec(db, obj);
    if obj.userType == ADMIN {
      assert SaveModelSpec(once, obj).groups == once.groups;
      assert SaveModelSpec(once, obj).users == once.users;
    }
  }

  /** After a save, an ADMIN account is a staff member of the admin group. */
  lemma SavedAdminIsStaffMember(db: AuthDb, obj: User)
    requires obj.userType == ADMIN
    ensures var r := SaveModelSpec(db, obj);
            obj.id in r.users && r.users[obj.id].isStaff && IsWebsiteAdmin(r.users[obj.id])
            && (obj.id, AdminsGroup) in r.memberships
  {
  }

  /** The group tables, updated in place by the handler and by the admin site. */
  class AuthStore {
    var groups: map<string, set<Permission>>
    var permissions: set<Permission>
    var users: map<int, User>
    var memberships: set<(int, string)>

    function State(): AuthDb
      reads this
    {
      AuthDb(groups, permissions, users, memberships)
    }

    constructor (permissions: set<Permission>)
      ensures State() == AuthDb(map[], permissions, map[], {})
    {
      this.groups := map[];
      this.permissions := permissions;
      this.users := map[];
      this.memberships := {};
    }

    /** `Group.objects.get_or_create(name=name)`. */
    method GetOrCreateGroup(name: string) returns (created: bool)
      modifies this`groups
      ensures (groups, created) == GetOrCreate(old(groups), name)
    {
      created := name !in groups;
      if created {
        groups := groups[name := {}];
      }
    }

    /** `group.permissions.set(perms)`. */
    method SetGroupPermissions(name: string, perms: set<Permission>)
      requires name in groups
      modifies this`groups
      ensures groups == old(groups)[name := perms]
    {
      groups := groups[name := perms];
    }

    /** `create_initial_user_groups`. */
    method CreateInitialUserGroups(senderName: string)
      modifies this`groups
      ensures State() == ProvisionGroups(old(State()), senderName)
    {
      if senderName == "users" {
        var _ := GetOrCreateGroup(CustomersGroup);
        var _ := GetOrCreateGroup(OwnersGroup);
        var created := GetOrCreateGroup(AdminsGroup);
        if created {
          SetGroupPermissions(AdminsGroup, AdminPermissions(permissions));
        }
      }
    }

    /** `CustomUserAdmin.save_model`. */
    method SaveModel(obj: User)
      modifies this`groups, this`users, this`memberships
      ensures State() == SaveModelSpec(old(State()), obj)
    {
      if obj.userType == ADMIN {
        var staff := obj.(isStaff := true);
        var created := GetOrCreateGroup(AdminsGroup);
        if created {
          SetGroupPermissions(AdminsGroup, AdminPermissions(permissions));
        }
        users := users[obj.id := staff];
        memberships := memberships + {(obj.id, AdminsGroup)};
      } else {
        users := users[obj.id := obj];
      }
    }
  }
}
