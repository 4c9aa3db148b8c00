/** First-run bootstrap of the Roles table: when no role exists, insert
    Admin, Manager and User (in that order, in one `SaveChanges`); when any
    role exists, do nothing. */
module DataSeeder {
  import opened Results
  import opened Entities
  import opened Store

  const AdminRole: string := "Admin"
  const ManagerRole: string := "Manager"
  const UserRoleName: string := "User"

  /** The three seeded roles, with their descriptions, before ids are generated. */
  function DefaultRoles(now: Instant): seq<Role> {
    [ NewRole(AdminRole, Some("系統管理員，擁有所有權限"), now),
      NewRole(ManagerRole, Some("管理者，可查看使用者資料"), now),
      NewRole(UserRoleName, Some("一般使用者，僅能管理自己的資料"), now) ]
  }

  /** `SeedAsync` at time `now`. The identity sequence numbers the rows in
      list order. */
  function Seed(s: Store, now: Instant): (r: Store)
    ensures |s.roles| > 0 ==> r == s
    ensures |s.roles| == 0 ==> |r.roles| == 3
    ensures |s.roles| == 0 ==> r.roles[0].name == "Admin" && r.roles[1].name == "Manager" && r.roles[2].name == "User"
    ensures |s.roles| == 0 ==> forall i | 0 <= i < 3 :: r.roles[i].id == s.nextRoleId + i && r.roles[i].createdAt == now
    ensures |s.roles| == 0 ==> r.nextRoleId == s.nextRoleId + 3
    ensures r.users == s.users && r.userRoles == s.userRoles && r.nextUserId == s.nextUserId
  {
    if |s.roles| > 0 then s
    else
      var n := s.nextRoleId;
      var defaults := DefaultRoles(now);
      s.(roles := [defaults[0].(id := n), defaults[1].(id := n + 1), defaults[2].(id := n + 2)],
         nextRoleId := n + 3)
  }

  /** Running the seeder again changes nothing. */
  lemma SeedIdempotent(s: Store, now: Instant, later: Instant)
    ensures Seed(Seed(s, now), later) == Seed(s, now)
  {
  }

  /** The seeded rows satisfy every constraint on Roles (distinct ids and
      names, widths), so the database accepts them, and the store stays valid. */
  lemma SeedPreservesValid(s: Store, now: Instant)
    requires Valid(s)
    ensures Valid(Seed(s, now))
  {
  }

  /** After seeding there is a role named "User" (it is the third seeded row
      when the table was empty), so registration has a default role to assign. */
  lemma SeedProvidesDefaultRole(s: Store, now: Instant)
    requires |s.roles| == 0
    ensures FirstRoleNamed(Seed(s, now).roles, "User") == Some(Seed(s, now).roles[2])
  {
  }
}
