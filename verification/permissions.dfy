/** The static permission catalog: permission identifiers, the three built-in
    role names, and the permissions each role is seeded with. */
module Permissions {

  /** The twelve capabilities, in declaration order. */
  datatype Permission =
    | BookRead | BookCreate | BookUpdate | BookDelete
    | BorrowCreate | BorrowRead | BorrowReturn
    | MemberRead | MemberCreate | MemberUpdate | MemberDelete
    | RoleManage

  /** The `resource:action` string a permission is stored and compared as. */
  function Value(p: Permission): string {
    match p
    case BookRead => "book:read"
    case BookCreate => "book:create"
    case BookUpdate => "book:update"
    case BookDelete => "book:delete"
    case BorrowCreate => "borrow:create"
    case BorrowRead => "borrow:read"
    case BorrowReturn => "borrow:return"
    case MemberRead => "member:read"
    case MemberCreate => "member:create"
    case MemberUpdate => "member:update"
    case MemberDelete => "member:delete"
    case RoleManage => "role:manage"
  }

  datatype RoleName = Admin | Librarian | Member

  function RoleValue(r: RoleName): string {
    match r
    case Admin => "admin"
    case Librarian => "librarian"
    case Member => "member"
  }

  /** The catalog's roles in the order the table lists (and seeding visits) them. */
  const RoleOrder: seq<RoleName> := [Admin, Librarian, Member]

  /** `k` is where `a` and `b` first differ and `a` has the smaller character
      there, or `a` ends at `k` while `b` goes on. */
  predicate LessAt(a: string, b: string, k: int) {
    0 <= k <= |a| && k <= |b| && a[..k] == b[..k] &&
    (if k == |a| then k < |b| else k < |b| && a[k] < b[k])
  }

  /** Python's `<` on strings: lexicographic by code point. */
  predicate LexLess(a: string, b: string) {
    exists k | 0 <= k <= |a| :: LessAt(a, b, k)
  }

  /** Each value strictly below the next: sorted ascending with no repeats. */
  predicate SortedByValue(ps: seq<Permission>) {
    forall i :: 0 <= i < |ps| - 1 ==> LexLess(Value(ps[i]), Value(ps[i + 1]))
  }

  /** `sorted(all permissions, key=value)`, written out. */
  const AdminPermissions: seq<Permission> := [
    BookCreate, BookDelete, BookRead, BookUpdate,
    BorrowCreate, BorrowRead, BorrowReturn,
    MemberCreate, MemberDelete, MemberRead, MemberUpdate,
    RoleManage
  ]

  const LibrarianPermissions: seq<Permission> := [
    BookRead, BookCreate, BookUpdate, BookDelete,
    BorrowCreate, BorrowRead, BorrowReturn,
    MemberRead, MemberCreate, MemberUpdate
  ]

  const MemberPermissions: seq<Permission> := [
    BookRead, BorrowCreate, BorrowRead, BorrowReturn
  ]

  /** `ROLE_PERMISSIONS`. */
  const RolePermissions: map<RoleName, seq<Permission>> := map[
    Admin := AdminPermissions,
    Librarian := LibrarianPermissions,
    Member := MemberPermissions
  ]

  /** `permissions_to_strings`: the value of each permission, in order. */
  function PermissionsToStrings(ps: seq<Permission>): (r: seq<string>)
    ensures |r| == |ps|
    ensures forall i :: 0 <= i < |ps| ==> r[i] == Value(ps[i])
  {
    if ps == [] then [] else [Value(ps[0])] + PermissionsToStrings(ps[1..])
  }

  // ---- facts about the catalog ----

  /** No permission appears twice on the admin list. */
  lemma AdminHasNoDuplicates()
    ensures forall i, j :: 0 <= i < j < |AdminPermissions| ==> AdminPermissions[i] != AdminPermissions[j]
  {
  }

  /** Distinct permissions have distinct values. */
  lemma ValueInjective(p: Permission, q: Permission)
    requires Value(p) == Value(q)
    ensures p == q
  {
  }

  /** Distinct role names have distinct values. */
  lemma RoleValueInjective(r: RoleName, q: RoleName)
    requires RoleValue(r) == RoleValue(q)
    ensures r == q
  {
  }

  /** A first difference at `k` in `b`'s favour makes `a` the smaller string. */
  lemma Witness(a: string, b: string, k: int)
    requires LessAt(a, b, k)
    ensures LexLess(a, b)
  {
  }

  /** Step `i` of the admin list is in order: the two values first differ at
      the position given here. */
  lemma AdminStep(i: int)
    requires 0 <= i < |AdminPermissions| - 1
    ensures LexLess(Value(AdminPermissions[i]), Value(AdminPermissions[i + 1]))
  {
    var a, b := Value(AdminPermissions[i]), Value(AdminPermissions[i + 1]);
    var k := if i == 3 then 2 else if i == 6 || i == 10 then 0 else if i < 3 then 5 else if i == 5 then 9 else 7;
    Witness(a, b, k);
  }

  /** Every permission is on the admin list. */
  lemma AdminHasEveryPermission(p: Permission)
    ensures p in AdminPermissions
  {
  }

  /** The admin list is in ascending order of value, as `sorted(..., key=value)` leaves it. */
  lemma AdminSortedByValue()
    ensures SortedByValue(AdminPermissions)
  {
    forall i | 0 <= i < |AdminPermissions| - 1
      ensures LexLess(Value(AdminPermissions[i]), Value(AdminPermissions[i + 1]))
    {
      AdminStep(i);
    }
  }

  /** The librarian has everything except role management and member deletion. */
  lemma LibrarianExcludesTwo(p: Permission)
    ensures p in LibrarianPermissions <==> p != RoleManage && p != MemberDelete
  {
  }

  /** The member role reads books and creates, reads and returns borrows, nothing else. */
  lemma MemberIsFour(p: Permission)
    ensures p in MemberPermissions <==> p in {BookRead, BorrowCreate, BorrowRead, BorrowReturn}
  {
  }

  /** member ⊆ librarian ⊆ admin, and every role name has an entry. */
  lemma RolesNested(p: Permission, r: RoleName)
    ensures p in MemberPermissions ==> p in LibrarianPermissions
    ensures p in LibrarianPermissions ==> p in AdminPermissions
    ensures r in RolePermissions && r in RoleOrder
  {
  }
}
