/**
 * The user manager's own logic: the paging arithmetic of `list_users` and
 * the profile-completeness rule of `update_profile_complete`.
 */
module Auth {
  import opened Wrappers
  import opened Seqs

  /** Page size for the paged listing. */
  const PAGE_SIZE: nat := 30

  /** Row cap of the unpaged listing. */
  const NON_PAGED_LIMIT: nat := 300

  /** A snapshot of one user record; `id` stands for the UUID and `recDate`
      for the registration timestamp. `fullName` is a nullable column. */
  datatype UserRow = UserRow(
    id: nat, email: string, fullName: Option<string>, profilePictureUrl: Option<string>,
    isActive: bool, isSuperuser: bool, isVerified: bool, isProfileComplete: bool, recDate: int)

  /** The read schema handed back by the listing. */
  datatype UserRead = UserRead(
    id: nat, email: string, fullName: Option<string>, profilePictureUrl: Option<string>,
    isActive: bool, isSuperuser: bool, isVerified: bool, isProfileComplete: bool, recDate: int)

  /** `user_to_user_read`: a field-by-field copy. */
  function ToUserRead(u: UserRow): UserRead {
    UserRead(u.id, u.email, u.fullName, u.profilePictureUrl, u.isActive, u.isSuperuser,
             u.isVerified, u.isProfileComplete, u.recDate)
  }

  function Min(a: int, b: int): int {
    if a <= b then a else b
  }

  /** The `offset` and `limit` the listing asks of the database. */
  datatype Window = Window(offset: int, limit: nat)

  function FetchWindow(pageNo: Option<int>): Window {
    if pageNo.None? then Window(0, NON_PAGED_LIMIT) else Window(PAGE_SIZE * pageNo.value, PAGE_SIZE + 1)
  }

  /** Without a page number the listing returns every fetched row; with one
      it returns a page and whether more data follows. */
  datatype ListResult = Unpaged(items: seq<UserRead>) | Paged(content: seq<UserRead>, isMoreDataAvailable: bool)

  /** `list_users` once the database has returned `results`. */
  function ListUsers(results: seq<UserRow>, pageNo: Option<int>): (r: ListResult)
    ensures r.Unpaged? <==> pageNo.None?
    ensures r.Unpaged? ==>
      |r.items| == |results| && forall i :: 0 <= i < |results| ==> r.items[i] == ToUserRead(results[i])
    ensures r.Paged? ==>
      |r.content| == Min(|results|, PAGE_SIZE) <= PAGE_SIZE
      && forall i :: 0 <= i < |r.content| ==> r.content[i] == ToUserRead(results[i])
    ensures r.Paged? ==> (r.isMoreDataAvailable <==> |results| > PAGE_SIZE)
  {
    if pageNo.None? then Unpaged(Map(ToUserRead, results))
    else Paged(Map(ToUserRead, results[..Min(|results|, PAGE_SIZE)]), |results| > PAGE_SIZE)
  }

  /** The rows a database holding `rows` (already filtered and ordered by id)
      returns for a window: at most `limit` rows, skipping `offset` rows only
      when the offset is positive. */
  function DbWindow(rows: seq<UserRow>, w: Window): seq<UserRow> {
    var start := if w.offset > 0 then Min(w.offset, |rows|) else 0;
    rows[start..Min(start + w.limit, |rows|)]
  }

  /** The listing of page `pageNo` against a database holding `rows`. */
  function ListFrom(rows: seq<UserRow>, pageNo: Option<int>): ListResult {
    ListUsers(DbWindow(rows, FetchWindow(pageNo)), pageNo)
  }

  /** Consecutive pages start `PAGE_SIZE` rows apart, and each page's window
      reaches exactly one row into the next page. */
  lemma WindowsStep(n: int)
    ensures FetchWindow(Some(n + 1)).offset == FetchWindow(Some(n)).offset + PAGE_SIZE
    ensures FetchWindow(Some(n)).limit == PAGE_SIZE + 1
  {
  }

  /** Without a page number the listing is the first `NON_PAGED_LIMIT` rows. */
  lemma UnpagedListing(rows: seq<UserRow>)
    ensures ListFrom(rows, None) == Unpaged(Map(ToUserRead, rows[..Min(NON_PAGED_LIMIT, |rows|)]))
  {
  }

  /** Page `n` holds rows `PAGE_SIZE * n` up to `PAGE_SIZE * (n + 1)`, and
      reports more data exactly when rows lie beyond it. */
  lemma PageContent(rows: seq<UserRow>, n: nat)
    ensures var r := ListFrom(rows, Some(n));
      r.Paged?
      && r.content == Map(ToUserRead, rows[Min(PAGE_SIZE * n, |rows|)..Min(PAGE_SIZE * n + PAGE_SIZE, |rows|)])
      && (r.isMoreDataAvailable <==> |rows| > PAGE_SIZE * n + PAGE_SIZE)
  {
    var w := FetchWindow(Some(n));
    var start := if w.offset > 0 then Min(w.offset, |rows|) else 0;
    assert start == Min(PAGE_SIZE * n, |rows|);
    var fetched := DbWindow(rows, w);
    var hi := Min(PAGE_SIZE * n + PAGE_SIZE, |rows|);
    assert fetched[..Min(|fetched|, PAGE_SIZE)] == rows[start..hi];
  }

  /** A negative page number gives a negative offset, which the database
      ignores: the listing is the first page. */
  lemma NegativePageIsFirst(rows: seq<UserRow>, n: int)
    requires n < 0
    ensures ListFrom(rows, Some(n)) == ListFrom(rows, Some(0))
  {
  }

  /** The contents of pages `0` to `n - 1`, one after the other. */
  function PagesUpTo(rows: seq<UserRow>, n: nat): seq<UserRead> {
    if n == 0 then [] else PagesUpTo(rows, n - 1) + ListFrom(rows, Some(n - 1)).content
  }

  /** Paging loses and repeats nothing: the first `n` pages hold exactly the
      first `PAGE_SIZE * n` rows, in order. */
  lemma {:induction false} PagesTile(rows: seq<UserRow>, n: nat)
    ensures PagesUpTo(rows, n) == Map(ToUserRead, rows[..Min(PAGE_SIZE * n, |rows|)])
  {
    if n > 0 {
      PagesTile(rows, n - 1);
      PageContent(rows, n - 1);
      assert PAGE_SIZE * n == PAGE_SIZE * (n - 1) + PAGE_SIZE;
      MapSlices(ToUserRead, rows, Min(PAGE_SIZE * (n - 1), |rows|), Min(PAGE_SIZE * n, |rows|));
    }
  }

  /** Following pages until one reports no more data yields every row. */
  lemma LastPageCompletes(rows: seq<UserRow>, n: nat)
    requires !ListFrom(rows, Some(n)).isMoreDataAvailable
    ensures PagesUpTo(rows, n + 1) == Map(ToUserRead, rows)
  {
    PageContent(rows, n);
    assert |rows| <= PAGE_SIZE * n + PAGE_SIZE == PAGE_SIZE * (n + 1);
    PagesTile(rows, n + 1);
    assert rows[..Min(PAGE_SIZE * (n + 1), |rows|)] == rows;
  }

  /** Evaluating `len(full_name)` on a null full name raises. */
  datatype ProfileError = FullNameMissing

  /** `len(user.email) > 0 and len(user.full_name) > 0`, where `and` does not
      evaluate its right side once the left is false. */
  function ProfileComplete(email: string, fullName: Option<string>): (r: Result<bool, ProfileError>)
    ensures r.Failure? <==> |email| > 0 && fullName.None?
    ensures r.Success? ==> (r.value <==> |email| > 0 && fullName.Some? && |fullName.value| > 0)
  {
    if |email| == 0 then Success(false)
    else if fullName.None? then Failure(FullNameMissing)
    else Success(|fullName.value| > 0)
  }

  /** The write `update_profile_complete` issues for a user whose flag is
      `current`: `Some(v)` to set the flag to `v`, `None` for no write. */
  function ProfileWrite(email: string, fullName: Option<string>, current: bool): (r: Result<Option<bool>, ProfileError>)
    ensures r.Failure? <==> ProfileComplete(email, fullName).Failure?
    ensures r.Success? ==> (r.value.None? <==> ProfileComplete(email, fullName).value == current)
    ensures r.Success? && r.value.Some? ==> r.value.value == ProfileComplete(email, fullName).value != current
  {
    match ProfileComplete(email, fullName)
    case Failure(e) => Failure(e)
    case Success(complete) => Success(if complete != current then Some(complete) else None)
  }

  /** Once the flag has been written, recomputing it writes nothing more. */
  lemma ProfileWriteSettles(email: string, fullName: Option<string>, current: bool)
    requires ProfileWrite(email, fullName, current).Success?
    ensures var v := ProfileWrite(email, fullName, current).value;
      v.Some? ==> ProfileWrite(email, fullName, v.value) == Success(None)
  {
  }

  /** The user record as the user manager sees it. */
  class User {
    var id: nat
    var email: string
    var fullName: Option<string>
    var profilePictureUrl: Option<string>
    var isActive: bool
    var isSuperuser: bool
    var isVerified: bool
    var isProfileComplete: bool
    var recDate: int

    constructor(row: UserRow)
      ensures Snapshot() == row
    {
      id, email, fullName, profilePictureUrl := row.id, row.email, row.fullName, row.profilePictureUrl;
      isActive, isSuperuser, isVerified := row.isActive, row.isSuperuser, row.isVerified;
      isProfileComplete, recDate := row.isProfileComplete, row.recDate;
    }

    function Snapshot(): UserRow
      reads this
    {
      UserRow(id, email, fullName, profilePictureUrl, isActive, isSuperuser, isVerified,
              isProfileComplete, recDate)
    }
  }

  /** One write sent to the user database: set `is_profile_complete`. */
  datatype ProfileUpdate = ProfileUpdate(userId: nat, isProfileComplete: bool)

  class UserManager {
    /** The writes sent to the user database, oldest first. */
    var updates: seq<ProfileUpdate>

    constructor()
      ensures updates == []
    {
      updates := [];
    }

    /** `update_profile_complete`: recompute the flag and write it only when
        it changed; a null full name with a non-empty email raises. */
    method UpdateProfileComplete(user: User) returns (r: Result<User, ProfileError>)
      modifies this, user`isProfileComplete
      ensures var w := ProfileWrite(user.email, user.fullName, old(user.isProfileComplete));
        && (w.Failure? ==> r == Failure(w.error) && user.isProfileComplete == old(user.isProfileComplete) && updates == old(updates))
        && (w.Success? && w.value.None? ==> r == Success(user) && user.isProfileComplete == old(user.isProfileComplete) && updates == old(updates))
        && (w.Success? && w.value.Some? ==>
              r == Success(user) && user.isProfileComplete == w.value.value
              && updates == old(updates) + [ProfileUpdate(user.id, w.value.value)])
      ensures r.Success? ==> Success(user.isProfileComplete) == ProfileComplete(user.email, user.fullName)
    {
      var complete := ProfileComplete(user.email, user.fullName);
      if complete.Failure? {
        return Failure(complete.error);
      }
      if complete.value != user.isProfileComplete {
        user.isProfileComplete := complete.value;
        updates := updates + [ProfileUpdate(user.id, complete.value)];
      }
      return Success(user);
    }
  }
}
