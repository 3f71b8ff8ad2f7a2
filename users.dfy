/** The Users screen: a list of user records, the table view derived from it
    (sorted by a clicked column, then narrowed by a search term, a status
    filter and a role filter), the add/edit form and the delete button.

    The search term and the two filter selections are inputs of the view
    functions; the browser's confirmation dialog is the `confirmed` input of
    `Delete`; the validation alert is the `ValidationError` outcome. */
module Users {
  import opened Text
  import opened Seqs
  import opened ListView
  import opened Store

  datatype Status = Active | Inactive

  function StatusName(s: Status): string
  {
    match s
    case Active => "Active"
    case Inactive => "Inactive"
  }

  datatype User = User(id: int, name: string, email: string, role: string, status: Status)

  /** The form's draft. The id it may carry after an edit is always replaced
      on submit, so the draft holds only the editable fields. */
  datatype Draft = Draft(name: string, email: string, role: string, status: Status)

  const BlankDraft := Draft("", "", "", Active)

  function Id(u: User): int { u.id }

  function DraftOf(u: User): Draft
  {
    Draft(u.name, u.email, u.role, u.status)
  }

  /** `{ ...formData, id }`. */
  function WithId(d: Draft, id: int): User
  {
    User(id, d.name, d.email, d.role, d.status)
  }

  /** The three users the screen starts with. */
  function SeedUsers(): seq<User>
  {
    [ User(1, "John Doe", "john@vrv.com", "Admin", Active),
      User(2, "Jane Smith", "jane@vrv.com", "User", Active),
      User(3, "Mike Johnson", "mike@vrv.com", "Editor", Inactive) ]
  }

  // ---------------------------------------------------------------- sorting

  /** The sortable columns: the header cells that call `handleSort`. */
  datatype Column = NameColumn | EmailColumn | RoleColumn | StatusColumn

  function ColumnValue(u: User, c: Column): string
  {
    match c
    case NameColumn => u.name
    case EmailColumn => u.email
    case RoleColumn => u.role
    case StatusColumn => StatusName(u.status)
  }

  /** The value the comparator compares: the lower-cased column value, or
      "" for everyone when no column is selected. */
  function SortKey(cfg: SortConfig<Column>): User -> string
  {
    (u: User) => if cfg.key.None? then "" else Lower(ColumnValue(u, cfg.key.value))
  }

  /** The comparator passed to `sort`, written as the source writes it. */
  function Comparator(cfg: SortConfig<Column>, a: User, b: User): int
  {
    if cfg.key.None? then 0
    else
      var av, bv := Lower(ColumnValue(a, cfg.key.value)), Lower(ColumnValue(b, cfg.key.value));
      if LexLess(av, bv) then (if cfg.direction == Asc then -1 else 1)
      else if LexLess(bv, av) then (if cfg.direction == Asc then 1 else -1)
      else 0
  }

  /** The comparator is the list view's `Compare` on `SortKey`, so the view's
      sort is `sort` with this comparator; with no column it answers 0. */
  lemma ComparatorIsCompare(cfg: SortConfig<Column>, a: User, b: User)
    ensures Comparator(cfg, a, b) == Compare(cfg.direction, SortKey(cfg)(a), SortKey(cfg)(b))
    ensures cfg.key.None? ==> Comparator(cfg, a, b) == 0
  {
    CompareSpec(cfg.direction, "", "");
  }

  /** `sortedUsers`. */
  function SortedUsers(users: seq<User>, cfg: SortConfig<Column>): seq<User>
  {
    Sort(users, SortKey(cfg), cfg.direction)
  }

  /** The users whose sort key is `k`. */
  function HasKey(cfg: SortConfig<Column>, k: string): User -> bool
  {
    (u: User) => SortKey(cfg)(u) == k
  }

  /** `sortedUsers` is a copy of `users` in a new order that the comparator
      accepts; users that compare equal keep their relative order; with no
      column selected the order is the original one. */
  lemma SortedUsersSpec(users: seq<User>, cfg: SortConfig<Column>)
    ensures |SortedUsers(users, cfg)| == |users|
    ensures multiset(SortedUsers(users, cfg)) == multiset(users)
    ensures forall i, j :: 0 <= i < j < |users| ==>
              Comparator(cfg, SortedUsers(users, cfg)[i], SortedUsers(users, cfg)[j]) <= 0
    ensures forall i, j :: 0 <= i < j < |users| ==>
              if cfg.direction == Asc then !LexLess(SortKey(cfg)(SortedUsers(users, cfg)[j]), SortKey(cfg)(SortedUsers(users, cfg)[i]))
              else !LexLess(SortKey(cfg)(SortedUsers(users, cfg)[i]), SortKey(cfg)(SortedUsers(users, cfg)[j]))
    ensures forall k :: Filter(SortedUsers(users, cfg), HasKey(cfg, k)) == Filter(users, HasKey(cfg, k))
    ensures cfg.key.None? ==> SortedUsers(users, cfg) == users
  {
    var r := SortedUsers(users, cfg);
    SortSpec(users, SortKey(cfg), cfg.direction);
    forall i, j | 0 <= i < j < |users|
      ensures Comparator(cfg, r[i], r[j]) <= 0
      ensures if cfg.direction == Asc then !LexLess(SortKey(cfg)(r[j]), SortKey(cfg)(r[i]))
              else !LexLess(SortKey(cfg)(r[i]), SortKey(cfg)(r[j]))
    {
      ComparatorIsCompare(cfg, r[i], r[j]);
      CompareSpec(Asc, SortKey(cfg)(r[i]), SortKey(cfg)(r[j]));
    }
    forall k
      ensures Filter(r, HasKey(cfg, k)) == Filter(users, HasKey(cfg, k))
    {
      SortStable(users, SortKey(cfg), cfg.direction, HasKey(cfg, k), k);
    }
    if cfg.key.None? {
      SortEqualKeys(users, SortKey(cfg), cfg.direction, "");
    }
  }

  /** From any sort state, a click on a column followed by another click on
      it shows the reverse order, provided no two users share the lower-cased
      value of that column (with ties, both directions keep tied users in
      list order). */
  lemma SecondClickReverses(users: seq<User>, cfg: SortConfig<Column>, c: Column)
    requires forall i, j :: 0 <= i < j < |users| ==>
               Lower(ColumnValue(users[i], c)) != Lower(ColumnValue(users[j], c))
    ensures SortedUsers(users, Toggle(Toggle(cfg, c), c)) == Seqs.Reverse(SortedUsers(users, Toggle(cfg, c)))
  {
    var once := Toggle(cfg, c);
    var twice := Toggle(once, c);
    assert SortKey(once) == SortKey(twice);
    SortDescIsReversedAsc(users, SortKey(once));
    if once.direction == Desc {
      ReverseReverse(Sort(users, SortKey(once), Asc));
    }
  }

  // -------------------------------------------------------------- filtering

  /** The row test of `filteredUsers`. */
  predicate Matches(u: User, search: string, statusFilter: string, roleFilter: string)
  {
    var term := Lower(search);
    (Contains(Lower(u.name), term) || Contains(Lower(u.email), term) || Contains(Lower(u.role), term))
    && (statusFilter == "all" || StatusName(u.status) == statusFilter)
    && (roleFilter == "all" || u.role == roleFilter)
  }

  /** `filteredUsers`, applied to `sortedUsers`. */
  function FilteredUsers(sorted: seq<User>, search: string, statusFilter: string, roleFilter: string): seq<User>
  {
    Filter(sorted, u => Matches(u, search, statusFilter, roleFilter))
  }

  /** `filteredUsers` keeps, in order, exactly the users whose name, email or
      role contains the lower-cased search term, whose status is the selected
      one (unless "all") and whose role is the selected one (unless "all"). */
  lemma FilteredUsersSpec(sorted: seq<User>, search: string, statusFilter: string, roleFilter: string)
    ensures IsSubsequence(FilteredUsers(sorted, search, statusFilter, roleFilter), sorted)
    ensures forall u :: u in FilteredUsers(sorted, search, statusFilter, roleFilter) <==>
              u in sorted
              && (Contains(Lower(u.name), Lower(search)) || Contains(Lower(u.email), Lower(search))
                  || Contains(Lower(u.role), Lower(search)))
              && (statusFilter == "all" || StatusName(u.status) == statusFilter)
              && (roleFilter == "all" || u.role == roleFilter)
    ensures forall u :: multiset(FilteredUsers(sorted, search, statusFilter, roleFilter))[u] ==
              if Matches(u, search, statusFilter, roleFilter) then multiset(sorted)[u] else 0
  {
    FilterSpec(sorted, u => Matches(u, search, statusFilter, roleFilter));
  }

  /** An empty search with both filters on "all" shows every user. */
  lemma NoCriteriaShowsAll(sorted: seq<User>)
    ensures FilteredUsers(sorted, "", "all", "all") == sorted
  {
    forall i | 0 <= i < |sorted|
      ensures Matches(sorted[i], "", "all", "all")
    {
      ContainsEmpty(Lower(sorted[i].name));
    }
    FilterAll(sorted, u => Matches(u, "", "all", "all"));
  }

  /** The three tests may be applied one after the other: searching first and
      then applying the two category filters gives the same rows. */
  lemma SearchThenCategories(sorted: seq<User>, search: string, statusFilter: string, roleFilter: string)
    ensures FilteredUsers(FilteredUsers(sorted, search, "all", "all"), "", statusFilter, roleFilter) ==
            FilteredUsers(sorted, search, statusFilter, roleFilter)
  {
    var p := (u: User) => Matches(u, search, "all", "all");
    var q := (u: User) => Matches(u, "", statusFilter, roleFilter);
    assert FilteredUsers(FilteredUsers(sorted, search, "all", "all"), "", statusFilter, roleFilter)
        == Filter(Filter(sorted, p), q);
    forall u: User
      ensures (p(u) && q(u)) == Matches(u, search, statusFilter, roleFilter)
    {
      assert Lower("") == "";
      ContainsEmpty(Lower(u.name));
    }
    FilterConjunction(sorted, p, q, u => Matches(u, search, statusFilter, roleFilter));
  }

  /** Sorting the whole list before filtering, as the screen does, shows the
      same rows in the same order as filtering first. */
  lemma SortThenFilterIsFilterThenSort(users: seq<User>, cfg: SortConfig<Column>,
                                       search: string, statusFilter: string, roleFilter: string)
    ensures FilteredUsers(SortedUsers(users, cfg), search, statusFilter, roleFilter) ==
            SortedUsers(FilteredUsers(users, search, statusFilter, roleFilter), cfg)
  {
    FilterSort(users, SortKey(cfg), cfg.direction, u => Matches(u, search, statusFilter, roleFilter));
  }

  // ------------------------------------------------------------------ roles

  /** `users.map(user => user.role)`. */
  function RoleList(users: seq<User>): (r: seq<string>)
    ensures |r| == |users|
  {
    seq(|users|, i requires 0 <= i < |users| => users[i].role)
  }

  /** `uniqueRoles`. */
  function UniqueRoles(users: seq<User>): seq<string>
  {
    Dedup(RoleList(users))
  }

  /** `uniqueRoles` lists every role some user has, each once, in the order
      in which the roles first appear in the list. */
  lemma UniqueRolesSpec(users: seq<User>)
    ensures NoDuplicates(UniqueRoles(users))
    ensures forall r :: r in UniqueRoles(users) <==> exists u :: u in users && u.role == r
    ensures forall i, j :: 0 <= i < j < |UniqueRoles(users)| ==>
              UniqueRoles(users)[i] in RoleList(users) && UniqueRoles(users)[j] in RoleList(users)
              && FirstIndex(RoleList(users), UniqueRoles(users)[i]) < FirstIndex(RoleList(users), UniqueRoles(users)[j])
  {
    DedupSpec(RoleList(users));
    forall r
      ensures r in RoleList(users) <==> exists u :: u in users && u.role == r
    {
      if r in RoleList(users) {
        var i :| 0 <= i < |users| && RoleList(users)[i] == r;
        assert users[i] in users;
      }
      if exists u :: u in users && u.role == r {
        var u :| u in users && u.role == r;
        var i :| 0 <= i < |users| && users[i] == u;
        assert RoleList(users)[i] == r;
      }
    }
  }

  // ----------------------------------------------------------------- submit

  /** The required-field check: name, email and role are non-empty. */
  predicate Complete(d: Draft)
  {
    d.name != "" && d.email != "" && d.role != ""
  }

  /** What `handleSubmit` does to the list: None when the check fails;
      otherwise the edited user replaced by the draft, or the draft appended
      as a new user. */
  function Commit(users: seq<User>, editing: Option<User>, d: Draft): (r: Option<seq<User>>)
    ensures r.None? <==> !Complete(d)
    ensures r.Some? && editing.Some? ==>
              |r.value| == |users| && Ids(r.value, Id) == Ids(users, Id)
              && (forall i :: 0 <= i < |users| && users[i].id == editing.value.id ==> DraftOf(r.value[i]) == d)
              && (forall i :: 0 <= i < |users| && users[i].id != editing.value.id ==> r.value[i] == users[i])
    ensures r.Some? && editing.None? ==>
              |r.value| == |users| + 1 && r.value[..|users|] == users
              && DraftOf(r.value[|users|]) == d && r.value[|users|].id == |users| + 1
  {
    if !Complete(d) then None
    else if editing.Some? then
      var id := editing.value.id;
      ReplaceByIdSpec(users, Id, id, WithId(d, id));
      ReplaceKeepsIds(users, Id, id, WithId(d, id));
      Some(ReplaceById(users, Id, id, WithId(d, id)))
    else
      Some(users + [WithId(d, NextId(users))])
  }

  /** Saving keeps ids distinct when they were, for an edit always and for a
      new user whenever every id lies in 1..length. */
  lemma CommitKeepsIdsDistinct(users: seq<User>, editing: Option<User>, d: Draft)
    requires DistinctIds(users, Id)
    requires editing.None? ==> forall i :: 0 <= i < |users| ==> 1 <= users[i].id <= |users|
    requires Complete(d)
    ensures DistinctIds(Commit(users, editing, d).value, Id)
  {
    var r := Commit(users, editing, d).value;
    if editing.Some? {
      forall i, j | 0 <= i < j < |r|
        ensures r[i].id != r[j].id
      {
        assert Ids(r, Id)[i] == Ids(users, Id)[i] && Ids(r, Id)[j] == Ids(users, Id)[j];
      }
    } else {
      NextIdFresh(users, Id);
      forall i | 0 <= i < |users|
        ensures r[i].id != r[|users|].id
      {
        assert Ids(users, Id)[i] == users[i].id;
      }
    }
  }

  /** The new id is not always fresh: delete user 2 from the three seed
      users, add a user, and two users carry id 3. */
  lemma NewIdCanRepeat()
    ensures var kept := RemoveById(SeedUsers(), Id, 2);
            var added := Commit(kept, None, Draft("Ann Lee", "ann@vrv.com", "User", Active));
            added.Some? && |added.value| == 3 && added.value[1].id == 3 && added.value[2].id == 3
            && !DistinctIds(added.value, Id)
  {
    var seed := SeedUsers();
    var kept := RemoveById(seed, Id, 2);
    assert seed[1..][1..] == [seed[2]] && seed[2..][1..] == [];
    assert kept == [seed[0], seed[2]];
  }

  /** A sample list: sorted by name ascending, Amy comes before John, and the
      Active filter then keeps John alone. */
  lemma SortByNameThenFilterStatus()
    ensures var john := User(1, "John", "j@x.com", "Admin", Active);
            var amy := User(2, "Amy", "a@x.com", "User", Inactive);
            var sorted := SortedUsers([john, amy], SortConfig(Some(NameColumn), Asc));
            sorted == [amy, john] && FilteredUsers(sorted, "", "Active", "all") == [john]
  {
    var john := User(1, "John", "j@x.com", "Admin", Active);
    var amy := User(2, "Amy", "a@x.com", "User", Inactive);
    var cfg := SortConfig(Some(NameColumn), Asc);
    var key := SortKey(cfg);
    assert key(amy)[0] == 'a' && key(john)[0] == 'j';
    assert Compare(Asc, key(amy), key(john)) < 0;
    assert [john, amy][..1] == [john] && [john][..0] == [];
    assert Sort([john], key, Asc) == Insert([], john, key, Asc) == [john];
    assert Insert([john], amy, key, Asc) == Insert([], amy, key, Asc) + [john] == [amy, john];
    assert SortedUsers([john, amy], cfg) == Insert([john], amy, key, Asc);
    ContainsEmpty(Lower(john.name));
    assert [amy, john][1..] == [john] && [john][1..] == [];
  }

  // ---------------------------------------------------------------- screen

  /** The component's state and its event handlers. */
  class UsersScreen {
    var users: seq<User>
    var showModal: bool
    var editingUser: Option<User>
    var formData: Draft
    var sortConfig: SortConfig<Column>

    /** The modal is open whenever a user is being edited. */
    ghost predicate Valid()
      reads this
    {
      !showModal ==> editingUser.None?
    }

    /** Where the form's state machine stands. */
    function Mode(): FormMode
      reads this
    {
      if !showModal then Closed
      else match editingUser
        case Some(u) => Editing(u.id)
        case None => Creating
    }

    constructor ()
      ensures Valid() && Mode() == Closed
      ensures users == SeedUsers() && editingUser == None && formData == BlankDraft
      ensures sortConfig == SortConfig(None, Asc)
    {
      users := SeedUsers();
      showModal := false;
      editingUser := None;
      formData := BlankDraft;
      sortConfig := SortConfig(None, Asc);
    }

    /** `handleEdit`: open the form on a copy of `user`. */
    method Edit(user: User)
      modifies this
      ensures Valid() && Mode() == Editing(user.id)
      ensures editingUser == Some(user) && formData == DraftOf(user)
      ensures users == old(users) && sortConfig == old(sortConfig)
    {
      editingUser := Some(user);
      formData := DraftOf(user);
      showModal := true;
    }

    /** The "Add User" button: open the form on a blank draft. */
    method Add()
      modifies this
      ensures Valid() && Mode() == Creating && editingUser == None && formData == BlankDraft
      ensures users == old(users) && sortConfig == old(sortConfig)
    {
      editingUser := None;
      formData := BlankDraft;
      showModal := true;
    }

    /** The "Cancel" button: close the form and reset the draft; the list is
      untouched. */
    method Cancel()
      modifies this
      ensures Valid() && Mode() == Closed && editingUser == None && formData == BlankDraft
      ensures users == old(users) && sortConfig == old(sortConfig)
    {
      showModal := false;
      editingUser := None;
      formData := BlankDraft;
    }

    /** `handleDelete`: when confirmed, remove the users carrying `id`. */
    method Delete(id: int, confirmed: bool)
      requires Valid()
      modifies this
      ensures Valid()
      ensures users == if confirmed then RemoveById(old(users), Id, id) else old(users)
      ensures showModal == old(showModal) && editingUser == old(editingUser)
      ensures formData == old(formData) && sortConfig == old(sortConfig)
    {
      if confirmed {
        users := RemoveById(users, Id, id);
      }
    }

    /** `handleSubmit`: on a draft missing a required field nothing changes;
      otherwise the list becomes `Commit(..)` and the form closes with a
      blank draft. */
    method Submit() returns (outcome: Outcome)
      requires Valid() && showModal
      modifies this
      ensures Valid() && sortConfig == old(sortConfig)
      ensures outcome == ValidationError <==> !Complete(old(formData))
      ensures outcome == ValidationError ==>
                users == old(users) && formData == old(formData)
                && editingUser == old(editingUser) && showModal == old(showModal)
      ensures outcome == Saved ==>
                users == Commit(old(users), old(editingUser), old(formData)).value
                && Mode() == Closed && editingUser == None && formData == BlankDraft
    {
      if formData.name == "" || formData.email == "" || formData.role == "" {
        return ValidationError;
      }
      if editingUser.Some? {
        users := ReplaceById(users, Id, editingUser.value.id, WithId(formData, editingUser.value.id));
      } else {
        users := users + [WithId(formData, |users| + 1)];
      }
      showModal := false;
      editingUser := None;
      formData := BlankDraft;
      outcome := Saved;
    }

    /** `handleSort`: a click on a column header. */
    method SortBy(column: Column)
      requires Valid()
      modifies this
      ensures Valid()
      ensures sortConfig.key == Some(column)
      ensures sortConfig.direction == Desc <==> old(sortConfig) == SortConfig(Some(column), Asc)
      ensures users == old(users) && showModal == old(showModal)
      ensures editingUser == old(editingUser) && formData == old(formData)
    {
      var direction := Asc;
      if sortConfig.key == Some(column) && sortConfig.direction == Asc {
        direction := Desc;
      }
      sortConfig := SortConfig(Some(column), direction);
    }

    /** The form's inputs: each replaces one field of the draft. */
    method SetName(name: string)
      requires Valid() && showModal
      modifies this`formData
      ensures Valid() && formData == old(formData).(name := name)
    {
      formData := formData.(name := name);
    }

    method SetEmail(email: string)
      requires Valid() && showModal
      modifies this`formData
      ensures Valid() && formData == old(formData).(email := email)
    {
      formData := formData.(email := email);
    }

    method SetRole(role: string)
      requires Valid() && showModal
      modifies this`formData
      ensures Valid() && formData == old(formData).(role := role)
    {
      formData := formData.(role := role);
    }

    method SetStatus(status: Status)
      requires Valid() && showModal
      modifies this`formData
      ensures Valid() && formData == old(formData).(status := status)
    {
      formData := formData.(status := status);
    }
  }
}
