/** The Roles screen: a list of roles, each with a set of permissions chosen
    from read, write and delete; the card view derived from it (sorted by
    name, then narrowed by a search term and a permission filter); the
    add/edit form with its permission checkboxes; and the delete button.

    As on the Users screen, the search term and the filter selection are
    inputs of the view functions, the confirmation dialog is the `confirmed`
    input of `Delete` and the validation alert is the `ValidationError`
    outcome. */
module Roles {
  import opened Text
  import opened Seqs
  import opened ListView
  import opened Store

  datatype Permission = Read | Write | Delete

  /** The string the source stores for a permission. */
  function PermissionName(p: Permission): string
  {
    match p
    case Read => "read"
    case Write => "write"
    case Delete => "delete"
  }

  datatype Role = Role(id: int, name: string, permissions: seq<Permission>, description: string)

  /** The form's draft: a role without its id. */
  datatype Draft = Draft(name: string, permissions: seq<Permission>, description: string)

  const BlankDraft := Draft("", [], "")

  function Id(r: Role): int { r.id }

  function DraftOf(r: Role): Draft
  {
    Draft(r.name, r.permissions, r.description)
  }

  /** `{ ...formData, id }`. */
  function WithId(d: Draft, id: int): Role
  {
    Role(id, d.name, d.permissions, d.description)
  }

  /** The three roles the screen starts with. */
  function SeedRoles(): seq<Role>
  {
    [ Role(1, "Admin", [Read, Write, Delete], "Full system access"),
      Role(2, "User", [Read], "Basic access rights"),
      Role(3, "Editor", [Read, Write], "Content management access") ]
  }

  /** `role.permissions`, as the stored strings. */
  function PermissionNames(ps: seq<Permission>): (r: seq<string>)
    ensures |r| == |ps|
  {
    seq(|ps|, i requires 0 <= i < |ps| => PermissionName(ps[i]))
  }

  // ---------------------------------------------------------------- sorting

  /** The one sortable field: the "Sort by Name" button. */
  datatype Column = NameColumn

  /** The value the comparator compares: the lower-cased name, or "" for
      every role while no sort has been chosen. */
  function SortKey(cfg: SortConfig<Column>): Role -> string
  {
    (r: Role) => if cfg.key.None? then "" else Lower(r.name)
  }

  /** The comparator passed to `sort`, written as the source writes it. */
  function Comparator(cfg: SortConfig<Column>, a: Role, b: Role): int
  {
    if cfg.key.None? then 0
    else
      var av, bv := Lower(a.name), Lower(b.name);
      if LexLess(av, bv) then (if cfg.direction == Asc then -1 else 1)
      else if LexLess(bv, av) then (if cfg.direction == Asc then 1 else -1)
      else 0
  }

  /** The comparator is the list view's `Compare` on `SortKey`; with no sort
      chosen it answers 0. */
  lemma ComparatorIsCompare(cfg: SortConfig<Column>, a: Role, b: Role)
    ensures Comparator(cfg, a, b) == Compare(cfg.direction, SortKey(cfg)(a), SortKey(cfg)(b))
    ensures cfg.key.None? ==> Comparator(cfg, a, b) == 0
  {
    CompareSpec(cfg.direction, "", "");
  }

  /** `sortedRoles`. */
  function SortedRoles(roles: seq<Role>, cfg: SortConfig<Column>): seq<Role>
  {
    Sort(roles, SortKey(cfg), cfg.direction)
  }

  /** The roles whose sort key is `k`. */
  function HasKey(cfg: SortConfig<Column>, k: string): Role -> bool
  {
    (r: Role) => SortKey(cfg)(r) == k
  }

  /** `sortedRoles` is a copy of `roles` in an order the comparator accepts;
      roles whose names agree up to case keep their relative order; before
      the first click the order is the original one. */
  lemma SortedRolesSpec(roles: seq<Role>, cfg: SortConfig<Column>)
    ensures |SortedRoles(roles, cfg)| == |roles|
    ensures multiset(SortedRoles(roles, cfg)) == multiset(roles)
    ensures forall i, j :: 0 <= i < j < |roles| ==>
              Comparator(cfg, SortedRoles(roles, cfg)[i], SortedRoles(roles, cfg)[j]) <= 0
    ensures forall i, j :: 0 <= i < j < |roles| ==>
              if cfg.direction == Asc then !LexLess(SortKey(cfg)(SortedRoles(roles, cfg)[j]), SortKey(cfg)(SortedRoles(roles, cfg)[i]))
              else !LexLess(SortKey(cfg)(SortedRoles(roles, cfg)[i]), SortKey(cfg)(SortedRoles(roles, cfg)[j]))
    ensures forall k :: Filter(SortedRoles(roles, cfg), HasKey(cfg, k)) == Filter(roles, HasKey(cfg, k))
    ensures cfg.key.None? ==> SortedRoles(roles, cfg) == roles
  {
    var r := SortedRoles(roles, cfg);
    SortSpec(roles, SortKey(cfg), cfg.direction);
    forall i, j | 0 <= i < j < |roles|
      ensures Comparator(cfg, r[i], r[j]) <= 0
      ensures if cfg.direction == Asc then !LexLess(SortKey(cfg)(r[j]), SortKey(cfg)(r[i]))
              else !LexLess(SortKey(cfg)(r[i]), SortKey(cfg)(r[j]))
    {
      ComparatorIsCompare(cfg, r[i], r[j]);
      CompareSpec(Asc, SortKey(cfg)(r[i]), SortKey(cfg)(r[j]));
    }
    forall k
      ensures Filter(r, HasKey(cfg, k)) == Filter(roles, HasKey(cfg, k))
    {
      SortStable(roles, SortKey(cfg), cfg.direction, HasKey(cfg, k), k);
    }
    if cfg.key.None? {
      SortEqualKeys(roles, SortKey(cfg), cfg.direction, "");
    }
  }

  /** From any sort state, two further clicks on "Sort by Name" show
      reversed orders, provided no two names agree up to case. */
  lemma SecondClickReverses(roles: seq<Role>, cfg: SortConfig<Column>)
    requires forall i, j :: 0 <= i < j < |roles| ==> Lower(roles[i].name) != Lower(roles[j].name)
    ensures SortedRoles(roles, Toggle(Toggle(cfg, NameColumn), NameColumn)) ==
            Seqs.Reverse(SortedRoles(roles, Toggle(cfg, NameColumn)))
  {
    var once := Toggle(cfg, NameColumn);
    var twice := Toggle(once, NameColumn);
    assert SortKey(once) == SortKey(twice);
    SortDescIsReversedAsc(roles, SortKey(once));
    if once.direction == Desc {
      ReverseReverse(Sort(roles, SortKey(once), Asc));
    }
  }

  // -------------------------------------------------------------- filtering

  /** The card test of `filteredRoles`: the lower-cased search term occurs in
      the name, the description or one of the permissions, and the role
      holds the selected permission (unless "all"). */
  predicate Matches(r: Role, search: string, permissionFilter: string)
  {
    var term := Lower(search);
    (Contains(Lower(r.name), term) || Contains(Lower(r.description), term)
     || exists n :: n in PermissionNames(r.permissions) && Contains(Lower(n), term))
    && (permissionFilter == "all" || permissionFilter in PermissionNames(r.permissions))
  }

  /** `filteredRoles`, applied to `sortedRoles`. */
  function FilteredRoles(sorted: seq<Role>, search: string, permissionFilter: string): seq<Role>
  {
    Filter(sorted, r => Matches(r, search, permissionFilter))
  }

  /** `filteredRoles` keeps, in order, exactly the roles that pass the card
      test, as often as they occur. */
  lemma FilteredRolesSpec(sorted: seq<Role>, search: string, permissionFilter: string)
    ensures IsSubsequence(FilteredRoles(sorted, search, permissionFilter), sorted)
    ensures forall r :: r in FilteredRoles(sorted, search, permissionFilter) <==>
              r in sorted && Matches(r, search, permissionFilter)
    ensures forall r :: multiset(FilteredRoles(sorted, search, permissionFilter))[r] ==
              if Matches(r, search, permissionFilter) then multiset(sorted)[r] else 0
  {
    FilterSpec(sorted, r => Matches(r, search, permissionFilter));
  }

  /** The stored strings name exactly the permissions held. */
  lemma PermissionNamesSpec(ps: seq<Permission>, p: Permission)
    ensures PermissionName(p) in PermissionNames(ps) <==> p in ps
  {
    if p in ps {
      var i :| 0 <= i < |ps| && ps[i] == p;
      assert PermissionNames(ps)[i] == PermissionName(p);
    }
    if PermissionName(p) in PermissionNames(ps) {
      var i :| 0 <= i < |ps| && PermissionNames(ps)[i] == PermissionName(p);
      assert ps[i] == p;
    }
  }

  /** Permission names are already lower case. */
  lemma PermissionNameLower(p: Permission)
    ensures Lower(PermissionName(p)) == PermissionName(p)
  {
    match p
    case Read =>
    case Write =>
    case Delete =>
  }

  /** The search finds the term in a permission exactly when it occurs in the
      name of one the role holds. */
  lemma PermissionSearchSpec(ps: seq<Permission>, term: string)
    ensures (exists n :: n in PermissionNames(ps) && Contains(Lower(n), term)) <==>
            (exists q :: q in ps && Contains(PermissionName(q), term))
  {
    var names := PermissionNames(ps);
    if exists n :: n in names && Contains(Lower(n), term) {
      var n :| n in names && Contains(Lower(n), term);
      var i :| 0 <= i < |names| && names[i] == n;
      PermissionNameLower(ps[i]);
      assert ps[i] in ps && Contains(PermissionName(ps[i]), term);
    }
    if exists q :: q in ps && Contains(PermissionName(q), term) {
      var q :| q in ps && Contains(PermissionName(q), term);
      var i :| 0 <= i < |ps| && ps[i] == q;
      PermissionNameLower(q);
      assert names[i] in names && Contains(Lower(names[i]), term);
    }
  }

  /** The permission filter, set to the option of permission `p`, keeps a
      role exactly when the role holds `p`; the search then looks in the
      name, the description and the permissions. */
  lemma PermissionFilterSpec(r: Role, search: string, p: Permission)
    ensures Matches(r, search, PermissionName(p)) <==>
              p in r.permissions
              && (Contains(Lower(r.name), Lower(search)) || Contains(Lower(r.description), Lower(search))
                  || exists q :: q in r.permissions && Contains(PermissionName(q), Lower(search)))
  {
    PermissionNamesSpec(r.permissions, p);
    PermissionSearchSpec(r.permissions, Lower(search));
  }

  /** An empty search with the filter on "all" shows every role. */
  lemma NoCriteriaShowsAll(sorted: seq<Role>)
    ensures FilteredRoles(sorted, "", "all") == sorted
  {
    forall i | 0 <= i < |sorted|
      ensures Matches(sorted[i], "", "all")
    {
      ContainsEmpty(Lower(sorted[i].name));
    }
    FilterAll(sorted, r => Matches(r, "", "all"));
  }

  /** Sorting the whole list before filtering, as the screen does, shows the
      same cards in the same order as filtering first. */
  lemma SortThenFilterIsFilterThenSort(roles: seq<Role>, cfg: SortConfig<Column>,
                                       search: string, permissionFilter: string)
    ensures FilteredRoles(SortedRoles(roles, cfg), search, permissionFilter) ==
            SortedRoles(FilteredRoles(roles, search, permissionFilter), cfg)
  {
    FilterSort(roles, SortKey(cfg), cfg.direction, r => Matches(r, search, permissionFilter));
  }

  // ------------------------------------------------------------ checkboxes

  /** A change of the checkbox for `p`: the box shows whether `p` is in the
      draft, so a change ticks an unticked box, which appends `p`, or unticks
      a ticked one, which removes `p`. */
  function Toggled(ps: seq<Permission>, p: Permission): seq<Permission>
  {
    if p in ps then Filter(ps, q => q != p) else ps + [p]
  }

  /** A change flips whether `p` is in the draft, leaves every other
      permission as it was, and never makes a permission appear twice. */
  lemma ToggledSpec(ps: seq<Permission>, p: Permission)
    ensures p in Toggled(ps, p) <==> p !in ps
    ensures forall q :: q != p ==> (q in Toggled(ps, p) <==> q in ps)
    ensures NoDuplicates(ps) ==> NoDuplicates(Toggled(ps, p))
    ensures Filter(Toggled(ps, p), q => q != p) == Filter(ps, q => q != p)
  {
    var other := q => q != p;
    FilterSpec(ps, other);
    if p in ps {
      if NoDuplicates(ps) {
        NoDuplicatesFilter(ps, other);
      }
      FilterConjunction(ps, other, other, other);
    } else {
      FilterAppend(ps, [p], other);
      assert Filter([p], other) == [];
    }
  }

  lemma {:induction false} NoDuplicatesFilter<T>(s: seq<T>, f: T -> bool)
    requires NoDuplicates(s)
    ensures NoDuplicates(Filter(s, f))
  {
    if s != [] {
      NoDuplicatesFilter(s[1..], f);
      FilterSpec(s[1..], f);
      if f(s[0]) {
        assert s[0] !in s[1..];
        assert Filter(s, f) == [s[0]] + Filter(s[1..], f);
      }
    }
  }

  /** Ticking a box and unticking it again restores the draft. */
  lemma TickUntick(ps: seq<Permission>, p: Permission)
    requires p !in ps
    ensures Toggled(Toggled(ps, p), p) == ps
  {
    var f := (q: Permission) => q != p;
    FilterAppend(ps, [p], f);
    FilterAll(ps, f);
    assert Filter([p], f) == [];
  }

  // ----------------------------------------------------------------- submit

  /** The required-field check: a name, a description and at least one
      permission. */
  predicate Complete(d: Draft)
  {
    d.name != "" && d.description != "" && |d.permissions| > 0
  }

  /** What `handleSubmit` does to the list: None when the check fails;
      otherwise the edited role replaced by the draft, or the draft appended
      as a new role. */
  function Commit(roles: seq<Role>, editing: Option<Role>, d: Draft): (r: Option<seq<Role>>)
    ensures r.None? <==> !Complete(d)
    ensures r.Some? && editing.Some? ==>
              |r.value| == |roles| && Ids(r.value, Id) == Ids(roles, Id)
              && (forall i :: 0 <= i < |roles| && roles[i].id == editing.value.id ==> DraftOf(r.value[i]) == d)
              && (forall i :: 0 <= i < |roles| && roles[i].id != editing.value.id ==> r.value[i] == roles[i])
    ensures r.Some? && editing.None? ==>
              |r.value| == |roles| + 1 && r.value[..|roles|] == roles
              && DraftOf(r.value[|roles|]) == d && r.value[|roles|].id == |roles| + 1
  {
    if !Complete(d) then None
    else if editing.Some? then
      var id := editing.value.id;
      ReplaceByIdSpec(roles, Id, id, WithId(d, id));
      ReplaceKeepsIds(roles, Id, id, WithId(d, id));
      Some(ReplaceById(roles, Id, id, WithId(d, id)))
    else
      Some(roles + [WithId(d, NextId(roles))])
  }

  /** A stored role holds at least one permission and none twice. */
  predicate WellFormed(r: Role)
  {
    |r.permissions| > 0 && NoDuplicates(r.permissions)
  }

  /** Saving a draft without repeated permissions keeps every stored role
      well formed. */
  lemma CommitKeepsWellFormed(roles: seq<Role>, editing: Option<Role>, d: Draft)
    requires forall r :: r in roles ==> WellFormed(r)
    requires NoDuplicates(d.permissions)
    requires Complete(d)
    ensures forall r :: r in Commit(roles, editing, d).value ==> WellFormed(r)
  {
    var r := Commit(roles, editing, d).value;
    forall x | x in r
      ensures WellFormed(x)
    {
      var i :| 0 <= i < |r| && r[i] == x;
      if editing.Some? && roles[i].id == editing.value.id {
        assert r[i].permissions == DraftOf(r[i]).permissions;
      } else if editing.None? && i == |roles| {
        assert r[i].permissions == DraftOf(r[i]).permissions;
      } else if editing.None? {
        assert r[i] == r[..|roles|][i];
      }
    }
  }

  /** The three seed roles are well formed. */
  lemma SeedRolesWellFormed()
    ensures forall r :: r in SeedRoles() ==> WellFormed(r)
  {
    var s := SeedRoles();
    assert WellFormed(s[0]) && WellFormed(s[1]) && WellFormed(s[2]);
  }

  // ---------------------------------------------------------------- screen

  /** The component's state and its event handlers. */
  class RolesScreen {
    var roles: seq<Role>
    var showModal: bool
    var editingRole: Option<Role>
    var formData: Draft
    var sortConfig: SortConfig<Column>

    /** The modal is open whenever a role is being edited; no permission is
        ticked twice in the draft; every stored role is well formed. */
    ghost predicate Valid()
      reads this
    {
      (!showModal ==> editingRole.None?)
      && NoDuplicates(formData.permissions)
      && forall r :: r in roles ==> WellFormed(r)
    }

    /** Where the form's state machine stands. */
    function Mode(): FormMode
      reads this
    {
      if !showModal then Closed
      else match editingRole
        case Some(r) => Editing(r.id)
        case None => Creating
    }

    constructor ()
      ensures Valid() && Mode() == Closed
      ensures roles == SeedRoles() && editingRole == None && formData == BlankDraft
      ensures sortConfig == SortConfig(None, Asc)
    {
      roles := SeedRoles();
      showModal := false;
      editingRole := None;
      formData := BlankDraft;
      sortConfig := SortConfig(None, Asc);
      SeedRolesWellFormed();
    }

    /** `handleEdit`, called from the card of a listed role. */
    method Edit(role: Role)
      requires Valid() && role in roles
      modifies this
      ensures Valid() && Mode() == Editing(role.id)
      ensures editingRole == Some(role) && formData == DraftOf(role)
      ensures roles == old(roles) && sortConfig == old(sortConfig)
    {
      editingRole := Some(role);
      formData := DraftOf(role);
      showModal := true;
    }

    /** The "Add Role" button: open the form on a blank draft. */
    method Add()
      requires Valid()
      modifies this
      ensures Valid() && Mode() == Creating && editingRole == None && formData == BlankDraft
      ensures roles == old(roles) && sortConfig == old(sortConfig)
    {
      editingRole := None;
      formData := BlankDraft;
      showModal := true;
    }

    /** The "Cancel" button: close the form and reset the draft. */
    method Cancel()
      requires Valid()
      modifies this
      ensures Valid() && Mode() == Closed && editingRole == None && formData == BlankDraft
      ensures roles == old(roles) && sortConfig == old(sortConfig)
    {
      showModal := false;
      editingRole := None;
      formData := BlankDraft;
    }

    /** `handleDelete`: when confirmed, remove the roles carrying `id`. */
    method Delete(id: int, confirmed: bool)
      requires Valid()
      modifies this
      ensures Valid()
      ensures roles == if confirmed then RemoveById(old(roles), Id, id) else old(roles)
      ensures showModal == old(showModal) && editingRole == old(editingRole)
      ensures formData == old(formData) && sortConfig == old(sortConfig)
    {
      if confirmed {
        RemoveByIdSpec(roles, Id, id);
        roles := RemoveById(roles, Id, id);
      }
    }

    /** `handleSubmit`: on an incomplete draft nothing changes; otherwise the
        list becomes `Commit(..)` and the form closes with a blank draft. */
    method Submit() returns (outcome: Outcome)
      requires Valid() && showModal
      modifies this
      ensures Valid() && sortConfig == old(sortConfig)
      ensures outcome == ValidationError <==> !Complete(old(formData))
      ensures outcome == ValidationError ==>
                roles == old(roles) && formData == old(formData)
                && editingRole == old(editingRole) && showModal == old(showModal)
      ensures outcome == Saved ==>
                roles == Commit(old(roles), old(editingRole), old(formData)).value
                && Mode() == Closed && editingRole == None && formData == BlankDraft
    {
      if formData.name == "" || formData.description == "" || |formData.permissions| == 0 {
        return ValidationError;
      }
      CommitKeepsWellFormed(roles, editingRole, formData);
      if editingRole.Some? {
        roles := ReplaceById(roles, Id, editingRole.value.id, WithId(formData, editingRole.value.id));
      } else {
        roles := roles + [WithId(formData, |roles| + 1)];
      }
      showModal := false;
      editingRole := None;
      formData := BlankDraft;
      outcome := Saved;
    }

    /** `handleSort`, from the "Sort by Name" button. */
    method SortBy(column: Column)
      requires Valid()
      modifies this
      ensures Valid()
      ensures sortConfig.key == Some(column)
      ensures sortConfig.direction == Desc <==> old(sortConfig) == SortConfig(Some(column), Asc)
      ensures roles == old(roles) && showModal == old(showModal)
      ensures editingRole == old(editingRole) && formData == old(formData)
    {
      var direction := Asc;
      if sortConfig.key == Some(column) && sortConfig.direction == Asc {
        direction := Desc;
      }
      sortConfig := SortConfig(Some(column), direction);
    }

    /** The checkbox of `p` changes: it becomes ticked exactly when it was
        not, and the draft gains or loses `p` accordingly. */
    method TogglePermission(p: Permission)
      requires Valid() && showModal
      modifies this`formData
      ensures Valid()
      ensures formData == old(formData).(permissions := Toggled(old(formData.permissions), p))
    {
      ToggledSpec(formData.permissions, p);
      var checked := p !in formData.permissions;
      if checked {
        formData := formData.(permissions := formData.permissions + [p]);
      } else {
        formData := formData.(permissions := Filter(formData.permissions, q => q != p));
      }
    }

    /** The name and description inputs. */
    method SetName(name: string)
      requires Valid() && showModal
      modifies this`formData
      ensures Valid() && formData == old(formData).(name := name)
    {
      formData := formData.(name := name);
    }

    method SetDescription(description: string)
      requires Valid() && showModal
      modifies this`formData
      ensures Valid() && formData == old(formData).(description := description)
    {
      formData := formData.(description := description);
    }
  }
}
