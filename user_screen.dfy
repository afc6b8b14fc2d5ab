/**
 * The user table of the web client: the users fetched from the server,
 * narrowed by a search term and a role filter and sorted by a chosen column.
 */
module UserScreen {
  import opened Lists
  import opened Text
  import opened TableView

  /** A user as the client receives it. */
  datatype UserRow = UserRow(email: string, firstName: string, lastName: string, role: string)

  /** The columns a header click can sort by. */
  datatype SortField = Email | FirstName | LastName | Role

  /** `row[field]`: every column is a string, so no default is needed. */
  function SortKey(field: SortField, row: UserRow): string {
    match field
    case Email => row.email
    case FirstName => row.firstName
    case LastName => row.lastName
    case Role => row.role
  }

  function KeyOf(field: SortField): UserRow -> string {
    row => SortKey(field, row)
  }

  /** The lowercased term occurs in the lowercased email, first name or last name. */
  predicate MatchesSearch(row: UserRow, searchTerm: string) {
    var term := ToLower(searchTerm);
    || Includes(ToLower(row.email), term)
    || Includes(ToLower(row.firstName), term)
    || Includes(ToLower(row.lastName), term)
  }

  predicate MatchesRole(row: UserRow, roleFilter: string) {
    roleFilter == "all" || row.role == roleFilter
  }

  function Shows(searchTerm: string, roleFilter: string): UserRow -> bool {
    row => MatchesSearch(row, searchTerm) && MatchesRole(row, roleFilter)
  }

  /**
   * `filteredAndSortedUsers`: the users the search and the role filter let
   * through, each as often as in the fetched list, ordered by the sort column.
   */
  function FilteredAndSorted(users: seq<UserRow>, searchTerm: string, roleFilter: string,
                             sortField: SortField, sortDirection: Direction): (r: seq<UserRow>)
    ensures multiset(r) <= multiset(users)
    ensures |r| <= |users|
    ensures forall row :: row in r <==> row in users && MatchesSearch(row, searchTerm) && MatchesRole(row, roleFilter)
    ensures forall row ::
      multiset(r)[row] == if MatchesSearch(row, searchTerm) && MatchesRole(row, roleFilter) then multiset(users)[row] else 0
  {
    var kept := Filter(users, Shows(searchTerm, roleFilter));
    FilterMembers(users, Shows(searchTerm, roleFilter));
    FilterCount(users, Shows(searchTerm, roleFilter));
    SortByKey(kept, KeyOf(sortField), sortDirection)
  }

  /** The shown users are ordered by the sort column, ascending or descending. */
  lemma FilteredAndSortedOrder(users: seq<UserRow>, searchTerm: string, roleFilter: string,
                               sortField: SortField, sortDirection: Direction)
    ensures var r := FilteredAndSorted(users, searchTerm, roleFilter, sortField, sortDirection);
      forall i, j :: 0 <= i < j < |r| ==> DirectedCompare(sortDirection, SortKey(sortField, r[i]), SortKey(sortField, r[j])) <= 0
  {
    var kept := Filter(users, Shows(searchTerm, roleFilter));
    SortByKeySorted(kept, KeyOf(sortField), sortDirection);
  }

  /** With no search term and the `all` filter every fetched user is shown, each exactly as often. */
  lemma UnfilteredShowsAll(users: seq<UserRow>, sortField: SortField, sortDirection: Direction)
    ensures multiset(FilteredAndSorted(users, "", "all", sortField, sortDirection)) == multiset(users)
  {
    assert ToLower("") == "";
    forall i | 0 <= i < |users| ensures Shows("", "all")(users[i]) {
      IncludesEmpty(ToLower(users[i].email));
    }
    FilterAll(users, Shows("", "all"));
  }

  /** The state of the user table screen that the model follows. */
  class UserTable {
    var users: seq<UserRow>
    var searchTerm: string
    var roleFilter: string
    var sortField: SortField
    var sortDirection: Direction

    /** A fresh screen: nothing fetched, no search, every role, sorted by last name ascending. */
    constructor ()
      ensures users == [] && searchTerm == "" && roleFilter == "all"
      ensures sortField == LastName && sortDirection == Asc
    {
      users := [];
      searchTerm := "";
      roleFilter := "all";
      sortField := LastName;
      sortDirection := Asc;
    }

    /** The users on screen: "Showing |Shown()| of |users| users". */
    function Shown(): seq<UserRow>
      reads this
    {
      FilteredAndSorted(users, searchTerm, roleFilter, sortField, sortDirection)
    }

    /** `handleSort(field)`: only the sort state changes. */
    method HandleSort(field: SortField)
      modifies this
      ensures (sortField, sortDirection) == NextSort(old(sortField), old(sortDirection), field)
      ensures users == old(users) && searchTerm == old(searchTerm) && roleFilter == old(roleFilter)
      ensures multiset(Shown()) == multiset(old(Shown()))
    {
      if sortField == field {
        sortDirection := if sortDirection == Asc then Desc else Asc;
      } else {
        sortField := field;
        sortDirection := Asc;
      }
    }
  }
}
