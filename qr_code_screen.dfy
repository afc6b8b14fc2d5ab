/**
 * The QR-code table of the web client: the rows fetched from the server,
 * narrowed by a search term and a status filter, sorted by a chosen column,
 * with a count of the rows in each status.
 */
module QRCodeScreen {
  import opened Types
  import opened Lists
  import opened Text
  import opened TableView

  /** A QR code as the client receives it: every field a string, the owner's id optional. */
  datatype QRCodeRow = QRCodeRow(id: string, code: string, status: string, userId: Option<string>)

  /** The columns a header click can sort by. */
  datatype SortField = Id | Code | Status | UserIdColumn

  /** `String(row[field] || '')`: the column's value, with a missing or empty value read as `''`. */
  function SortKey(field: SortField, row: QRCodeRow): string {
    match field
    case Id => row.id
    case Code => row.code
    case Status => row.status
    case UserIdColumn => if row.userId.Some? then row.userId.value else ""
  }

  function KeyOf(field: SortField): QRCodeRow -> string {
    row => SortKey(field, row)
  }

  /** The lowercased term occurs in the lowercased id or code, or in a present, non-empty owner id. */
  predicate MatchesSearch(row: QRCodeRow, searchTerm: string) {
    var term := ToLower(searchTerm);
    || Includes(ToLower(row.id), term)
    || Includes(ToLower(row.code), term)
    || (row.userId.Some? && row.userId.value != "" && Includes(ToLower(row.userId.value), term))
  }

  predicate MatchesStatus(row: QRCodeRow, statusFilter: string) {
    statusFilter == "all" || row.status == statusFilter
  }

  function Shows(searchTerm: string, statusFilter: string): QRCodeRow -> bool {
    row => MatchesSearch(row, searchTerm) && MatchesStatus(row, statusFilter)
  }

  /**
   * `filteredAndSortedQRCodes`: the rows the search and the status filter let
   * through, each as often as in the fetched list, ordered by the sort column.
   */
  function FilteredAndSorted(qrCodes: seq<QRCodeRow>, searchTerm: string, statusFilter: string,
                             sortField: SortField, sortDirection: Direction): (r: seq<QRCodeRow>)
    ensures multiset(r) <= multiset(qrCodes)
    ensures |r| <= |qrCodes|
    ensures forall row :: row in r <==> row in qrCodes && MatchesSearch(row, searchTerm) && MatchesStatus(row, statusFilter)
    ensures forall row ::
      multiset(r)[row] == if MatchesSearch(row, searchTerm) && MatchesStatus(row, statusFilter) then multiset(qrCodes)[row] else 0
  {
    var kept := Filter(qrCodes, Shows(searchTerm, statusFilter));
    FilterMembers(qrCodes, Shows(searchTerm, statusFilter));
    FilterCount(qrCodes, Shows(searchTerm, statusFilter));
    SortByKey(kept, KeyOf(sortField), sortDirection)
  }

  /** The shown rows are ordered by the sort column, ascending or descending. */
  lemma FilteredAndSortedOrder(qrCodes: seq<QRCodeRow>, searchTerm: string, statusFilter: string,
                               sortField: SortField, sortDirection: Direction)
    ensures var r := FilteredAndSorted(qrCodes, searchTerm, statusFilter, sortField, sortDirection);
      forall i, j :: 0 <= i < j < |r| ==> DirectedCompare(sortDirection, SortKey(sortField, r[i]), SortKey(sortField, r[j])) <= 0
  {
    var kept := Filter(qrCodes, Shows(searchTerm, statusFilter));
    SortByKeySorted(kept, KeyOf(sortField), sortDirection);
  }

  /** With no search term and the `all` filter every fetched row is shown, each exactly as often. */
  lemma UnfilteredShowsAll(qrCodes: seq<QRCodeRow>, sortField: SortField, sortDirection: Direction)
    ensures multiset(FilteredAndSorted(qrCodes, "", "all", sortField, sortDirection)) == multiset(qrCodes)
  {
    assert ToLower("") == "";
    forall i | 0 <= i < |qrCodes| ensures Shows("", "all")(qrCodes[i]) {
      IncludesEmpty(ToLower(qrCodes[i].id));
    }
    FilterAll(qrCodes, Shows("", "all"));
  }

  function InStatus(status: QRCodeStatus): QRCodeRow -> bool {
    (row: QRCodeRow) => row.status == StatusName(status)
  }

  /** `getStatusCount(status)`: the fetched rows in that status, whatever the search and filter. */
  function StatusCount(qrCodes: seq<QRCodeRow>, status: QRCodeStatus): (n: nat)
    ensures n <= |qrCodes|
    ensures n == 0 <==> forall row :: row in qrCodes ==> row.status != StatusName(status)
  {
    FilterMembers(qrCodes, InStatus(status));
    var shown := Filter(qrCodes, InStatus(status));
    assert shown != [] ==> shown[0] in shown;
    Count(qrCodes, InStatus(status))
  }

  predicate KnownStatuses(qrCodes: seq<QRCodeRow>) {
    forall i :: 0 <= i < |qrCodes| ==> qrCodes[i].status in {"inactive", "active", "completed"}
  }

  /** When every row is in one of the three statuses, the three counts add up to the number of rows. */
  lemma {:induction false} StatusCountsSum(qrCodes: seq<QRCodeRow>)
    requires KnownStatuses(qrCodes)
    ensures StatusCount(qrCodes, Inactive) + StatusCount(qrCodes, Active) + StatusCount(qrCodes, Completed) == |qrCodes|
    decreases |qrCodes|
  {
    if qrCodes != [] {
      var prefix, last := qrCodes[..|qrCodes| - 1], qrCodes[|qrCodes| - 1];
      assert qrCodes == prefix + [last];
      StatusCountsSum(prefix);
      FilterSnoc(prefix, last, InStatus(Inactive));
      FilterSnoc(prefix, last, InStatus(Active));
      FilterSnoc(prefix, last, InStatus(Completed));
    }
  }

  /** The state of the table screen that the model follows. */
  class QRCodeTable {
    var qrCodes: seq<QRCodeRow>
    var searchTerm: string
    var statusFilter: string
    var sortField: SortField
    var sortDirection: Direction

    /** A fresh screen: nothing fetched, no search, every status, sorted by id ascending. */
    constructor ()
      ensures qrCodes == [] && searchTerm == "" && statusFilter == "all"
      ensures sortField == Id && sortDirection == Asc
    {
      qrCodes := [];
      searchTerm := "";
      statusFilter := "all";
      sortField := Id;
      sortDirection := Asc;
    }

    /** The rows on screen: "Showing |Shown()| of |qrCodes| QR codes". */
    function Shown(): seq<QRCodeRow>
      reads this
    {
      FilteredAndSorted(qrCodes, searchTerm, statusFilter, sortField, sortDirection)
    }

    /** `handleSort(field)`: only the sort state changes. */
    method HandleSort(field: SortField)
      modifies this
      ensures (sortField, sortDirection) == NextSort(old(sortField), old(sortDirection), field)
      ensures qrCodes == old(qrCodes) && searchTerm == old(searchTerm) && statusFilter == old(statusFilter)
      ensures multiset(Shown()) == multiset(old(Shown()))
    {
      if sortField == field {
        sortDirection := if sortDirection == Asc then Desc else Asc;
      } else {
        sortField := field;
        sortDirection := Asc;
      }
    }
  }
}
