/** The catalog entity (a book source), the table that stores it, and the
    three orders the listing queries use. */
module BookSources {

  import opened Strings
  import opened Sorting

  /** One row of the book-source table; `url` is the primary key. A Java null
      string is read as "". */
  datatype BookSource = BookSource(
    url: string,
    name: string,
    group: string,
    weight: int,
    serialNumber: int,
    enable: bool)

  /** The persistent table, keyed by source url. */
  type Table = map<string, BookSource>

  /** The primary key of every row is the url stored in it. */
  ghost predicate KeysMatch(m: Table)
  {
    forall k :: k in m ==> m[k].url == k
  }

  /** The configurable order of the "all sources" listing. */
  datatype SortMode = SerialAsc | WeightDesc | NameAsc

  /** The `SourceSort` preference read as a sort mode: 1 is weight
      descending, 2 is name ascending, anything else serial ascending. */
  function GetBookSourceSort(preference: int): (mode: SortMode)
    ensures mode == WeightDesc <==> preference == 1
    ensures mode == NameAsc <==> preference == 2
    ensures mode == SerialAsc <==> preference != 1 && preference != 2
  {
    match preference
    case 1 => WeightDesc
    case 2 => NameAsc
    case _ => SerialAsc
  }

  /** `a` may be listed before `b` under `mode`; ties on the mode's key are
      broken by serial number ascending, as every listing query does. */
  predicate Precedes(mode: SortMode, a: BookSource, b: BookSource)
  {
    match mode
    case SerialAsc => a.serialNumber <= b.serialNumber
    case WeightDesc =>
      a.weight > b.weight || (a.weight == b.weight && a.serialNumber <= b.serialNumber)
    case NameAsc =>
      (StrLe(a.name, b.name) && a.name != b.name)
      || (a.name == b.name && a.serialNumber <= b.serialNumber)
  }

  function OrderOf(mode: SortMode): (le: (BookSource, BookSource) -> bool)
    ensures forall a, b :: le(a, b) == Precedes(mode, a, b)
  {
    (a, b) => Precedes(mode, a, b)
  }

  lemma PrecedesTotal(mode: SortMode, a: BookSource, b: BookSource)
    ensures Precedes(mode, a, b) || Precedes(mode, b, a)
  {
    if mode == NameAsc {
      StrLeTotal(a.name, b.name);
    }
  }

  lemma PrecedesTransitive(mode: SortMode, a: BookSource, b: BookSource, c: BookSource)
    requires Precedes(mode, a, b) && Precedes(mode, b, c)
    ensures Precedes(mode, a, c)
  {
    if mode == NameAsc && a.name != b.name && b.name != c.name {
      StrLeTransitive(a.name, b.name, c.name);
      if a.name == c.name {
        StrLeAntisymmetric(a.name, b.name);
      }
    }
  }

  lemma OrderIsTotalPreorder(mode: SortMode)
    ensures TotalPreorder(OrderOf(mode))
  {
    var le := OrderOf(mode);
    forall a, b ensures le(a, b) || le(b, a) {
      PrecedesTotal(mode, a, b);
    }
    forall a, b, c | le(a, b) && le(b, c) ensures le(a, c) {
      PrecedesTransitive(mode, a, b, c);
    }
  }

  /** `r` is what a listing query returns: every row of `m` (only the enabled
      ones when `enabledOnly`), each exactly once, ordered by `mode`. Rows
      that tie under `mode` may come in any order. */
  ghost predicate IsListing(r: seq<BookSource>, m: Table, enabledOnly: bool, mode: SortMode)
  {
    && (forall i :: 0 <= i < |r| ==> r[i].url in m && m[r[i].url] == r[i] && (enabledOnly ==> r[i].enable))
    && (forall k :: k in m && (enabledOnly ==> m[k].enable) ==> m[k] in r)
    && (forall i, j :: 0 <= i < j < |r| ==> r[i].url != r[j].url)
    && (forall i, j :: 0 <= i < j < |r| ==> Precedes(mode, r[i], r[j]))
  }

  /** A listing query part way through: it has looked at every key of `m`
      outside `rest`, and holds the qualifying rows among them, sorted. */
  ghost predicate PartialListing(r: seq<BookSource>, m: Table, rest: set<string>, enabledOnly: bool, mode: SortMode)
  {
    && (forall i :: 0 <= i < |r| ==>
          r[i].url in m && m[r[i].url] == r[i] && r[i].url !in rest && (enabledOnly ==> r[i].enable))
    && (forall k :: k in m && k !in rest && (enabledOnly ==> m[k].enable) ==> m[k] in r)
    && NoDuplicates(r)
    && Sorted(r, OrderOf(mode))
  }

  /** Each row of the listing after inserting the row under `k` is a
      qualifying row of `m` under a key looked at. */
  lemma InsertedRowsQualify(r: seq<BookSource>, m: Table, rest: set<string>, k: string, enabledOnly: bool, mode: SortMode)
    requires KeysMatch(m) && PartialListing(r, m, rest, enabledOnly, mode) && k in rest && k in m
    requires !enabledOnly || m[k].enable
    ensures var r' := Insert(r, m[k], OrderOf(mode));
      forall i :: 0 <= i < |r'| ==>
        r'[i].url in m && m[r'[i].url] == r'[i] && r'[i].url !in rest - {k} && (enabledOnly ==> r'[i].enable)
  {
    var x := m[k];
    var r' := Insert(r, x, OrderOf(mode));
    InsertElements(r, x, OrderOf(mode));
    forall i | 0 <= i < |r'|
      ensures r'[i].url in m && m[r'[i].url] == r'[i] && r'[i].url !in rest - {k} && (enabledOnly ==> r'[i].enable)
    {
      assert r'[i] in r';
      if r'[i] != x {
        var j :| 0 <= j < |r| && r[j] == r'[i];
      }
    }
  }

  /** Looking at one more key: a qualifying row is inserted in order. */
  lemma ListingStep(r: seq<BookSource>, m: Table, rest: set<string>, k: string, enabledOnly: bool, mode: SortMode)
    requires KeysMatch(m) && PartialListing(r, m, rest, enabledOnly, mode) && k in rest && k in m
    ensures PartialListing(if !enabledOnly || m[k].enable then Insert(r, m[k], OrderOf(mode)) else r,
                           m, rest - {k}, enabledOnly, mode)
  {
    var x := m[k];
    var le := OrderOf(mode);
    if !enabledOnly || x.enable {
      var r' := Insert(r, x, le);
      assert Sorted(r', le) by {
        OrderIsTotalPreorder(mode);
        InsertSorted(r, x, le);
      }
      assert NoDuplicates(r') by {
        forall j | 0 <= j < |r| ensures r[j] != x {
          assert r[j].url !in rest;
        }
        InsertNoDuplicates(r, x, le);
      }
      InsertedRowsQualify(r, m, rest, k, enabledOnly, mode);
      InsertElements(r, x, le);
    }
  }

  /** Once every key has been looked at, the rows are a listing. */
  lemma ListingDone(r: seq<BookSource>, m: Table, enabledOnly: bool, mode: SortMode)
    requires KeysMatch(m) && PartialListing(r, m, {}, enabledOnly, mode)
    ensures IsListing(r, m, enabledOnly, mode)
  {
    forall i, j | 0 <= i < j < |r| ensures r[i].url != r[j].url {
      assert r[i] != r[j];
      assert r[i] == m[r[i].url] && r[j] == m[r[j].url];
    }
  }
}
