/** Promote to top (`toTop`): renumber the whole catalog 1..n in its current
    serial order, then write the target with serial number 0. */
module Promotion {

  import opened BookSources

  /** The listing with each row's serial number set to its 1-based position. */
  function Renumbered(order: seq<BookSource>): (r: seq<BookSource>)
    ensures |r| == |order|
    ensures forall i :: 0 <= i < |r| ==> r[i] == order[i].(serialNumber := i + 1)
  {
    seq(|order|, i requires 0 <= i < |order| => order[i].(serialNumber := i + 1))
  }

  function UrlsOf(rs: seq<BookSource>): set<string>
  {
    set x | x in rs :: x.url
  }

  /** A batch insert-or-replace of `rs`, each row keyed by its url. */
  function PutAll(m: Table, rs: seq<BookSource>): (r: Table)
    ensures r.Keys == m.Keys + UrlsOf(rs)
    ensures forall k :: k in m && k !in UrlsOf(rs) ==> r[k] == m[k]
    decreases |rs|
  {
    if |rs| == 0 then m
    else
      assert UrlsOf(rs) == {rs[0].url} + UrlsOf(rs[1..]) by {
        assert rs == [rs[0]] + rs[1..];
      }
      PutAll(m[rs[0].url := rs[0]], rs[1..])
  }

  /** When the urls of `rs` are distinct, each row of `rs` is what is stored. */
  lemma {:induction false} PutAllStoresEachRow(m: Table, rs: seq<BookSource>, i: nat)
    requires forall a, b :: 0 <= a < b < |rs| ==> rs[a].url != rs[b].url
    requires i < |rs|
    ensures PutAll(m, rs)[rs[i].url] == rs[i]
    decreases |rs|
  {
    var rest := rs[1..];
    if i == 0 {
      forall x | x in rest ensures x.url != rs[0].url {
        var j :| 0 <= j < |rest| && rest[j] == x;
        assert rs[j + 1] == x;
      }
      assert rs[0].url !in UrlsOf(rest);
    } else {
      PutAllStoresEachRow(m[rs[0].url := rs[0]], rest, i - 1);
    }
  }

  /** The table after promoting `target`, given the serial-ordered listing
      the promotion read. */
  function Promote(m: Table, order: seq<BookSource>, target: BookSource): Table
  {
    PutAll(m, Renumbered(order))[target.url := target.(serialNumber := 0)]
  }

  /** Every row of the table sits at some position of a listing of it. */
  lemma ListingPosition(m: Table, order: seq<BookSource>, k: string) returns (i: nat)
    requires KeysMatch(m) && IsListing(order, m, false, SerialAsc) && k in m
    ensures i < |order| && order[i] == m[k]
  {
    assert m[k] in order;
    i :| 0 <= i < |order| && order[i] == m[k];
  }

  /** The batch write of the renumbered listing adds no key and stores each
      row of the listing at its 1-based position. */
  lemma RenumberedStored(m: Table, order: seq<BookSource>)
    requires KeysMatch(m) && IsListing(order, m, false, SerialAsc)
    ensures var p := PutAll(m, Renumbered(order));
      && p.Keys == m.Keys
      && (forall i :: 0 <= i < |order| ==> p[order[i].url] == order[i].(serialNumber := i + 1))
  {
    var rs := Renumbered(order);
    assert forall a, b :: 0 <= a < b < |rs| ==> rs[a].url != rs[b].url;
    forall i | 0 <= i < |order|
      ensures PutAll(m, rs)[order[i].url] == order[i].(serialNumber := i + 1)
    {
      PutAllStoresEachRow(m, rs, i);
    }
    forall u | u in UrlsOf(rs) ensures u in m {
      var x :| x in rs && x.url == u;
      var i :| 0 <= i < |rs| && rs[i] == x;
      assert order[i].url == u;
    }
  }

  /** Promotion writes the target at 0 and every other row at its 1-based
      position in the listing, keeping all its other fields. */
  lemma PromoteRenumbers(m: Table, order: seq<BookSource>, target: BookSource)
    requires KeysMatch(m) && IsListing(order, m, false, SerialAsc)
    ensures var r := Promote(m, order, target);
      && r.Keys == m.Keys + {target.url}
      && r[target.url] == target.(serialNumber := 0)
      && (forall i :: 0 <= i < |order| && order[i].url != target.url ==>
            r[order[i].url] == order[i].(serialNumber := i + 1))
      && (forall k :: k in m && k != target.url ==>
            r[k] == m[k].(serialNumber := r[k].serialNumber) && 1 <= r[k].serialNumber <= |order|)
  {
    RenumberedStored(m, order);
    var p := PutAll(m, Renumbered(order));
    forall k | k in m && k != target.url
      ensures p[k] == m[k].(serialNumber := p[k].serialNumber) && 1 <= p[k].serialNumber <= |order|
    {
      var i := ListingPosition(m, order, k);
      assert order[i].url == k;
    }
  }

  lemma PromoteKeepsKeysMatch(m: Table, order: seq<BookSource>, target: BookSource)
    requires KeysMatch(m) && IsListing(order, m, false, SerialAsc)
    ensures KeysMatch(Promote(m, order, target))
  {
    PromoteRenumbers(m, order, target);
  }

  /** After promotion no two rows share a serial number. */
  lemma PromoteGivesDistinctSerials(m: Table, order: seq<BookSource>, target: BookSource)
    requires KeysMatch(m) && IsListing(order, m, false, SerialAsc)
    ensures var r := Promote(m, order, target);
      forall k1, k2 :: k1 in r && k2 in r && k1 != k2 ==> r[k1].serialNumber != r[k2].serialNumber
  {
    var r := Promote(m, order, target);
    PromoteRenumbers(m, order, target);
    forall k1, k2 | k1 in r && k2 in r && k1 != k2
      ensures r[k1].serialNumber != r[k2].serialNumber
    {
      if k1 != target.url && k2 != target.url {
        var i1 := ListingPosition(m, order, k1);
        var i2 := ListingPosition(m, order, k2);
        assert r[k1].serialNumber == i1 + 1 && r[k2].serialNumber == i2 + 1;
      }
    }
  }

  /** In a serial-ordered listing a smaller serial number sits earlier. */
  lemma SerialOrderIsIndexOrder(order: seq<BookSource>, i: nat, j: nat)
    requires forall a, b :: 0 <= a < b < |order| ==> Precedes(SerialAsc, order[a], order[b])
    requires i < |order| && j < |order| && order[i].serialNumber < order[j].serialNumber
    ensures i < j
  {
  }

  /** Rows other than the target keep their relative order. */
  lemma PromoteKeepsRelativeOrder(m: Table, order: seq<BookSource>, target: BookSource)
    requires KeysMatch(m) && IsListing(order, m, false, SerialAsc)
    ensures var r := Promote(m, order, target);
      forall k1, k2 ::
        (k1 in m && k2 in m && k1 != target.url && k2 != target.url
         && m[k1].serialNumber < m[k2].serialNumber) ==> r[k1].serialNumber < r[k2].serialNumber
  {
    var r := Promote(m, order, target);
    PromoteRenumbers(m, order, target);
    forall k1, k2 | k1 in m && k2 in m && k1 != target.url && k2 != target.url
        && m[k1].serialNumber < m[k2].serialNumber
      ensures r[k1].serialNumber < r[k2].serialNumber
    {
      var i1 := ListingPosition(m, order, k1);
      var i2 := ListingPosition(m, order, k2);
      SerialOrderIsIndexOrder(order, i1, i2);
      assert r[k1].serialNumber == i1 + 1 && r[k2].serialNumber == i2 + 1;
    }
  }

  /** Promoting the same source twice: it stays at 0, it sorts first, and the
      others are still in their original relative order. */
  lemma PromoteTwice(m: Table, order1: seq<BookSource>, order2: seq<BookSource>, target: BookSource)
    requires KeysMatch(m) && IsListing(order1, m, false, SerialAsc)
    requires IsListing(order2, Promote(m, order1, target), false, SerialAsc)
    ensures var r := Promote(Promote(m, order1, target), order2, target);
      && r[target.url].serialNumber == 0
      && (forall k :: k in r && k != target.url ==> r[k].serialNumber > 0)
      && (forall k1, k2 ::
            (k1 in m && k2 in m && k1 != target.url && k2 != target.url
             && m[k1].serialNumber < m[k2].serialNumber) ==> r[k1].serialNumber < r[k2].serialNumber)
  {
    var m1 := Promote(m, order1, target);
    PromoteRenumbers(m, order1, target);
    PromoteKeepsKeysMatch(m, order1, target);
    PromoteKeepsRelativeOrder(m, order1, target);
    PromoteRenumbers(m1, order2, target);
    PromoteKeepsRelativeOrder(m1, order2, target);
  }
}
