/** The add/merge rule (`addBookSource`): canonicalise the url, inherit the
    stored serial number and enable flag, append new sources at the end. */
module AddMerge {

  import opened Strings
  import opened BookSources

  /** The add refuses a source whose name or url is empty. */
  predicate Accepts(b: BookSource)
  {
    b.name != "" && b.url != ""
  }

  /** No key of the table ends in "/". */
  ghost predicate CanonicalKeys(m: Table)
  {
    forall k :: k in m ==> k == [] || k[|k| - 1] != '/'
  }

  /** The bean as the add leaves it: the source mutates the caller's bean in
      place and then writes it to the table. */
  function Merged(m: Table, b: BookSource): (r: BookSource)
    ensures !Accepts(b) ==> r == b
    ensures Accepts(b) ==>
      && r.url == StripTrailingSlashes(b.url)
      && r.name == b.name && r.group == b.group && r.weight == b.weight
      && r.serialNumber >= 0
    ensures Accepts(b) && r.url in m ==>
      && r.enable == m[r.url].enable
      && r.serialNumber == (if m[r.url].serialNumber < 0 then |m| + 1 else m[r.url].serialNumber)
    ensures Accepts(b) && r.url !in m ==>
      && r.enable
      && r.serialNumber == (if b.serialNumber < 0 then |m| + 1 else b.serialNumber)
  {
    if !Accepts(b) then b
    else
      var url := StripTrailingSlashes(b.url);
      var b1 := b.(url := url);
      var b2 := if url in m then b1.(serialNumber := m[url].serialNumber, enable := m[url].enable)
                else b1.(enable := true);
      if b2.serialNumber < 0 then b2.(serialNumber := |m| + 1) else b2
  }

  /** The table after `addBookSource(b)`: an accepted source replaces the
      whole row under its canonical url; nothing else changes. */
  function AddBookSource(m: Table, b: BookSource): (r: Table)
    ensures !Accepts(b) ==> r == m
    ensures Accepts(b) ==>
      var key := StripTrailingSlashes(b.url);
      && r.Keys == m.Keys + {key}
      && r[key] == Merged(m, b)
      && (forall k :: k in m && k != key ==> r[k] == m[k])
  {
    if Accepts(b) then
      var bean := Merged(m, b);
      m[bean.url := bean]
    else m
  }

  lemma AddKeepsInvariants(m: Table, b: BookSource)
    requires KeysMatch(m)
    ensures KeysMatch(AddBookSource(m, b))
    ensures CanonicalKeys(m) ==> CanonicalKeys(AddBookSource(m, b))
  {
  }

  /** Adding the same source a second time changes nothing. */
  lemma AddIsIdempotent(m: Table, b: BookSource)
    ensures AddBookSource(AddBookSource(m, b), b) == AddBookSource(m, b)
  {
    if Accepts(b) {
      var m1 := AddBookSource(m, b);
      var key := StripTrailingSlashes(b.url);
      assert Merged(m1, b) == m1[key];
      assert m1[key := m1[key]] == m1;
    }
  }

  /** `addBookSource` over a list: each source in turn. */
  function AddBookSources(m: Table, bs: seq<BookSource>): (r: Table)
    ensures m.Keys <= r.Keys
    ensures forall i :: 0 <= i < |bs| && Accepts(bs[i]) ==> StripTrailingSlashes(bs[i].url) in r
    ensures forall k :: k in r && k !in m ==>
      exists i :: 0 <= i < |bs| && Accepts(bs[i]) && k == StripTrailingSlashes(bs[i].url)
    ensures forall k :: k in m && (forall i :: 0 <= i < |bs| && Accepts(bs[i]) ==> StripTrailingSlashes(bs[i].url) != k) ==>
      r[k] == m[k]
    decreases |bs|
  {
    if |bs| == 0 then m
    else
      var init := bs[..|bs| - 1];
      var r := AddBookSource(AddBookSources(m, init), bs[|bs| - 1]);
      assert forall i :: 0 <= i < |init| ==> init[i] == bs[i];
      r
  }

  /** The caller's list after `addBookSource(List)`: each bean as the add
      leaves it, merged with the table the beans before it produced. */
  function MergedBeans(m: Table, bs: seq<BookSource>): (r: seq<BookSource>)
    ensures |r| == |bs|
    decreases |bs|
  {
    if |bs| == 0 then []
    else
      var init := bs[..|bs| - 1];
      MergedBeans(m, init) + [Merged(AddBookSources(m, init), bs[|bs| - 1])]
  }

  /** Bean `i` of the list is merged with the table after beans `0..i`. */
  lemma {:induction false} MergedBeansAt(m: Table, bs: seq<BookSource>)
    ensures forall i :: 0 <= i < |bs| ==>
      MergedBeans(m, bs)[i] == Merged(AddBookSources(m, bs[..i]), bs[i])
    decreases |bs|
  {
    if |bs| != 0 {
      var init := bs[..|bs| - 1];
      var r := MergedBeans(m, bs);
      assert r == MergedBeans(m, init) + [Merged(AddBookSources(m, init), bs[|bs| - 1])];
      MergedBeansAt(m, init);
      forall i | 0 <= i < |bs|
        ensures r[i] == Merged(AddBookSources(m, bs[..i]), bs[i])
      {
        if i < |init| {
          assert init[..i] == bs[..i] && init[i] == bs[i];
          assert r[i] == MergedBeans(m, init)[i];
        } else {
          assert init == bs[..i];
        }
      }
    }
  }

  /** The row stored under `b`'s canonical url carries `b`'s own fields. */
  predicate StoresBean(r: Table, b: BookSource)
  {
    var key := StripTrailingSlashes(b.url);
    && key in r
    && r[key].url == key && r[key].name == b.name
    && r[key].group == b.group && r[key].weight == b.weight
  }

  /** The row under a canonical url carries the name, group and weight of
      the last accepted source in the list that names it. */
  lemma {:induction false} AddBookSourcesStoresLast(m: Table, bs: seq<BookSource>, i: int)
    requires 0 <= i < |bs| && Accepts(bs[i])
    requires forall j :: i < j < |bs| && Accepts(bs[j]) ==>
      StripTrailingSlashes(bs[j].url) != StripTrailingSlashes(bs[i].url)
    ensures StoresBean(AddBookSources(m, bs), bs[i])
    decreases |bs|
  {
    var init := bs[..|bs| - 1];
    var prev := AddBookSources(m, init);
    var last := bs[|bs| - 1];
    var r := AddBookSource(prev, last);
    assert AddBookSources(m, bs) == r;
    var key := StripTrailingSlashes(bs[i].url);
    if i == |bs| - 1 {
      assert r[key] == Merged(prev, last);
    } else {
      assert StoresBean(prev, bs[i]) by {
        assert init[i] == bs[i];
        assert forall j :: i < j < |init| ==> init[j] == bs[j];
        AddBookSourcesStoresLast(m, init, i);
      }
      assert r[key] == prev[key];
    }
  }

  lemma {:induction false} AddAllKeepsInvariants(m: Table, bs: seq<BookSource>)
    requires KeysMatch(m)
    ensures KeysMatch(AddBookSources(m, bs))
    ensures CanonicalKeys(m) ==> CanonicalKeys(AddBookSources(m, bs))
    decreases |bs|
  {
    if |bs| != 0 {
      AddAllKeepsInvariants(m, bs[..|bs| - 1]);
      AddKeepsInvariants(AddBookSources(m, bs[..|bs| - 1]), bs[|bs| - 1]);
    }
  }

  /** The empty-url check comes before canonicalisation, so a url made only
      of slashes is stored under the empty key. */
  lemma SlashOnlyUrlIsStoredUnderEmptyKey(m: Table, b: BookSource)
    requires b.name != "" && b.url == "/"
    ensures "" in AddBookSource(m, b)
  {
    assert StripTrailingSlashes(b.url) == "";
  }
}
