/** The book-source manager: the table of book sources and the operations
    that query and update it. Each updating method is proved to leave the
    table as the matching function of AddMerge, Promotion or Import says. */
module Manager {

  import opened Wrappers
  import opened Strings
  import opened Sorting
  import opened BookSources
  import AddMerge
  import Promotion
  import Groups
  import Import

  class BookSourceManager {

    /** The book-source table, keyed by url. */
    var sources: Table

    ghost predicate Valid()
      reads this
    {
      KeysMatch(sources)
    }

    /** `getInstance` hands out a stateless handle over the persistent
        table that already exists: the manager starts from it unchanged. */
    constructor (stored: Table)
      requires KeysMatch(stored)
      ensures Valid() && sources == stored
    {
      sources := stored;
    }

    /* ---------- Listing queries ---------- */

    /** The query every listing getter runs: filter, then order by `mode`. */
    method List(enabledOnly: bool, mode: SortMode) returns (r: seq<BookSource>)
      requires Valid()
      ensures IsListing(r, sources, enabledOnly, mode)
    {
      r := [];
      var rest := sources.Keys;
      while rest != {}
        invariant rest <= sources.Keys
        invariant PartialListing(r, sources, rest, enabledOnly, mode)
        decreases rest
      {
        var k :| k in rest;
        ListingStep(r, sources, rest, k, enabledOnly, mode);
        var bean := sources[k];
        if !enabledOnly || bean.enable {
          r := Insert(r, bean, OrderOf(mode));
        }
        rest := rest - {k};
      }
      ListingDone(r, sources, enabledOnly, mode);
    }

    /** `getSelectedBookSource`: the enabled sources, weight descending, then
        serial number ascending. */
    method GetSelectedBookSource() returns (r: seq<BookSource>)
      requires Valid()
      ensures IsListing(r, sources, true, WeightDesc)
    {
      r := List(true, WeightDesc);
    }

    /** `getAllBookSource`: every source, in the configured order. */
    method GetAllBookSource(preference: int) returns (r: seq<BookSource>)
      requires Valid()
      ensures IsListing(r, sources, false, GetBookSourceSort(preference))
    {
      r := List(false, GetBookSourceSort(preference));
    }

    /** `getSelectedBookSourceBySerialNumber`. */
    method GetSelectedBookSourceBySerialNumber() returns (r: seq<BookSource>)
      requires Valid()
      ensures IsListing(r, sources, true, SerialAsc)
    {
      r := List(true, SerialAsc);
    }

    /** `getAllBookSourceBySerialNumber`. */
    method GetAllBookSourceBySerialNumber() returns (r: seq<BookSource>)
      requires Valid()
      ensures IsListing(r, sources, false, SerialAsc)
    {
      r := List(false, SerialAsc);
    }

    /** `getBookSourceByUrl`: the row stored under `url`, or null. */
    function GetBookSourceByUrl(url: string): (r: Option<BookSource>)
      reads this
      requires Valid()
      ensures r.Some? <==> url in sources
      ensures r.Some? ==> r.value == sources[url] && r.value.url == url
    {
      if url in sources then Some(sources[url]) else None
    }

    /* ---------- Writes ---------- */

    /** `removeBookSource`: delete the row keyed by the bean's url; null does nothing. */
    method RemoveBookSource(bookSource: Option<BookSource>)
      requires Valid()
      modifies this
      ensures Valid()
      ensures bookSource.None? ==> sources == old(sources)
      ensures bookSource.Some? ==> sources == old(sources) - {bookSource.value.url}
    {
      if bookSource.Some? {
        sources := sources - {bookSource.value.url};
      }
    }

    /** `saveBookSource`: insert or replace the bean as it is; null does nothing. */
    method SaveBookSource(bookSource: Option<BookSource>)
      requires Valid()
      modifies this
      ensures Valid()
      ensures bookSource.None? ==> sources == old(sources)
      ensures bookSource.Some? ==> sources == old(sources)[bookSource.value.url := bookSource.value]
    {
      if bookSource.Some? {
        sources := sources[bookSource.value.url := bookSource.value];
      }
    }

    /** `addBookSource`: returns the bean as the source leaves it after the call. */
    method AddBookSource(bookSource: BookSource) returns (bean: BookSource)
      requires Valid()
      modifies this
      ensures Valid()
      ensures sources == AddMerge.AddBookSource(old(sources), bookSource)
      ensures bean == AddMerge.Merged(old(sources), bookSource)
    {
      bean := bookSource;
      if bean.name == "" || bean.url == "" {
        return;
      }
      ghost var m := sources;
      if bean.url[|bean.url| - 1] == '/' {
        bean := bean.(url := StripTrailingSlashes(bean.url));
      } else {
        assert StripTrailingSlashes(bean.url) == bean.url;
      }
      assert bean == bookSource.(url := StripTrailingSlashes(bookSource.url));
      if bean.url in sources {
        var temp := sources[bean.url];
        bean := bean.(serialNumber := temp.serialNumber, enable := temp.enable);
      } else {
        bean := bean.(enable := true);
      }
      if bean.serialNumber < 0 {
        bean := bean.(serialNumber := |sources| + 1);
      }
      assert bean == AddMerge.Merged(m, bookSource);
      sources := sources[bean.url := bean];
      AddMerge.AddKeepsInvariants(m, bookSource);
    }

    /** `addBookSource` over a list. The Java loop updates each bean of the
        caller's list in place; `beans` is that list as the loop leaves it. */
    method AddBookSources(bookSources: seq<BookSource>) returns (beans: seq<BookSource>)
      requires Valid()
      modifies this
      ensures Valid()
      ensures sources == AddMerge.AddBookSources(old(sources), bookSources)
      ensures beans == AddMerge.MergedBeans(old(sources), bookSources)
      ensures forall i :: 0 <= i < |bookSources| ==>
        beans[i] == AddMerge.Merged(AddMerge.AddBookSources(old(sources), bookSources[..i]), bookSources[i])
    {
      ghost var before := sources;
      beans := [];
      for i := 0 to |bookSources|
        invariant Valid()
        invariant sources == AddMerge.AddBookSources(before, bookSources[..i])
        invariant beans == AddMerge.MergedBeans(before, bookSources[..i])
      {
        assert bookSources[..i + 1][..i] == bookSources[..i];
        var bean := AddBookSource(bookSources[i]);
        beans := beans + [bean];
      }
      assert bookSources[..|bookSources|] == bookSources;
      AddMerge.MergedBeansAt(before, bookSources);
    }

    /** The loop of `toTop`: set each row's serial number to its 1-based
        position in the list. */
    method Renumber(beanList: seq<BookSource>) returns (r: seq<BookSource>)
      ensures r == Promotion.Renumbered(beanList)
    {
      r := beanList;
      for i := 0 to |r|
        invariant |r| == |beanList|
        invariant forall j :: 0 <= j < i ==> r[j] == beanList[j].(serialNumber := j + 1)
        invariant forall j :: i <= j < |r| ==> r[j] == beanList[j]
      {
        r := r[i := r[i].(serialNumber := i + 1)];
      }
    }

    /** `toTop`: renumber every row 1..n in serial order, then write the
        target with serial number 0. `order` is the listing that was read. */
    method ToTop(target: BookSource) returns (ghost order: seq<BookSource>)
      requires Valid()
      modifies this
      ensures Valid()
      ensures IsListing(order, old(sources), false, SerialAsc)
      ensures sources == Promotion.Promote(old(sources), order, target)
      ensures sources[target.url] == target.(serialNumber := 0)
      ensures forall k :: k in sources && k != target.url ==> sources[k].serialNumber > 0
      ensures forall k1, k2 :: k1 in sources && k2 in sources && k1 != k2 ==>
        sources[k1].serialNumber != sources[k2].serialNumber
      ensures forall k1, k2 ::
        (k1 in old(sources) && k2 in old(sources) && k1 != target.url && k2 != target.url
         && old(sources)[k1].serialNumber < old(sources)[k2].serialNumber)
        ==> sources[k1].serialNumber < sources[k2].serialNumber
    {
      var beanList := GetAllBookSourceBySerialNumber();
      order := beanList;
      beanList := Renumber(beanList);
      ghost var before := sources;
      var top := target.(serialNumber := 0);
      sources := Promotion.PutAll(sources, beanList);
      sources := sources[top.url := top];
      Promotion.PromoteRenumbers(before, order, target);
      Promotion.PromoteKeepsKeysMatch(before, order, target);
      Promotion.PromoteGivesDistinctSerials(before, order, target);
      Promotion.PromoteKeepsRelativeOrder(before, order, target);
    }

    /* ---------- Group list ---------- */

    /** The inner loop of `getGroupList`: append each non-empty item of
        `items` that is not in the list yet. */
    method AppendNewNames(list: seq<string>, items: seq<string>) returns (r: seq<string>)
      requires NoDuplicates(list)
      ensures NoDuplicates(r)
      ensures |list| <= |r| && r[..|list|] == list
      ensures forall t :: t in r <==> t in list || (t != "" && t in items)
    {
      r := list;
      for i := 0 to |items|
        invariant NoDuplicates(r)
        invariant |list| <= |r| && r[..|list|] == list
        invariant forall t :: t in r <==> t in list || (t != "" && t in items[..i])
      {
        var item := items[i];
        assert items[..i + 1] == items[..i] + [item];
        if item != "" && item !in r {
          r := r + [item];
        }
      }
      assert items[..|items|] == items;
    }

    /** `getGroupList`: every group name of every source, once each, sorted. */
    method GetGroupList() returns (groupList: seq<string>)
      ensures Sorted(groupList, StrLe)
      ensures NoDuplicates(groupList)
      ensures forall t :: t in groupList ==> t != ""
      ensures forall t :: t in groupList <==> Groups.IsGroupName(sources, t)
    {
      groupList := [];
      var rest := Groups.GroupValues(sources);
      ghost var done: set<string> := {};
      while rest != {}
        invariant rest !! done && rest + done == Groups.GroupValues(sources)
        invariant NoDuplicates(groupList)
        invariant forall t :: t in groupList <==> Groups.FromGroups(done, t)
        decreases rest
      {
        var group :| group in rest;
        Groups.FromGroupsAddAll(done, group);
        rest := rest - {group};
        if !IsBlank(group) {
          groupList := AppendNewNames(groupList, Split(group));
        }
        done := done + {group};
      }
      Groups.FromGroupValuesAll(sources);
      Groups.GroupOrderIsTotalPreorder();
      var sorted := Sort(groupList, StrLe);
      SortSorted(groupList, StrLe);
      PermutationNoDuplicates(groupList, sorted);
      PermutationElements(groupList, sorted);
      groupList := sorted;
    }

    /* ---------- Import ---------- */

    /** The body of the list loop of `importBookSourceFromJson`: delete a
        marked candidate or one with a malformed url, add any other with its
        serial number set to 0. */
    method ImportCandidate(candidate: BookSource, env: Import.Env) returns (bean: BookSource)
      requires Valid()
      modifies this
      ensures Valid()
      ensures (sources, bean) == Import.ImportOne(old(sources), candidate, env)
    {
      bean := candidate;
      if env.containsGroup(bean, Import.DeleteMarker) {
        sources := sources - {bean.url};
      } else if env.isWellFormedUrl(bean.url) {
        bean := bean.(serialNumber := 0);
        bean := AddBookSource(bean);
      } else {
        sources := sources - {bean.url};
      }
    }

    /** `importBookSourceFromJson` on a parsed payload. */
    method ImportBookSourceFromJson(json: Import.Parsed, env: Import.Env)
      returns (r: Result<seq<BookSource>, Import.ImportError>)
      requires Valid()
      modifies this
      ensures Valid()
      ensures (sources, r) == Import.ImportJson(old(sources), json, env)
    {
      match json {
        case JsonArray(cs) =>
          ghost var before := sources;
          var beans := cs;
          for i := 0 to |cs|
            invariant Valid()
            invariant |beans| == |cs| && forall j :: i <= j < |cs| ==> beans[j] == cs[j]
            invariant (sources, beans[..i]) == Import.ImportAll(before, cs[..i], env)
          {
            assert cs[..i + 1][..i] == cs[..i];
            var bean := ImportCandidate(beans[i], env);
            beans := beans[i := bean];
            assert beans[..i + 1] == beans[..i] + [bean];
          }
          assert cs[..|cs|] == cs && beans[..|cs|] == beans;
          r := Success(beans);
        case JsonObject(c) =>
          var bean := AddBookSource(c);
          r := Success([bean]);
        case Unparsable =>
          r := Failure(Import.WrongFormat);
      }
    }

    /** `importSource`: the result is the stream the source would hand back. */
    method ImportSource(text: string, env: Import.Env) returns (r: Import.Imported)
      requires Valid()
      modifies this
      ensures Valid()
      ensures (sources, r) == Import.ImportSource(old(sources), text, env)
    {
      if IsBlank(text) {
        return Import.NoStream;
      }
      if env.isJsonType(text) {
        var result := ImportBookSourceFromJson(env.parse(Trim(text)), env);
        return Import.Completed(result);
      }
      if env.isUrl(text) {
        return Import.Remote(text);
      }
      return Import.Completed(Failure(Import.NotJsonOrUrl));
    }
  }
}
