/** Importing book sources from a JSON payload (`importSource` and
    `importBookSourceFromJson`): a list reconciles candidate by candidate, a
    single object is added. */
module Import {

  import opened Wrappers
  import opened Strings
  import opened BookSources
  import opened AddMerge

  /** The group name that marks a candidate as a deletion: "删除" ("delete"). */
  const DeleteMarker: string := "\U{5220}\U{9664}"

  /** The payload after JSON parsing: a list of sources, one source, or text
      that parsed as neither. */
  datatype Parsed = JsonArray(candidates: seq<BookSource>) | JsonObject(candidate: BookSource) | Unparsable

  /** The collaborators the import consults and this model does not define. */
  datatype Env = Env(
    isJsonType: string -> bool,                  // StringUtils.isJsonType
    isUrl: string -> bool,                       // NetworkUtil.isUrl
    parse: string -> Parsed,                     // isJsonArray / isJsonObject and Gson
    isWellFormedUrl: string -> bool,             // new java.net.URL(url) does not throw
    containsGroup: (BookSource, string) -> bool) // BookSourceBean.containsGroup

  datatype ImportError =
    | NotJsonOrUrl   // "不是Json或Url格式": neither JSON nor a url
    | WrongFormat    // "格式不对": JSON that parsed as neither a list nor an object

  /** What `importSource` hands back: Java null, the stream of a network
      fetch, or the outcome of importing the text itself. */
  datatype Imported = NoStream | Remote(url: string) | Completed(result: Result<seq<BookSource>, ImportError>)

  /** A list candidate that deletes instead of being added. */
  predicate DeletesOnImport(c: BookSource, env: Env)
  {
    env.containsGroup(c, DeleteMarker) || !env.isWellFormedUrl(c.url)
  }

  /** One candidate of a list: the new table and the candidate as it is left. */
  function ImportOne(m: Table, c: BookSource, env: Env): (Table, BookSource)
  {
    if env.containsGroup(c, DeleteMarker) then (m - {c.url}, c)
    else if env.isWellFormedUrl(c.url) then
      var c0 := c.(serialNumber := 0);
      (AddBookSource(m, c0), Merged(m, c0))
    else (m - {c.url}, c)
  }

  /** What one candidate does to the table and to itself. */
  lemma ImportOneCases(m: Table, c: BookSource, env: Env)
    // a deletion removes exactly the row keyed by the raw url, if any
    ensures var r := ImportOne(m, c, env);
      DeletesOnImport(c, env) ==>
        && r.0.Keys == m.Keys - {c.url}
        && (forall k :: k in r.0 ==> r.0[k] == m[k])
        && r.1 == c
    // anything else is added with its serial number forced to 0
    ensures var r := ImportOne(m, c, env);
      !DeletesOnImport(c, env) && !Accepts(c) ==> r.0 == m && r.1 == c.(serialNumber := 0)
    ensures var r := ImportOne(m, c, env);
      !DeletesOnImport(c, env) && Accepts(c) ==>
        var key := StripTrailingSlashes(c.url);
        && r.0.Keys == m.Keys + {key}
        && r.0[key] == r.1
        && (forall k :: k in m && k != key ==> r.0[k] == m[k])
        && r.1 == c.(url := key,
                     serialNumber := if key !in m then 0
                                     else if m[key].serialNumber < 0 then |m| + 1
                                     else m[key].serialNumber,
                     enable := key !in m || m[key].enable)
  {
  }

  /** The candidates of a list, in order: the final table and the list of
      candidates as they are left. */
  function ImportAll(m: Table, cs: seq<BookSource>, env: Env): (r: (Table, seq<BookSource>))
    ensures |r.1| == |cs|
    decreases |cs|
  {
    if |cs| == 0 then (m, [])
    else
      var before := ImportAll(m, cs[..|cs| - 1], env);
      var last := ImportOne(before.0, cs[|cs| - 1], env);
      (last.0, before.1 + [last.1])
  }

  /** `importBookSourceFromJson` on an already-parsed payload. */
  function ImportJson(m: Table, json: Parsed, env: Env): (r: (Table, Result<seq<BookSource>, ImportError>))
    ensures r.1.Failure? <==> json.Unparsable?
    ensures json.Unparsable? ==> r == (m, Failure(WrongFormat))
    ensures json.JsonObject? ==>
      r == (AddBookSource(m, json.candidate), Success([Merged(m, json.candidate)]))
    ensures json.JsonArray? ==> r.1.Success? && |r.1.value| == |json.candidates|
  {
    match json
    case JsonArray(cs) =>
      var all := ImportAll(m, cs, env);
      (all.0, Success(all.1))
    case JsonObject(c) => (AddBookSource(m, c), Success([Merged(m, c)]))
    case Unparsable => (m, Failure(WrongFormat))
  }

  /** `importSource(text)`: blank text gives no stream at all (null), JSON
      text is imported after trimming, a url is fetched, anything else fails. */
  function ImportSource(m: Table, text: string, env: Env): (r: (Table, Imported))
    ensures IsBlank(text) ==> r == (m, NoStream)
    ensures !IsBlank(text) && env.isJsonType(text) ==>
      var j := ImportJson(m, env.parse(Trim(text)), env);
      r == (j.0, Completed(j.1))
    ensures !IsBlank(text) && !env.isJsonType(text) ==> r.0 == m
    ensures !IsBlank(text) && !env.isJsonType(text) && env.isUrl(text) ==> r.1 == Remote(text)
    ensures !IsBlank(text) && !env.isJsonType(text) && !env.isUrl(text) ==>
      r.1 == Completed(Failure(NotJsonOrUrl))
  {
    if IsBlank(text) then (m, NoStream)
    else if env.isJsonType(text) then
      var j := ImportJson(m, env.parse(Trim(text)), env);
      (j.0, Completed(j.1))
    else if env.isUrl(text) then (m, Remote(text))
    else (m, Completed(Failure(NotJsonOrUrl)))
  }

  /** The list handed back holds the candidates in order, each with its
      name, group and weight, and its url raw or canonicalised. */
  lemma {:induction false} ImportAllKeepsFields(m: Table, cs: seq<BookSource>, env: Env)
    ensures var r := ImportAll(m, cs, env).1;
      forall i :: 0 <= i < |cs| ==>
        && r[i].name == cs[i].name && r[i].group == cs[i].group && r[i].weight == cs[i].weight
        && (r[i].url == cs[i].url || r[i].url == StripTrailingSlashes(cs[i].url))
    decreases |cs|
  {
    if |cs| != 0 {
      var init := cs[..|cs| - 1];
      ImportAllKeepsFields(m, init, env);
      ImportOneCases(ImportAll(m, init, env).0, cs[|cs| - 1], env);
      assert forall i :: 0 <= i < |init| ==> init[i] == cs[i];
    }
  }

  lemma {:induction false} ImportAllKeepsKeysMatch(m: Table, cs: seq<BookSource>, env: Env)
    requires KeysMatch(m)
    ensures KeysMatch(ImportAll(m, cs, env).0)
    decreases |cs|
  {
    if |cs| != 0 {
      ImportAllKeepsKeysMatch(m, cs[..|cs| - 1], env);
    }
  }

  /** A row that a list import would merge onto itself: accepted, under its
      canonical url, with a serial number already assigned, not a deletion. */
  predicate StableRow(b: BookSource, env: Env)
  {
    && Accepts(b) && StripTrailingSlashes(b.url) == b.url
    && b.serialNumber >= 0 && !DeletesOnImport(b, env)
  }

  /** Re-importing a row exactly as it is stored changes nothing. */
  lemma ReimportStoredRow(m: Table, c: BookSource, env: Env)
    requires c.url in m && m[c.url] == c && StableRow(c, env)
    ensures ImportOne(m, c, env) == (m, c)
  {
    var one := ImportOne(m, c, env);
    ImportOneCases(m, c, env);
    assert one.1 == c;
    assert one.0.Keys == m.Keys;
    assert forall k :: k in m ==> one.0[k] == m[k];
    assert one.0 == m;
  }

  /** Re-importing rows that are already stored, unchanged, leaves both the
      table and the rows as they were. */
  lemma {:induction false} ReimportStoredRows(m: Table, cs: seq<BookSource>, env: Env)
    requires forall i :: 0 <= i < |cs| ==> cs[i].url in m && m[cs[i].url] == cs[i] && StableRow(cs[i], env)
    ensures ImportAll(m, cs, env) == (m, cs)
    decreases |cs|
  {
    if |cs| != 0 {
      var init := cs[..|cs| - 1];
      var c := cs[|cs| - 1];
      var prev := ImportAll(m, init, env);
      var one := ImportOne(m, c, env);
      assert prev == (m, init) by {
        assert forall i :: 0 <= i < |init| ==> init[i] == cs[i];
        ReimportStoredRows(m, init, env);
      }
      assert one == (m, c) by {
        ReimportStoredRow(m, c, env);
      }
      assert ImportAll(m, cs, env) == (one.0, prev.1 + [one.1]);
      assert init + [c] == cs;
    }
  }

  /** Exporting the whole catalog as a listing and importing it back changes
      no row: merging keeps every serial number and enable flag. */
  lemma ExportThenImportChangesNothing(m: Table, mode: SortMode, exported: seq<BookSource>, env: Env)
    requires KeysMatch(m) && IsListing(exported, m, false, mode)
    requires forall k :: k in m ==> StableRow(m[k], env)
    ensures ImportJson(m, JsonArray(exported), env) == (m, Success(exported))
  {
    ReimportStoredRows(m, exported, env);
  }

  /** The condition on serial numbers cannot be dropped: a stored row whose
      serial number is negative comes back from a re-import at count + 1. */
  lemma ReimportNegativeSerialMoves(m: Table, c: BookSource, env: Env)
    requires c.url in m && m[c.url] == c
    requires Accepts(c) && StripTrailingSlashes(c.url) == c.url && !DeletesOnImport(c, env)
    requires c.serialNumber < 0
    ensures c.url in ImportOne(m, c, env).0
    ensures ImportOne(m, c, env).0[c.url].serialNumber == |m| + 1
  {
    ImportOneCases(m, c, env);
  }

  /** A new source in a list always lands at serial number 0: the serial is
      forced to 0 before the add, so the add never appends it at count + 1. */
  lemma ListImportNeverAppends(m: Table, c: BookSource, env: Env)
    requires !DeletesOnImport(c, env) && Accepts(c) && StripTrailingSlashes(c.url) !in m
    ensures ImportOne(m, c, env).0[StripTrailingSlashes(c.url)].serialNumber == 0
  {
  }

  /** The deletion uses the raw url: a marked candidate whose url has a
      trailing "/" does not remove the stored row under the canonical url. */
  lemma MarkerDeletesOnlyRawUrl(m: Table, c: BookSource, env: Env)
    requires env.containsGroup(c, DeleteMarker)
    requires StripTrailingSlashes(c.url) != c.url && StripTrailingSlashes(c.url) in m
    ensures StripTrailingSlashes(c.url) in ImportOne(m, c, env).0
  {
  }
}
