/** What a repository's search endpoint (`{url}/api/search`) answers, as the checks
    see it. The request itself is not modelled: a check is given a function from
    (base URL, search term) to the response it would receive. */
module Search {
  import opened Wrappers

  /** One element of the JSON result list. A field is None when the element lacks it
      (reading it raises, as `res['path']` or `x['name']` would). */
  datatype SearchEntry = SearchEntry(name: Option<string>, path: Option<string>)

  /** `Unreachable`: `requests.get` raised (DNS, timeout, connection refused...).
      `Reply`: an HTTP answer; its body is None when `resp.json()` cannot produce a list. */
  datatype Response =
    | Unreachable
    | Reply(status: int, body: Option<seq<SearchEntry>>)

  /** `resp.ok` of the requests library: false exactly for 4xx and 5xx statuses. */
  predicate IsOk(status: int) {
    !(400 <= status < 600)
  }

  /** `list(map(lambda x: x['name'], entries))`: every entry's name in order,
      or None when some entry has no name. */
  function AllNames(entries: seq<SearchEntry>): (names: Option<seq<string>>)
    ensures names.None? <==> exists i :: 0 <= i < |entries| && entries[i].name.None?
    ensures names.Some? ==>
      |names.value| == |entries| && forall i :: 0 <= i < |entries| ==> entries[i].name == Some(names.value[i])
  {
    if entries == [] then Some([])
    else if entries[0].name.None? then None
    else
      var rest := AllNames(entries[1..]);
      assert forall i :: 1 <= i < |entries| ==> entries[i] == entries[1..][i - 1];
      if rest.None? then None else Some([entries[0].name.value] + rest.value)
  }
}
