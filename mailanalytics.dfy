/** The mock analytics service (src/services/mailAnalyticsServices/mock.ts): a case-insensitive
    search over the recipients' addresses, then a page cut out of the matches with
    `Array.prototype.slice`; and the exact lookup of one recipient. The Promise and the timer
    around each call are not modelled. */
module MailAnalyticsMock {
  import opened Results
  import opened JsText

  /** One recipient's counters. */
  datatype Analytics = Analytics(recipientEmail: string, totalOpens: nat, totalClicks: nat, lastActivity: string)

  /** The eight canned records, in their order. */
  const MockData: seq<Analytics> := [
    Analytics("phoenix.project@randommail.com", 25, 25, "2025-08-10T14:32:11Z"),
    Analytics("nebula.operation@randommail.com", 30, 30, "2025-08-10T09:45:27Z"),
    Analytics("horizon.initiative@randommail.com", 45, 45, "2025-08-10T18:20:55Z"),
    Analytics("atlas.venture@randommail.com", 28, 28, "2025-08-10T11:05:38Z"),
    Analytics("echo.mission@randommail.com", 50, 50, "2025-08-10T22:15:49Z"),
    Analytics("quantum.task@randommail.com", 35, 35, "2025-08-10T03:50:12Z"),
    Analytics("odyssey.program@randommail.com", 60, 60, "2025-08-10T17:30:04Z"),
    Analytics("apex.strategy@randommail.com", 70, 70, "2025-08-10T12:00:00Z")
  ]

  /** The optional query of `getMailAnalytics`; a missing field is None. */
  datatype Params = Params(page: Option<int>, limit: Option<int>, search: Option<string>)

  /** What `getMailAnalytics` resolves to. */
  datatype Response = Response(data: seq<Analytics>, total: nat, page: int, limit: int)

  /** `params?.page || 1`: an absent or zero page is page 1. */
  function EffectivePage(params: Option<Params>): (page: int)
    ensures params.None? || params.value.page.None? || params.value.page.value == 0 ==> page == 1
    ensures params.Some? && params.value.page.Some? && params.value.page.value != 0 ==> page == params.value.page.value
  {
    if params.Some? && params.value.page.Some? && params.value.page.value != 0 then params.value.page.value else 1
  }

  /** `params?.limit || 10`: an absent or zero limit is 10. */
  function EffectiveLimit(params: Option<Params>): (limit: int)
    ensures params.None? || params.value.limit.None? || params.value.limit.value == 0 ==> limit == 10
    ensures params.Some? && params.value.limit.Some? && params.value.limit.value != 0 ==> limit == params.value.limit.value
  {
    if params.Some? && params.value.limit.Some? && params.value.limit.value != 0 then params.value.limit.value else 10
  }

  /** `params?.search?.toLowerCase() || ''`: the lower-cased search, empty when absent. */
  function EffectiveSearch(params: Option<Params>): (search: string)
    ensures forall k :: 0 <= k < |search| ==> !('A' <= search[k] <= 'Z')
    ensures params.None? || params.value.search.None? ==> search == []
  {
    if params.Some? && params.value.search.Some? then ToLower(params.value.search.value) else []
  }

  /** The filter's test: the lower-cased address contains the search. */
  predicate MatchesSearch(item: Analytics, search: string) {
    Contains(ToLower(item.recipientEmail), search)
  }

  /** `s.filter(keep)`: the elements that pass, in their order. */
  function Filter<T>(s: seq<T>, keep: T -> bool): (r: seq<T>)
    ensures |r| <= |s|
    ensures forall k :: 0 <= k < |r| ==> r[k] in s && keep(r[k])
    ensures forall k :: 0 <= k < |s| && keep(s[k]) ==> s[k] in r
  {
    if s == [] then []
    else
      var last := s[|s| - 1];
      assert s == s[..|s| - 1] + [last];
      Filter(s[..|s| - 1], keep) + (if keep(last) then [last] else [])
  }

  /** Filtering keeps the order: it distributes over concatenation. */
  lemma {:induction false} FilterKeepsOrder<T>(a: seq<T>, b: seq<T>, keep: T -> bool)
    ensures Filter(a + b, keep) == Filter(a, keep) + Filter(b, keep)
    decreases |b|
  {
    if b == [] {
      assert a + b == a;
    } else {
      var c := b[..|b| - 1];
      assert (a + b)[..|a + b| - 1] == a + c;
      FilterKeepsOrder(a, c, keep);
    }
  }

  /** The positions of the elements that pass. */
  function Passing<T>(s: seq<T>, keep: T -> bool): set<nat> {
    set i: nat | i < |s| && keep(s[i])
  }

  /** The filter has one entry per passing position. */
  lemma {:induction false} FilterCount<T>(s: seq<T>, keep: T -> bool)
    ensures |Filter(s, keep)| == |Passing(s, keep)|
  {
    if s != [] {
      var n := |s| - 1;
      FilterCount(s[..n], keep);
      PassingStep(s, keep);
    }
  }

  /** The passing positions of a sequence: those of all but its last element, and the last
      position when that element passes. */
  lemma PassingStep<T>(s: seq<T>, keep: T -> bool)
    requires s != []
    ensures var n := |s| - 1;
      |Passing(s, keep)| == |Passing(s[..n], keep)| + if keep(s[n]) then 1 else 0
  {
    var n := |s| - 1;
    var front := s[..n];
    var before, now := Passing(front, keep), Passing(s, keep);
    forall i: nat
      ensures i in now <==> i in before || (i == n && keep(s[n]))
    {
      if i < n {
        assert front[i] == s[i];
      }
    }
    assert n !in before;
    if keep(s[n]) {
      assert now == before + {n};
    } else {
      assert now == before;
    }
  }

  /** A filter every element passes keeps the whole sequence. */
  lemma {:induction false} FilterKeepsAll<T>(s: seq<T>, keep: T -> bool)
    requires forall k :: 0 <= k < |s| ==> keep(s[k])
    ensures Filter(s, keep) == s
  {
    if s != [] {
      FilterKeepsAll(s[..|s| - 1], keep);
      assert keep(s[|s| - 1]);
    }
  }

  /** `records.filter(item => item.recipientEmail.toLowerCase().includes(search))`. */
  function FilterBySearch(records: seq<Analytics>, search: string): seq<Analytics> {
    Filter(records, item => MatchesSearch(item, search))
  }

  /** The positions of the records that match. */
  function MatchingPositions(records: seq<Analytics>, search: string): set<nat> {
    Passing(records, item => MatchesSearch(item, search))
  }

  /** The empty search matches every record, so skipping the filter for it changes nothing. */
  lemma EmptySearchKeepsAll(records: seq<Analytics>)
    ensures FilterBySearch(records, []) == records
  {
    forall k | 0 <= k < |records|
      ensures MatchesSearch(records[k], [])
    {
      assert [] <= ToLower(records[k].recipientEmail);
    }
    FilterKeepsAll(records, item => MatchesSearch(item, []));
  }

  /** `Array.prototype.slice`'s index: a negative index counts from the end, and the result
      is clamped to `0..len`. */
  function RelativeIndex(i: int, len: nat): (k: nat)
    ensures k <= len
    ensures 0 <= i <= len ==> k == i
    ensures i > len ==> k == len
    ensures i < 0 ==> k == if len + i < 0 then 0 else len + i
  {
    if i < 0 then (if len + i < 0 then 0 else len + i) else if i > len then len else i
  }

  /** `s.slice(start, end)`. */
  function JsSlice<T>(s: seq<T>, start: int, end: int): seq<T> {
    var a, b := RelativeIndex(start, |s|), RelativeIndex(end, |s|);
    if a < b then s[a..b] else []
  }

  /** Every element of a slice is an element of the sliced sequence. */
  lemma SliceIsWithin<T>(s: seq<T>, start: int, end: int)
    ensures forall k :: 0 <= k < |JsSlice(s, start, end)| ==> JsSlice(s, start, end)[k] in s
  {
    var a, b := RelativeIndex(start, |s|), RelativeIndex(end, |s|);
    if a < b {
      forall k | 0 <= k < b - a
        ensures s[a..b][k] in s
      {
        assert s[a..b][k] == s[a + k];
      }
    }
  }

  /** With indices that are not negative, the slice is the part of `start..end` inside `s`. */
  lemma SliceInRange<T>(s: seq<T>, start: int, end: int)
    requires 0 <= start <= end
    ensures var r := JsSlice(s, start, end);
      && |r| <= end - start
      && (start < |s| ==> r == s[start..if end < |s| then end else |s|])
      && (start >= |s| ==> r == [])
  {
  }

  /** `getMailAnalytics(params)` on a given record list: filter when the search is not empty,
      then the page `(page - 1) * limit` up to `(page - 1) * limit + limit`. */
  function Query(records: seq<Analytics>, params: Option<Params>): (r: Response)
    ensures r.page == EffectivePage(params) && r.limit == EffectiveLimit(params)
    ensures r.total == |MatchingPositions(records, EffectiveSearch(params))|
    ensures forall k :: 0 <= k < |r.data| ==> r.data[k] in records && MatchesSearch(r.data[k], EffectiveSearch(params))
  {
    var page := EffectivePage(params);
    var limit := EffectiveLimit(params);
    var search := EffectiveSearch(params);
    var filteredData := if search != [] then FilterBySearch(records, search) else records;
    EmptySearchKeepsAll(records);
    FilterCount(records, item => MatchesSearch(item, search));
    var startIndex := PageStart(page, limit);
    var endIndex := startIndex + limit;
    var data := JsSlice(filteredData, startIndex, endIndex);
    SliceIsWithin(filteredData, startIndex, endIndex);
    Response(data, |filteredData|, page, limit)
  }

  /** `(page - 1) * limit`, where the page begins. */
  function PageStart(page: int, limit: int): (start: int)
    ensures page >= 1 && limit > 0 ==> start >= 0
  {
    assert page >= 1 && limit > 0 ==> (page - 1) * limit >= 0 * limit;
    (page - 1) * limit
  }

  /** `getMailAnalytics(params)` on the canned records. */
  function GetMailAnalytics(params: Option<Params>): (r: Response)
    ensures r.page == EffectivePage(params) && r.limit == EffectiveLimit(params)
    ensures r.total == |MatchingPositions(MockData, EffectiveSearch(params))|
    ensures forall k :: 0 <= k < |r.data| ==> r.data[k] in MockData && MatchesSearch(r.data[k], EffectiveSearch(params))
  {
    Query(MockData, params)
  }

  /** For a page of at least 1 and a positive limit, `data` is the filtered list from
      `(page - 1) * limit` up to `page * limit` or its end, so it has at most `limit` records,
      and a page past the end is empty. */
  lemma PageWindow(records: seq<Analytics>, params: Option<Params>)
    requires EffectivePage(params) >= 1 && EffectiveLimit(params) > 0
    ensures var r := Query(records, params);
      var filtered := FilterBySearch(records, EffectiveSearch(params));
      var start := PageStart(EffectivePage(params), EffectiveLimit(params));
      var end := start + EffectiveLimit(params);
      && |r.data| <= EffectiveLimit(params)
      && (start < |filtered| ==> r.data == filtered[start..if end < |filtered| then end else |filtered|])
      && (start >= |filtered| ==> r.data == [])
  {
    EmptySearchKeepsAll(records);
    var page, limit := EffectivePage(params), EffectiveLimit(params);
    var start := PageStart(page, limit);
    SliceInRange(FilterBySearch(records, EffectiveSearch(params)), start, start + limit);
  }

  /** Without a query the first page holds all eight records. */
  lemma NoQueryListsAll()
    ensures GetMailAnalytics(None) == Response(MockData, 8, 1, 10)
  {
    var r := GetMailAnalytics(None);
    assert JsSlice(MockData, 0, 10) == MockData[0..8];
    assert MockData[0..8] == MockData;
  }

  /** A negative limit is passed to `slice` as it is, where it counts from the end: page 1
      with limit -3 lists all but the last three matches, more records than the limit. */
  lemma NegativeLimitCountsFromEnd()
    ensures GetMailAnalytics(Some(Params(None, Some(-3), None))).data == MockData[..5]
  {
    assert JsSlice(MockData, 0, -3) == MockData[0..5];
  }

  /** `mockData.find(item => item.recipientEmail === email)`. */
  function Find(records: seq<Analytics>, email: string): (r: Option<Analytics>)
    ensures r.Some? ==> r.value in records && r.value.recipientEmail == email
  {
    if records == [] then None
    else if records[0].recipientEmail == email then Some(records[0])
    else Find(records[1..], email)
  }

  /** The lookup gives the first record with exactly that address, or none when no record
      has it. */
  lemma {:induction false} FindFirst(records: seq<Analytics>, email: string)
    ensures var r := Find(records, email);
      && (r.None? <==> forall k :: 0 <= k < |records| ==> records[k].recipientEmail != email)
      && (r.Some? ==> exists k :: 0 <= k < |records| && records[k] == r.value
                        && r.value.recipientEmail == email
                        && forall m :: 0 <= m < k ==> records[m].recipientEmail != email)
  {
    if records != [] && records[0].recipientEmail != email {
      var tail := records[1..];
      FindFirst(tail, email);
      var r := Find(tail, email);
      if r.Some? {
        var k :| 0 <= k < |tail| && tail[k] == r.value && r.value.recipientEmail == email
                 && forall m :: 0 <= m < k ==> tail[m].recipientEmail != email;
        assert records[k + 1] == r.value;
        forall m | 0 <= m < k + 1
          ensures records[m].recipientEmail != email
        {
          if m > 0 {
            assert records[m] == tail[m - 1];
          }
        }
      } else {
        forall k | 0 <= k < |records|
          ensures records[k].recipientEmail != email
        {
          if k > 0 {
            assert records[k] == tail[k - 1];
          }
        }
      }
    }
  }

  /** `getEmailAnalytics(email)` on the canned records. */
  function GetEmailAnalytics(email: string): (r: Option<Analytics>)
    ensures r.Some? ==> r.value in MockData && r.value.recipientEmail == email
  {
    Find(MockData, email)
  }

  /** The lookup finds a listed address. */
  lemma LookupFindsListed()
    ensures GetEmailAnalytics("apex.strategy@randommail.com") == Some(MockData[7])
  {
    var e := "apex.strategy@randommail.com";
    forall k | 0 <= k < 7
      ensures MockData[k].recipientEmail != e
    {
      assert MockData[k].recipientEmail[1] != e[1];
    }
    FindFirst(MockData, e);
  }

  /** Unlike the search, the lookup is exact: the upper-case form of a listed address is not
      found. */
  lemma LookupIsCaseSensitive()
    ensures GetEmailAnalytics("APEX.STRATEGY@RANDOMMAIL.COM") == None
  {
    var upper := "APEX.STRATEGY@RANDOMMAIL.COM";
    forall k | 0 <= k < |MockData|
      ensures MockData[k].recipientEmail != upper
    {
      assert MockData[k].recipientEmail[0] != upper[0];
    }
    FindFirst(MockData, upper);
  }
}
