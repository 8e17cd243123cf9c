/** The code-snippet search of mcp_server.go: the cache filter
    (`searchCachedEvents`), the two live collection loops (`searchRelayEvents`
    and `searchByQueryOnly`) and the three-way decision of
    `searchCodeSnippetsHandler`. Every relay is an input: `None` when connecting
    or subscribing failed, otherwise the events its subscription delivered in
    order (the relay has already applied the kind, tag and author filter). */
module Search {
  import opened Wrappers
  import opened Strings
  import opened Events

  /** The filters of one search; the empty string means "not given". */
  datatype Filters = Filters(language: string, author: string, query: string)

  /** A relay that failed (None) or the events its subscription delivered. */
  type RelayAnswer = Option<seq<Event>>

  // ---------------------------------------------------------------------------
  // Sequence helpers
  // ---------------------------------------------------------------------------

  /** The first n elements, or all of s when it is shorter. */
  function Prefix<T>(s: seq<T>, n: nat): (r: seq<T>)
    ensures |r| == if |s| <= n then |s| else n
  {
    if |s| <= n then s else s[..n]
  }

  lemma PrefixIsPrefix<T>(s: seq<T>, n: nat)
    ensures Prefix(s, n) == s[..|Prefix(s, n)|]
  {
  }

  lemma PrefixCons<T>(x: T, s: seq<T>, n: nat)
    ensures Prefix([x] + s, n + 1) == [x] + Prefix(s, n)
  {
    if |s| > n {
      assert ([x] + s)[..n + 1] == [x] + s[..n];
    }
  }

  lemma PrefixAppend<T>(a: seq<T>, b: seq<T>, n: nat)
    ensures |a| >= n ==> Prefix(a + b, n) == Prefix(a, n)
    ensures |a| < n ==> Prefix(a + b, n) == a + Prefix(b, n - |a|)
  {
    if |a| >= n {
      assert (a + b)[..n] == a[..n];
    } else if |a + b| > n {
      assert (a + b)[..n] == a + b[..n - |a|];
    }
  }

  /** The limit the loops actually enforce: `len >= limit` is tested only after
      an event was added, so a limit below one still lets one event through. */
  function Cap(limit: int): (c: nat)
    ensures c >= 1
    ensures limit >= 1 ==> c == limit
    ensures limit < 1 ==> c == 1
  {
    if limit >= 1 then limit else 1
  }

  // ---------------------------------------------------------------------------
  // Filtering
  // ---------------------------------------------------------------------------

  /** A language tag `["l", v, ...]` whose value equals `language` ignoring case. */
  predicate LanguageTag(tag: seq<string>, language: string) {
    |tag| >= 2 && tag[0] == "l" && EqualFold(tag[1], language)
  }

  /** The tag loop of the language filter. */
  function HasLanguage(tags: seq<seq<string>>, language: string): (b: bool)
    ensures b <==> exists j :: 0 <= j < |tags| && LanguageTag(tags[j], language)
    decreases |tags|
  {
    if tags == [] then false
    else if LanguageTag(tags[0], language) then true
    else
      var b := HasLanguage(tags[1..], language);
      assert forall j :: 1 <= j < |tags| ==> tags[j] == tags[1..][j - 1];
      b
  }

  /** The event satisfies every filter that is given. */
  predicate Passes(ev: Event, f: Filters) {
    && (f.language == "" || HasLanguage(ev.tags, f.language))
    && (f.author == "" || ev.pubkey == f.author)
    && (f.query == "" || MatchesQuery(ev, f.query))
  }

  /** The filter the cache applies: every given filter. */
  function PassesFilter(f: Filters): Event -> bool {
    (e: Event) => Passes(e, f)
  }

  /** The filter of the targeted live loop: the free-text query, when given. */
  function QueryFilter(query: string): Event -> bool {
    (e: Event) => query == "" || MatchesQuery(e, query)
  }

  /** The filter of the broad live loop: the matcher alone. */
  function MatchFilter(query: string): Event -> bool {
    (e: Event) => MatchesQuery(e, query)
  }

  /** Reference definition: the events of evs that `keep` accepts, in order. */
  function Select(evs: seq<Event>, keep: Event -> bool): (r: seq<Event>)
    ensures |r| <= |evs|
    decreases |evs|
  {
    if evs == [] then []
    else (if keep(evs[0]) then [evs[0]] else []) + Select(evs[1..], keep)
  }

  lemma {:induction false} SelectSound(evs: seq<Event>, keep: Event -> bool)
    ensures forall e :: e in Select(evs, keep) ==> e in evs && keep(e)
    decreases |evs|
  {
    if evs != [] {
      SelectSound(evs[1..], keep);
    }
  }

  lemma {:induction false} SelectAppend(a: seq<Event>, b: seq<Event>, keep: Event -> bool)
    ensures Select(a + b, keep) == Select(a, keep) + Select(b, keep)
    decreases |a|
  {
    if a == [] {
      assert a + b == b;
    } else {
      var h := if keep(a[0]) then [a[0]] else [];
      assert (a + b)[0] == a[0] && (a + b)[1..] == a[1..] + b;
      assert Select(a + b, keep) == h + Select(a[1..] + b, keep);
      SelectAppend(a[1..], b, keep);
      assert Select(a, keep) == h + Select(a[1..], keep);
    }
  }

  lemma SelectCons(evs: seq<Event>, keep: Event -> bool)
    requires evs != []
    ensures keep(evs[0]) ==> Select(evs, keep) == [evs[0]] + Select(evs[1..], keep)
    ensures !keep(evs[0]) ==> Select(evs, keep) == Select(evs[1..], keep)
  {
  }

  /** The cache events that pass every given filter, in cache order. */
  function Matching(evs: seq<Event>, f: Filters): seq<Event> {
    Select(evs, PassesFilter(f))
  }

  // ---------------------------------------------------------------------------
  // searchCachedEvents
  // ---------------------------------------------------------------------------

  /** The scan loop of searchCachedEvents: append each passing event and stop
      as soon as the result holds `limit` events. */
  function CollectMatches(evs: seq<Event>, f: Filters, limit: int, acc: seq<Event>): seq<Event>
    decreases |evs|
  {
    if evs == [] then acc
    else if !Passes(evs[0], f) then CollectMatches(evs[1..], f, limit, acc)
    else if |acc| + 1 >= limit then acc + [evs[0]]
    else CollectMatches(evs[1..], f, limit, acc + [evs[0]])
  }

  lemma {:induction false} CollectMatchesKeeps(evs: seq<Event>, f: Filters, limit: int, acc: seq<Event>)
    requires |acc| < Cap(limit)
    ensures CollectMatches(evs, f, limit, acc) == acc + Prefix(Matching(evs, f), Cap(limit) - |acc|)
    decreases |evs|
  {
    if evs != [] {
      var e := evs[0];
      var m := Matching(evs[1..], f);
      SelectCons(evs, PassesFilter(f));
      if Passes(e, f) {
        PrefixCons(e, m, Cap(limit) - |acc| - 1);
        if |acc| + 1 < limit {
          CollectMatchesKeeps(evs[1..], f, limit, acc + [e]);
        }
      } else {
        CollectMatchesKeeps(evs[1..], f, limit, acc);
      }
    }
  }

  /** searchCachedEvents over a cache snapshot: the matching events in cache
      order, cut at the limit (at one event when the limit is below one). */
  function SearchCachedEvents(cache: seq<Event>, f: Filters, limit: int): (r: seq<Event>)
    ensures r == Prefix(Matching(cache, f), Cap(limit))
  {
    if cache == [] then []
    else
      CollectMatchesKeeps(cache, f, limit, []);
      CollectMatches(cache, f, limit, [])
  }

  /** Every event the cache search returns is in the cache and passes every
      given filter, and there are at most `limit` of them (one when the limit
      is below one); when the cache holds fewer matches, all are returned. */
  lemma CachedResultSound(cache: seq<Event>, f: Filters, limit: int)
    ensures var r := SearchCachedEvents(cache, f, limit);
      && |r| <= Cap(limit)
      && (|Matching(cache, f)| <= Cap(limit) ==> r == Matching(cache, f))
      && forall e :: e in r ==> e in cache && Passes(e, f)
  {
    var m := Matching(cache, f);
    SelectSound(cache, PassesFilter(f));
    PrefixIsPrefix(m, Cap(limit));
    var r := SearchCachedEvents(cache, f, limit);
    assert forall e :: e in r ==> e in m;
  }

  // ---------------------------------------------------------------------------
  // searchRelayEvents: the targeted live search
  // ---------------------------------------------------------------------------

  /** Every event delivered by the relays that answered, relay by relay. */
  function Delivered(relays: seq<RelayAnswer>): seq<Event>
    decreases |relays|
  {
    if relays == [] then []
    else (match relays[0] case None => [] case Some(evs) => evs) + Delivered(relays[1..])
  }

  lemma DeliveredCons(relays: seq<RelayAnswer>)
    requires relays != []
    ensures relays[0].None? ==> Delivered(relays) == Delivered(relays[1..])
    ensures relays[0].Some? ==> Delivered(relays) == relays[0].value + Delivered(relays[1..])
  {
  }

  lemma {:induction false} DeliveredAppend(a: seq<RelayAnswer>, b: seq<RelayAnswer>)
    ensures Delivered(a + b) == Delivered(a) + Delivered(b)
    decreases |a|
  {
    if a == [] {
      assert a + b == b;
    } else {
      assert (a + b)[0] == a[0];
      assert (a + b)[1..] == a[1..] + b;
      DeliveredAppend(a[1..], b);
    }
  }

  /** The events of the first relay that answered, empty when none did. */
  function FirstAnswer(relays: seq<RelayAnswer>): seq<Event>
    decreases |relays|
  {
    if relays == [] then []
    else match relays[0]
      case None => FirstAnswer(relays[1..])
      case Some(evs) => evs
  }

  lemma {:induction false} FirstAnswerDelivered(relays: seq<RelayAnswer>)
    ensures forall e :: e in FirstAnswer(relays) ==> e in Delivered(relays)
    decreases |relays|
  {
    if relays != [] {
      FirstAnswerDelivered(relays[1..]);
    }
  }

  /** The event loop over one relay's subscription: append the events `keep`
      accepts and test the limit after every event. */
  function DrainTargeted(evs: seq<Event>, keep: Event -> bool, limit: int, acc: seq<Event>): seq<Event>
    decreases |evs|
  {
    if evs == [] then acc
    else
      var acc' := if keep(evs[0]) then acc + [evs[0]] else acc;
      if |acc'| >= limit then acc'
      else DrainTargeted(evs[1..], keep, limit, acc')
  }

  lemma {:induction false} DrainTargetedKeeps(evs: seq<Event>, keep: Event -> bool, limit: int, acc: seq<Event>)
    requires 1 <= limit && |acc| < limit
    ensures DrainTargeted(evs, keep, limit, acc) == acc + Prefix(Select(evs, keep), limit - |acc|)
    decreases |evs|
  {
    if evs != [] {
      var e := evs[0];
      var k := Select(evs[1..], keep);
      SelectCons(evs, keep);
      if keep(e) {
        PrefixCons(e, k, limit - |acc| - 1);
        if |acc| + 1 < limit {
          DrainTargetedKeeps(evs[1..], keep, limit, acc + [e]);
        }
      } else {
        DrainTargetedKeeps(evs[1..], keep, limit, acc);
      }
    }
  }

  /** The relay loop of searchRelayEvents: failed relays are skipped, and no
      further relay is contacted once `limit` events are collected. */
  function CollectTargeted(relays: seq<RelayAnswer>, keep: Event -> bool, limit: int, acc: seq<Event>): seq<Event>
    decreases |relays|
  {
    if relays == [] then acc
    else match relays[0]
      case None => CollectTargeted(relays[1..], keep, limit, acc)
      case Some(evs) =>
        var acc' := DrainTargeted(evs, keep, limit, acc);
        if |acc'| >= limit then acc'
        else CollectTargeted(relays[1..], keep, limit, acc')
  }

  lemma {:induction false} CollectTargetedKeeps(relays: seq<RelayAnswer>, keep: Event -> bool, limit: int, acc: seq<Event>)
    requires 1 <= limit && |acc| < limit
    ensures CollectTargeted(relays, keep, limit, acc)
         == acc + Prefix(Select(Delivered(relays), keep), limit - |acc|)
    decreases |relays|
  {
    if relays != [] {
      DeliveredCons(relays);
      if relays[0].None? {
        CollectTargetedKeeps(relays[1..], keep, limit, acc);
      } else {
        var evs := relays[0].value;
        var rest := Delivered(relays[1..]);
        var k1 := Select(evs, keep);
        DrainTargetedKeeps(evs, keep, limit, acc);
        SelectAppend(evs, rest, keep);
        PrefixAppend(k1, Select(rest, keep), limit - |acc|);
        var acc' := acc + Prefix(k1, limit - |acc|);
        if |acc'| < limit {
          CollectTargetedKeeps(relays[1..], keep, limit, acc');
        }
      }
    }
  }

  /** With a limit below one the loop stops after the first relay that
      answered, having looked at its first event only. */
  lemma {:induction false} CollectTargetedFirst(relays: seq<RelayAnswer>, keep: Event -> bool, limit: int)
    requires limit < 1
    ensures CollectTargeted(relays, keep, limit, []) == Select(Prefix(FirstAnswer(relays), 1), keep)
    decreases |relays|
  {
    if relays != [] {
      if relays[0].None? {
        CollectTargetedFirst(relays[1..], keep, limit);
      } else {
        var evs := relays[0].value;
        if evs != [] {
          assert Prefix(evs, 1) == [evs[0]];
          SelectCons([evs[0]], keep);
          assert [evs[0]][1..] == [];
        }
      }
    }
  }

  /** Only the free-text query is given: the search takes the broad path. */
  predicate IsQueryOnly(f: Filters) {
    f.query != "" && f.language == "" && f.author == ""
  }

  /** searchRelayEvents: a query-only search goes to the broad search; any other
      search keeps, from the targeted relays' answers in relay order, the events
      that match the query, cut at the limit. A limit below one looks only at the
      first event of the first relay that answered. */
  function SearchRelayEvents(cache: seq<Event>, targeted: seq<RelayAnswer>, broad: seq<RelayAnswer>,
                             f: Filters, limit: int): (r: seq<Event>)
    ensures IsQueryOnly(f) ==> r == SearchByQueryOnly(cache, broad, f.query, limit)
    ensures !IsQueryOnly(f) && limit >= 1 ==>
      r == Prefix(Select(Delivered(targeted), QueryFilter(f.query)), limit)
    ensures !IsQueryOnly(f) && limit < 1 ==>
      r == Select(Prefix(FirstAnswer(targeted), 1), QueryFilter(f.query))
  {
    if IsQueryOnly(f) then SearchByQueryOnly(cache, broad, f.query, limit)
    else if limit >= 1 then
      CollectTargetedKeeps(targeted, QueryFilter(f.query), limit, []);
      CollectTargeted(targeted, QueryFilter(f.query), limit, [])
    else
      CollectTargetedFirst(targeted, QueryFilter(f.query), limit);
      CollectTargeted(targeted, QueryFilter(f.query), limit, [])
  }

  /** Once the targeted loop has collected `limit` events from some relays,
      relays after them are never consulted. */
  lemma TargetedStopsAtLimit(relays: seq<RelayAnswer>, later: seq<RelayAnswer>, keep: Event -> bool, limit: int)
    requires limit >= 1
    requires |CollectTargeted(relays, keep, limit, [])| >= limit
    ensures CollectTargeted(relays + later, keep, limit, []) == CollectTargeted(relays, keep, limit, [])
  {
    CollectTargetedKeeps(relays, keep, limit, []);
    CollectTargetedKeeps(relays + later, keep, limit, []);
    DeliveredAppend(relays, later);
    SelectAppend(Delivered(relays), Delivered(later), keep);
    PrefixAppend(Select(Delivered(relays), keep), Select(Delivered(later), keep), limit);
  }

  /** The targeted loop does not de-duplicate across relays: two relays that
      deliver the same accepted event both contribute it. */
  lemma TargetedKeepsDuplicates(e: Event, keep: Event -> bool, limit: int)
    requires limit >= 2 && keep(e)
    ensures CollectTargeted([Some([e]), Some([e])], keep, limit, []) == [e, e]
  {
    var relays: seq<RelayAnswer> := [Some([e]), Some([e])];
    CollectTargetedKeeps(relays, keep, limit, []);
    assert Delivered(relays) == [e, e] by {
      DeliveredCons(relays);
      DeliveredCons(relays[1..]);
      assert relays[1..][1..] == [];
    }
    assert Select([e, e], keep) == [e, e] by {
      SelectCons([e, e], keep);
      SelectCons([e], keep);
      assert [e, e][1..] == [e];
      assert [e][1..] == [];
    }
  }

  /** A search that is not query-only returns at most `limit` events (one when
      the limit is below one), each delivered by a targeted relay and matching
      the query when one is given. */
  lemma TargetedResultSound(cache: seq<Event>, targeted: seq<RelayAnswer>, broad: seq<RelayAnswer>,
                            f: Filters, limit: int)
    requires !IsQueryOnly(f)
    ensures var r := SearchRelayEvents(cache, targeted, broad, f, limit);
      && |r| <= Cap(limit)
      && forall e :: e in r ==> e in Delivered(targeted) && (f.query == "" || MatchesQuery(e, f.query))
  {
    var r := SearchRelayEvents(cache, targeted, broad, f, limit);
    var src := if limit >= 1 then Delivered(targeted) else Prefix(FirstAnswer(targeted), 1);
    var k := Select(src, QueryFilter(f.query));
    SelectSound(src, QueryFilter(f.query));
    if limit >= 1 {
      PrefixIsPrefix(k, limit);
      assert forall e :: e in r ==> e in k;
    } else {
      FirstAnswerDelivered(targeted);
      PrefixIsPrefix(FirstAnswer(targeted), 1);
      assert forall e :: e in src ==> e in FirstAnswer(targeted);
    }
  }

  // ---------------------------------------------------------------------------
  // searchByQueryOnly: the broad live search with de-duplication by id
  // ---------------------------------------------------------------------------

  /** The ids of a list of events. */
  function Ids(evs: seq<Event>): set<string>
    decreases |evs|
  {
    if evs == [] then {} else {evs[0].id} + Ids(evs[1..])
  }

  lemma IdsCons(e: Event, s: seq<Event>)
    ensures Ids([e] + s) == {e.id} + Ids(s)
  {
    assert ([e] + s)[1..] == s;
  }

  /** Reference definition: keep the first event of every id that is not in
      `seen`, in order. */
  function DedupFrom(evs: seq<Event>, seen: set<string>): seq<Event>
    decreases |evs|
  {
    if evs == [] then []
    else if evs[0].id in seen then DedupFrom(evs[1..], seen)
    else [evs[0]] + DedupFrom(evs[1..], seen + {evs[0].id})
  }

  /** No two events share an id. */
  predicate DistinctIds(evs: seq<Event>) {
    forall i, j :: 0 <= i < j < |evs| ==> evs[i].id != evs[j].id
  }

  /** DedupFrom keeps events of evs whose ids are new, each id once. */
  lemma {:induction false} DedupSound(evs: seq<Event>, seen: set<string>)
    ensures forall e :: e in DedupFrom(evs, seen) ==> e in evs && e.id !in seen
    ensures DistinctIds(DedupFrom(evs, seen))
    decreases |evs|
  {
    if evs != [] {
      var e := evs[0];
      if e.id in seen {
        DedupSound(evs[1..], seen);
      } else {
        var rest := DedupFrom(evs[1..], seen + {e.id});
        DedupSound(evs[1..], seen + {e.id});
        assert forall k :: 0 <= k < |rest| ==> rest[k] in rest;
      }
    }
  }

  lemma {:induction false} DedupAppend(a: seq<Event>, b: seq<Event>, seen: set<string>)
    ensures DedupFrom(a + b, seen) == DedupFrom(a, seen) + DedupFrom(b, seen + Ids(DedupFrom(a, seen)))
    decreases |a|
  {
    if a == [] {
      assert a + b == b;
      assert Ids([]) == {};
      assert seen + {} == seen;
    } else {
      assert (a + b)[0] == a[0];
      assert (a + b)[1..] == a[1..] + b;
      var e := a[0];
      if e.id in seen {
        DedupAppend(a[1..], b, seen);
      } else {
        var seen' := seen + {e.id};
        DedupAppend(a[1..], b, seen');
        var rest := DedupFrom(a[1..], seen');
        IdsCons(e, rest);
        assert DedupFrom(a, seen) == [e] + rest;
        assert DedupFrom(a + b, seen) == [e] + DedupFrom(a[1..] + b, seen');
        assert seen' + Ids(rest) == seen + Ids([e] + rest);
      }
    }
  }

  /** The event loop over one broad relay: skip ids already collected, append
      events `keep` accepts and test the limit after each append. The second
      component is the set of collected ids. */
  function DrainUnique(evs: seq<Event>, keep: Event -> bool, limit: int, acc: seq<Event>, seen: set<string>)
    : (seq<Event>, set<string>)
    decreases |evs|
  {
    if evs == [] then (acc, seen)
    else
      var e := evs[0];
      if e.id in seen then DrainUnique(evs[1..], keep, limit, acc, seen)
      else if keep(e) then
        if |acc| + 1 >= limit then (acc + [e], seen + {e.id})
        else DrainUnique(evs[1..], keep, limit, acc + [e], seen + {e.id})
      else DrainUnique(evs[1..], keep, limit, acc, seen)
  }

  /** An event already seen, or one `keep` rejects, adds nothing. */
  lemma DedupSkip(evs: seq<Event>, keep: Event -> bool, seen: set<string>)
    requires evs != [] && (evs[0].id in seen || !keep(evs[0]))
    ensures DedupFrom(Select(evs, keep), seen) == DedupFrom(Select(evs[1..], keep), seen)
  {
    var k := Select(evs[1..], keep);
    SelectCons(evs, keep);
    if keep(evs[0]) {
      assert ([evs[0]] + k)[1..] == k;
    }
  }

  /** A new accepted event is taken and its id remembered. */
  lemma DedupTake(evs: seq<Event>, keep: Event -> bool, seen: set<string>)
    requires evs != [] && evs[0].id !in seen && keep(evs[0])
    ensures DedupFrom(Select(evs, keep), seen)
         == [evs[0]] + DedupFrom(Select(evs[1..], keep), seen + {evs[0].id})
  {
    var k := Select(evs[1..], keep);
    SelectCons(evs, keep);
    assert ([evs[0]] + k)[1..] == k;
  }

  lemma {:induction false} DrainUniqueKeeps(evs: seq<Event>, keep: Event -> bool, limit: int,
                                            acc: seq<Event>, seen: set<string>)
    requires |acc| < Cap(limit)
    ensures var r := DrainUnique(evs, keep, limit, acc, seen);
      var d := DedupFrom(Select(evs, keep), seen);
      && r.0 == acc + Prefix(d, Cap(limit) - |acc|)
      && (|d| < Cap(limit) - |acc| ==> r.1 == seen + Ids(d))
    decreases |evs|
  {
    if evs == [] {
      assert Ids([]) == {};
    } else {
      var e := evs[0];
      if e.id in seen || !keep(e) {
        DedupSkip(evs, keep, seen);
        DrainUniqueKeeps(evs[1..], keep, limit, acc, seen);
      } else {
        var seen' := seen + {e.id};
        var d' := DedupFrom(Select(evs[1..], keep), seen');
        var m := Cap(limit) - |acc| - 1;
        DedupTake(evs, keep, seen);
        PrefixCons(e, d', m);
        IdsCons(e, d');
        var r := DrainUnique(evs, keep, limit, acc, seen);
        if |acc| + 1 >= limit {
          assert r == (acc + [e], seen') && m == 0;
        } else {
          assert r == DrainUnique(evs[1..], keep, limit, acc + [e], seen');
          DrainUniqueKeeps(evs[1..], keep, limit, acc + [e], seen');
          assert r.0 == (acc + [e]) + Prefix(d', m);
          assert seen' + Ids(d') == seen + Ids([e] + d');
        }
      }
    }
  }

  /** The relay loop of searchByQueryOnly over the broad relays. */
  function CollectUnique(relays: seq<RelayAnswer>, keep: Event -> bool, limit: int, acc: seq<Event>, seen: set<string>)
    : seq<Event>
    decreases |relays|
  {
    if relays == [] then acc
    else match relays[0]
      case None => CollectUnique(relays[1..], keep, limit, acc, seen)
      case Some(evs) =>
        var r := DrainUnique(evs, keep, limit, acc, seen);
        if |r.0| >= limit then r.0
        else CollectUnique(relays[1..], keep, limit, r.0, r.1)
  }

  /** Splitting one relay's events off the rest, for the broad loop. */
  lemma DedupSelectAppend(evs: seq<Event>, rest: seq<Event>, keep: Event -> bool, seen: set<string>)
    ensures var d := DedupFrom(Select(evs, keep), seen);
      DedupFrom(Select(evs + rest, keep), seen) == d + DedupFrom(Select(rest, keep), seen + Ids(d))
  {
    SelectAppend(evs, rest, keep);
    DedupAppend(Select(evs, keep), Select(rest, keep), seen);
  }

  lemma {:induction false} CollectUniqueKeeps(relays: seq<RelayAnswer>, keep: Event -> bool, limit: int,
                                              acc: seq<Event>, seen: set<string>)
    requires 1 <= limit && |acc| < limit
    ensures CollectUnique(relays, keep, limit, acc, seen)
         == acc + Prefix(DedupFrom(Select(Delivered(relays), keep), seen), limit - |acc|)
    decreases |relays|
  {
    if relays != [] {
      DeliveredCons(relays);
      if relays[0].None? {
        CollectUniqueKeeps(relays[1..], keep, limit, acc, seen);
      } else {
        var evs := relays[0].value;
        var rest := Delivered(relays[1..]);
        var d := DedupFrom(Select(evs, keep), seen);
        var d2 := DedupFrom(Select(rest, keep), seen + Ids(d));
        var n := limit - |acc|;
        DrainUniqueKeeps(evs, keep, limit, acc, seen);
        DedupSelectAppend(evs, rest, keep, seen);
        assert DedupFrom(Select(Delivered(relays), keep), seen) == d + d2;
        var r := DrainUnique(evs, keep, limit, acc, seen);
        var whole := CollectUnique(relays, keep, limit, acc, seen);
        if |r.0| >= limit {
          assert whole == r.0;
          PrefixAppend(d, d2, n);
        } else {
          assert whole == CollectUnique(relays[1..], keep, limit, r.0, r.1);
          assert |d| < n && r == (acc + d, seen + Ids(d));
          CollectUniqueKeeps(relays[1..], keep, limit, r.0, r.1);
          PrefixStep(acc, d, d2, n, whole);
        }
      }
    }
  }

  lemma PrefixStep<T>(acc: seq<T>, d: seq<T>, d2: seq<T>, n: nat, whole: seq<T>)
    requires |d| < n
    requires whole == (acc + d) + Prefix(d2, n - |d|)
    ensures whole == acc + Prefix(d + d2, n)
  {
    PrefixAppend(d, d2, n);
  }

  lemma {:induction false} CollectUniqueFirst(relays: seq<RelayAnswer>, keep: Event -> bool, limit: int)
    requires limit < 1
    ensures CollectUnique(relays, keep, limit, [], {})
         == Prefix(DedupFrom(Select(FirstAnswer(relays), keep), {}), 1)
    decreases |relays|
  {
    if relays != [] {
      if relays[0].None? {
        CollectUniqueFirst(relays[1..], keep, limit);
      } else {
        DrainUniqueKeeps(relays[0].value, keep, limit, [], {});
      }
    }
  }

  /** searchByQueryOnly: the cache's matches for the query when there are any;
      otherwise the broad relays' events that match the query, first event of
      each id only, in order, cut at the limit. */
  function SearchByQueryOnly(cache: seq<Event>, broad: seq<RelayAnswer>, query: string, limit: int)
    : (r: seq<Event>)
    ensures var m := Matching(cache, Filters("", "", query));
      && (m != [] ==> r == Prefix(m, Cap(limit)))
      && (m == [] && limit >= 1 ==> r == Prefix(DedupFrom(Select(Delivered(broad), MatchFilter(query)), {}), limit))
      && (m == [] && limit < 1 ==> r == Prefix(DedupFrom(Select(FirstAnswer(broad), MatchFilter(query)), {}), 1))
  {
    var cached := SearchCachedEvents(cache, Filters("", "", query), limit);
    if |cached| > 0 then cached
    else if limit >= 1 then
      CollectUniqueKeeps(broad, MatchFilter(query), limit, [], {});
      CollectUnique(broad, MatchFilter(query), limit, [], {})
    else
      CollectUniqueFirst(broad, MatchFilter(query), limit);
      CollectUnique(broad, MatchFilter(query), limit, [], {})
  }

  /** When the cache has no match, the broad search returns events with
      pairwise distinct ids, each delivered by a broad relay and matching the
      query, at most `limit` of them (one when the limit is below one). */
  lemma QueryOnlyLiveResult(cache: seq<Event>, broad: seq<RelayAnswer>, query: string, limit: int)
    requires Matching(cache, Filters("", "", query)) == []
    ensures var r := SearchByQueryOnly(cache, broad, query, limit);
      && DistinctIds(r)
      && |r| <= Cap(limit)
      && forall e :: e in r ==> e in Delivered(broad) && MatchesQuery(e, query)
  {
    var r := SearchByQueryOnly(cache, broad, query, limit);
    var src := if limit >= 1 then Delivered(broad) else FirstAnswer(broad);
    var k := Select(src, MatchFilter(query));
    var d := DedupFrom(k, {});
    DedupSound(k, {});
    SelectSound(src, MatchFilter(query));
    PrefixIsPrefix(d, Cap(limit));
    assert forall e :: e in r ==> e in d;
    FirstAnswerDelivered(broad);
  }

  // ---------------------------------------------------------------------------
  // searchCodeSnippetsHandler: the three-way decision
  // ---------------------------------------------------------------------------

  /** The arguments of one search request; a missing string argument reads as "". */
  datatype SearchArgs = SearchArgs(language: string, author: string, query: string, limit: Option<int>)

  /** Which path the handler took. */
  datatype Branch =
    | CacheSufficient   // the cache alone had `limit` matches
    | LiveQueryOnly     // no cache match, only a query: broad search
    | LiveTargeted      // no cache match: targeted search for the full limit
    | CachePartial      // some cache matches, topped up by a targeted search

  /** The events the handler reports, the path it took and the filters it used. */
  datatype Outcome = Outcome(branch: Branch, events: seq<Event>, filters: Filters)

  const DefaultLimit: int := 10

  const NoFilterError: string := "at least one of 'language', 'author', or 'query' must be provided"

  function EffectiveLimit(args: SearchArgs): int {
    match args.limit
    case Some(l) => l
    case None => DefaultLimit
  }

  /** An author given as an npub is replaced by its decoding when decoding
      succeeded; otherwise the author is kept as given. `decoded` is the
      outcome of decoding the author. */
  function ResolveAuthor(author: string, decoded: Option<string>): (a: string)
    ensures !HasPrefix(author, "npub") || decoded.None? ==> a == author
    ensures HasPrefix(author, "npub") && decoded.Some? ==> a == decoded.value
  {
    if author != "" && HasPrefix(author, "npub") then
      match decoded
      case Some(hex) => hex
      case None => author
    else author
  }

  /** The filters the handler searches with. */
  function RequestFilters(args: SearchArgs, decoded: Option<string>): Filters {
    Filters(args.language, ResolveAuthor(args.author, decoded), args.query)
  }

  /** searchCodeSnippetsHandler up to formatting. `cache` is the cache snapshot,
      `targeted` the answers of the targeted relays and `broad` those of the
      broad relays. Searching requires at least one filter. */
  function SearchSnippets(args: SearchArgs, decoded: Option<string>, cache: seq<Event>,
                          targeted: seq<RelayAnswer>, broad: seq<RelayAnswer>): (r: Result<Outcome, string>)
    ensures r.Failure? <==> args.language == "" && args.author == "" && args.query == ""
    ensures r.Failure? ==> r.error == NoFilterError
    ensures r.Success? ==> r.value.filters == RequestFilters(args, decoded)
  {
    var limit := EffectiveLimit(args);
    if args.language == "" && args.author == "" && args.query == "" then Failure(NoFilterError)
    else
      var f := RequestFilters(args, decoded);
      var cached := SearchCachedEvents(cache, f, limit);
      if |cached| >= limit then Success(Outcome(CacheSufficient, cached, f))
      else if |cached| == 0 then
        if f.language == "" && f.author == "" && f.query != "" then
          Success(Outcome(LiveQueryOnly, SearchByQueryOnly(cache, broad, f.query, limit), f))
        else
          Success(Outcome(LiveTargeted, SearchRelayEvents(cache, targeted, broad, f, limit), f))
      else
        var live := SearchRelayEvents(cache, targeted, broad, f, limit - |cached|);
        Success(Outcome(CachePartial, Prefix(cached + live, limit), f))
  }

  /** The number of cache matches decides the branch: `limit` or more (always
      when the limit is below one) answer from the cache alone, none goes live,
      some but fewer than `limit` are topped up live. */
  lemma HandlerBranch(args: SearchArgs, decoded: Option<string>, cache: seq<Event>,
                      targeted: seq<RelayAnswer>, broad: seq<RelayAnswer>)
    requires !(args.language == "" && args.author == "" && args.query == "")
    ensures var r := SearchSnippets(args, decoded, cache, targeted, broad);
      var f := RequestFilters(args, decoded);
      var limit := EffectiveLimit(args);
      var n := |Matching(cache, f)|;
      && r.Success?
      && (r.value.branch == CacheSufficient <==> n >= limit)
      && (r.value.branch == CachePartial <==> 0 < n < limit)
      && (r.value.branch == LiveQueryOnly <==> n == 0 < limit && IsQueryOnly(f))
      && (r.value.branch == LiveTargeted <==> n == 0 < limit && !IsQueryOnly(f))
  {
  }

  /** The cache-only branch reports the cache matches cut at the limit, and no
      relay answer is looked at: any other relay answers give the same outcome. */
  lemma CacheSufficientResult(args: SearchArgs, decoded: Option<string>, cache: seq<Event>,
                              targeted: seq<RelayAnswer>, broad: seq<RelayAnswer>,
                              targeted': seq<RelayAnswer>, broad': seq<RelayAnswer>)
    requires !(args.language == "" && args.author == "" && args.query == "")
    requires |Matching(cache, RequestFilters(args, decoded))| >= EffectiveLimit(args)
    ensures var r := SearchSnippets(args, decoded, cache, targeted, broad);
      && r.Success?
      && r.value.branch == CacheSufficient
      && r.value.events == Prefix(Matching(cache, RequestFilters(args, decoded)), Cap(EffectiveLimit(args)))
    ensures SearchSnippets(args, decoded, cache, targeted', broad') == SearchSnippets(args, decoded, cache, targeted, broad)
  {
  }

  /** A cache miss with a positive limit goes to the broad search for a
      query-only request and to the targeted search for the full limit
      otherwise. */
  lemma LiveResult(args: SearchArgs, decoded: Option<string>, cache: seq<Event>,
                   targeted: seq<RelayAnswer>, broad: seq<RelayAnswer>)
    requires !(args.language == "" && args.author == "" && args.query == "")
    requires EffectiveLimit(args) >= 1
    requires Matching(cache, RequestFilters(args, decoded)) == []
    ensures var r := SearchSnippets(args, decoded, cache, targeted, broad);
      var f := RequestFilters(args, decoded);
      var limit := EffectiveLimit(args);
      && r.Success?
      && (IsQueryOnly(f) ==>
            && r.value.branch == LiveQueryOnly
            && r.value.events == Prefix(DedupFrom(Select(Delivered(broad), MatchFilter(f.query)), {}), limit))
      && (!IsQueryOnly(f) ==>
            && r.value.branch == LiveTargeted
            && r.value.events == Prefix(Select(Delivered(targeted), QueryFilter(f.query)), limit))
  {
  }

  /** In the partial branch the cache matches come first, followed by a live
      search for the missing `limit - k` events, without de-duplication, cut
      at the limit. */
  lemma PartialResult(args: SearchArgs, decoded: Option<string>, cache: seq<Event>,
                      targeted: seq<RelayAnswer>, broad: seq<RelayAnswer>)
    requires !(args.language == "" && args.author == "" && args.query == "")
    requires 0 < |Matching(cache, RequestFilters(args, decoded))| < EffectiveLimit(args)
    ensures var r := SearchSnippets(args, decoded, cache, targeted, broad);
      var f := RequestFilters(args, decoded);
      var m := Matching(cache, f);
      var limit := EffectiveLimit(args);
      && r.Success?
      && r.value.branch == CachePartial
      && |r.value.events| <= limit
      && r.value.events[..|m|] == m
      && r.value.events == Prefix(m + SearchRelayEvents(cache, targeted, broad, f, limit - |m|), limit)
  {
    var f := RequestFilters(args, decoded);
    var m := Matching(cache, f);
    var limit := EffectiveLimit(args);
    PrefixAppend(m, SearchRelayEvents(cache, targeted, broad, f, limit - |m|), limit);
  }

  /** In the partial branch of a query-only search the "live" search re-reads
      the same cache, so cached matches are reported twice. */
  lemma PartialQueryOnlyRepeatsCache(args: SearchArgs, decoded: Option<string>, cache: seq<Event>,
                                     targeted: seq<RelayAnswer>, broad: seq<RelayAnswer>)
    requires args.language == "" && args.author == "" && args.query != ""
    requires 0 < |Matching(cache, Filters("", "", args.query))| < EffectiveLimit(args)
    ensures var r := SearchSnippets(args, decoded, cache, targeted, broad);
      var m := Matching(cache, Filters("", "", args.query));
      r.Success? && r.value.events == m + Prefix(m, EffectiveLimit(args) - |m|)
  {
    var f := RequestFilters(args, decoded);
    var m := Matching(cache, f);
    var limit := EffectiveLimit(args);
    PartialResult(args, decoded, cache, targeted, broad);
    var live := SearchRelayEvents(cache, targeted, broad, f, limit - |m|);
    assert live == Prefix(m, limit - |m|);
    PrefixAppend(m, live, limit);
  }

  /** The merge does not de-duplicate: an event found both in the cache and on
      a targeted relay is reported twice. */
  lemma PartialKeepsDuplicates(e: Event, args: SearchArgs, decoded: Option<string>, broad: seq<RelayAnswer>)
    requires EffectiveLimit(args) == 2
    requires !(args.language == "" && args.author == "" && args.query == "")
    requires Passes(e, RequestFilters(args, decoded)) && !IsQueryOnly(RequestFilters(args, decoded))
    ensures SearchSnippets(args, decoded, [e], [Some([e])], broad).Success?
    ensures SearchSnippets(args, decoded, [e], [Some([e])], broad).value.events == [e, e]
  {
    var f := RequestFilters(args, decoded);
    var relays: seq<RelayAnswer> := [Some([e])];
    assert Matching([e], f) == [e] by {
      SelectCons([e], PassesFilter(f));
      assert [e][1..] == [];
    }
    assert Delivered(relays) == [e] by {
      DeliveredCons(relays);
      assert relays[1..] == [];
    }
    assert QueryFilter(f.query)(e);
    assert Select([e], QueryFilter(f.query)) == [e] by {
      SelectCons([e], QueryFilter(f.query));
      assert [e][1..] == [];
    }
    PartialResult(args, decoded, [e], relays, broad);
  }
}
