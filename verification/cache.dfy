/** The in-memory code-snippet cache of mcp_server.go and its refresh
    (`updateCodeSnippetCache`). The refresh asks every cache relay for all
    snippets; the relay answers and the clock are inputs. */
module Cache {
  import opened Wrappers
  import opened Events
  import opened Search

  /** The cached events and the time of the last successful refresh. The
      lock that guards the fields is not modelled. */
  datatype CodeSnippetCache = CodeSnippetCache(events: seq<Event>, lastUpdate: int)

  /** updateCodeSnippetCache: collects, relay by relay, every event the relays
      that answered delivered; a non-empty collection replaces the cache and
      stamps it with `now`, an empty one leaves the cache as it was. So a
      refresh never empties a populated cache, and a refresh that changed the
      cache left in it only events some relay delivered. */
  method UpdateCodeSnippetCache(cache: CodeSnippetCache, relays: seq<RelayAnswer>, now: int)
    returns (updated: CodeSnippetCache)
    ensures Delivered(relays) != [] ==> updated == CodeSnippetCache(Delivered(relays), now)
    ensures Delivered(relays) == [] ==> updated == cache
    ensures cache.events != [] ==> updated.events != []
    ensures updated != cache ==> forall e :: e in updated.events ==> e in Delivered(relays)
  {
    var collected: seq<Event> := [];
    var i := 0;
    while i < |relays|
      invariant 0 <= i <= |relays|
      invariant collected == Delivered(relays[..i])
    {
      match relays[i] {
        case None =>
        case Some(evs) =>
          collected := collected + evs;
      }
      DeliveredAppend(relays[..i], [relays[i]]);
      assert relays[..i + 1] == relays[..i] + [relays[i]];
      assert Delivered([relays[i]]) == match relays[i] case None => [] case Some(evs) => evs by {
        DeliveredCons([relays[i]]);
        assert [relays[i]][1..] == [];
      }
      i := i + 1;
    }
    assert relays[..i] == relays;
    if |collected| > 0 {
      updated := CodeSnippetCache(collected, now);
    } else {
      updated := cache;
    }
  }

  /** A relay that failed contributes nothing: dropping failed relays from the
      list does not change what a refresh collects. */
  lemma {:induction false} FailedRelaysIgnored(relays: seq<RelayAnswer>, i: nat)
    requires i < |relays| && relays[i].None?
    ensures Delivered(relays[..i] + relays[i + 1..]) == Delivered(relays)
  {
    assert relays == relays[..i] + ([relays[i]] + relays[i + 1..]);
    DeliveredAppend(relays[..i], [relays[i]] + relays[i + 1..]);
    DeliveredAppend(relays[..i], relays[i + 1..]);
    DeliveredCons([relays[i]] + relays[i + 1..]);
    assert ([relays[i]] + relays[i + 1..])[1..] == relays[i + 1..];
  }
}
