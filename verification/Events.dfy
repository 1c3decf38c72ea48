/**
 The event registry: core/app-mgr/app-manager/event.c. A list of events, newest first, each with its own list of
 subscribers, newest first. It stands for a set of (URL, subscriber) pairs.
 */
module Events {
  import opened Bytes

  datatype Event = Event(url: seq<byte>, subscribers: seq<uint32>)

  /** The set of pairs the nested lists stand for. */
  ghost function Pairs(es: seq<Event>): set<(seq<byte>, uint32)> {
    if es == [] then {}
    else (set c | c in es[0].subscribers :: (es[0].url, c)) + Pairs(es[1..])
  }

  predicate Distinct<T(==)>(s: seq<T>) {
    forall i, j | 0 <= i < j < |s| :: s[i] != s[j]
  }

  predicate WfEvent(e: Event) {
    e.url != [] && e.subscribers != [] && Distinct(e.subscribers)
  }

  /** No URL and no subscriber of an event is listed twice; no event is without subscribers. */
  predicate Wf(es: seq<Event>) {
    && (forall i | 0 <= i < |es| :: WfEvent(es[i]))
    && (forall i, j | 0 <= i < j < |es| :: es[i].url != es[j].url)
  }

  /** The first event with this URL, or the length of the list. */
  function Position(es: seq<Event>, url: seq<byte>): (k: nat)
    ensures k <= |es| && (k < |es| ==> es[k].url == url)
    ensures forall i | 0 <= i < k :: es[i].url != url
  {
    if es == [] || es[0].url == url then 0 else 1 + Position(es[1..], url)
  }

  /** Whom an event with this URL is delivered to, in order. */
  function SubscribersOf(es: seq<Event>, url: seq<byte>): seq<uint32> {
    var k := Position(es, url);
    if k == |es| then [] else es[k].subscribers
  }

  /** `am_register_event` of an acceptable URL. */
  function Subscribe(es: seq<Event>, url: seq<byte>, c: uint32): seq<Event> {
    var k := Position(es, url);
    if k == |es| then [Event(url, [c])] + es
    else if c in es[k].subscribers then es
    else es[k := Event(url, [c] + es[k].subscribers)]
  }

  /** `find_subscriber` with removal: the first occurrence goes. */
  function Removed(s: seq<uint32>, c: uint32): seq<uint32> {
    if s == [] then [] else if s[0] == c then s[1..] else [s[0]] + Removed(s[1..], c)
  }

  /** An unregistration names one URL, or none to mean all. */
  predicate Selected(url: Option<seq<byte>>, e: seq<byte>) {
    url.None? || url.value == e
  }

  /** What is left of one event: nothing when its last subscriber leaves. */
  function Left(e: Event, url: Option<seq<byte>>, c: uint32): seq<Event> {
    if !Selected(url, e.url) then [e]
    else
      var s := Removed(e.subscribers, c);
      if s == [] then [] else [Event(e.url, s)]
  }

  /** `am_unregister_event`. */
  function Unsubscribe(es: seq<Event>, url: Option<seq<byte>>, c: uint32): seq<Event> {
    if es == [] then [] else Left(es[0], url, c) + Unsubscribe(es[1..], url, c)
  }

  lemma {:induction false} InPairs(es: seq<Event>, url: seq<byte>, c: uint32)
    ensures (url, c) in Pairs(es) <==> exists i | 0 <= i < |es| :: es[i].url == url && c in es[i].subscribers
  {
    if es != [] {
      var rest := es[1..];
      InPairs(rest, url, c);
      if exists i | 0 <= i < |rest| :: rest[i].url == url && c in rest[i].subscribers {
        var i :| 0 <= i < |rest| && rest[i].url == url && c in rest[i].subscribers;
        assert es[i + 1] == rest[i];
      }
      if i: nat :| i < |es| && es[i].url == url && c in es[i].subscribers {
        if i > 0 {
          assert rest[i - 1] == es[i];
        }
      }
    }
  }

  /** In a well-formed registry the pairs of a URL are exactly its event's subscribers, each listed once. */
  lemma {:induction false} PairsOfUrl(es: seq<Event>, url: seq<byte>, c: uint32)
    requires Wf(es)
    ensures (url, c) in Pairs(es) <==> c in SubscribersOf(es, url)
    ensures Distinct(SubscribersOf(es, url))
  {
    hide Pairs;
    InPairs(es, url, c);
    var k := Position(es, url);
    if i: nat :| i < |es| && es[i].url == url && c in es[i].subscribers {
      assert i == k;
    }
    if k < |es| {
      assert WfEvent(es[k]);
    }
  }

  lemma {:induction false} RemovedMeaning(s: seq<uint32>, c: uint32)
    requires Distinct(s)
    ensures Distinct(Removed(s, c))
    ensures forall d :: d in Removed(s, c) <==> d in s && d != c
  {
    if s != [] && s[0] != c {
      var rest := s[1..];
      assert Distinct(rest);
      RemovedMeaning(rest, c);
      assert s == [s[0]] + rest && s[0] !in rest;
      var r := Removed(rest, c);
      assert Removed(s, c) == [s[0]] + r;
      assert forall i | 0 <= i < |r| :: r[i] in r && r[i] != s[0];
    }
  }

  lemma {:induction false} RemovedFirst(s: seq<uint32>, c: uint32, i: nat)
    requires i < |s| && s[i] == c && c !in s[..i]
    ensures Removed(s, c) == s[..i] + s[i + 1..]
  {
    if i > 0 {
      var rest := s[1..];
      assert s[0] == s[..i][0] && rest[..i - 1] == s[..i][1..];
      RemovedFirst(rest, c, i - 1);
      assert [s[0]] + (rest[..i - 1] + rest[i..]) == s[..i] + s[i + 1..];
    }
  }

  lemma {:induction false} RemovedAbsent(s: seq<uint32>, c: uint32)
    requires c !in s
    ensures Removed(s, c) == s
  {
    if s != [] {
      RemovedAbsent(s[1..], c);
      assert s == [s[0]] + s[1..];
    }
  }

  /** The rest keep their order. */
  lemma {:induction false} RemovedInOrder(s: seq<uint32>, c: uint32)
    ensures c !in s ==> Removed(s, c) == s
    ensures c in s ==> exists i | 0 <= i < |s| :: s[i] == c && Removed(s, c) == s[..i] + s[i + 1..]
  {
    hide Removed;
    if c in s {
      var i := FirstOf(s, c);
      RemovedFirst(s, c, i);
    } else {
      RemovedAbsent(s, c);
    }
  }

  lemma {:induction false} FirstOf(s: seq<uint32>, c: uint32) returns (i: nat)
    requires c in s
    ensures i < |s| && s[i] == c && c !in s[..i]
  {
    i := 0;
    if s[0] != c {
      var j := FirstOf(s[1..], c);
      i := j + 1;
      assert s[..i] == [s[0]] + s[1..][..j];
    }
  }

  lemma {:induction false} SubscribeWf(es: seq<Event>, url: seq<byte>, c: uint32)
    requires Wf(es) && url != []
    ensures Wf(Subscribe(es, url, c))
  {
    var k := Position(es, url);
    if k < |es| {
      assert WfEvent(es[k]);
    }
    if k < |es| && c !in es[k].subscribers {
      assert WfEvent(Event(url, [c] + es[k].subscribers));
    }
  }

  /** Registering adds exactly one pair. */
  lemma {:induction false} SubscribeAddsPair(es: seq<Event>, url: seq<byte>, c: uint32)
    requires Wf(es) && url != []
    ensures Pairs(Subscribe(es, url, c)) == Pairs(es) + {(url, c)}
  {
    hide Pairs, Wf;
    var es' := Subscribe(es, url, c);
    forall p: (seq<byte>, uint32) ensures p in Pairs(es') <==> p in Pairs(es) + {(url, c)} {
      var (u, d) := p;
      SubscribeOthers(es, url, c, u);
      SubscribeWf(es, url, c);
      PairsOfUrl(es, u, d);
      PairsOfUrl(es', u, d);
    }
  }

  /** Only the registered URL's subscribers change, and the newcomer goes first. */
  lemma {:induction false} SubscribeOthers(es: seq<Event>, url: seq<byte>, c: uint32, u: seq<byte>)
    ensures var before := SubscribersOf(es, u);
            SubscribersOf(Subscribe(es, url, c), u) == if u != url || c in before then before else [c] + before
  {
    var k, es' := Position(es, url), Subscribe(es, url, c);
    if k == |es| {
      assert es'[1..] == es;
    } else if c !in es[k].subscribers {
      PositionUpdated(es, k, es'[k], u);
    }
  }

  lemma {:induction false} PositionUpdated(es: seq<Event>, k: nat, e: Event, u: seq<byte>)
    requires k < |es| && e.url == es[k].url
    ensures Position(es[k := e], u) == Position(es, u)
  {
    if k > 0 && es[0].url != u {
      assert es[k := e][1..] == es[1..][k - 1 := e];
      PositionUpdated(es[1..], k - 1, e, u);
    }
    if k == 0 {
      assert es[k := e][1..] == es[1..];
    }
  }

  /** A URL keeps its event exactly while a subscriber remains. */
  lemma {:induction false} UnsubscribeOthers(es: seq<Event>, url: Option<seq<byte>>, c: uint32, u: seq<byte>)
    requires Wf(es)
    ensures var before := SubscribersOf(es, u);
            SubscribersOf(Unsubscribe(es, url, c), u) == if Selected(url, u) then Removed(before, c) else before
    ensures var before := SubscribersOf(es, u);
            (url.None? || url.value == u) && c in before ==>
              exists i | 0 <= i < |before| ::
                before[i] == c && SubscribersOf(Unsubscribe(es, url, c), u) == before[..i] + before[i + 1..]
    ensures var before := SubscribersOf(es, u);
            (url.Some? && url.value != u) || c !in before ==> SubscribersOf(Unsubscribe(es, url, c), u) == before
  {
    hide Removed, SubscribersOf;
    RemovedInOrder(SubscribersOf(es, u), c);
    if es != [] {
      var e, rest := es[0], es[1..];
      UnsubscribeOthers(rest, url, c, u);
      FirstEvent(es, u);
      assert Wf(rest);
      var left, after := Left(e, url, c), Unsubscribe(rest, url, c);
      if left != [] {
        assert (left + after)[1..] == after;
        FirstEvent(left + after, u);
      } else {
        assert left + after == after;
        if e.url == u {
          AbsentUrl(rest, u);
        }
      }
    } else {
      AbsentUrl(es, u);
    }
    assert Removed([], c) == [] by {
      NothingRemoved(c);
    }
  }

  lemma NothingRemoved(c: uint32)
    ensures Removed([], c) == []
  {
  }

  lemma FirstEvent(es: seq<Event>, u: seq<byte>)
    requires es != []
    ensures SubscribersOf(es, u) == if es[0].url == u then es[0].subscribers else SubscribersOf(es[1..], u)
  {
  }

  lemma {:induction false} AbsentUrl(es: seq<Event>, u: seq<byte>)
    requires forall i | 0 <= i < |es| :: es[i].url != u
    ensures SubscribersOf(es, u) == []
  {
  }

  lemma {:induction false} UnsubscribeUrls(es: seq<Event>, url: Option<seq<byte>>, c: uint32, i: nat)
    requires i < |Unsubscribe(es, url, c)|
    ensures exists j | 0 <= j < |es| :: es[j].url == Unsubscribe(es, url, c)[i].url
  {
    var left, rest := Left(es[0], url, c), es[1..];
    if i < |left| {
      assert es[0].url == Unsubscribe(es, url, c)[i].url;
    } else {
      UnsubscribeUrls(rest, url, c, i - |left|);
      var j :| 0 <= j < |rest| && rest[j].url == Unsubscribe(rest, url, c)[i - |left|].url;
      assert es[j + 1].url == rest[j].url;
    }
  }

  lemma LeftWf(e: Event, url: Option<seq<byte>>, c: uint32)
    requires WfEvent(e)
    ensures var s := Left(e, url, c); |s| <= 1 && forall i | 0 <= i < |s| :: WfEvent(s[i]) && s[i].url == e.url
  {
    RemovedMeaning(e.subscribers, c);
  }

  lemma {:induction false} UnsubscribeWf(es: seq<Event>, url: Option<seq<byte>>, c: uint32)
    requires Wf(es)
    ensures Wf(Unsubscribe(es, url, c))
  {
    hide WfEvent, Left;
    if es != [] {
      var left, rest := Left(es[0], url, c), Unsubscribe(es[1..], url, c);
      assert Wf(es[1..]);
      UnsubscribeWf(es[1..], url, c);
      LeftWf(es[0], url, c);
      forall i | 0 <= i < |rest| ensures rest[i].url != es[0].url {
        UnsubscribeUrls(es[1..], url, c, i);
      }
    }
  }

  /** Unregistering removes the client's pair for the URL, or all its pairs, and no other. */
  lemma {:induction false} UnsubscribeRemovesPairs(es: seq<Event>, url: Option<seq<byte>>, c: uint32)
    requires Wf(es)
    ensures Pairs(Unsubscribe(es, url, c)) == Pairs(es) - (set p | p in Pairs(es) && p.1 == c && Selected(url, p.0))
  {
    hide Pairs, Wf;
    var es' := Unsubscribe(es, url, c);
    UnsubscribeWf(es, url, c);
    forall p: (seq<byte>, uint32) ensures p in Pairs(es') <==> p in Pairs(es) && !(p.1 == c && Selected(url, p.0)) {
      var (u, d) := p;
      UnsubscribeOthers(es, url, c, u);
      PairsOfUrl(es, u, d);
      PairsOfUrl(es', u, d);
      RemovedMeaning(SubscribersOf(es, u), c);
    }
  }

  /** Unregistering a fresh subscription restores the set of pairs. */
  lemma {:induction false} SubscribeUndone(es: seq<Event>, url: seq<byte>, c: uint32)
    requires Wf(es) && url != [] && (url, c) !in Pairs(es)
    ensures Pairs(Unsubscribe(Subscribe(es, url, c), Some(url), c)) == Pairs(es)
  {
    hide Pairs, Wf;
    SubscribeWf(es, url, c);
    SubscribeAddsPair(es, url, c);
    UnsubscribeRemovesPairs(Subscribe(es, url, c), Some(url), c);
  }

  /** The registry `g_events`. */
  class EventRegistry {
    var events: seq<Event>

    constructor ()
      ensures events == []
    {
      events := [];
    }

    /** `find_subscriber`: looks for a client in one event's list, taking it out on request. */
    method FindSubscriber(k: nat, id: uint32, remove: bool) returns (found: bool)
      requires k < |events|
      modifies this
      ensures found == (id in old(events)[k].subscribers)
      ensures events == if remove then old(events)[k := Event(old(events)[k].url,
                                                              Removed(old(events)[k].subscribers, id))]
                        else old(events)
    {
      hide Removed;
      var s := events[k].subscribers;
      for i := 0 to |s|
        invariant events == old(events) && id !in s[..i]
      {
        if s[i] == id {
          if remove {
            RemovedFirst(s, id, i);
            events := events[k := Event(events[k].url, s[..i] + s[i + 1..])];
          }
          return true;
        }
      }
      assert s[..|s|] == s;
      RemovedAbsent(s, id);
      found := false;
    }

    /** `am_register_event`. */
    method Register(url: seq<byte>, client: uint32) returns (ok: bool)
      modifies this
      ensures ok == (url != [])
      ensures events == if ok then Subscribe(old(events), url, client) else old(events)
    {
      if url == [] {
        return false;
      }
      var k := Search(url);
      if k == |events| {
        events := [Event(url, [])] + events;
        k := 0;
      }
      assert k == Position(events, url);
      var found := FindSubscriber(k, client, false);
      if !found {
        assert events[k].subscribers == [] ==> [client] + events[k].subscribers == [client];
        events := events[k := Event(url, [client] + events[k].subscribers)];
      }
      ok := true;
    }

    method Search(url: seq<byte>) returns (k: nat)
      ensures k == Position(events, url)
    {
      k := 0;
      while k < |events| && events[k].url != url
        invariant k <= |events| && Position(events, url) == k + Position(events[k..], url)
      {
        assert events[k..][1..] == events[k + 1..];
        k := k + 1;
      }
    }

    /** `am_unregister_event`. */
    method Unregister(url: Option<seq<byte>>, client: uint32)
      modifies this
      ensures events == Unsubscribe(old(events), url, client)
    {
      hide Left;
      var i := 0;
      while i < |events|
        invariant i <= |events|
        invariant events[..i] + Unsubscribe(events[i..], url, client) == Unsubscribe(old(events), url, client)
        decreases |events| - i
      {
        ghost var left, done, rest := Left(events[i], url, client), events[..i], events[i + 1..];
        assert events[i..][1..] == rest;
        var gone := Leave(i, url, client);
        assert events[..i + |left|] == done + left && events[i + |left|..] == rest;
        if !gone {
          i := i + 1;
        }
      }
      assert events[..i] == events;
    }

    /** One round of `am_unregister_event`: the event stays, or is unlinked with its last subscriber. */
    method Leave(i: nat, url: Option<seq<byte>>, client: uint32) returns (gone: bool)
      requires i < |events|
      modifies this
      ensures events == old(events)[..i] + Left(old(events)[i], url, client) + old(events)[i + 1..]
      ensures |Left(old(events)[i], url, client)| == if gone then 0 else 1
    {
      hide Removed;
      gone := false;
      if Selected(url, events[i].url) {
        var found := FindSubscriber(i, client, true);
        if events[i].subscribers == [] {
          events := events[..i] + events[i + 1..];
          gone := true;
        }
      }
    }

    /** `event_is_registered`. */
    method IsRegistered(url: seq<byte>) returns (r: bool)
      requires Wf(events)
      ensures r <==> exists c: uint32 :: (url, c) in Pairs(events)
    {
      var k := Search(url);
      r := k < |events|;
      if r {
        ghost var c := events[k].subscribers[0];
        PairsOfUrl(events, url, c);
      } else {
        forall c: uint32 ensures (url, c) !in Pairs(events) {
          PairsOfUrl(events, url, c);
        }
      }
    }

    /** The walk of `am_publish_event`: the clients handed the event, in order. */
    method Publish(url: seq<byte>) returns (sent: seq<uint32>)
      ensures sent == SubscribersOf(events, url)
    {
      sent := [];
      var k := Search(url);
      if k < |events| {
        var s := events[k].subscribers;
        for i := 0 to |s|
          invariant sent == s[..i]
        {
          sent := sent + [s[i]];
        }
      }
    }
  }
}
