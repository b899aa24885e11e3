/** The watcher of internal/monitoring/monitoring.go: the filter that turns a
    listing page into the events not seen before (`findNewInStockEvents`) and the
    polling loop that suppresses the first successful cycle (`Watch`).

    The HTML page is modelled as the sequence of its `.evo_above_title` elements in
    document order, each reduced to what the watcher reads from it.  The HTTP fetch
    and the HTML parse are reduced to their outcome, and the `select` between the
    shutdown channel and the ticker to the sequence of signals it delivers. */
module Monitoring {
  import opened Events

  /** `strings.Title`, left uninterpreted. */
  type TitleCase = string -> string

  /** The library functions the watcher calls and the model does not interpret. */
  datatype Foreign = Foreign(md5: Md5, title: TitleCase)

  datatype Option<T> = None | Some(value: T)

  /** One `.evo_above_title` element of the listing page: how many child elements
      it has (goquery's `Children()`, which skips text and comment nodes), the
      texts of the `.date`, `.month` and event-title elements of its card, and
      the `href` of the card's first link, if it has one. */
  datatype Entry = Entry(children: nat, day: string, month: string, title: string, href: Option<string>)

  /** An element without child elements stands for one event; one with child
      elements is a group header. */
  predicate IsLeaf(e: Entry) {
    e.children == 0
  }

  /** `Attr("href")` yields the empty string when the attribute is missing. */
  function Book(e: Entry): string {
    match e.href
    case Some(h) => h
    case None => ""
  }

  /** The `Event` the watcher builds for a leaf entry. */
  function ToEvent(x: Foreign, e: Entry): Event {
    Event(e.day + " " + x.title(e.month), e.title, Book(e), "", "", "")
  }

  /** The fingerprint of the event built for an entry. */
  function EntrySum(x: Foreign, e: Entry): string {
    GetSum(ToEvent(x, e), x.md5)
  }

  /** Only the listing's date, title text and link enter an entry's fingerprint:
      the fields left empty contribute nothing. */
  lemma EntrySumIsListingDigest(x: Foreign, e: Entry)
    ensures EntrySum(x, e) == Hex(x.md5(e.day + " " + x.title(e.month) + e.title + Book(e)))
  {
    var ev := ToEvent(x, e);
    assert Identity(ev) == e.day + " " + x.title(e.month) + e.title + Book(e);
  }

  /** The fingerprints of all leaf entries of a page. */
  function LeafSums(x: Foreign, doc: seq<Entry>): set<string> {
    set j | 0 <= j < |doc| && IsLeaf(doc[j]) :: EntrySum(x, doc[j])
  }

  // ---------------------------------------------------------------------------
  // findNewInStockEvents as a function of the cache and the page
  // ---------------------------------------------------------------------------

  /** What a scan of a page produces: the indices of the entries that became
      events, those events, and the new cache. */
  datatype Pass = Pass(picked: seq<nat>, events: seq<Event>, cache: set<string>)

  /** The scan of `doc`, entry by entry in document order, starting from `cache`. */
  function Scan(x: Foreign, cache: set<string>, doc: seq<Entry>): (p: Pass)
    ensures |p.events| == |p.picked|
    ensures forall k :: 0 <= k < |p.picked| ==>
              p.picked[k] < |doc| && p.events[k] == ToEvent(x, doc[p.picked[k]])
    decreases |doc|
  {
    if doc == [] then Pass([], [], cache)
    else
      var p := Scan(x, cache, doc[..|doc| - 1]);
      var e := doc[|doc| - 1];
      var sum := EntrySum(x, e);
      if !IsLeaf(e) || sum in p.cache then p
      else Pass(p.picked + [|doc| - 1], p.events + [ToEvent(x, e)], p.cache + {sum})
  }

  /** Entry `j` is a leaf whose fingerprint is neither in `cache` nor the
      fingerprint of an earlier leaf of the same page. */
  predicate IsNewAt(x: Foreign, cache: set<string>, doc: seq<Entry>, j: nat)
    requires j < |doc|
  {
    IsLeaf(doc[j]) && EntrySum(x, doc[j]) !in cache &&
    forall i :: 0 <= i < j && IsLeaf(doc[i]) ==> EntrySum(x, doc[i]) != EntrySum(x, doc[j])
  }

  lemma LeafSumsSnoc(x: Foreign, doc: seq<Entry>)
    requires doc != []
    ensures var last := doc[|doc| - 1];
            LeafSums(x, doc) ==
              LeafSums(x, doc[..|doc| - 1]) + (if IsLeaf(last) then {EntrySum(x, last)} else {})
  {
  }

  /** The scan only adds to the cache, and adds exactly the fingerprints of the
      page's leaf entries. */
  lemma {:induction false} ScanCache(x: Foreign, cache: set<string>, doc: seq<Entry>)
    ensures Scan(x, cache, doc).cache == cache + LeafSums(x, doc)
    decreases |doc|
  {
    if doc != [] {
      ScanCache(x, cache, doc[..|doc| - 1]);
      LeafSumsSnoc(x, doc);
    }
  }

  /** Every index in `picked` is that of a leaf of `doc`. */
  predicate PicksLeaves(doc: seq<Entry>, picked: seq<nat>) {
    forall k :: 0 <= k < |picked| ==> picked[k] < |doc| && IsLeaf(doc[picked[k]])
  }

  predicate Increasing(picked: seq<nat>) {
    forall k, l :: 0 <= k < l < |picked| ==> picked[k] < picked[l]
  }

  /** The scan keeps document order and only ever picks leaf entries. */
  lemma {:induction false} ScanOrder(x: Foreign, cache: set<string>, doc: seq<Entry>)
    ensures PicksLeaves(doc, Scan(x, cache, doc).picked) && Increasing(Scan(x, cache, doc).picked)
    decreases |doc|
  {
    if doc != [] {
      var pre := doc[..|doc| - 1];
      ScanOrder(x, cache, pre);
      var p := Scan(x, cache, pre);
      var q := Scan(x, cache, doc);
      var last := doc[|doc| - 1];
      var added := IsLeaf(last) && EntrySum(x, last) !in p.cache;
      assert q.picked == if added then p.picked + [|doc| - 1] else p.picked;
      forall k | 0 <= k < |q.picked|
        ensures IsLeaf(doc[q.picked[k]])
      {
        if k < |p.picked| {
          assert q.picked[k] == p.picked[k];
          assert IsLeaf(pre[p.picked[k]]);
          assert doc[p.picked[k]] == pre[p.picked[k]];
        } else {
          assert added && q.picked[k] == |doc| - 1;
        }
      }
      forall k, l | 0 <= k < l < |q.picked|
        ensures q.picked[k] < q.picked[l]
      {
        if l < |p.picked| {
          assert q.picked[k] == p.picked[k] && q.picked[l] == p.picked[l];
          assert p.picked[k] < p.picked[l];
        } else {
          assert added && q.picked[l] == |doc| - 1;
          assert q.picked[k] == p.picked[k] < |pre|;
        }
      }
    }
  }

  /** Whether an entry is new does not depend on the entries after it. */
  lemma IsNewAtPrefix(x: Foreign, cache: set<string>, doc: seq<Entry>, j: nat)
    requires j < |doc| - 1
    ensures IsNewAt(x, cache, doc[..|doc| - 1], j) == IsNewAt(x, cache, doc, j)
  {
  }

  /** The last entry is new exactly when it is a leaf whose fingerprint is neither
      cached nor that of a leaf before it. */
  lemma LastIsNew(x: Foreign, cache: set<string>, doc: seq<Entry>)
    requires doc != []
    ensures var last := doc[|doc| - 1];
            IsNewAt(x, cache, doc, |doc| - 1) <==>
              IsLeaf(last) && EntrySum(x, last) !in cache + LeafSums(x, doc[..|doc| - 1])
  {
  }

  /** An entry becomes an event exactly when it is a leaf whose fingerprint was
      not cached and did not occur earlier on the same page. */
  lemma {:induction false} ScanSelects(x: Foreign, cache: set<string>, doc: seq<Entry>)
    ensures forall j :: 0 <= j < |doc| ==>
              (j in Scan(x, cache, doc).picked <==> IsNewAt(x, cache, doc, j))
    decreases |doc|
  {
    if doc != [] {
      var n := |doc|;
      var pre := doc[..n - 1];
      var p := Scan(x, cache, pre);
      ScanSelects(x, cache, pre);
      ScanCache(x, cache, pre);
      forall j | 0 <= j < n
        ensures j in Scan(x, cache, doc).picked <==> IsNewAt(x, cache, doc, j)
      {
        if j < n - 1 {
          IsNewAtPrefix(x, cache, doc, j);
        } else {
          assert n - 1 !in p.picked;
          LastIsNew(x, cache, doc);
        }
      }
    }
  }

  /** The events of one scan were all unseen before it, and no two share a fingerprint. */
  lemma ScanFresh(x: Foreign, cache: set<string>, doc: seq<Entry>)
    ensures var p := Scan(x, cache, doc);
            (forall k :: 0 <= k < |p.picked| ==>
               EntrySum(x, doc[p.picked[k]]) !in cache && EntrySum(x, doc[p.picked[k]]) in p.cache) &&
            (forall k, l :: 0 <= k < l < |p.picked| ==>
               EntrySum(x, doc[p.picked[k]]) != EntrySum(x, doc[p.picked[l]]))
  {
    var p := Scan(x, cache, doc);
    ScanSelects(x, cache, doc);
    ScanOrder(x, cache, doc);
    ScanCache(x, cache, doc);
    forall k | 0 <= k < |p.picked|
      ensures EntrySum(x, doc[p.picked[k]]) !in cache && EntrySum(x, doc[p.picked[k]]) in p.cache
    {
      assert p.picked[k] in p.picked;
    }
    forall k, l | 0 <= k < l < |p.picked|
      ensures EntrySum(x, doc[p.picked[k]]) != EntrySum(x, doc[p.picked[l]])
    {
      assert p.picked[l] in p.picked;
      assert IsNewAt(x, cache, doc, p.picked[l]);
    }
  }

  /** The fingerprints of the emitted events are exactly the keys the scan added. */
  lemma ScanEmitsWhatItInserts(x: Foreign, cache: set<string>, doc: seq<Entry>)
    ensures var p := Scan(x, cache, doc);
            (set k | 0 <= k < |p.picked| :: GetSum(p.events[k], x.md5)) == p.cache - cache
  {
    var p := Scan(x, cache, doc);
    ScanSelects(x, cache, doc);
    ScanCache(x, cache, doc);
    ScanFresh(x, cache, doc);
    var emitted := set k | 0 <= k < |p.picked| :: GetSum(p.events[k], x.md5);
    forall s | s in p.cache - cache
      ensures s in emitted
    {
      var j :| 0 <= j < |doc| && IsLeaf(doc[j]) && EntrySum(x, doc[j]) == s;
      // the first leaf of the page carrying this fingerprint is the one picked
      var first := FirstWithSum(x, doc, s, j);
      assert IsNewAt(x, cache, doc, first);
      var k :| 0 <= k < |p.picked| && p.picked[k] == first;
      assert GetSum(p.events[k], x.md5) == s;
    }
  }

  /** The index of the first leaf of `doc` whose fingerprint is `s`, given one at `j`. */
  ghost function FirstWithSum(x: Foreign, doc: seq<Entry>, s: string, j: nat): (i: nat)
    requires j < |doc| && IsLeaf(doc[j]) && EntrySum(x, doc[j]) == s
    ensures i <= j && IsLeaf(doc[i]) && EntrySum(x, doc[i]) == s
    ensures forall m :: 0 <= m < i && IsLeaf(doc[m]) ==> EntrySum(x, doc[m]) != s
    decreases j
  {
    if exists m :: 0 <= m < j && IsLeaf(doc[m]) && EntrySum(x, doc[m]) == s then
      var m :| 0 <= m < j && IsLeaf(doc[m]) && EntrySum(x, doc[m]) == s;
      FirstWithSum(x, doc, s, m)
    else j
  }

  /** A page whose leaf fingerprints are all cached yields nothing and leaves
      the cache as it was. */
  lemma {:induction false} ScanCachedPage(x: Foreign, cache: set<string>, doc: seq<Entry>)
    requires LeafSums(x, doc) <= cache
    ensures Scan(x, cache, doc) == Pass([], [], cache)
    decreases |doc|
  {
    if doc != [] {
      LeafSumsSnoc(x, doc);
      ScanCachedPage(x, cache, doc[..|doc| - 1]);
    }
  }

  /** Scanning a page again right after scanning it finds nothing new. */
  lemma ScanAgainFindsNothing(x: Foreign, cache: set<string>, doc: seq<Entry>)
    ensures Scan(x, Scan(x, cache, doc).cache, doc).events == []
  {
    ScanCache(x, cache, doc);
    ScanCachedPage(x, Scan(x, cache, doc).cache, doc);
  }

  // ---------------------------------------------------------------------------
  // The polling loop of Watch as a function of the signals it receives
  // ---------------------------------------------------------------------------

  /** What a tick's HTTP request and HTML parse came to. */
  datatype Outcome = FetchError | ParseError | Doc(entries: seq<Entry>)

  /** What the `select` of `Watch` receives: the shutdown signal or a tick. */
  datatype Signal = Shutdown | Tick(outcome: Outcome)

  /** The state of the goroutine of `Watch`: the cache, the `send` flag, the
      events sent on the updates channel so far, and whether it was closed. */
  datatype Loop = Loop(cache: set<string>, send: bool, updates: seq<Event>, closed: bool)

  /** One tick: a failed fetch or parse skips the cycle; a parsed page is scanned,
      its new events are sent only if `send` is already set, and `send` is set. */
  function Cycle(x: Foreign, s: Loop, o: Outcome): Loop {
    match o
    case FetchError => s
    case ParseError => s
    case Doc(doc) =>
      var p := Scan(x, s.cache, doc);
      s.(cache := p.cache, send := true, updates := if s.send then s.updates + p.events else s.updates)
  }

  /** One pass of the `for`/`select` loop; after shutdown the goroutine is gone. */
  function Step(x: Foreign, s: Loop, sig: Signal): Loop {
    if s.closed then s
    else match sig
      case Shutdown => s.(closed := true)
      case Tick(o) => Cycle(x, s, o)
  }

  /** The state after the goroutine has received `signals`, in order. */
  function Run(x: Foreign, s: Loop, signals: seq<Signal>): Loop
    decreases |signals|
  {
    if signals == [] then s
    else Step(x, Run(x, s, signals[..|signals| - 1]), signals[|signals| - 1])
  }

  /** The state `Watch` starts from with a watcher whose cache is `cache`. */
  function Start(cache: set<string>): Loop {
    Loop(cache, false, [], false)
  }

  /** The baseline cycle: the first parsed page fills the cache with all its leaf
      fingerprints, sets `send`, and sends nothing. */
  lemma BaselineSendsNothing(x: Foreign, s: Loop, doc: seq<Entry>)
    requires !s.send && !s.closed
    ensures Step(x, s, Tick(Doc(doc))) == s.(cache := s.cache + LeafSums(x, doc), send := true)
  {
    ScanCache(x, s.cache, doc);
  }

  /** Every later parsed page sends exactly the events its scan found new. */
  lemma LaterCyclesSendNew(x: Foreign, s: Loop, doc: seq<Entry>)
    requires s.send && !s.closed
    ensures Step(x, s, Tick(Doc(doc))) ==
            s.(cache := s.cache + LeafSums(x, doc), updates := s.updates + Scan(x, s.cache, doc).events)
  {
    ScanCache(x, s.cache, doc);
  }

  lemma {:induction false} RunAppend(x: Foreign, s: Loop, a: seq<Signal>, b: seq<Signal>)
    ensures Run(x, s, a + b) == Run(x, Run(x, s, a), b)
    decreases |b|
  {
    if b == [] {
      assert a + b == a;
    } else {
      assert (a + b)[..|a + b| - 1] == a + b[..|b| - 1];
      RunAppend(x, s, a, b[..|b| - 1]);
    }
  }

  /** Along a run the cache and the sent events only grow, `send` never goes back
      to false, and nothing changes any more once the channel is closed. */
  lemma {:induction false} RunMonotone(x: Foreign, s: Loop, signals: seq<Signal>)
    ensures var t := Run(x, s, signals);
            s.cache <= t.cache && s.updates <= t.updates &&
            (s.send ==> t.send) && (s.closed ==> t == s)
    decreases |signals|
  {
    if signals != [] {
      var pre := signals[..|signals| - 1];
      RunMonotone(x, s, pre);
      var r := Run(x, s, pre);
      if !r.closed && signals[|signals| - 1].Tick? && signals[|signals| - 1].outcome.Doc? {
        ScanCache(x, r.cache, signals[|signals| - 1].outcome.entries);
      }
    }
  }

  /** Shutdown takes effect at once: nothing received after it changes the state. */
  lemma ShutdownIsFinal(x: Foreign, s: Loop, before: seq<Signal>, after: seq<Signal>)
    requires !Run(x, s, before).closed
    ensures Run(x, s, before + [Shutdown] + after) == Run(x, s, before).(closed := true)
  {
    RunAppend(x, s, before + [Shutdown], after);
    RunAppend(x, s, before, [Shutdown]);
    assert Run(x, Run(x, s, before), [Shutdown]) == Run(x, s, before).(closed := true);
    RunMonotone(x, Run(x, s, before + [Shutdown]), after);
  }

  predicate IsFailure(sig: Signal) {
    sig.Tick? && !sig.outcome.Doc?
  }

  /** The signals with every failed fetch or parse removed. */
  function WithoutFailures(signals: seq<Signal>): (r: seq<Signal>)
    ensures |r| <= |signals|
    decreases |signals|
  {
    if signals == [] then []
    else if IsFailure(signals[|signals| - 1]) then WithoutFailures(signals[..|signals| - 1])
    else WithoutFailures(signals[..|signals| - 1]) + [signals[|signals| - 1]]
  }

  /** Failed cycles leave no trace: a run gives the same state with them removed. */
  lemma {:induction false} FailuresChangeNothing(x: Foreign, s: Loop, signals: seq<Signal>)
    ensures Run(x, s, signals) == Run(x, s, WithoutFailures(signals))
    decreases |signals|
  {
    if signals != [] {
      var pre := signals[..|signals| - 1];
      var last := signals[|signals| - 1];
      FailuresChangeNothing(x, s, pre);
      if !IsFailure(last) {
        var w := WithoutFailures(pre) + [last];
        assert w[..|w| - 1] == WithoutFailures(pre);
      }
    }
  }

  /** The steady-state example: a first page with A and B, then a page with A, B
      and a new C, sends C alone. */
  lemma OnlyTheNewEventIsSent(x: Foreign, a: Entry, b: Entry, c: Entry)
    requires IsLeaf(a) && IsLeaf(b) && IsLeaf(c)
    requires EntrySum(x, c) != EntrySum(x, a) && EntrySum(x, c) != EntrySum(x, b)
    ensures Run(x, Start({}), [Tick(Doc([a, b])), Tick(Doc([a, b, c]))]).updates == [ToEvent(x, c)]
  {
    var signals := [Tick(Doc([a, b])), Tick(Doc([a, b, c]))];
    var doc := [a, b, c];
    assert doc[..2] == [a, b] && [a, b][..1] == [a] && [a][..0] == [];
    assert signals[..1] == [Tick(Doc([a, b]))] && signals[..1][..0] == [];
    // the baseline cycle caches both fingerprints and sends nothing
    var first := Run(x, Start({}), signals[..1]);
    assert Run(x, Start({}), signals[..1][..0]) == Start({});
    assert first == Step(x, Start({}), Tick(Doc([a, b])));
    assert first == Cycle(x, Start({}), Doc([a, b]));
    assert Scan(x, {}, [a]).cache == {EntrySum(x, a)};
    assert first.cache == {EntrySum(x, a), EntrySum(x, b)} && first.send && first.updates == [];
    // the second cycle finds A and B cached and C new
    assert Scan(x, first.cache, [a]).events == [];
    assert Scan(x, first.cache, [a, b]).events == [];
    assert Scan(x, first.cache, doc).events == [ToEvent(x, c)];
    assert Run(x, Start({}), signals) == Step(x, first, signals[1]);
  }

  /** An HTTP error page or any other page without listing entries still counts as
      a parsed page: taken as the baseline, it leaves the cache as it was and
      sets `send`, so the next real page sends every event it finds new. */
  lemma EmptyPageBecomesBaseline(x: Foreign, cache: set<string>, page: seq<Entry>)
    ensures Run(x, Start(cache), [Tick(Doc([])), Tick(Doc(page))]).updates == Scan(x, cache, page).events
  {
    var signals := [Tick(Doc([])), Tick(Doc(page))];
    assert signals[..1] == [Tick(Doc([]))] && signals[..1][..0] == [];
    var first := Run(x, Start(cache), signals[..1]);
    assert Run(x, Start(cache), signals[..1][..0]) == Start(cache);
    assert first == Cycle(x, Start(cache), Doc([]));
    assert first == Loop(cache, true, [], false);
    assert Run(x, Start(cache), signals) == Step(x, first, signals[1]);
  }

  // ---------------------------------------------------------------------------
  // The watcher object
  // ---------------------------------------------------------------------------

  /** `Watcher`: the set of fingerprints already seen (`cache`).  The HTTP client,
      logger and check interval are not part of this model. */
  class Watcher {
    const foreign: Foreign
    var cache: set<string>

    /** `NewWatcher`: a watcher that has seen nothing yet. */
    constructor (foreign: Foreign)
      ensures this.foreign == foreign && cache == {}
    {
      this.foreign := foreign;
      cache := {};
    }

    /** `findNewInStockEvents`: walks the entries in document order, skips those
        with child elements, fingerprints the event built for each leaf, and keeps it
        only if its fingerprint was not cached, caching it. */
    method FindNewInStockEvents(doc: seq<Entry>) returns (events: seq<Event>)
      modifies this
      ensures var p := Scan(foreign, old(cache), doc); events == p.events && cache == p.cache
    {
      events := [];
      var i := 0;
      while i < |doc|
        invariant 0 <= i <= |doc|
        invariant var p := Scan(foreign, old(cache), doc[..i]); events == p.events && cache == p.cache
      {
        assert doc[..i + 1][..i] == doc[..i] && doc[..i + 1][i] == doc[i];
        var s := doc[i];
        if s.children == 0 {
          var newEvent := Event(s.day + " " + foreign.title(s.month), s.title, Book(s), "", "", "");
          var hashSum := GetSum(newEvent, foreign.md5);
          assert newEvent == ToEvent(foreign, s) && hashSum == EntrySum(foreign, s);
          if hashSum !in cache {
            cache := cache + {hashSum};
            events := events + [newEvent];
          }
        }
        i := i + 1;
      }
      assert doc[..|doc|] == doc;
    }

    /** `Watch`, run on the signals its `select` receives: stops at shutdown
        (closing the updates channel), skips failed cycles, and from the second
        parsed page on sends every new event. */
    method Watch(signals: seq<Signal>) returns (updates: seq<Event>, closed: bool)
      modifies this
      ensures var r := Run(foreign, Start(old(cache)), signals);
              cache == r.cache && updates == r.updates && closed == r.closed
    {
      var send := false;
      updates, closed := [], false;
      var i := 0;
      while i < |signals|
        invariant 0 <= i <= |signals|
        invariant Run(foreign, Start(old(cache)), signals[..i]) == Loop(cache, send, updates, false)
      {
        assert signals[..i + 1][..i] == signals[..i];
        match signals[i]
        case Shutdown =>
          closed := true;
          ShutdownIsFinal(foreign, Start(old(cache)), signals[..i], signals[i + 1..]);
          assert signals == signals[..i] + [Shutdown] + signals[i + 1..];
          return;
        case Tick(outcome) =>
          match outcome {
            case FetchError =>
            case ParseError =>
            case Doc(doc) =>
              var found := FindNewInStockEvents(doc);
              if send {
                updates := updates + found;
              }
              send := true;
          }
        i := i + 1;
      }
      assert signals[..|signals|] == signals;
    }
  }
}
