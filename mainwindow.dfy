/** The launcher window's dispatcher: it keeps the query, asks every registered and enabled
    provider for results in registration order, remembers which provider each result came from,
    and routes an activated result back to that provider. The providers are reached only through
    their search and execute operations, which are parameters here. */
module MainWindow {
  import opened Text
  import opened Feature
  import opened Options

  datatype FeatureId =
    | WebSearchFeature | AppLauncherFeature | CalculatorFeature | SystemCommandsFeature
    | ClipboardFeature | TimeConversionFeature

  /** setupFeatures: Search, AppLauncher, Calculator, SystemCommands; the clipboard and time
      providers are not registered. */
  const Registered: seq<FeatureId> :=
    [WebSearchFeature, AppLauncherFeature, CalculatorFeature, SystemCommandsFeature]

  /** The single-shot search timer's interval in milliseconds. */
  const SearchDelayMs: nat := 50

  /** ResultWithFeature. */
  datatype Tagged = Tagged(item: FeatureItem, feature: FeatureId)

  /** What a provider's search returns for a query at the moment it is asked. */
  type Searcher = (FeatureId, string) -> seq<FeatureItem>

  /** One provider's results, each tagged with it. */
  function Tag(items: seq<FeatureItem>, f: FeatureId): (r: seq<Tagged>)
    ensures |r| == |items|
    ensures forall i :: 0 <= i < |items| ==> r[i] == Tagged(items[i], f)
  {
    seq(|items|, i requires 0 <= i < |items| => Tagged(items[i], f))
  }

  /** What one provider adds to the list. */
  function Block(f: FeatureId, query: string, enabled: FeatureId -> bool, search: Searcher): seq<Tagged> {
    if enabled(f) then Tag(search(f, query), f) else []
  }

  /** m_currentResults after updateResults: the blocks of the providers in order. */
  function Merged(fs: seq<FeatureId>, query: string, enabled: FeatureId -> bool, search: Searcher): seq<Tagged> {
    if fs == [] then []
    else Merged(fs[..|fs| - 1], query, enabled, search) + Block(fs[|fs| - 1], query, enabled, search)
  }

  /** The list handed to the view: the items alone, in the same order. */
  function Items(rs: seq<Tagged>): (r: seq<FeatureItem>)
    ensures |r| == |rs|
  {
    seq(|rs|, i requires 0 <= i < |rs| => rs[i].item)
  }

  /** The items of the results that came from provider `f`, in list order. */
  function ItemsOf(rs: seq<Tagged>, f: FeatureId): seq<FeatureItem> {
    if rs == [] then []
    else ItemsOf(rs[..|rs| - 1], f) + (if rs[|rs| - 1].feature == f then [rs[|rs| - 1].item] else [])
  }

  lemma {:induction false} ItemsOfAppend(a: seq<Tagged>, b: seq<Tagged>, f: FeatureId)
    ensures ItemsOf(a + b, f) == ItemsOf(a, f) + ItemsOf(b, f)
    decreases |b|
  {
    if b != [] {
      var b' := b[..|b| - 1];
      assert (a + b)[..|a + b| - 1] == a + b';
      assert (a + b)[|a + b| - 1] == b[|b| - 1];
      ItemsOfAppend(a, b', f);
    } else {
      assert a + b == a;
    }
  }

  lemma {:induction false} ItemsOfTag(items: seq<FeatureItem>, g: FeatureId, f: FeatureId)
    ensures ItemsOf(Tag(items, g), f) == if g == f then items else []
    decreases |items|
  {
    if items != [] {
      var init := items[..|items| - 1];
      assert Tag(items, g)[..|items| - 1] == Tag(init, g);
      ItemsOfTag(init, g, f);
      if g == f {
        assert init + [items[|items| - 1]] == items;
      }
    }
  }

  /** Every result comes from an enabled provider of the list and is one of its results. */
  lemma {:induction false} MergedOrigin(fs: seq<FeatureId>, query: string, enabled: FeatureId -> bool, search: Searcher)
    ensures forall r :: r in Merged(fs, query, enabled, search) ==>
      r.feature in fs && enabled(r.feature) && r.item in search(r.feature, query)
  {
    if fs != [] {
      var init := fs[..|fs| - 1];
      var last := fs[|fs| - 1];
      MergedOrigin(init, query, enabled, search);
      var block := Block(last, query, enabled, search);
      forall r | r in block ensures r.feature == last && enabled(last) && r.item in search(last, query) {
        var i :| 0 <= i < |block| && block[i] == r;
      }
      assert forall g :: g in init ==> g in fs;
    }
  }

  /** No provider is registered twice. */
  predicate Distinct(fs: seq<FeatureId>) {
    forall i, j :: 0 <= i < j < |fs| ==> fs[i] != fs[j]
  }

  lemma DistinctInit(fs: seq<FeatureId>)
    requires fs != [] && Distinct(fs)
    ensures Distinct(fs[..|fs| - 1]) && fs[|fs| - 1] !in fs[..|fs| - 1]
    ensures forall g :: g in fs <==> g in fs[..|fs| - 1] || g == fs[|fs| - 1]
  {
    assert fs == fs[..|fs| - 1] + [fs[|fs| - 1]];
  }

  lemma BlockItemsOf(g: FeatureId, query: string, enabled: FeatureId -> bool, search: Searcher, f: FeatureId)
    ensures ItemsOf(Block(g, query, enabled, search), f) == if g == f && enabled(g) then search(g, query) else []
  {
    if enabled(g) {
      ItemsOfTag(search(g, query), g, f);
    }
  }

  /** Each provider's results appear in its own order, and a provider that is disabled or not in
      the list contributes nothing. */
  lemma {:induction false} MergedPerFeature(fs: seq<FeatureId>, query: string, enabled: FeatureId -> bool, search: Searcher, f: FeatureId)
    requires Distinct(fs)
    ensures ItemsOf(Merged(fs, query, enabled, search), f) ==
      if f in fs && enabled(f) then search(f, query) else []
  {
    if fs != [] {
      var init := fs[..|fs| - 1];
      var last := fs[|fs| - 1];
      DistinctInit(fs);
      MergedPerFeature(init, query, enabled, search, f);
      var m := Merged(init, query, enabled, search);
      var b := Block(last, query, enabled, search);
      assert Merged(fs, query, enabled, search) == m + b;
      ItemsOfAppend(m, b, f);
      BlockItemsOf(last, query, enabled, search, f);
    }
  }

  lemma RegisteredDistinct()
    ensures Distinct(Registered)
    ensures ClipboardFeature !in Registered && TimeConversionFeature !in Registered
  {
  }

  /** The inner loop of updateResults: one provider's items, tagged with it, appended in order. */
  method AppendTagged(results: seq<Tagged>, found: seq<FeatureItem>, f: FeatureId) returns (r: seq<Tagged>)
    ensures r == results + Tag(found, f)
  {
    r := results;
    var j := 0;
    while j < |found|
      invariant 0 <= j <= |found|
      invariant r == results + Tag(found[..j], f)
    {
      assert Tag(found[..j + 1], f) == Tag(found[..j], f) + [Tagged(found[j], f)];
      r := r + [Tagged(found[j], f)];
      j := j + 1;
    }
    assert found[..j] == found;
  }

  /** The loop of updateResults that builds the list handed to the view. */
  method ListItems(results: seq<Tagged>) returns (shown: seq<FeatureItem>)
    ensures shown == Items(results)
  {
    shown := [];
    var j := 0;
    while j < |results|
      invariant 0 <= j <= |results|
      invariant shown == Items(results[..j])
    {
      assert Items(results[..j + 1]) == Items(results[..j]) + [results[j].item];
      shown := shown + [results[j].item];
      j := j + 1;
    }
    assert results[..j] == results;
  }

  lemma MergedSnoc(fs: seq<FeatureId>, k: nat, query: string, enabled: FeatureId -> bool, search: Searcher)
    requires k < |fs|
    ensures Merged(fs[..k + 1], query, enabled, search)
      == Merged(fs[..k], query, enabled, search) + Block(fs[k], query, enabled, search)
  {
    assert fs[..k + 1][..k] == fs[..k];
  }

  /** MainWindow. `visible` is whether the window is shown; the timer is the 50 ms single-shot
      search timer. */
  class Window {
    const features: seq<FeatureId>
    /** FeatureBase::isEnabled of each provider. */
    const enabled: FeatureId -> bool
    var currentQuery: string
    var currentResults: seq<Tagged>
    var shownItems: seq<FeatureItem>
    var timerActive: bool
    var visible: bool

    /** The search edit's text is currentQuery (WindowUI::onTextChanged forwards every change of
        it), and the pending timer always belongs to a query that is not blank. */
    predicate Valid()
      reads this
    {
      timerActive ==> Trim(currentQuery) != []
    }

    /** The constructor: providers registered, then the results for the empty query. The
        providers keep the default isEnabled, which is true. */
    constructor (search: Searcher)
      ensures features == Registered && forall f :: enabled(f)
      ensures currentQuery == [] && !timerActive && !visible && Valid()
      ensures currentResults == Merged(Registered, [], enabled, search)
      ensures shownItems == Items(currentResults)
    {
      features := Registered;
      enabled := (f: FeatureId) => true;
      currentQuery := [];
      currentResults := [];
      shownItems := [];
      timerActive := false;
      visible := false;
      new;
      UpdateResults(search);
    }

    /** MainWindow::updateResults. */
    method UpdateResults(search: Searcher)
      modifies this
      ensures currentResults == Merged(features, currentQuery, enabled, search)
      ensures shownItems == Items(currentResults)
      ensures currentQuery == old(currentQuery) && timerActive == old(timerActive) && visible == old(visible)
    {
      var results: seq<Tagged> := [];
      var k := 0;
      while k < |features|
        invariant 0 <= k <= |features|
        invariant results == Merged(features[..k], currentQuery, enabled, search)
        invariant unchanged(this)
      {
        var f := features[k];
        MergedSnoc(features, k, currentQuery, enabled, search);
        if enabled(f) {
          var found := search(f, currentQuery);
          results := AppendTagged(results, found, f);
        }
        k := k + 1;
      }
      assert features[..k] == features;
      currentResults := results;
      shownItems := ListItems(results);
    }

    /** MainWindow::onQueryChanged: the timer is stopped; a blank query is answered at once,
        any other restarts the timer and leaves the results as they are. */
    method OnQueryChanged(query: string, search: Searcher)
      modifies this
      ensures currentQuery == query && visible == old(visible)
      ensures Trim(query) == [] ==>
        !timerActive && currentResults == Merged(features, query, enabled, search) && shownItems == Items(currentResults)
      ensures Trim(query) != [] ==>
        timerActive && currentResults == old(currentResults) && shownItems == old(shownItems)
      ensures Valid()
    {
      currentQuery := query;
      if timerActive {
        timerActive := false;
      }
      if Trim(query) == [] {
        PerformSearch(search);
        return;
      }
      timerActive := true;
    }

    /** The timer's timeout: it is single-shot, so it is no longer active, and the search runs. */
    method OnTimerFired(search: Searcher)
      requires timerActive
      modifies this
      ensures !timerActive && currentQuery == old(currentQuery) && visible == old(visible) && Valid()
      ensures currentResults == Merged(features, currentQuery, enabled, search)
      ensures shownItems == Items(currentResults)
    {
      timerActive := false;
      PerformSearch(search);
    }

    /** MainWindow::performSearch, also run when the web search provider reports new results. */
    method PerformSearch(search: Searcher)
      modifies this
      ensures currentResults == Merged(features, currentQuery, enabled, search)
      ensures shownItems == Items(currentResults)
      ensures currentQuery == old(currentQuery) && timerActive == old(timerActive) && visible == old(visible)
    {
      UpdateResults(search);
    }

    /** MainWindow::hideEvent: clearing a non-empty search edit emits textChanged(""), so
        onQueryChanged("") stops the timer and answers the empty query; then the query is cleared
        and the results are recomputed for it. */
    method HideEvent(search: Searcher)
      requires Valid()
      modifies this
      ensures !visible && currentQuery == [] && !timerActive && Valid()
      ensures currentResults == Merged(features, [], enabled, search)
      ensures shownItems == Items(currentResults)
    {
      if currentQuery != [] {
        OnQueryChanged([], search);
      }
      visible := false;
      currentQuery := [];
      UpdateResults(search);
    }

    /** QWidget::hide: a hide event is delivered only to a window that is shown. */
    method Hide(search: Searcher)
      requires Valid()
      modifies this
      ensures old(visible) ==>
        !visible && currentQuery == [] && !timerActive && currentResults == Merged(features, [], enabled, search)
        && shownItems == Items(currentResults)
      ensures !old(visible) ==>
        !visible && currentQuery == old(currentQuery) && currentResults == old(currentResults)
        && shownItems == old(shownItems) && timerActive == old(timerActive)
      ensures Valid()
    {
      if visible {
        HideEvent(search);
      }
    }

    /** MainWindow::onItemActivated: a row inside the list has its own provider execute its item
        (the returned request) and hides the window; any other index does nothing. */
    method OnItemActivated(index: int, search: Searcher) returns (request: Option<Tagged>)
      requires Valid()
      modifies this
      ensures 0 <= index < |old(currentResults)| ==>
        request == Some(old(currentResults)[index]) && !visible
        && (old(visible) ==> currentQuery == [] && !timerActive && currentResults == Merged(features, [], enabled, search))
      ensures !(0 <= index < |old(currentResults)|) ==>
        request == None && currentQuery == old(currentQuery) && currentResults == old(currentResults)
        && shownItems == old(shownItems) && visible == old(visible) && timerActive == old(timerActive)
      ensures Valid()
    {
      request := None;
      if 0 <= index < |currentResults| {
        request := Some(currentResults[index]);
        Hide(search);
      }
    }
  }

  /** The row the user activates is the item the view shows at that position, and it goes to the
      provider that produced it. */
  lemma ShownRowIsRequested(rs: seq<Tagged>, index: nat, query: string, fs: seq<FeatureId>, enabled: FeatureId -> bool, search: Searcher)
    requires rs == Merged(fs, query, enabled, search) && index < |rs|
    ensures Items(rs)[index] == rs[index].item
    ensures rs[index].item in search(rs[index].feature, query) && enabled(rs[index].feature)
  {
    MergedOrigin(fs, query, enabled, search);
    assert rs[index] in rs;
  }
}
