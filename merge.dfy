/**
 * The one-shot merge of all sessions' completion responses
 * (`QueryCompletionsTask._resolve_completions_async`) as a pure function of
 * the responses, the sessions still alive, the user preferences and the view
 * settings. The imperative loop in `CompletionTask` is proved equal to it.
 */
module ResponseMerge {
  import opened Wrappers
  import opened Protocol
  import opened Sorting

  /** The identity of a session object; a weak reference holds one of these. */
  type SessionId = nat

  /** What the core asks of a live session: its configuration name and whether it resolves items. */
  datatype Session = Session(name: string, canResolve: bool)

  /** A settled request: the response and the weak reference to its session. */
  datatype ResolvedCompletion = ResolvedCompletion(response: CompletionResponse, session: SessionId)

  /** The `inhibit_snippet_completions` and `inhibit_word_completions` preferences. */
  datatype Prefs = Prefs(inhibitSnippetCompletions: bool, inhibitWordCompletions: bool)

  /** The view settings `auto_complete_include_snippets` and `auto_complete_include_snippets_when_typing`. */
  datatype ViewSettings = ViewSettings(includeSnippets: bool, includeSnippetsWhenTyping: bool)

  /** The list-level flags handed to the editor with the items. */
  datatype Flag = InhibitExplicitCompletions | InhibitWordCompletions | DynamicCompletions | InhibitReorder

  /**
   * A delivered row: what `format_completion` is given, namely the entry, its
   * index in its session's sorted list, the session's resolve capability, the
   * session's name and the view.
   */
  datatype Row = Row(item: CompletionItem, index: nat, canResolve: bool, sessionName: string, viewId: int)

  /** What stays fixed during one merge. */
  datatype Context = Context(live: map<SessionId, Session>, includeSnippets: bool, viewId: int)

  /** The merge's running state, and its outcome: items, errors, flags and the new resolve cache. */
  datatype Merged = Merged(
    items: seq<Row>,
    errors: seq<ResponseError>,
    flags: set<Flag>,
    cache: map<string, seq<CompletionItem>>)

  /** Whether snippet entries are offered for this trigger. */
  function IncludeSnippets(settings: ViewSettings, triggeredManually: bool): bool
  {
    settings.includeSnippets && (triggeredManually || settings.includeSnippetsWhenTyping)
  }

  /** An entry passes the snippet filter. */
  predicate Keep(item: CompletionItem, includeSnippets: bool)
  {
    includeSnippets || item.kind != Some(SnippetKind)
  }

  /** The flags set from the preferences before any response is looked at. */
  function PrefFlags(prefs: Prefs): (f: set<Flag>)
    ensures InhibitExplicitCompletions in f <==> prefs.inhibitSnippetCompletions
    ensures InhibitWordCompletions in f <==> prefs.inhibitWordCompletions
    ensures DynamicCompletions !in f && InhibitReorder !in f
  {
    (if prefs.inhibitSnippetCompletions then {InhibitExplicitCompletions} else {})
    + (if prefs.inhibitWordCompletions then {InhibitWordCompletions} else {})
  }

  /** A response takes part in the merge: it is not an error and its session is alive. */
  predicate Contributes(rc: ResolvedCompletion, live: map<SessionId, Session>)
  {
    !rc.response.ErrorResponse? && rc.session in live
  }

  /** The entries of a non-error response; `null` and `items: null` give none. */
  function ResponseItems(response: CompletionResponse): seq<CompletionItem>
    requires !response.ErrorResponse?
  {
    match response
    case ObjectResponse(items, _) => items.GetOr([])
    case ListResponse(entries) => entries
    case NullResponse => []
  }

  predicate IsIncomplete(response: CompletionResponse)
  {
    response.ObjectResponse? && response.isIncomplete
  }

  /**
   * The rows for entries `s` of one session whose indices start at `start`:
   * one row per entry passing the filter, in the order of `s`.
   */
  function EnumerateRows(s: seq<CompletionItem>, start: nat, session: Session, includeSnippets: bool, viewId: int): seq<Row>
  {
    if s == [] then []
    else
      (if Keep(s[0], includeSnippets) then [Row(s[0], start, session.canResolve, session.name, viewId)] else [])
      + EnumerateRows(s[1..], start + 1, session, includeSnippets, viewId)
  }

  /** The rows one session contributes, indexed from 0 in its sorted list. */
  function SessionRows(sorted: seq<CompletionItem>, session: Session, includeSnippets: bool, viewId: int): seq<Row>
  {
    EnumerateRows(sorted, 0, session, includeSnippets, viewId)
  }

  /** The rows a settled request adds: none for an error or a dead session. */
  function RowsOf(rc: ResolvedCompletion, ctx: Context): seq<Row>
  {
    if Contributes(rc, ctx.live)
    then SessionRows(SortEntries(ResponseItems(rc.response)), ctx.live[rc.session], ctx.includeSnippets, ctx.viewId)
    else []
  }

  /**
   * One iteration of the merge loop: an error is collected and nothing else
   * happens; a dead session's response is skipped; otherwise the sorted
   * entries are cached under the session's name, their rows appended, and
   * `DynamicCompletions` added for an incomplete list.
   */
  function Step(acc: Merged, rc: ResolvedCompletion, ctx: Context): Merged
  {
    if rc.response.ErrorResponse? then acc.(errors := acc.errors + [rc.response.error])
    else if rc.session !in ctx.live then acc
    else
      var session := ctx.live[rc.session];
      var sorted := SortEntries(ResponseItems(rc.response));
      Merged(
        acc.items + RowsOf(rc, ctx),
        acc.errors,
        acc.flags + (if IsIncomplete(rc.response) then {DynamicCompletions} else {}),
        acc.cache[session.name := sorted])
  }

  /** The merge loop over `rs`, starting from `init`. */
  function Fold(rs: seq<ResolvedCompletion>, ctx: Context, init: Merged): Merged
    decreases |rs|
  {
    if rs == [] then init
    else Step(Fold(rs[..|rs| - 1], ctx, init), rs[|rs| - 1], ctx)
  }

  /** The loop's starting state: no items, no errors, the preference flags, an emptied cache. */
  function Start(prefs: Prefs): Merged
  {
    Merged([], [], PrefFlags(prefs), map[])
  }

  /** The whole merge: the loop, then `InhibitReorder` when some item survived. */
  function Merge(rs: seq<ResolvedCompletion>, live: map<SessionId, Session>, prefs: Prefs,
                 settings: ViewSettings, triggeredManually: bool, viewId: int): Merged
  {
    var ctx := Context(live, IncludeSnippets(settings, triggeredManually), viewId);
    var m := Fold(rs, ctx, Start(prefs));
    m.(flags := m.flags + (if m.items != [] then {InhibitReorder} else {}))
  }

  // ---------------------------------------------------------------------
  // Rows of one session

  /**
   * Every row of a session is one entry of its sorted list that passes the
   * snippet filter, carrying that entry's position, and every such entry
   * gives a row.
   */
  lemma {:induction false} EnumerateRowsMembers(s: seq<CompletionItem>, start: nat, session: Session,
                                               includeSnippets: bool, viewId: int, row: Row)
    ensures row in EnumerateRows(s, start, session, includeSnippets, viewId) <==>
            exists k :: 0 <= k < |s| && Keep(s[k], includeSnippets) &&
                        row == Row(s[k], start + k, session.canResolve, session.name, viewId)
  {
    if s != [] {
      EnumerateRowsMembers(s[1..], start + 1, session, includeSnippets, viewId, row);
      if row in EnumerateRows(s[1..], start + 1, session, includeSnippets, viewId) {
        var k :| 0 <= k < |s[1..]| && Keep(s[1..][k], includeSnippets) &&
                 row == Row(s[1..][k], start + 1 + k, session.canResolve, session.name, viewId);
        assert s[k + 1] == s[1..][k];
      }
      if exists k :: 0 <= k < |s| && Keep(s[k], includeSnippets) &&
                     row == Row(s[k], start + k, session.canResolve, session.name, viewId) {
        var k :| 0 <= k < |s| && Keep(s[k], includeSnippets) &&
                 row == Row(s[k], start + k, session.canResolve, session.name, viewId);
        if k > 0 { assert s[1..][k - 1] == s[k]; }
      }
    }
  }

  /** Rows keep the sorted order: their indices rise strictly and stay within the list. */
  lemma {:induction false} EnumerateRowsOrdered(s: seq<CompletionItem>, start: nat, session: Session,
                                               includeSnippets: bool, viewId: int)
    ensures var rows := EnumerateRows(s, start, session, includeSnippets, viewId);
            && |rows| <= |s|
            && (forall r :: r in rows ==> start <= r.index < start + |s|)
            && (forall i, j :: 0 <= i < j < |rows| ==> rows[i].index < rows[j].index)
  {
    if s != [] {
      EnumerateRowsOrdered(s[1..], start + 1, session, includeSnippets, viewId);
      var rest := EnumerateRows(s[1..], start + 1, session, includeSnippets, viewId);
      var rows := EnumerateRows(s, start, session, includeSnippets, viewId);
      if Keep(s[0], includeSnippets) {
        assert rows == [Row(s[0], start, session.canResolve, session.name, viewId)] + rest;
        forall i, j | 0 <= i < j < |rows| ensures rows[i].index < rows[j].index {
          if i > 0 { assert rows[i] == rest[i - 1]; }
          assert rows[j] == rest[j - 1];
          assert rest[j - 1] in rest;
        }
      } else {
        assert rows == rest;
      }
    }
  }

  // ---------------------------------------------------------------------
  // Items

  /** The rows of all responses, in response order. */
  function AllRows(rs: seq<ResolvedCompletion>, ctx: Context): seq<Row>
    decreases |rs|
  {
    if rs == [] then [] else AllRows(rs[..|rs| - 1], ctx) + RowsOf(rs[|rs| - 1], ctx)
  }

  lemma StepItems(acc: Merged, rc: ResolvedCompletion, ctx: Context)
    ensures Step(acc, rc, ctx).items == acc.items + RowsOf(rc, ctx)
  {
  }

  /** The loop's items are the starting items followed by every response's rows. */
  lemma {:induction false} FoldItems(rs: seq<ResolvedCompletion>, ctx: Context, init: Merged)
    ensures Fold(rs, ctx, init).items == init.items + AllRows(rs, ctx)
    decreases |rs|
  {
    if rs != [] {
      FoldItems(rs[..|rs| - 1], ctx, init);
      StepItems(Fold(rs[..|rs| - 1], ctx, init), rs[|rs| - 1], ctx);
    }
  }

  lemma {:induction false} AllRowsAppend(a: seq<ResolvedCompletion>, b: seq<ResolvedCompletion>, ctx: Context)
    ensures AllRows(a + b, ctx) == AllRows(a, ctx) + AllRows(b, ctx)
    decreases |b|
  {
    if b == [] {
      assert a + b == a;
    } else {
      var b' := b[..|b| - 1];
      assert (a + b)[..|a + b| - 1] == a + b';
      assert (a + b)[|a + b| - 1] == b[|b| - 1];
      AllRowsAppend(a, b', ctx);
    }
  }

  /**
   * Delivered items keep session order: the items of a merge over `a + b`
   * are those of `a` followed by those of `b`.
   */
  lemma MergeItemsAppend(a: seq<ResolvedCompletion>, b: seq<ResolvedCompletion>, live: map<SessionId, Session>,
                         prefs: Prefs, settings: ViewSettings, triggeredManually: bool, viewId: int)
    ensures Merge(a + b, live, prefs, settings, triggeredManually, viewId).items ==
            Merge(a, live, prefs, settings, triggeredManually, viewId).items +
            Merge(b, live, prefs, settings, triggeredManually, viewId).items
  {
    var ctx := Context(live, IncludeSnippets(settings, triggeredManually), viewId);
    FoldItems(a + b, ctx, Start(prefs));
    FoldItems(a, ctx, Start(prefs));
    FoldItems(b, ctx, Start(prefs));
    AllRowsAppend(a, b, ctx);
  }

  /**
   * One response on its own: an error or a dead session yields no items;
   * otherwise the session's rows over its stably sorted entries.
   */
  lemma MergeItemsSingle(rc: ResolvedCompletion, live: map<SessionId, Session>,
                         prefs: Prefs, settings: ViewSettings, triggeredManually: bool, viewId: int)
    ensures var items := Merge([rc], live, prefs, settings, triggeredManually, viewId).items;
            if Contributes(rc, live)
            then items == SessionRows(SortEntries(ResponseItems(rc.response)), live[rc.session],
                                      IncludeSnippets(settings, triggeredManually), viewId)
            else items == []
  {
    var ctx := Context(live, IncludeSnippets(settings, triggeredManually), viewId);
    assert [rc][..0] == [];
    assert Fold([rc], ctx, Start(prefs)) == Step(Start(prefs), rc, ctx);
  }

  /** `row` is built from entry `k` of the sorted list of the live, non-error response `rc`. */
  ghost predicate RowAt(rc: ResolvedCompletion, k: int, row: Row, ctx: Context)
  {
    Contributes(rc, ctx.live) &&
    var sorted := SortEntries(ResponseItems(rc.response));
    var session := ctx.live[rc.session];
    0 <= k < |sorted| && Keep(sorted[k], ctx.includeSnippets) &&
    row == Row(sorted[k], k, session.canResolve, session.name, ctx.viewId)
  }

  /** `row` comes from entry `k` of the sorted list of the `i`-th response. */
  ghost predicate RowFrom(rs: seq<ResolvedCompletion>, i: int, k: int, row: Row, ctx: Context)
  {
    0 <= i < |rs| && RowAt(rs[i], k, row, ctx)
  }

  lemma RowsOfMembers(rc: ResolvedCompletion, ctx: Context, row: Row)
    ensures row in RowsOf(rc, ctx) <==> exists k :: RowAt(rc, k, row, ctx)
  {
    if Contributes(rc, ctx.live) {
      var sorted := SortEntries(ResponseItems(rc.response));
      var session := ctx.live[rc.session];
      EnumerateRowsMembers(sorted, 0, session, ctx.includeSnippets, ctx.viewId, row);
      if row in RowsOf(rc, ctx) {
        var k :| 0 <= k < |sorted| && Keep(sorted[k], ctx.includeSnippets) &&
                 row == Row(sorted[k], 0 + k, session.canResolve, session.name, ctx.viewId);
        assert RowAt(rc, k, row, ctx);
      }
    }
  }

  lemma {:induction false} AllRowsSound(rs: seq<ResolvedCompletion>, ctx: Context, row: Row)
    requires row in AllRows(rs, ctx)
    ensures exists i, k :: RowFrom(rs, i, k, row, ctx)
    decreases |rs|
  {
    var n := |rs| - 1;
    var front := rs[..n];
    if row in AllRows(front, ctx) {
      AllRowsSound(front, ctx, row);
      var i, k :| RowFrom(front, i, k, row, ctx);
      assert rs[i] == front[i];
      assert RowFrom(rs, i, k, row, ctx);
    } else {
      RowsOfMembers(rs[n], ctx, row);
      var k :| RowAt(rs[n], k, row, ctx);
      assert RowFrom(rs, n, k, row, ctx);
    }
  }

  lemma {:induction false} AllRowsComplete(rs: seq<ResolvedCompletion>, ctx: Context, row: Row, i: int, k: int)
    requires RowFrom(rs, i, k, row, ctx)
    ensures row in AllRows(rs, ctx)
    decreases |rs|
  {
    var n := |rs| - 1;
    var front := rs[..n];
    if i < n {
      assert rs[i] == front[i];
      assert RowFrom(front, i, k, row, ctx);
      AllRowsComplete(front, ctx, row, i, k);
    } else {
      RowsOfMembers(rs[n], ctx, row);
    }
  }

  /**
   * Provenance of the delivered items: a row is delivered exactly when it is
   * built from the `k`-th entry of the sorted list of some live, non-error
   * response, passes the snippet filter, and carries `k`, the session's name
   * and its resolve capability.
   */
  lemma MergedItemProvenance(rs: seq<ResolvedCompletion>, live: map<SessionId, Session>, prefs: Prefs,
                             settings: ViewSettings, triggeredManually: bool, viewId: int, row: Row)
    ensures row in Merge(rs, live, prefs, settings, triggeredManually, viewId).items <==>
            exists i, k :: RowFrom(rs, i, k, row, Context(live, IncludeSnippets(settings, triggeredManually), viewId))
  {
    var ctx := Context(live, IncludeSnippets(settings, triggeredManually), viewId);
    FoldItems(rs, ctx, Start(prefs));
    if row in AllRows(rs, ctx) {
      AllRowsSound(rs, ctx, row);
    }
    if exists i, k :: RowFrom(rs, i, k, row, ctx) {
      var i, k :| RowFrom(rs, i, k, row, ctx);
      AllRowsComplete(rs, ctx, row, i, k);
    }
  }

  /**
   * The snippet filter: a snippet-kind entry is delivered only when snippets
   * are included and the trigger was manual or snippets are wanted while
   * typing.
   */
  lemma SnippetsDeliveredOnlyWhenIncluded(rs: seq<ResolvedCompletion>, live: map<SessionId, Session>, prefs: Prefs,
                                          settings: ViewSettings, triggeredManually: bool, viewId: int, row: Row)
    requires row in Merge(rs, live, prefs, settings, triggeredManually, viewId).items
    requires row.item.kind == Some(SnippetKind)
    ensures settings.includeSnippets && (triggeredManually || settings.includeSnippetsWhenTyping)
  {
    MergedItemProvenance(rs, live, prefs, settings, triggeredManually, viewId, row);
  }

  // ---------------------------------------------------------------------
  // Flags

  lemma {:induction false} FoldFlags(rs: seq<ResolvedCompletion>, ctx: Context, init: Merged)
    ensures Fold(rs, ctx, init).flags ==
            init.flags + (if exists i :: 0 <= i < |rs| && Contributes(rs[i], ctx.live) && IsIncomplete(rs[i].response)
                          then {DynamicCompletions} else {})
    decreases |rs|
  {
    if rs != [] {
      var n := |rs| - 1;
      FoldFlags(rs[..n], ctx, init);
      if exists i :: 0 <= i < n && Contributes(rs[..n][i], ctx.live) && IsIncomplete(rs[..n][i].response) {
        var i :| 0 <= i < n && Contributes(rs[..n][i], ctx.live) && IsIncomplete(rs[..n][i].response);
        assert rs[i] == rs[..n][i];
      }
      if exists i :: 0 <= i < |rs| && Contributes(rs[i], ctx.live) && IsIncomplete(rs[i].response) {
        var i :| 0 <= i < |rs| && Contributes(rs[i], ctx.live) && IsIncomplete(rs[i].response);
        if i < n { assert rs[..n][i] == rs[i]; }
      }
    }
  }

  /**
   * The merged flags: the two inhibit flags follow their preferences,
   * `DynamicCompletions` is set exactly when some live, non-error response
   * is an incomplete `CompletionList`, and `InhibitReorder` exactly when some
   * item is delivered.
   */
  lemma MergedFlags(rs: seq<ResolvedCompletion>, live: map<SessionId, Session>, prefs: Prefs,
                    settings: ViewSettings, triggeredManually: bool, viewId: int)
    ensures var m := Merge(rs, live, prefs, settings, triggeredManually, viewId);
            && (InhibitExplicitCompletions in m.flags <==> prefs.inhibitSnippetCompletions)
            && (InhibitWordCompletions in m.flags <==> prefs.inhibitWordCompletions)
            && (InhibitReorder in m.flags <==> m.items != [])
            && (DynamicCompletions in m.flags <==>
                exists i :: 0 <= i < |rs| && Contributes(rs[i], live) && IsIncomplete(rs[i].response))
  {
    FoldFlags(rs, Context(live, IncludeSnippets(settings, triggeredManually), viewId), Start(prefs));
  }

  // ---------------------------------------------------------------------
  // Errors

  lemma {:induction false} FoldErrors(rs: seq<ResolvedCompletion>, ctx: Context, init: Merged, e: ResponseError)
    requires init.errors == []
    ensures e in Fold(rs, ctx, init).errors <==> exists i :: 0 <= i < |rs| && rs[i].response == ErrorResponse(e)
    decreases |rs|
  {
    if rs != [] {
      var n := |rs| - 1;
      FoldErrors(rs[..n], ctx, init, e);
      if exists i :: 0 <= i < n && rs[..n][i].response == ErrorResponse(e) {
        var i :| 0 <= i < n && rs[..n][i].response == ErrorResponse(e);
        assert rs[i] == rs[..n][i];
      }
      if exists i :: 0 <= i < |rs| && rs[i].response == ErrorResponse(e) {
        var i :| 0 <= i < |rs| && rs[i].response == ErrorResponse(e);
        if i < n { assert rs[..n][i] == rs[i]; }
      }
    }
  }

  /** Every error response is collected, whatever else the other responses hold, and nothing else is. */
  lemma MergedErrors(rs: seq<ResolvedCompletion>, live: map<SessionId, Session>, prefs: Prefs,
                     settings: ViewSettings, triggeredManually: bool, viewId: int, e: ResponseError)
    ensures e in Merge(rs, live, prefs, settings, triggeredManually, viewId).errors <==>
            exists i :: 0 <= i < |rs| && rs[i].response == ErrorResponse(e)
  {
    FoldErrors(rs, Context(live, IncludeSnippets(settings, triggeredManually), viewId), Start(prefs), e);
  }

  // ---------------------------------------------------------------------
  // Resolve cache

  /** The `i`-th response is the last live, non-error one from a session named `name`. */
  ghost predicate LastFeeds(rs: seq<ResolvedCompletion>, i: int, live: map<SessionId, Session>, name: string)
  {
    0 <= i < |rs| && Contributes(rs[i], live) && live[rs[i].session].name == name &&
    forall j :: i < j < |rs| && Contributes(rs[j], live) ==> live[rs[j].session].name != name
  }

  /** The cache after the loop over `rs`: the last response, when it takes part, overwrites its session's entry. */
  lemma FoldLastCache(rs: seq<ResolvedCompletion>, ctx: Context, init: Merged)
    requires rs != []
    ensures var rc := rs[|rs| - 1];
            var before := Fold(rs[..|rs| - 1], ctx, init).cache;
            Fold(rs, ctx, init).cache ==
              if Contributes(rc, ctx.live)
              then before[ctx.live[rc.session].name := SortEntries(ResponseItems(rc.response))]
              else before
  {
  }

  /** Some live, non-error response among the first `n` comes from a session named `name`. */
  ghost predicate SomeFeeds(rs: seq<ResolvedCompletion>, n: int, live: map<SessionId, Session>, name: string)
    requires 0 <= n <= |rs|
  {
    exists i :: 0 <= i < n && Contributes(rs[i], live) && live[rs[i].session].name == name
  }

  lemma {:induction false} FoldCacheKeys(rs: seq<ResolvedCompletion>, ctx: Context, init: Merged, name: string)
    requires init.cache == map[]
    ensures name in Fold(rs, ctx, init).cache <==> SomeFeeds(rs, |rs|, ctx.live, name)
    decreases |rs|
  {
    if rs != [] {
      var n := |rs| - 1;
      var front := rs[..n];
      FoldCacheKeys(front, ctx, init, name);
      FoldLastCache(rs, ctx, init);
      if SomeFeeds(front, n, ctx.live, name) {
        var i :| 0 <= i < n && Contributes(front[i], ctx.live) && ctx.live[front[i].session].name == name;
        assert rs[i] == front[i];
      }
      if SomeFeeds(rs, |rs|, ctx.live, name) {
        var i :| 0 <= i < |rs| && Contributes(rs[i], ctx.live) && ctx.live[rs[i].session].name == name;
        if i < n {
          assert front[i] == rs[i];
        }
      }
    }
  }

  lemma {:induction false} FoldCacheValues(rs: seq<ResolvedCompletion>, ctx: Context, init: Merged, name: string)
    requires init.cache == map[]
    ensures name in Fold(rs, ctx, init).cache ==>
            exists i :: LastFeeds(rs, i, ctx.live, name) &&
                        Fold(rs, ctx, init).cache[name] == SortEntries(ResponseItems(rs[i].response))
    decreases |rs|
  {
    if rs != [] {
      var n := |rs| - 1;
      var front := rs[..n];
      FoldCacheValues(front, ctx, init, name);
      FoldLastCache(rs, ctx, init);
      if Contributes(rs[n], ctx.live) && ctx.live[rs[n].session].name == name {
        assert LastFeeds(rs, n, ctx.live, name);
      } else if name in Fold(rs, ctx, init).cache {
        var i :| LastFeeds(front, i, ctx.live, name) &&
                 Fold(front, ctx, init).cache[name] == SortEntries(ResponseItems(front[i].response));
        assert rs[i] == front[i];
        forall j | i < j < |rs| && Contributes(rs[j], ctx.live)
          ensures ctx.live[rs[j].session].name != name
        {
          if j < n { assert rs[j] == front[j]; }
        }
        assert LastFeeds(rs, i, ctx.live, name);
      }
    }
  }

  /**
   * The resolve cache after a merge is rebuilt from this merge alone: it has
   * an entry for exactly the names of live sessions with a non-error
   * response, and that entry is the stably sorted entry list of the last
   * such response from a session of that name.
   */
  lemma MergedCache(rs: seq<ResolvedCompletion>, live: map<SessionId, Session>, prefs: Prefs,
                    settings: ViewSettings, triggeredManually: bool, viewId: int, name: string)
    ensures var cache := Merge(rs, live, prefs, settings, triggeredManually, viewId).cache;
            && (name in cache <==>
                exists i :: 0 <= i < |rs| && Contributes(rs[i], live) && live[rs[i].session].name == name)
            && (name in cache ==>
                exists i :: LastFeeds(rs, i, live, name) && cache[name] == SortEntries(ResponseItems(rs[i].response)))
  {
    var ctx := Context(live, IncludeSnippets(settings, triggeredManually), viewId);
    FoldCacheKeys(rs, ctx, Start(prefs), name);
    FoldCacheValues(rs, ctx, Start(prefs), name);
  }
}
