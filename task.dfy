/**
 * `QueryCompletionsTask`: one completion cycle. It dispatches one request per
 * session, forgets each request when its response arrives, merges all
 * responses once, and can be cancelled. All its methods run on one thread,
 * so concurrency is an arbitrary sequence of calls to these methods. The
 * completion callback is a ghost log of deliveries; weak references to
 * sessions are session identities looked up in the map of live sessions.
 */
module CompletionTask {
  import opened Wrappers
  import opened Protocol
  import opened ResponseMerge

  type RequestId = int

  /** One call of the completion callback: the items and the flags. */
  datatype Delivery = Delivery(items: seq<Row>, flags: set<Flag>)

  /** One call of `session.cancel_request(request, False)`. */
  datatype CancelCall = CancelCall(session: SessionId, request: RequestId)

  /** What a task does to the outside world, in the order it does it. */
  datatype Effect = Deliver(delivery: Delivery) | CancelRequest(call: CancelCall)

  /** The callback invocations among `effects`, in order. */
  function Deliveries(effects: seq<Effect>): seq<Delivery>
    decreases |effects|
  {
    if effects == [] then []
    else Deliveries(effects[..|effects| - 1])
         + (if effects[|effects| - 1].Deliver? then [effects[|effects| - 1].delivery] else [])
  }

  lemma {:induction false} DeliveriesAppend(a: seq<Effect>, b: seq<Effect>)
    ensures Deliveries(a + b) == Deliveries(a) + Deliveries(b)
    decreases |b|
  {
    if b == [] {
      assert a + b == a;
    } else {
      var b' := b[..|b| - 1];
      assert (a + b)[..|a + b| - 1] == a + b';
      assert (a + b)[|a + b| - 1] == b[|b| - 1];
      DeliveriesAppend(a, b');
    }
  }

  /** The cancel calls as effects, in the same order. */
  function CancelEffects(calls: seq<CancelCall>): (effects: seq<Effect>)
    ensures |effects| == |calls|
    ensures forall i :: 0 <= i < |calls| ==> effects[i] == CancelRequest(calls[i])
    decreases |calls|
  {
    if calls == [] then []
    else CancelEffects(calls[..|calls| - 1]) + [CancelRequest(calls[|calls| - 1])]
  }

  /** Cancel calls never fire the callback. */
  lemma {:induction false} CancelEffectsDeliverNothing(calls: seq<CancelCall>)
    ensures Deliveries(CancelEffects(calls)) == []
    decreases |calls|
  {
    if calls != [] {
      var n := |calls| - 1;
      CancelEffectsDeliverNothing(calls[..n]);
      DeliveriesAppend(CancelEffects(calls[..n]), [CancelRequest(calls[n])]);
      assert Deliveries([CancelRequest(calls[n])]) == [] by {
        assert [CancelRequest(calls[n])][..0] == [];
      }
    }
  }

  /** The pending map after registering `ids[i]` for `sessions[i]`, one after the other. */
  function Dispatched(pending: map<RequestId, SessionId>, sessions: seq<SessionId>, ids: seq<RequestId>): map<RequestId, SessionId>
    requires |sessions| == |ids|
    decreases |ids|
  {
    if ids == [] then pending
    else Dispatched(pending, sessions[..|ids| - 1], ids[..|ids| - 1])[ids[|ids| - 1] := sessions[|ids| - 1]]
  }

  /**
   * Dispatching registers every new request id, maps each to the session of
   * its last registration, and leaves the other entries untouched.
   */
  lemma {:induction false} DispatchedEntries(pending: map<RequestId, SessionId>, sessions: seq<SessionId>, ids: seq<RequestId>)
    requires |sessions| == |ids|
    ensures var d := Dispatched(pending, sessions, ids);
            && (forall id :: id in d <==> id in pending || id in ids)
            && (forall i :: 0 <= i < |ids| && ids[i] !in ids[i + 1..] ==> ids[i] in d && d[ids[i]] == sessions[i])
            && (forall id :: id in pending && id !in ids ==> d[id] == pending[id])
    decreases |ids|
  {
    if ids != [] {
      var n := |ids| - 1;
      DispatchedEntries(pending, sessions[..n], ids[..n]);
      var d := Dispatched(pending, sessions, ids);
      var front := ids[..n];
      assert ids == front + [ids[n]];
      forall i | 0 <= i < |ids| && ids[i] !in ids[i + 1..] ensures ids[i] in d && d[ids[i]] == sessions[i] {
        if i < n {
          assert ids[n] in ids[i + 1..];
          assert front[i] == ids[i];
          assert front[i + 1..] <= ids[i + 1..];
          assert sessions[..n][i] == sessions[i];
        }
      }
    }
  }

  /** `LspResolveDocsCommand.completions`: each session's last sorted entries, by session name. */
  class ResolveCache {
    var completions: map<string, seq<CompletionItem>>

    constructor ()
      ensures completions == map[]
    {
      completions := map[];
    }
  }

  class QueryCompletionsTask {
    const viewId: int
    const location: int
    const triggeredManually: bool
    var resolved: bool
    var pending: map<RequestId, SessionId>
    ghost var effects: seq<Effect>

    /** The callback has fired at most once, and exactly when the task is resolved. */
    ghost predicate Valid()
      reads this
    {
      |Deliveries(effects)| <= 1 && (resolved <==> |Deliveries(effects)| == 1)
    }

    constructor (viewId: int, location: int, triggeredManually: bool)
      ensures Valid()
      ensures this.viewId == viewId && this.location == location && this.triggeredManually == triggeredManually
      ensures !resolved && pending == map[] && effects == []
    {
      this.viewId := viewId;
      this.location := location;
      this.triggeredManually := triggeredManually;
      resolved := false;
      pending := map[];
      effects := [];
    }

    /** Registers the request id the session's send gave back, under that session. */
    method CreateCompletionRequest(session: SessionId, requestId: RequestId)
      modifies this`pending
      ensures pending == old(pending)[requestId := session]
    {
      pending := pending[requestId := session];
    }

    /**
     * Sends one request per session; `requestIds[i]` is the id the request
     * layer assigned to the request for `sessions[i]`.
     */
    method QueryCompletions(sessions: seq<SessionId>, requestIds: seq<RequestId>)
      requires |sessions| == |requestIds|
      modifies this`pending
      ensures pending == Dispatched(old(pending), sessions, requestIds)
    {
      for i := 0 to |sessions|
        invariant pending == Dispatched(old(pending), sessions[..i], requestIds[..i])
      {
        assert sessions[..i + 1][..i] == sessions[..i];
        assert requestIds[..i + 1][..i] == requestIds[..i];
        CreateCompletionRequest(sessions[i], requestIds[i]);
      }
      assert sessions[..|sessions|] == sessions;
      assert requestIds[..|requestIds|] == requestIds;
    }

    /**
     * A response arrives: its request id leaves the pending map before the
     * response and its session are handed on to the join.
     */
    method OnCompletionResponse(response: CompletionResponse, requestId: RequestId, session: SessionId)
      returns (rc: ResolvedCompletion)
      modifies this`pending
      ensures pending == old(pending) - {requestId}
      ensures rc == ResolvedCompletion(response, session)
    {
      pending := pending - {requestId};
      rc := ResolvedCompletion(response, session);
    }

    /** Fires the callback unless it has fired already. */
    method ResolveTask(items: seq<Row>, flags: set<Flag>)
      requires Valid()
      modifies this`resolved, this`effects
      ensures Valid() && resolved
      ensures effects == if old(resolved) then old(effects) else old(effects) + [Deliver(Delivery(items, flags))]
    {
      if !resolved {
        resolved := true;
        DeliveriesAppend(effects, [Deliver(Delivery(items, flags))]);
        assert [Deliver(Delivery(items, flags))][..0] == [];
        effects := effects + [Deliver(Delivery(items, flags))];
      }
    }

    /**
     * The join's continuation: unless the task is resolved already, empties
     * the resolve cache, merges every response, and delivers the merged items
     * and flags. `errors` are the collected server errors, which the editor
     * shows in one status message when there are any.
     */
    method ResolveCompletions(responses: seq<ResolvedCompletion>, live: map<SessionId, Session>,
                              prefs: Prefs, settings: ViewSettings, cache: ResolveCache)
      returns (errors: seq<ResponseError>)
      requires Valid()
      modifies this`resolved, this`effects, cache
      ensures Valid() && resolved
      ensures old(resolved) ==> effects == old(effects) && cache.completions == old(cache.completions) && errors == []
      ensures !old(resolved) ==>
                var m := Merge(responses, live, prefs, settings, triggeredManually, viewId);
                && effects == old(effects) + [Deliver(Delivery(m.items, m.flags))]
                && cache.completions == m.cache
                && errors == m.errors
    {
      errors := [];
      if resolved {
        return;
      }
      cache.completions := map[];
      var items: seq<Row> := [];
      var flags := PrefFlags(prefs);
      var includeSnippets := IncludeSnippets(settings, triggeredManually);
      ghost var ctx := Context(live, includeSnippets, viewId);
      for i := 0 to |responses|
        modifies cache
        invariant Fold(responses[..i], ctx, Start(prefs)) == Merged(items, errors, flags, cache.completions)
      {
        assert responses[..i + 1][..i] == responses[..i];
        ghost var before := Merged(items, errors, flags, cache.completions);
        var response := responses[i].response;
        var weakSession := responses[i].session;
        if response.ErrorResponse? {
          errors := errors + [response.error];
        } else if weakSession in live {
          var session := live[weakSession];
          var responseItems: seq<CompletionItem> := [];
          match response {
            case ObjectResponse(listItems, isIncomplete) =>
              responseItems := listItems.GetOr([]);
              if isIncomplete {
                flags := flags + {DynamicCompletions};
              }
            case ListResponse(entries) =>
              responseItems := entries;
            case NullResponse =>
          }
          responseItems := Sorting.SortEntries(responseItems);
          cache.completions := cache.completions[session.name := responseItems];
          items := items + SessionRows(responseItems, session, includeSnippets, viewId);
        }
        assert Merged(items, errors, flags, cache.completions) == Step(before, responses[i], ctx);
      }
      assert responses[..|responses|] == responses;
      if items != [] {
        flags := flags + {InhibitReorder};
      }
      assert Merge(responses, live, prefs, settings, triggeredManually, viewId) == Merged(items, errors, flags, cache.completions);
      ResolveTask(items, flags);
    }

    /**
     * Asks every pending request whose session is still alive to be
     * cancelled, without notifying the server, then forgets them all.
     */
    method CancelPendingRequests(live: map<SessionId, Session>) returns (cancels: seq<CancelCall>)
      modifies this`pending, this`effects
      ensures pending == map[]
      ensures effects == old(effects) + CancelEffects(cancels)
      ensures Deliveries(effects) == Deliveries(old(effects))
      ensures forall c :: c in cancels <==>
                c.request in old(pending) && c.session == old(pending)[c.request] && c.session in live
      ensures forall i, j :: 0 <= i < j < |cancels| ==> cancels[i].request != cancels[j].request
    {
      cancels := [];
      var rest := pending.Keys;
      while rest != {}
        modifies {}
        invariant rest <= pending.Keys
        invariant forall c :: c in cancels <==>
                    c.request in pending.Keys - rest && c.session == pending[c.request] && c.session in live
        invariant forall i, j :: 0 <= i < j < |cancels| ==> cancels[i].request != cancels[j].request
        decreases rest
      {
        assert (forall r :: r !in rest) ==> rest == {};
        var requestId :| requestId in rest;
        var session := pending[requestId];
        if session in live {
          cancels := cancels + [CancelCall(session, requestId)];
        }
        rest := rest - {requestId};
      }
      pending := map[];
      effects := effects + CancelEffects(cancels);
      DeliveriesAppend(old(effects), CancelEffects(cancels));
      CancelEffectsDeliverNothing(cancels);
    }

    /**
     * Cancellation: delivers an empty list with no flags unless the task is
     * resolved already, then cancels the pending requests.
     */
    method Cancel(live: map<SessionId, Session>) returns (cancels: seq<CancelCall>)
      requires Valid()
      modifies this`resolved, this`effects, this`pending
      ensures Valid() && resolved
      ensures effects == old(effects) + (if old(resolved) then [] else [Deliver(Delivery([], {}))]) + CancelEffects(cancels)
      ensures pending == map[]
      ensures forall c :: c in cancels <==>
                c.request in old(pending) && c.session == old(pending)[c.request] && c.session in live
      ensures forall i, j :: 0 <= i < j < |cancels| ==> cancels[i].request != cancels[j].request
    {
      ResolveTask([], {});
      cancels := CancelPendingRequests(live);
    }
  }

  /** What the editor and the request layer can do to a task, in any order. */
  datatype Event =
    | Query(sessions: seq<SessionId>, requestIds: seq<RequestId>)
    | Respond(response: CompletionResponse, requestId: RequestId, session: SessionId)
    | Join(responses: seq<ResolvedCompletion>)
    | CancelTask

  predicate Terminal(e: Event)
  {
    e.Join? || e.CancelTask?
  }

  /**
   * The delivery made once `e` has run, given the delivery `prior` made
   * before it: the first join delivers its merge, a first cancellation an
   * empty list with no flags, and anything after the first is ignored.
   */
  function NextDelivery(prior: Option<Delivery>, e: Event, live: map<SessionId, Session>, prefs: Prefs,
                        settings: ViewSettings, triggeredManually: bool, viewId: int): (r: Option<Delivery>)
    ensures r.Some? <==> prior.Some? || Terminal(e)
    ensures prior.Some? ==> r == prior
  {
    if prior.Some? then prior
    else match e
      case Join(responses) =>
        var m := Merge(responses, live, prefs, settings, triggeredManually, viewId);
        Some(Delivery(m.items, m.flags))
      case CancelTask => Some(Delivery([], {}))
      case _ => None
  }

  /**
   * The one delivery a fresh task makes over `events`: the merge of the
   * first join's responses, or an empty list with no flags when a
   * cancellation comes first; none while no join or cancellation has run.
   */
  function FirstDelivery(events: seq<Event>, live: map<SessionId, Session>, prefs: Prefs,
                         settings: ViewSettings, triggeredManually: bool, viewId: int): (r: Option<Delivery>)
    ensures r.Some? <==> exists i :: 0 <= i < |events| && Terminal(events[i])
    decreases |events|
  {
    if events == [] then None
    else
      var n := |events| - 1;
      assert forall i :: 0 <= i < n ==> events[..n][i] == events[i];
      NextDelivery(FirstDelivery(events[..n], live, prefs, settings, triggeredManually, viewId),
                   events[n], live, prefs, settings, triggeredManually, viewId)
  }

  lemma FirstDeliveryPrefix(events: seq<Event>, i: nat, live: map<SessionId, Session>, prefs: Prefs,
                            settings: ViewSettings, triggeredManually: bool, viewId: int)
    requires i < |events|
    ensures FirstDelivery(events[..i + 1], live, prefs, settings, triggeredManually, viewId)
            == NextDelivery(FirstDelivery(events[..i], live, prefs, settings, triggeredManually, viewId),
                            events[i], live, prefs, settings, triggeredManually, viewId)
  {
    assert events[..i + 1][..i] == events[..i];
  }

  /** At most one delivery, as a sequence. */
  function AsSeq(d: Option<Delivery>): seq<Delivery>
  {
    if d.Some? then [d.value] else []
  }

  lemma DeliveriesSnoc(effects: seq<Effect>, e: Effect)
    ensures Deliveries(effects + [e]) == Deliveries(effects) + (if e.Deliver? then [e.delivery] else [])
  {
    assert (effects + [e])[..|effects|] == effects;
  }

  /**
   * Runs one event against a task: only a join or a cancellation fires the
   * callback, and only the first of them does.
   */
  method Apply(task: QueryCompletionsTask, e: Event, live: map<SessionId, Session>,
               prefs: Prefs, settings: ViewSettings, cache: ResolveCache)
    requires task.Valid()
    modifies task, cache
    ensures task.Valid()
    ensures task.resolved <==> old(task.resolved) || Terminal(e)
    ensures Deliveries(task.effects)
            == Deliveries(old(task.effects))
               + if old(task.resolved) then []
                 else AsSeq(NextDelivery(None, e, live, prefs, settings, task.triggeredManually, task.viewId))
  {
    ghost var before := task.effects;
    ghost var wasResolved := task.resolved;
    match e {
      case Query(sessions, requestIds) =>
        if |sessions| == |requestIds| {
          task.QueryCompletions(sessions, requestIds);
        }
      case Respond(response, requestId, session) =>
        var _ := task.OnCompletionResponse(response, requestId, session);
      case Join(responses) =>
        ghost var m := Merge(responses, live, prefs, settings, task.triggeredManually, task.viewId);
        var _ := task.ResolveCompletions(responses, live, prefs, settings, cache);
        if !wasResolved {
          DeliveriesSnoc(before, Deliver(Delivery(m.items, m.flags)));
        }
      case CancelTask =>
        ghost var mid: seq<Effect> := if wasResolved then [] else [Deliver(Delivery([], {}))];
        var cancels := task.Cancel(live);
        DeliveriesAppend(before + mid, CancelEffects(cancels));
        CancelEffectsDeliverNothing(cancels);
        if !wasResolved {
          DeliveriesSnoc(before, Deliver(Delivery([], {})));
        } else {
          assert before + mid == before;
        }
    }
  }

  /**
   * Runs any interleaving of events against a task (a query whose two lists
   * differ in length is ignored). The callback fires at most once; a fresh
   * task has fired it once some join or cancellation has run, with the
   * merge of the first join's responses or, when a cancellation came
   * first, with an empty list.
   */
  method Run(task: QueryCompletionsTask, events: seq<Event>, live: map<SessionId, Session>,
             prefs: Prefs, settings: ViewSettings, cache: ResolveCache)
    requires task.Valid()
    modifies task, cache
    ensures task.Valid()
    ensures (old(task.resolved) || exists i :: 0 <= i < |events| && Terminal(events[i]))
            <==> |Deliveries(task.effects)| == 1
    ensures old(task.resolved) ==> Deliveries(task.effects) == Deliveries(old(task.effects))
    ensures !old(task.resolved) ==>
              Deliveries(task.effects)
              == AsSeq(FirstDelivery(events, live, prefs, settings, task.triggeredManually, task.viewId))
  {
    for i := 0 to |events|
      invariant task.Valid()
      invariant task.resolved
                <==> (old(task.resolved)
                      || FirstDelivery(events[..i], live, prefs, settings, task.triggeredManually, task.viewId).Some?)
      invariant Deliveries(task.effects)
                == if old(task.resolved) then Deliveries(old(task.effects))
                   else AsSeq(FirstDelivery(events[..i], live, prefs, settings, task.triggeredManually, task.viewId))
    {
      FirstDeliveryPrefix(events, i, live, prefs, settings, task.triggeredManually, task.viewId);
      Apply(task, events[i], live, prefs, settings, cache);
    }
    assert events[..|events|] == events;
  }
}
