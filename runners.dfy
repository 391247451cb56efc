/** The two loops that fire campaign events for leads: `triggerEvents` (lines 423-460), which
    fires every event of a lead's campaigns for that lead, and the backfill of `saveEntity`
    (lines 79-143), which fires every event of a freshly saved campaign for the leads that
    existed before it. Each successful trigger adds a LeadEventLog row and queues the event
    for saving; a handler lookup that throws ends the run before anything is saved. The IP
    address and the firing time are opaque tokens; the repositories are inputs. */
module Runners {
  import opened PhpValues
  import opened Trigger

  /** A LeadEventLog row: IP address, event, lead and firing time. */
  datatype LogEntry = LogEntry(ip: nat, event: Key, lead: Key, dateFired: nat)

  /** What a run has gathered so far: the new log rows, the `$persist` list, and whether a
      trigger threw. */
  datatype Batch = Batch(logs: seq<LogEntry>, persist: seq<CampaignEvent>, faulted: bool)

  const Empty := Batch([], [], false)

  /** One log row per queued event, in the same order, naming that event, the run's IP
      address and its firing time. */
  predicate OneLogEach(b: Batch, ip: nat, now: nat)
  {
    && |b.logs| == |b.persist|
    && forall i | 0 <= i < |b.logs| ::
         b.logs[i].event == b.persist[i].id && b.logs[i].ip == ip && b.logs[i].dateFired == now
  }

  /** One `if ($this->triggerEvent($event, $l, false)) { ... }` step: a fired trigger logs the
      pair and queues the event; a fault ends the run; a skipped trigger changes nothing. */
  function Attempt(b: Batch, env: Env, event: CampaignEvent, lead: Lead, ip: nat, now: nat): (r: Batch)
    ensures OneLogEach(b, ip, now) ==> OneLogEach(r, ip, now)
    ensures b.faulted ==> r == b
    ensures r.persist == b.persist || r.persist == b.persist + [event]
    ensures r.persist == b.persist + [event] <==>
              !b.faulted && TriggerEvent(env, event, Some(lead), false).Fired?
    ensures r.faulted <==> b.faulted || TriggerEvent(env, event, Some(lead), false) == Fault
  {
    if b.faulted then b
    else match TriggerEvent(env, event, Some(lead), false)
      case Fired(_, _) =>
        Batch(b.logs + [LogEntry(ip, event.id, lead.id, now)], b.persist + [event], false)
      case Fault => b.(faulted := true)
      case Skipped(_) => b
  }

  // ---------------------------------------------------------------------------------------
  // triggerEvents

  /** Lines 438-456 for one lead: the events in order, skipping those already logged for the
      lead. */
  function LeadBatch(env: Env, lead: Lead, events: seq<CampaignEvent>, ip: nat, now: nat): (r: Batch)
    ensures OneLogEach(r, ip, now)
    ensures forall i | 0 <= i < |r.logs| :: r.logs[i].lead == lead.id
    ensures forall e | e in r.persist :: e in events && e.id !in Applied(env.log, lead.id)
    decreases |events|
  {
    if events == [] then Empty
    else
      var n := |events| - 1;
      var b := LeadBatch(env, lead, events[..n], ip, now);
      var e := events[n];
      if e.id in Applied(env.log, lead.id) then b else Attempt(b, env, e, lead, ip, now)
  }

  /** A faulted prefix decides the whole run. */
  lemma {:induction false} LeadBatchStops(env: Env, lead: Lead, events: seq<CampaignEvent>, k: nat,
                                          ip: nat, now: nat)
    requires k <= |events|
    requires LeadBatch(env, lead, events[..k], ip, now).faulted
    ensures LeadBatch(env, lead, events, ip, now) == LeadBatch(env, lead, events[..k], ip, now)
    decreases |events|
  {
    if k == |events| {
      assert events[..k] == events;
    } else {
      var n := |events| - 1;
      assert events[..n][..k] == events[..k];
      LeadBatchStops(env, lead, events[..n], k, ip, now);
    }
  }

  /** Lines 423-460 for one lead. `events` is what `getPublishedByCampaignTotal` returned;
      `saved` says whether `saveEntities` is reached with a non-empty list; `aborted` says the
      run ended in an exception. */
  method TriggerEvents(env: Env, lead: Lead, events: seq<CampaignEvent>, ip: nat, now: nat)
    returns (logs: seq<LogEntry>, persist: seq<CampaignEvent>, saved: bool, aborted: bool)
    ensures Batch(logs, persist, aborted) == LeadBatch(env, lead, events, ip, now)
    ensures saved <==> !aborted && |persist| > 0
  {
    logs, persist, saved, aborted := [], [], false, false;
    if |events| > 0 {
      var applied := Applied(env.log, lead.id);
      var i := 0;
      while i < |events|
        invariant 0 <= i <= |events|
        invariant Batch(logs, persist, false) == LeadBatch(env, lead, events[..i], ip, now)
      {
        var event := events[i];
        assert events[..i + 1][..i] == events[..i];
        if event.id !in applied {
          var r := TriggerEvent(env, event, Some(lead), false);
          if r == Fault {
            aborted := true;
            LeadBatchStops(env, lead, events, i + 1, ip, now);
            return;
          }
          if r.Fired? {
            logs := logs + [LogEntry(ip, event.id, lead.id, now)];
            persist := persist + [event];
          }
        }
        i := i + 1;
      }
      assert events[..i] == events;
    }
    saved := |persist| > 0;
  }

  /** Running triggerEvents again after the first run's rows reached the log fires nothing:
      every event either was logged before, was logged by the first run, or is skipped by the
      same gate as the first time. */
  lemma {:induction false} RerunFiresNothing(env: Env, lead: Lead, events: seq<CampaignEvent>,
                                             ip: nat, now: nat, log': set<(Key, Key)>, ip': nat, now': nat)
    requires !LeadBatch(env, lead, events, ip, now).faulted
    requires env.log <= log'
    requires forall e | e in LeadBatch(env, lead, events, ip, now).persist :: (lead.id, e.id) in log'
    ensures LeadBatch(env.(log := log'), lead, events, ip', now') == Empty
    decreases |events|
  {
    if events != [] {
      var n := |events| - 1;
      var e := events[n];
      var env' := env.(log := log');
      var b := LeadBatch(env, lead, events[..n], ip, now);
      assert !b.faulted;
      RerunFiresNothing(env, lead, events[..n], ip, now, log', ip', now');
      if e.id !in Applied(log', lead.id) {
        assert e.id !in Applied(env.log, lead.id);
        UncheckedIgnoresLog(env, log', e, Some(lead));
        assert e !in LeadBatch(env, lead, events, ip, now).persist;
      }
    }
  }

  /** The rows of one run, as the lead event log stores them. */
  function Logged(b: Batch): (pairs: set<(Key, Key)>)
    ensures forall i | 0 <= i < |b.logs| :: (b.logs[i].lead, b.logs[i].event) in pairs
  {
    set i | 0 <= i < |b.logs| :: (b.logs[i].lead, b.logs[i].event)
  }

  /** Once a completed run's rows are in the log, the next run for the same lead fires none of
      the events again. */
  lemma SecondRunFiresNothing(env: Env, lead: Lead, events: seq<CampaignEvent>, ip: nat, now: nat,
                              ip': nat, now': nat)
    requires !LeadBatch(env, lead, events, ip, now).faulted
    ensures var b := LeadBatch(env, lead, events, ip, now);
            LeadBatch(env.(log := env.log + Logged(b)), lead, events, ip', now') == Empty
  {
    var b := LeadBatch(env, lead, events, ip, now);
    forall e | e in b.persist
      ensures (lead.id, e.id) in env.log + Logged(b)
    {
      var i :| 0 <= i < |b.persist| && b.persist[i] == e;
      assert (b.logs[i].lead, b.logs[i].event) in Logged(b);
    }
    RerunFiresNothing(env, lead, events, ip, now, env.log + Logged(b), ip', now');
  }

  /** A first attempted trigger that faults ends triggerEvents with nothing queued, so
      `saveEntities` is never reached. */
  lemma FirstFaultSavesNothing(env: Env, lead: Lead, events: seq<CampaignEvent>, ip: nat, now: nat)
    requires |events| > 0 && events[0].id !in Applied(env.log, lead.id)
    requires TriggerEvent(env, events[0], Some(lead), false) == Fault
    ensures LeadBatch(env, lead, events, ip, now).faulted
    ensures LeadBatch(env, lead, events, ip, now).persist == []
  {
    assert events[..1][..0] == [];
    LeadBatchStops(env, lead, events, 1, ip, now);
  }

  /** No event already logged for the lead is fired again. */
  lemma AppliedNeverRefired(env: Env, lead: Lead, events: seq<CampaignEvent>, ip: nat, now: nat)
    ensures forall i | 0 <= i < |LeadBatch(env, lead, events, ip, now).logs| ::
              (lead.id, LeadBatch(env, lead, events, ip, now).logs[i].event) !in env.log
  {
    var b := LeadBatch(env, lead, events, ip, now);
    forall i | 0 <= i < |b.logs|
      ensures (lead.id, b.logs[i].event) !in env.log
    {
      assert b.persist[i] in b.persist;
    }
  }

  // ---------------------------------------------------------------------------------------
  // The backfill of saveEntity

  /** A campaign as saveEntity reads it: whether it had an id before the save, its
      trigger-existing-leads flag, its published state, its creation date as a UTC string,
      its campaigns value, and its events. */
  datatype SavedCampaign = SavedCampaign(hadId: bool, triggerExistingLeads: bool, published: bool,
                                         dateAddedUtc: string, campaigns: Value,
                                         events: seq<CampaignEvent>)

  /** A filter value: text built here, or a value passed through. */
  datatype FilterValue = Text(text: string) | Passed(v: Value)

  /** One entry of the `force` filter. */
  datatype Condition = Condition(column: string, expr: string, value: FilterValue)

  /** Lines 94-116: leads added no later than the campaign, with its campaigns, and, when the
      campaign is being updated and some leads already had the event, not those leads. */
  function LeadFilter(c: SavedCampaign, loggedLeads: seq<Key>): (f: seq<Condition>)
    ensures |f| == if c.hadId && |loggedLeads| > 0 then 3 else 2
    ensures f[0] == Condition("l.date_added", "lte", Text(c.dateAddedUtc))
    ensures f[1] == Condition("l.campaigns", "gte", Passed(c.campaigns))
    ensures forall i | 0 <= i < |f| :: f[i].expr == "notIn" <==> i == 2
  {
    [Condition("l.date_added", "lte", Text(c.dateAddedUtc)),
     Condition("l.campaigns", "gte", Passed(c.campaigns))] +
    if c.hadId && |loggedLeads| > 0 then [Condition("l.id", "notIn", Text(Join(loggedLeads, ',')))]
    else []
  }

  /** The exclusion is present exactly for an update with logged leads, and its value lists
      exactly those leads. */
  lemma LeadFilterExclusion(c: SavedCampaign, loggedLeads: seq<Key>)
    requires forall i | 0 <= i < |loggedLeads| :: ',' !in loggedLeads[i]
    ensures var f := LeadFilter(c, loggedLeads);
            && f[0] == Condition("l.date_added", "lte", Text(c.dateAddedUtc))
            && f[1] == Condition("l.campaigns", "gte", Passed(c.campaigns))
            && (|f| == 3 <==> c.hadId && |loggedLeads| > 0)
            && |f| in {2, 3}
            && (|f| == 3 ==>
                  && f[2].column == "l.id" && f[2].expr == "notIn" && f[2].value.Text?
                  && Split(f[2].value.text, ',') == loggedLeads)
  {
    if c.hadId && |loggedLeads| > 0 {
      SplitJoin(loggedLeads, ',');
    }
  }

  /** The repository's logged leads for an event, asked only when the campaign had an id. */
  function LoggedLeads(c: SavedCampaign, loggedFor: Key -> seq<Key>, event: CampaignEvent): seq<Key>
  {
    if c.hadId then loggedFor(event.id) else []
  }

  /** Lines 124-135: every lead the query returned, in order. */
  function LeadsBatch(b: Batch, env: Env, event: CampaignEvent, leads: seq<Lead>, ip: nat, now: nat)
    : (r: Batch)
    ensures OneLogEach(b, ip, now) ==> OneLogEach(r, ip, now)
    ensures b.faulted ==> r == b
    decreases |leads|
  {
    if leads == [] then b
    else
      var n := |leads| - 1;
      Attempt(LeadsBatch(b, env, event, leads[..n], ip, now), env, event, leads[n], ip, now)
  }

  /** Lines 92-136: every event of the campaign in order, each for the leads its filter
      selects. */
  function EventsBatch(env: Env, c: SavedCampaign, loggedFor: Key -> seq<Key>,
                       query: seq<Condition> -> seq<Lead>, events: seq<CampaignEvent>,
                       ip: nat, now: nat): (r: Batch)
    ensures OneLogEach(r, ip, now)
    decreases |events|
  {
    if events == [] then Empty
    else
      var n := |events| - 1;
      var e := events[n];
      LeadsBatch(EventsBatch(env, c, loggedFor, query, events[..n], ip, now), env, e,
                 query(LeadFilter(c, LoggedLeads(c, loggedFor, e))), ip, now)
  }

  /** Lines 86-141: the backfill runs only for a campaign that triggers existing leads and is
      published. */
  function Backfill(env: Env, c: SavedCampaign, loggedFor: Key -> seq<Key>,
                    query: seq<Condition> -> seq<Lead>, ip: nat, now: nat): (r: Batch)
    ensures OneLogEach(r, ip, now)
    ensures !(c.triggerExistingLeads && c.published) ==> r == Empty
  {
    if c.triggerExistingLeads && c.published then EventsBatch(env, c, loggedFor, query, c.events, ip, now)
    else Empty
  }

  /** A faulted prefix of the leads decides the rest of them. */
  lemma {:induction false} LeadsBatchStops(b: Batch, env: Env, event: CampaignEvent, leads: seq<Lead>,
                                           k: nat, ip: nat, now: nat)
    requires k <= |leads|
    requires LeadsBatch(b, env, event, leads[..k], ip, now).faulted
    ensures LeadsBatch(b, env, event, leads, ip, now) == LeadsBatch(b, env, event, leads[..k], ip, now)
    decreases |leads|
  {
    if k == |leads| {
      assert leads[..k] == leads;
    } else {
      var n := |leads| - 1;
      assert leads[..n][..k] == leads[..k];
      LeadsBatchStops(b, env, event, leads[..n], k, ip, now);
    }
  }

  /** A faulted prefix of the events decides the rest of them. */
  lemma {:induction false} EventsBatchStops(env: Env, c: SavedCampaign, loggedFor: Key -> seq<Key>,
                                            query: seq<Condition> -> seq<Lead>,
                                            events: seq<CampaignEvent>, k: nat, ip: nat, now: nat)
    requires k <= |events|
    requires EventsBatch(env, c, loggedFor, query, events[..k], ip, now).faulted
    ensures EventsBatch(env, c, loggedFor, query, events, ip, now) ==
            EventsBatch(env, c, loggedFor, query, events[..k], ip, now)
    decreases |events|
  {
    if k == |events| {
      assert events[..k] == events;
    } else {
      var n := |events| - 1;
      assert events[..n][..k] == events[..k];
      EventsBatchStops(env, c, loggedFor, query, events[..n], k, ip, now);
    }
  }

  /** Lines 124-135: the inner loop over the leads the query returned for one event. */
  method FireForLeads(env: Env, event: CampaignEvent, leads: seq<Lead>,
                      logs0: seq<LogEntry>, persist0: seq<CampaignEvent>, ip: nat, now: nat)
    returns (logs: seq<LogEntry>, persist: seq<CampaignEvent>, aborted: bool)
    ensures Batch(logs, persist, aborted) == LeadsBatch(Batch(logs0, persist0, false), env, event, leads, ip, now)
  {
    logs, persist, aborted := logs0, persist0, false;
    var j := 0;
    while j < |leads|
      invariant 0 <= j <= |leads|
      invariant Batch(logs, persist, false) == LeadsBatch(Batch(logs0, persist0, false), env, event, leads[..j], ip, now)
    {
      var lead := leads[j];
      assert leads[..j + 1][..j] == leads[..j];
      var r := TriggerEvent(env, event, Some(lead), false);
      if r == Fault {
        aborted := true;
        LeadsBatchStops(Batch(logs0, persist0, false), env, event, leads, j + 1, ip, now);
        return;
      }
      if r.Fired? {
        logs := logs + [LogEntry(ip, event.id, lead.id, now)];
        persist := persist + [event];
      }
      j := j + 1;
    }
    assert leads[..j] == leads;
  }

  /** One pass of the backfill's event loop (lines 94-139): the leads not yet logged for
      `events[i]` are queried and the event is fired for each; a fault ends the whole backfill. */
  method BackfillEvent(env: Env, c: SavedCampaign, loggedFor: Key -> seq<Key>,
                       query: seq<Condition> -> seq<Lead>, events: seq<CampaignEvent>, i: nat,
                       logs0: seq<LogEntry>, persist0: seq<CampaignEvent>, ip: nat, now: nat)
    returns (logs: seq<LogEntry>, persist: seq<CampaignEvent>, aborted: bool)
    requires i < |events|
    requires Batch(logs0, persist0, false) == EventsBatch(env, c, loggedFor, query, events[..i], ip, now)
    ensures !aborted ==> Batch(logs, persist, false) == EventsBatch(env, c, loggedFor, query, events[..i + 1], ip, now)
    ensures aborted ==> Batch(logs, persist, true) == EventsBatch(env, c, loggedFor, query, events, ip, now)
  {
    var event := events[i];
    var loggedLeads := [];
    if c.hadId {
      loggedLeads := loggedFor(event.id);
    }
    var leads := query(LeadFilter(c, loggedLeads));
    assert events[..i + 1][..i] == events[..i];
    logs, persist, aborted := FireForLeads(env, event, leads, logs0, persist0, ip, now);
    if aborted {
      EventsBatchStops(env, c, loggedFor, query, events, i + 1, ip, now);
    }
  }

  /** The backfill of saveEntity, after the save itself. `loggedFor` is `getLeadsForEvent`,
      `query` is the lead model's `getEntities` with a forced filter. */
  method BackfillExistingLeads(env: Env, c: SavedCampaign, loggedFor: Key -> seq<Key>,
                               query: seq<Condition> -> seq<Lead>, ip: nat, now: nat)
    returns (logs: seq<LogEntry>, persist: seq<CampaignEvent>, saved: bool, aborted: bool)
    ensures Batch(logs, persist, aborted) == Backfill(env, c, loggedFor, query, ip, now)
    ensures saved <==> !aborted && |persist| > 0
  {
    logs, persist, saved, aborted := [], [], false, false;
    if !(c.triggerExistingLeads && c.published) {
      return;
    }
    var events := c.events;
    var i := 0;
    while i < |events|
      invariant 0 <= i <= |events|
      invariant Batch(logs, persist, false) == EventsBatch(env, c, loggedFor, query, events[..i], ip, now)
    {
      logs, persist, aborted := BackfillEvent(env, c, loggedFor, query, events, i, logs, persist, ip, now);
      if aborted {
        return;
      }
      i := i + 1;
    }
    assert events[..i] == events;
    saved := |persist| > 0;
  }

  /** The lead query honours a `notIn` exclusion: no lead it returns is listed in it. */
  ghost predicate HonoursExclusion(query: seq<Condition> -> seq<Lead>)
  {
    forall f: seq<Condition>, l: Lead | l in query(f) && |f| >= 3 && f[2].expr == "notIn" && f[2].value.Text? ::
      l.id !in Split(f[2].value.text, ',')
  }

  /** No row pairs a lead with an event already logged for it. */
  ghost predicate NoRepeat(b: Batch, loggedFor: Key -> seq<Key>)
  {
    forall i | 0 <= i < |b.logs| :: b.logs[i].lead !in loggedFor(b.logs[i].event)
  }

  lemma {:induction false} LeadsBatchNoRepeat(b: Batch, env: Env, event: CampaignEvent, leads: seq<Lead>,
                                              ip: nat, now: nat, loggedFor: Key -> seq<Key>)
    requires NoRepeat(b, loggedFor)
    requires forall l | l in leads :: l.id !in loggedFor(event.id)
    ensures NoRepeat(LeadsBatch(b, env, event, leads, ip, now), loggedFor)
    decreases |leads|
  {
    if leads != [] {
      var n := |leads| - 1;
      assert leads[n] in leads;
      LeadsBatchNoRepeat(b, env, event, leads[..n], ip, now, loggedFor);
    }
  }

  lemma {:induction false} EventsBatchNoRepeat(env: Env, c: SavedCampaign, loggedFor: Key -> seq<Key>,
                                               query: seq<Condition> -> seq<Lead>,
                                               events: seq<CampaignEvent>, ip: nat, now: nat)
    requires c.hadId && HonoursExclusion(query)
    requires forall k, i | 0 <= i < |loggedFor(k)| :: ',' !in loggedFor(k)[i]
    ensures NoRepeat(EventsBatch(env, c, loggedFor, query, events, ip, now), loggedFor)
    decreases |events|
  {
    if events != [] {
      var n := |events| - 1;
      var e := events[n];
      EventsBatchNoRepeat(env, c, loggedFor, query, events[..n], ip, now);
      var logged := loggedFor(e.id);
      var f := LeadFilter(c, logged);
      LeadFilterExclusion(c, logged);
      forall l | l in query(f)
        ensures l.id !in logged
      {
        if |logged| > 0 {
          assert l.id !in Split(f[2].value.text, ',');
        }
      }
      LeadsBatchNoRepeat(EventsBatch(env, c, loggedFor, query, events[..n], ip, now), env, e,
                         query(f), ip, now, loggedFor);
    }
  }

  /** When a campaign is updated and the lead query honours the exclusion, the backfill never
      logs an event again for a lead that already had it. */
  lemma BackfillSkipsLoggedLeads(env: Env, c: SavedCampaign, loggedFor: Key -> seq<Key>,
                                 query: seq<Condition> -> seq<Lead>, ip: nat, now: nat)
    requires c.hadId && HonoursExclusion(query)
    requires forall k, i | 0 <= i < |loggedFor(k)| :: ',' !in loggedFor(k)[i]
    ensures NoRepeat(Backfill(env, c, loggedFor, query, ip, now), loggedFor)
  {
    if c.triggerExistingLeads && c.published {
      EventsBatchNoRepeat(env, c, loggedFor, query, c.events, ip, now);
    }
  }

  // ---------------------------------------------------------------------------------------
  // Environments in which nothing fires

  /** Every unchecked trigger in the environment is skipped. */
  ghost predicate Silent(env: Env)
  {
    forall e: CampaignEvent, l: Lead :: TriggerEvent(env, e, Some(l), false).Skipped?
  }

  /** A session that is not anonymous is silent, and so is any session as line 372 is written,
      with no registry. */
  lemma SilentEnvironments(env: Env)
    ensures !env.anonymous ==> Silent(env)
    ensures Silent(env.(registry := map[]))
  {
    forall e: CampaignEvent, l: Lead
      ensures TriggerEvent(env.(registry := map[]), e, Some(l), false).Skipped?
    {
      AsWrittenNeverFires(env, e, Some(l), false);
    }
  }

  lemma {:induction false} SilentLeadBatch(env: Env, lead: Lead, events: seq<CampaignEvent>, ip: nat, now: nat)
    requires Silent(env)
    ensures LeadBatch(env, lead, events, ip, now) == Empty
    decreases |events|
  {
    if events != [] {
      var n := |events| - 1;
      SilentLeadBatch(env, lead, events[..n], ip, now);
      assert TriggerEvent(env, events[n], Some(lead), false).Skipped?;
    }
  }

  lemma {:induction false} SilentLeadsBatch(b: Batch, env: Env, event: CampaignEvent, leads: seq<Lead>,
                                            ip: nat, now: nat)
    requires Silent(env)
    ensures LeadsBatch(b, env, event, leads, ip, now) == b
    decreases |leads|
  {
    if leads != [] {
      var n := |leads| - 1;
      SilentLeadsBatch(b, env, event, leads[..n], ip, now);
      assert TriggerEvent(env, event, Some(leads[n]), false).Skipped?;
    }
  }

  lemma {:induction false} SilentEventsBatch(env: Env, c: SavedCampaign, loggedFor: Key -> seq<Key>,
                                             query: seq<Condition> -> seq<Lead>,
                                             events: seq<CampaignEvent>, ip: nat, now: nat)
    requires Silent(env)
    ensures EventsBatch(env, c, loggedFor, query, events, ip, now) == Empty
    decreases |events|
  {
    if events != [] {
      var n := |events| - 1;
      var e := events[n];
      SilentEventsBatch(env, c, loggedFor, query, events[..n], ip, now);
      SilentLeadsBatch(Empty, env, e, query(LeadFilter(c, LoggedLeads(c, loggedFor, e))), ip, now);
    }
  }

  /** In a silent environment neither loop logs, queues or saves anything. */
  lemma SilentRunsLogNothing(env: Env, lead: Lead, events: seq<CampaignEvent>, c: SavedCampaign,
                             loggedFor: Key -> seq<Key>, query: seq<Condition> -> seq<Lead>,
                             ip: nat, now: nat)
    requires Silent(env)
    ensures LeadBatch(env, lead, events, ip, now) == Empty
    ensures Backfill(env, c, loggedFor, query, ip, now) == Empty
  {
    SilentLeadBatch(env, lead, events, ip, now);
    SilentEventsBatch(env, c, loggedFor, query, c.events, ip, now);
  }
}
