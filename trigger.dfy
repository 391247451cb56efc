/** `CampaignModel::triggerEvent` (lines 348-416): three gates in order, the handler lookup,
    and the marshalling of arguments by parameter name. The session, the lead event log and the
    registry of campaign event handlers are inputs; invoking the handler is left out, so a
    call that reaches the handler is reported with the handler and the arguments it gets. */
module Trigger {
  import opened PhpValues

  /** A Lead, by its id. */
  datatype Lead = Lead(id: Key)

  /** The campaign an event belongs to, as `getId`, `getName` and `getType` report it. */
  datatype CampaignInfo = CampaignInfo(id: Key, name: string, kind: string)

  /** An Event entity as triggerEvent reads it. */
  datatype CampaignEvent = CampaignEvent(id: Key, kind: string, name: string,
                                         properties: map<string, Value>, campaign: CampaignInfo)

  /** A handler's `callback` setting: `[class, method]`, or a string. */
  datatype Callback = ArrayCallback(target: string, member: string) | StringCallback(name: string)

  /** A registry entry: the callback, what `is_callable` says of it, and the parameter names
      reflection reports for the method it names. */
  datatype Settings = Settings(callback: Callback, callable: bool, parameters: seq<string>)

  /** The method a callback names. */
  datatype Handler = Handler(target: string, member: string)

  /** What triggerEvent can hand to a handler. */
  datatype Arg =
    | EventArg(id: Key, kind: string, name: string, properties: map<string, Value>,
               campaignId: Key, campaignName: string)
    | LeadArg(lead: Lead)
    | FactoryArg
    | NullArg

  /** Everything triggerEvent reads besides its arguments: whether the session is anonymous,
      the current lead, the lead event log as (lead id, event id) pairs, and the registry of
      handlers by campaign type. */
  datatype Env = Env(anonymous: bool, currentLead: Lead, log: set<(Key, Key)>,
                     registry: map<string, Settings>)

  /** The gate that stopped a trigger. */
  datatype Gate = NotAnonymous | AlreadyApplied | UnknownType | NotCallable

  /** `Skipped` is `return false`; `Fired` is `return true` after invoking `handler` with
      `pass`; `Fault` is an error that ends the request, such as the exception of
      `new ReflectionMethod(null, ...)`. */
  datatype TriggerResult = Skipped(gate: Gate) | Fired(handler: Handler, pass: seq<Arg>) | Fault

  /** `getLeadCampaignedEvents($leadId)`: the ids of the events logged for a lead. */
  function Applied(log: set<(Key, Key)>, leadId: Key): (ids: set<Key>)
    ensures forall e :: e in ids <==> (leadId, e) in log
  {
    set p | p in log && p.0 == leadId :: p.1
  }

  /** Lines 377-390: the arguments by name. */
  function Args(event: CampaignEvent, lead: Lead): (args: map<string, Arg>)
    ensures args.Keys == {"event", "lead", "factory"}
    ensures forall name | name in args :: args[name] != NullArg
    ensures args["lead"] == LeadArg(lead)
    ensures args["event"].EventArg? && args["event"].id == event.id &&
            args["event"].campaignId == event.campaign.id
  {
    map["event" := EventArg(event.id, event.kind, event.name, event.properties,
                            event.campaign.id, event.campaign.name),
        "lead" := LeadArg(lead),
        "factory" := FactoryArg]
  }

  /** Lines 402-409: one argument per parameter, in order; the argument of that name, or null
      when there is none. */
  function Marshalled(parameters: seq<string>, args: map<string, Arg>): (pass: seq<Arg>)
    ensures |pass| == |parameters|
    ensures forall i | 0 <= i < |parameters| ::
              pass[i] == if parameters[i] in args then args[parameters[i]] else NullArg
    decreases |parameters|
  {
    if parameters == [] then []
    else
      var n := |parameters| - 1;
      Marshalled(parameters[..n], args) +
        [if parameters[n] in args then args[parameters[n]] else NullArg]
  }

  /** The marshalling loop of lines 402-409. */
  method Marshal(parameters: seq<string>, args: map<string, Arg>) returns (pass: seq<Arg>)
    ensures pass == Marshalled(parameters, args)
  {
    pass := [];
    for i := 0 to |parameters|
      invariant pass == Marshalled(parameters[..i], args)
    {
      var name := parameters[i];
      if name in args {
        pass := pass + [args[name]];
      } else {
        pass := pass + [NullArg];
      }
      assert parameters[..i + 1][..i] == parameters[..i];
    }
    assert parameters[..|parameters|] == parameters;
  }

  /** Lines 393-400: the method a callable callback names; `None` for a plain function name,
      for which `new ReflectionMethod(null, $name)` throws. */
  function HandlerOf(callback: Callback): (h: Option<Handler>)
    ensures callback.ArrayCallback? ==> h == Some(Handler(callback.target, callback.member))
    ensures callback.StringCallback? ==> (h.Some? <==> Find(callback.name, "::", 0).Some?)
  {
    match callback
    case ArrayCallback(t, m) => Some(Handler(t, m))
    case StringCallback(s) =>
      if Find(s, "::", 0).Some? then
        var parts := Explode(s, "::");
        Some(Handler(parts[0], parts[1]))
      else None
  }

  /** The lead a trigger acts for: a null lead is replaced by the current lead. */
  function LeadOf(env: Env, lead: Option<Lead>): (l: Lead)
    ensures lead.Some? ==> l == lead.value
    ensures lead.None? ==> l == env.currentLead
  {
    if lead.Some? then lead.value else env.currentLead
  }

  /** Lines 348-416 with the registry of handlers given; `lead` is `None` for a null lead. */
  function TriggerEvent(env: Env, event: CampaignEvent, lead: Option<Lead>, checkApplied: bool)
    : (r: TriggerResult)
    ensures !env.anonymous ==> r == Skipped(NotAnonymous)
    ensures !r.Skipped? ==> event.campaign.kind in env.registry && env.registry[event.campaign.kind].callable
    ensures r.Fired? ==> |r.pass| == |env.registry[event.campaign.kind].parameters|
    ensures checkApplied && (LeadOf(env, lead).id, event.id) in env.log ==> r.Skipped?
  {
    if !env.anonymous then Skipped(NotAnonymous)
    else
      var l := LeadOf(env, lead);
      if checkApplied && event.id in Applied(env.log, l.id) then Skipped(AlreadyApplied)
      else if event.campaign.kind !in env.registry then Skipped(UnknownType)
      else
        var settings := env.registry[event.campaign.kind];
        if !settings.callable then Skipped(NotCallable)
        else
          match HandlerOf(settings.callback)
          case None => Fault
          case Some(h) => Fired(h, Marshalled(settings.parameters, Args(event, l)))
  }

  /** The gates, in order: a session that is not anonymous stops everything; then an event
      already logged for the lead when `checkApplied` is set; then a campaign type with no
      handler; then a callback that is not callable. A trigger fires exactly when it passes all
      four and the callback names a method; a plain function name faults. */
  lemma TriggerGates(env: Env, event: CampaignEvent, lead: Option<Lead>, checkApplied: bool)
    ensures var r := TriggerEvent(env, event, lead, checkApplied);
            var applied := checkApplied && (LeadOf(env, lead).id, event.id) in env.log;
            var kind := event.campaign.kind;
            && (!env.anonymous ==> r == Skipped(NotAnonymous))
            && (env.anonymous && applied ==> r == Skipped(AlreadyApplied))
            && (env.anonymous && !applied && kind !in env.registry ==> r == Skipped(UnknownType))
            && (r.Fired? <==> env.anonymous && !applied && kind in env.registry &&
                              env.registry[kind].callable && HandlerOf(env.registry[kind].callback).Some?)
            && (r == Fault <==> env.anonymous && !applied && kind in env.registry &&
                                env.registry[kind].callable && HandlerOf(env.registry[kind].callback).None?)
  {
  }

  /** Once the log holds the pair, a trigger that checks the log skips it: the same event
      never fires twice for a lead through a checked trigger. */
  lemma LoggedNotFiredAgain(env: Env, event: CampaignEvent, lead: Lead)
    requires env.anonymous
    ensures TriggerEvent(env.(log := env.log + {(lead.id, event.id)}), event, Some(lead), true) ==
            Skipped(AlreadyApplied)
  {
  }

  /** An unchecked trigger does not read the log. */
  lemma UncheckedIgnoresLog(env: Env, log: set<(Key, Key)>, event: CampaignEvent, lead: Option<Lead>)
    ensures TriggerEvent(env.(log := log), event, lead, false) == TriggerEvent(env, event, lead, false)
  {
  }

  /** A fired handler gets, for each of its parameters, the event summary under `event`, the
      lead under `lead`, the factory under `factory`, and null under any other name. */
  lemma FiredArguments(env: Env, event: CampaignEvent, lead: Option<Lead>, checkApplied: bool)
    requires TriggerEvent(env, event, lead, checkApplied).Fired?
    ensures var parameters := env.registry[event.campaign.kind].parameters;
            var pass := TriggerEvent(env, event, lead, checkApplied).pass;
            && |pass| == |parameters|
            && forall i | 0 <= i < |parameters| ::
                 pass[i] == match parameters[i]
                            case "event" => EventArg(event.id, event.kind, event.name, event.properties,
                                                     event.campaign.id, event.campaign.name)
                            case "lead" => LeadArg(LeadOf(env, lead))
                            case "factory" => FactoryArg
                            case _ => NullArg
  {
  }

  /** A `Class::method` string names the same method as the array `[Class, method]`. */
  lemma StaticStringNamesSameMethod(target: string, member: string)
    requires ':' !in target && ':' !in member
    ensures HandlerOf(StringCallback(target + "::" + member)) == HandlerOf(ArrayCallback(target, member))
  {
    ExplodeJoined(target, member);
    assert At(target + "::" + member, "::", |target|) by {
      assert (target + "::" + member)[|target|..|target| + 2] == "::";
    }
  }

  // ---------------------------------------------------------------------------------------
  // Line 372 as written

  /** triggerEvent as written: `$availableEvents` is never assigned, so `isset` on it is false
      and the registry it reads is empty. */
  function TriggerEventAsWritten(env: Env, event: CampaignEvent, lead: Option<Lead>, checkApplied: bool)
    : (r: TriggerResult)
    ensures r.Skipped?
  {
    TriggerEvent(env.(registry := map[]), event, lead, checkApplied)
  }

  /** As written, triggerEvent never fires and never faults: every call that passes the first
      two gates stops at the registry lookup. */
  lemma AsWrittenNeverFires(env: Env, event: CampaignEvent, lead: Option<Lead>, checkApplied: bool)
    ensures TriggerEventAsWritten(env, event, lead, checkApplied).Skipped?
    ensures env.anonymous && !(checkApplied && (LeadOf(env, lead).id, event.id) in env.log) ==>
            TriggerEventAsWritten(env, event, lead, checkApplied) == Skipped(UnknownType)
  {
  }

  // ---------------------------------------------------------------------------------------
  // Line 348 as written

  /** The class of the object handed to triggerEvent as `$event`. */
  datatype EventClass = EventEntity | ModelCampaignEvent

  /** triggerEvent with the type hint of line 348 as written. The `use` list (lines 12-19)
      imports no `CampaignEvent`, so the hint names `CampaignEvent` of this model's own
      namespace, and PHP checks it before the body runs. Both callers hand over `Event`
      entities: line 127 the campaign's events, line 444 the repository's. */
  function TriggerEventHintedAsWritten(env: Env, given: EventClass, event: CampaignEvent,
                                       lead: Option<Lead>, checkApplied: bool): (r: TriggerResult)
    ensures given == EventEntity ==> r == Fault
    ensures given == ModelCampaignEvent ==> r == TriggerEvent(env, event, lead, checkApplied)
  {
    if given == ModelCampaignEvent then TriggerEvent(env, event, lead, checkApplied) else Fault
  }

  /** As written, an `Event` entity fails the hint even in a session that is not anonymous,
      where the body would have returned false at its first gate. */
  lemma HintRejectsCallers(env: Env, event: CampaignEvent, lead: Option<Lead>, checkApplied: bool)
    requires !env.anonymous
    ensures TriggerEventHintedAsWritten(env, EventEntity, event, lead, checkApplied) == Fault
    ensures TriggerEvent(env, event, lead, checkApplied) == Skipped(NotAnonymous)
  {
  }
}
