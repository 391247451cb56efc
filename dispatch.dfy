/** The type guards of `CampaignModel::createForm` (lines 64-71) and `dispatchEvent`
    (lines 171-204), and the mapping of dispatchEvent's action names to campaign event names.
    The form factory and the event dispatcher are left out: the model says what they are asked
    for. */
module Dispatch {
  import opened PhpValues

  /** What is handed to the model as `$entity`: a Campaign, or any other object. */
  datatype Subject = CampaignSubject(id: Key) | OtherSubject

  /** The four campaign event names of `CampaignEvents`. */
  datatype EventName = PreSave | PostSave | PreDelete | PostDelete

  /** The event object dispatched: the one the caller supplied, or a new CampaignEvent built
      for the campaign and its `$isNew` flag. */
  datatype DispatchedEvent = Supplied(event: Value) | Created(campaign: Key, isNew: bool)

  /** `Unsupported` is the MethodNotAllowedHttpException; `NotDispatched` is `return false`. */
  datatype DispatchResult = Unsupported | NotDispatched | Dispatched(name: EventName, event: DispatchedEvent)

  /** Lines 177-191: the event name of an action, if it has one. */
  function NameOf(action: string): (r: Option<EventName>)
    ensures r.Some? <==> action in {"pre_save", "post_save", "pre_delete", "post_delete"}
  {
    match action
    case "pre_save" => Some(PreSave)
    case "post_save" => Some(PostSave)
    case "pre_delete" => Some(PreDelete)
    case "post_delete" => Some(PostDelete)
    case _ => None
  }

  /** The action that names an event. */
  function ActionOf(name: EventName): string
  {
    match name
    case PreSave => "pre_save"
    case PostSave => "post_save"
    case PreDelete => "pre_delete"
    case PostDelete => "post_delete"
  }

  /** Each event name has exactly one action, and each of the four actions names its event. */
  lemma NameActionRoundTrip(name: EventName, action: string)
    ensures NameOf(ActionOf(name)) == Some(name)
    ensures NameOf(action) == Some(name) <==> action == ActionOf(name)
  {
  }

  /** Lines 171-204. `hasListeners` is what the dispatcher reports for each name; `supplied`
      is the `$event` argument, `false` when the caller gave none. */
  function DispatchEvent(action: string, entity: Subject, isNew: bool, supplied: Value,
                         hasListeners: EventName -> bool): (r: DispatchResult)
    ensures r == Unsupported <==> entity.OtherSubject?
    ensures r.Dispatched? <==>
              entity.CampaignSubject? && NameOf(action).Some? && hasListeners(NameOf(action).value)
    ensures r.Dispatched? ==>
              && action == ActionOf(r.name)
              && (IsEmpty(supplied) ==> r.event == Created(entity.id, isNew))
              && (!IsEmpty(supplied) ==> r.event == Supplied(supplied))
  {
    if entity.OtherSubject? then Unsupported
    else
      match NameOf(action)
      case None => NotDispatched
      case Some(name) =>
        if hasListeners(name) then
          Dispatched(name, if IsEmpty(supplied) then Created(entity.id, isNew) else Supplied(supplied))
        else NotDispatched
  }

  /** What createForm asks the form factory for: the `campaign` form type, the entity and the
      options, which hold `action` exactly when the action is not empty. */
  datatype FormRequest = FormRequest(formType: string, entity: Key, params: map<string, Value>)

  datatype FormResult = FormRefused | Form(request: FormRequest)

  /** Lines 64-71. */
  function CreateForm(entity: Subject, action: Value): (r: FormResult)
    ensures r == FormRefused <==> entity.OtherSubject?
    ensures r.Form? ==> r.request.formType == "campaign" && r.request.entity == entity.id
    ensures r.Form? ==> ("action" in r.request.params <==> !IsEmpty(action))
    ensures r.Form? ==> r.request.params.Keys <= {"action"}
    ensures r.Form? && !IsEmpty(action) ==> r.request.params["action"] == action
  {
    if entity.OtherSubject? then FormRefused
    else Form(FormRequest("campaign", entity.id, if !IsEmpty(action) then map["action" := action] else map[]))
  }
}
