/** `IoTDeviceSubscriber`: the older trigger gate.  It has no placeholder
    support and no latch; with neither condition set it replies to every
    message.  `AsWritten` parses the message condition before testing it for
    null; `Corrected` tests first. */
module Subscriber {
  import opened Outcomes
  import opened JsonTree
  import opened MaskMatcher
  import opened DeviceConfig
  import Listener

  /** `messageWithExpectedPayload`: plain equality of the parsed payloads. */
  function PayloadMatches(v: Listener.Variant, condition: Option<Members>, payload: Members): (r: Result<bool>)
    ensures r.Err? <==> v == Listener.AsWritten && condition.None?
    ensures r.Err? ==> r.error == NullReference
    ensures r.Ok? ==> (r.value <==> condition == Some(payload))
  {
    match condition
    case None => if v == Listener.AsWritten then Err(NullReference) else Ok(false)
    case Some(c) => Ok(c == payload)
  }

  /** `publicationConditionsMet`: no requirements at all, or the listener's
      three-way rule.  Once requirements exist Java evaluates the payload test
      on every path through the disjunction. */
  function ConditionsMet(v: Listener.Variant, d: DeviceData, m: Listener.Message): (r: Result<bool>)
    ensures d.topicCondition.None? && d.messageCondition.None? ==> r == Ok(true)
    ensures d.topicCondition.Some? && d.messageCondition.None? ==>
              r == if v == Listener.AsWritten then Err(NullReference) else Ok(m.topic == d.topicCondition.value)
    ensures d.topicCondition.None? && d.messageCondition.Some? ==> r == Ok(m.payload == d.messageCondition.value)
    ensures d.topicCondition.Some? && d.messageCondition.Some? ==>
              r == Ok(m.topic == d.topicCondition.value && m.payload == d.messageCondition.value)
  {
    if d.topicCondition.None? && d.messageCondition.None? then Ok(true)
    else
      var payload :- PayloadMatches(v, d.messageCondition, m.payload);
      var topic := Listener.TopicMatches(d.topicCondition, m.topic);
      Ok((topic && payload) || (payload && d.topicCondition.None?) || (topic && d.messageCondition.None?))
  }

  /** `onMessage`: on a trigger, the stored publication message goes out
      unchanged to the publication topic.  A broker failure, and a trigger
      without a configured publication (whose handling by the broker client is
      not visible), surface as `Transport`. */
  function OnMessage(v: Listener.Variant, d: DeviceData, m: Listener.Message, linkOk: bool)
    : (r: Result<Option<Listener.Publication>>)
    ensures ConditionsMet(v, d, m) == Ok(false) ==> r == Ok(None)
    ensures r.Ok? && r.value.Some? ==>
              && Publishing(d)
              && r.value.value == Listener.Publication(d.publicationTopic.value, d.publicationMessage.value)
    ensures r.Ok? && r.value.Some? ==> ConditionsMet(v, d, m) == Ok(true) && linkOk
    ensures ConditionsMet(v, d, m) == Ok(true) && Publishing(d) && linkOk ==> r.Ok? && r.value.Some?
  {
    var met :- ConditionsMet(v, d, m);
    if !met then Ok(None)
    else if !linkOk || !Publishing(d) then Err(Transport)
    else Ok(Some(Listener.Publication(d.publicationTopic.value, d.publicationMessage.value)))
  }

  /** With neither condition set, every message triggers the stored reply. */
  lemma NoRequirementsAlwaysReply(v: Listener.Variant, d: DeviceData, m: Listener.Message)
    requires d.topicCondition.None? && d.messageCondition.None? && Publishing(d)
    ensures OnMessage(v, d, m, true) ==
            Ok(Some(Listener.Publication(d.publicationTopic.value, d.publicationMessage.value)))
  {
  }

  /** As written, a topic-only subscriber fails on every message. */
  lemma TopicOnlySubscriberFails(d: DeviceData, m: Listener.Message, linkOk: bool)
    requires d.topicCondition.Some? && d.messageCondition.None?
    ensures OnMessage(Listener.AsWritten, d, m, linkOk) == Err(NullReference)
  {
  }

  /** Corrected, a topic-only subscriber replies exactly on its topic. */
  lemma TopicOnlySubscriberFires(d: DeviceData, m: Listener.Message)
    requires d.topicCondition.Some? && d.messageCondition.None? && Publishing(d)
    ensures OnMessage(Listener.Corrected, d, m, true).Ok?
    ensures OnMessage(Listener.Corrected, d, m, true).value.Some? <==> m.topic == d.topicCondition.value
  {
  }

  /** Once some condition is set and the message condition holds no
      placeholder, the subscriber applies the listener's rule: both gates
      decide alike, and fail alike. */
  lemma SameRuleAsListener(v: Listener.Variant, d: DeviceData, m: Listener.Message)
    requires d.topicCondition.Some? || d.messageCondition.Some?
    requires d.messageCondition.Some? ==> !HasMaskParam(JObject(d.messageCondition.value))
    ensures ConditionsMet(v, d, m).Ok? ==> Listener.ConditionsMet(v, d, m) == ConditionsMet(v, d, m)
    ensures ConditionsMet(v, d, m).Err? ==> v == Listener.AsWritten && d.messageCondition.None?
  {
  }

  /** With no condition at all the two gates disagree on every message: the
      subscriber fires, the listener does not. */
  lemma GatesDisagreeWithoutConditions(v: Listener.Variant, d: DeviceData, m: Listener.Message)
    requires d.topicCondition.None? && d.messageCondition.None?
    ensures ConditionsMet(v, d, m) == Ok(true)
    ensures Listener.ConditionsMet(v, d, m) == Ok(false)
  {
  }
}
