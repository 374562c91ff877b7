/** `IoTDeviceListener`: the trigger gate a subscribed device applies to every
    message it receives, the reply it publishes, and the consume-once latch
    `isExpectedMessageOnSubscribedTopic` reads.

    Two variants are modelled side by side.  `AsWritten` is the code as it
    stands: the message condition is parsed without a null guard before any
    branch is chosen, and replies are built by the substitutor that deletes
    spaces from the template.  `Corrected` treats a missing message condition
    as one without placeholders and substitutes without deleting spaces. */
module Listener {
  import opened Outcomes
  import opened JsonTree
  import opened MaskMatcher
  import opened Templates
  import opened DeviceConfig
  import TemplateFacts

  datatype Variant = AsWritten | Corrected

  /** An MQTT message as the listener sees it: its topic and its parsed
      payload. */
  datatype Message = Message(topic: string, payload: Members)

  /** A message the device publishes. */
  datatype Publication = Publication(topic: string, payload: Members)

  /** What handling one message did: the latch afterwards and the reply, if
      one was published. */
  datatype Reaction = Reaction(received: bool, sent: Option<Publication>)

  /** The substitutor each variant uses.  With bindings that read back as
      themselves the corrected variant always gives the reference substitution;
      the variant as written gives it on a template without spaces. */
  function Substitute(v: Variant, template: Members, b: Bindings): (r: Result<Members>)
    ensures v == Corrected && Readable(b) ==> r == Ok(Inst(JObject(template), BoundValues(b)).members)
    ensures SpaceFreeTree(JObject(template)) && Readable(b) ==> r == Ok(Inst(JObject(template), BoundValues(b)).members)
    ensures r.Err? ==> r.error == InvalidJson
  {
    assert Readable(b) ==> FillTemplate(template, b) == Ok(Inst(JObject(template), BoundValues(b)).members) by {
      if Readable(b) {
        TemplateFacts.FillIsInstance(JObject(template), b);
      }
    }
    match v
    case AsWritten =>
      assert SpaceFreeTree(JObject(template)) ==> UpdateJsonParamsWithValues(template, b) == FillTemplate(template, b) by {
        if SpaceFreeTree(JObject(template)) {
          TemplateFacts.SpaceFreeTemplatesAgree(template, b);
        }
      }
      UpdateJsonParamsWithValues(template, b)
    case Corrected => FillTemplate(template, b)
  }

  /** `containsMaskParams(getSubscribeMessageCondition())` at the head of
      `onMessage`. */
  function HasParams(v: Variant, condition: Option<Members>): (r: Result<bool>)
    ensures r.Err? <==> v == AsWritten && condition.None?
    ensures r == Ok(true) <==> condition.Some? && HasMaskParam(JObject(condition.value))
  {
    match v
    case AsWritten => ContainsMaskParams(condition)
    case Corrected => Ok(condition.Some? && HasMaskParam(JObject(condition.value)))
  }

  /** `messageFromExpectedTopic`. */
  function TopicMatches(condition: Option<string>, topic: string): (r: bool)
    ensures r <==> condition == Some(topic)
    ensures condition.None? ==> !r
  {
    condition.Some? && condition.value == topic
  }

  /** `messageWithExpectedPayload`: no condition never matches; a condition
      without placeholders must equal the payload; a condition with
      placeholders is matched strictly against the payload, filled with the
      bindings found, and must then equal the payload.  A mapping failure
      means no match; any other failure escapes. */
  function PayloadMatches(v: Variant, condition: Option<Members>, payload: Members): (r: Result<bool>)
    ensures condition.None? ==> r == Ok(false)
    ensures condition.Some? && !HasMaskParam(JObject(condition.value)) ==> r == Ok(condition.value == payload)
    ensures r == Ok(true) ==>
              condition.Some? && (condition.value == payload || MatchObject(payload, condition.value, true).Ok?)
    ensures r.Err? ==> !r.error.PayloadMapping? && !r.error.MissingKey?
  {
    match condition
    case None => Ok(false)
    case Some(c) =>
      if HasMaskParam(JObject(c)) then
        match MatchObject(payload, c, true)
        case Err(e) => if e.PayloadMapping? then Ok(false) else Err(e)
        case Ok(b) =>
          var filled :- Substitute(v, c, b);
          Ok(filled == payload)
      else
        Ok(c == payload)
  }

  /** `subscriptionConditionsMet`: topic and payload, payload alone when there
      is no topic condition, or topic alone when there is no message
      condition.  Java evaluates the payload test on every path through the
      disjunction, so its failures always escape. */
  function ConditionsMet(v: Variant, d: DeviceData, m: Message): (r: Result<bool>)
    ensures r.Err? <==> PayloadMatches(v, d.messageCondition, m.payload).Err?
    ensures d.topicCondition.None? && d.messageCondition.None? ==> r == Ok(false)
    ensures d.topicCondition.Some? && d.messageCondition.None? ==> r == Ok(m.topic == d.topicCondition.value)
    ensures d.topicCondition.None? && d.messageCondition.Some? ==>
              r == PayloadMatches(v, d.messageCondition, m.payload)
    ensures d.topicCondition.Some? && d.messageCondition.Some? && r.Ok? ==>
              (r.value <==> m.topic == d.topicCondition.value && PayloadMatches(v, d.messageCondition, m.payload).value)
  {
    var payload :- PayloadMatches(v, d.messageCondition, m.payload);
    var topic := TopicMatches(d.topicCondition, m.topic);
    Ok((topic && payload) || (payload && d.topicCondition.None?) || (topic && d.messageCondition.None?))
  }

  /** `waitForPublishingResponse` followed by `publishIotDeviceData`:
      `Thread.sleep` rejects a negative delay, and a broker failure surfaces as
      `AwsException`.  Whether the broker accepts the message is `linkOk`. */
  function Reply(d: DeviceData, payload: Members, linkOk: bool): (r: Result<Reaction>)
    requires Publishing(d)
    ensures r.Ok? <==> d.responseDelay >= 0 && linkOk
    ensures r.Err? ==> r.error == (if d.responseDelay < 0 then NegativeDelay else Transport)
    ensures r.Ok? ==> r.value == Reaction(true, Some(Publication(d.publicationTopic.value, payload)))
  {
    if d.responseDelay < 0 then Err(NegativeDelay)
    else if !linkOk then Err(Transport)
    else Ok(Reaction(true, Some(Publication(d.publicationTopic.value, payload))))
  }

  /** `onMessage`, with the latch before the message in `latch`. */
  function OnMessage(v: Variant, d: DeviceData, latch: bool, m: Message, linkOk: bool): (r: Result<Reaction>)
    ensures r.Ok? && latch ==> r.value.received
    ensures r.Ok? && r.value.sent.Some? ==>
              && r.value.received
              && Publishing(d)
              && r.value.sent.value.topic == d.publicationTopic.value
    ensures r.Ok? && r.value.sent.Some? ==> d.responseDelay >= 0 && linkOk
    ensures r.Err? ==> !r.error.PayloadMapping?
  {
    var hasParams :- HasParams(v, d.messageCondition);
    if hasParams && Publishing(d) then
      match MatchObject(m.payload, d.messageCondition.value, true)
      case Err(e) => if e.PayloadMapping? then Ok(Reaction(true, None)) else Err(e)
      case Ok(b) =>
        var reply :- Substitute(v, d.publicationMessage.value, b);
        Reply(d, reply, linkOk)
    else
      var met :- ConditionsMet(v, d, m);
      if met && Publishing(d) then Reply(d, d.publicationMessage.value, linkOk)
      else if met then Ok(Reaction(true, None))
      else Ok(Reaction(latch, None))
  }

  /** `expectedMessageHasBeenPublished`: the latch's value, and the latch
      cleared. */
  function Poll(latch: bool): (r: (bool, bool))
    ensures r.0 == latch
    ensures !r.1
  {
    if latch then (true, false) else (false, false)
  }
}
