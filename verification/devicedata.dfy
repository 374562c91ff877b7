/** `IoTDeviceData`: the configuration record a device and its listener share,
    and the mode predicates `IoTDevice` derives from it. */
module DeviceConfig {
  import opened Outcomes
  import opened JsonTree

  /** A null `String` field is `None`.  Message texts are held parsed: the
      publication message is stored as org.json re-serialises it, which on a
      tree is the tree itself.  `responseDelay` is the delay, in milliseconds,
      that the listener waits before replying; the record as published has no
      such field although `IoTDevice` and `IoTDeviceListener` use one, so it is
      added here with Java's default of 0. */
  datatype DeviceData = DeviceData(
    subscriptionTopic: Option<string>,
    publicationTopic: Option<string>,
    publicationMessage: Option<Members>,
    topicCondition: Option<string>,
    messageCondition: Option<Members>,
    responseDelay: int)

  /** `new IoTDeviceData()`. */
  function Fresh(): (d: DeviceData)
    ensures d.subscriptionTopic.None? && d.publicationTopic.None? && d.publicationMessage.None?
    ensures d.topicCondition.None? && d.messageCondition.None?
    ensures d.responseDelay == 0
  {
    DeviceData(None, None, None, None, None, 0)
  }

  /** `setPublicationMessage`: parsing a null text fails before anything is
      stored. */
  function SetPublicationMessage(d: DeviceData, message: Option<Members>): (r: Result<DeviceData>)
    ensures r.Err? <==> message.None?
    ensures r.Err? ==> r.error == NullReference
    ensures r.Ok? ==> r.value.publicationMessage == message
    ensures r.Ok? ==> SameExceptMessage(d, r.value)
  {
    match message
    case None => Err(NullReference)
    case Some(_) => Ok(d.(publicationMessage := message))
  }

  predicate SameExceptMessage(d: DeviceData, e: DeviceData)
  {
    && d.subscriptionTopic == e.subscriptionTopic
    && d.publicationTopic == e.publicationTopic
    && d.topicCondition == e.topicCondition
    && d.messageCondition == e.messageCondition
    && d.responseDelay == e.responseDelay
  }

  /** The plain Lombok setters: each stores its argument verbatim. */
  datatype Field = SubscriptionTopic | PublicationTopic | TopicCondition | MessageCondition | ResponseDelay

  datatype Value = Text(text: Option<string>) | Payload(payload: Option<Members>) | Number(number: int)

  /** The value a setter of `f` takes, by kind. */
  predicate Fits(f: Field, v: Value)
  {
    match f
    case SubscriptionTopic => v.Text?
    case PublicationTopic => v.Text?
    case TopicCondition => v.Text?
    case MessageCondition => v.Payload?
    case ResponseDelay => v.Number?
  }

  /** What a getter of `f` returns. */
  function Get(d: DeviceData, f: Field): (v: Value)
    ensures Fits(f, v)
  {
    match f
    case SubscriptionTopic => Text(d.subscriptionTopic)
    case PublicationTopic => Text(d.publicationTopic)
    case TopicCondition => Text(d.topicCondition)
    case MessageCondition => Payload(d.messageCondition)
    case ResponseDelay => Number(d.responseDelay)
  }

  function Set(d: DeviceData, f: Field, v: Value): (r: DeviceData)
    requires Fits(f, v)
    ensures Get(r, f) == v
    ensures forall g: Field | g != f :: Get(r, g) == Get(d, g)
    ensures r.publicationMessage == d.publicationMessage
  {
    match f
    case SubscriptionTopic => d.(subscriptionTopic := v.text)
    case PublicationTopic => d.(publicationTopic := v.text)
    case TopicCondition => d.(topicCondition := v.text)
    case MessageCondition => d.(messageCondition := v.payload)
    case ResponseDelay => d.(responseDelay := v.number)
  }

  /** Reading a field returns the last value written to it, whatever was
      written to the other fields in between. */
  lemma {:induction false} LastWriteWins(d: DeviceData, writes: seq<(Field, Value)>, f: Field, v: Value)
    requires forall i | 0 <= i < |writes| :: Fits(writes[i].0, writes[i].1)
    requires Fits(f, v)
    requires forall i | 0 <= i < |writes| :: writes[i].0 != f
    ensures Get(Apply(Set(d, f, v), writes), f) == v
    decreases |writes|
  {
    if writes != [] {
      var last := |writes| - 1;
      LastWriteWins(d, writes[..last], f, v);
      assert Apply(Set(d, f, v), writes) == Set(Apply(Set(d, f, v), writes[..last]), writes[last].0, writes[last].1);
    }
  }

  /** The record after a sequence of setter calls, in order. */
  function Apply(d: DeviceData, writes: seq<(Field, Value)>): (r: DeviceData)
    requires forall i | 0 <= i < |writes| :: Fits(writes[i].0, writes[i].1)
    ensures r.publicationMessage == d.publicationMessage
    decreases |writes|
  {
    if writes == [] then d
    else
      var last := |writes| - 1;
      Set(Apply(d, writes[..last]), writes[last].0, writes[last].1)
  }

  /** Setters of different fields commute. */
  lemma SettersCommute(d: DeviceData, f: Field, v: Value, g: Field, w: Value)
    requires Fits(f, v) && Fits(g, w) && f != g
    ensures Set(Set(d, f, v), g, w) == Set(Set(d, g, w), f, v)
  {
  }

  /** `isDeviceSubscribedOnTopic`: the subscription topic getter returns a
      topic. */
  function Subscribed(d: DeviceData): (r: bool)
    ensures r <==> Get(d, SubscriptionTopic).text.Some?
  {
    d.subscriptionTopic.Some?
  }

  /** `isDevicePublishingOnTopic`, also the listener's `publicationConditionsMet`:
      a publication is configured when both its topic and its message are. */
  function Publishing(d: DeviceData): (r: bool)
    ensures r <==> Get(d, PublicationTopic).text.Some? && d.publicationMessage.Some?
  {
    d.publicationTopic.Some? && d.publicationMessage.Some?
  }

  /** The four modes of a device. */
  datatype Mode = Responding | PublishingOnly | SubscribedOnly | Idle

  /** `isDeviceRespondingOnMessage`, `isDevicePublishingOnly` and
      `isDeviceSubscribedOnly`, with `Idle` for the configuration none of them
      holds for. */
  function ModeOf(d: DeviceData): (m: Mode)
    ensures m == Responding <==> Subscribed(d) && Publishing(d)
    ensures m == PublishingOnly <==> !Subscribed(d) && Publishing(d)
    ensures m == SubscribedOnly <==> Subscribed(d) && !Publishing(d)
    ensures m == Idle <==> !Subscribed(d) && !Publishing(d)
  {
    if Subscribed(d) && Publishing(d) then Responding
    else if Publishing(d) then PublishingOnly
    else if Subscribed(d) then SubscribedOnly
    else Idle
  }

  /** The mode depends on the subscription topic and the publication pair
      only: trigger conditions and the delay play no part. */
  lemma ModeIgnoresConditions(d: DeviceData, e: DeviceData)
    requires d.subscriptionTopic.Some? == e.subscriptionTopic.Some?
    requires d.publicationTopic.Some? == e.publicationTopic.Some?
    requires d.publicationMessage.Some? == e.publicationMessage.Some?
    ensures ModeOf(d) == ModeOf(e)
  {
  }

  /** A fresh record is idle. */
  lemma FreshIsIdle()
    ensures ModeOf(Fresh()) == Idle
  {
  }
}
