/** `IoTDevice`: configuration, the start/stop/close life cycle, on-demand
    publishing, and polling the listener's latch.

    The MQTT clients are reduced to what the code tests of them: whether the
    device's own client is connected and whether the listener's publisher is.
    Whether the broker accepts a call is the parameter `linkOk`. */
module Device {
  import opened Outcomes
  import opened JsonTree
  import opened MaskMatcher
  import opened DeviceConfig
  import Listener

  /** `IoTDeviceState`, with `Unset` for the null a new device starts with. */
  datatype State = Unset | Running | Stopped

  /** An `IoTDeviceListener` as the device sees it: its latch and whether its
      own publisher is connected. */
  datatype ListenerState = ListenerState(latch: bool, publisherConnected: bool)

  datatype Device = Device(state: State, connected: bool, listener: Option<ListenerState>, data: DeviceData)

  /** `new IoTDevice(...)`. */
  function New(): (dev: Device)
    ensures dev.state == Unset && !dev.connected && dev.listener.None?
    ensures dev.data == Fresh()
  {
    Device(Unset, false, None, Fresh())
  }

  /** The life cycle part of a device: everything but its configuration. */
  predicate SameLifecycle(a: Device, b: Device)
  {
    a.state == b.state && a.connected == b.connected && a.listener == b.listener
  }

  /** `subscribeTo`, `subscribeTriggerTopicCondition`,
      `subscribeTriggerMessageCondition`, `setResponseMessageDelayInSeconds`
      and the topic half of `publishMessageTo`: one field set, nothing else
      touched. */
  function Configure(dev: Device, f: Field, v: Value): (r: Device)
    requires Fits(f, v)
    ensures Get(r.data, f) == v
    ensures forall g: Field | g != f :: Get(r.data, g) == Get(dev.data, g)
    ensures r.data.publicationMessage == dev.data.publicationMessage
    ensures SameLifecycle(dev, r)
  {
    dev.(data := Set(dev.data, f, v))
  }

  /** `publishMessageTo`: the message is stored first, so a missing message
      fails before the topic is written. */
  function PublishMessageTo(dev: Device, message: Option<Members>, topic: Option<string>): (r: Result<Device>)
    ensures r.Err? <==> message.None?
    ensures r.Err? ==> r.error == NullReference
    ensures r.Ok? ==> r.value.data.publicationMessage == message && r.value.data.publicationTopic == topic
    ensures r.Ok? ==> forall g: Field | g != PublicationTopic :: Get(r.value.data, g) == Get(dev.data, g)
    ensures r.Ok? ==> SameLifecycle(dev, r.value)
  {
    var data :- SetPublicationMessage(dev.data, message);
    Ok(dev.(data := Set(data, PublicationTopic, Text(topic))))
  }

  /** Setting a trigger condition or the delay never changes the mode. */
  lemma ConditionsKeepMode(dev: Device, f: Field, v: Value)
    requires Fits(f, v) && f in {TopicCondition, MessageCondition, ResponseDelay}
    ensures ModeOf(Configure(dev, f, v).data) == ModeOf(dev.data)
  {
    var r := Configure(dev, f, v);
    assert Get(r.data, SubscriptionTopic) == Get(dev.data, SubscriptionTopic);
    assert Get(r.data, PublicationTopic) == Get(dev.data, PublicationTopic);
    ModeIgnoresConditions(dev.data, r.data);
  }

  /** `startSimulation`: nothing happens when the client is already
      connected; otherwise the client connects and the mode decides the rest.
      A responding device gets a fresh listener whose publisher is connected,
      a subscribed-only device a fresh listener without one, a publishing-only
      device keeps whatever listener it had, and an idle device only
      connects. */
  function Start(dev: Device, linkOk: bool): (r: Result<Device>)
    ensures dev.connected ==> r == Ok(dev)
    ensures r.Err? <==> !dev.connected && !linkOk
    ensures r.Err? ==> r.error == Transport
    ensures r.Ok? ==> r.value.connected && r.value.data == dev.data
    ensures r.Ok? && !dev.connected ==>
              && (ModeOf(dev.data) != Idle ==> r.value.state == Running)
              && (ModeOf(dev.data) == Idle ==> r.value.state == dev.state)
    ensures r.Ok? && !dev.connected ==>
              r.value.listener ==
              if Subscribed(dev.data) then Some(ListenerState(false, Publishing(dev.data))) else dev.listener
  {
    if dev.connected then Ok(dev)
    else if !linkOk then Err(Transport)
    else
      match ModeOf(dev.data)
      case Responding => Ok(Device(Running, true, Some(ListenerState(false, true)), dev.data))
      case PublishingOnly => Ok(dev.(state := Running, connected := true))
      case SubscribedOnly => Ok(Device(Running, true, Some(ListenerState(false, false)), dev.data))
      case Idle => Ok(dev.(connected := true))
  }

  /** A broker call is needed to stop when the listener's publisher or the
      device's client is connected. */
  predicate StopNeedsLink(dev: Device)
  {
    dev.connected || (dev.listener.Some? && dev.listener.value.publisherConnected)
  }

  /** `stopSimulation`: both connections closed and the state `Stopped`; the
      listener and its latch are kept. */
  function Stop(dev: Device, linkOk: bool): (r: Result<Device>)
    ensures r.Err? <==> StopNeedsLink(dev) && !linkOk
    ensures r.Err? ==> r.error == Transport
    ensures r.Ok? ==> r.value.state == Stopped && !StopNeedsLink(r.value)
    ensures r.Ok? ==> r.value.data == dev.data
    ensures r.Ok? ==> r.value.listener.Some? == dev.listener.Some?
    ensures r.Ok? && dev.listener.Some? ==> r.value.listener.value.latch == dev.listener.value.latch
  {
    if StopNeedsLink(dev) && !linkOk then Err(Transport)
    else
      var listener := match dev.listener
        case None => None
        case Some(l) => Some(l.(publisherConnected := false));
      Ok(Device(Stopped, false, listener, dev.data))
  }

  /** `closeSimulation`: stop, then forget the whole configuration. */
  function Close(dev: Device, linkOk: bool): (r: Result<Device>)
    ensures r.Err? <==> Stop(dev, linkOk).Err?
    ensures r.Ok? ==> r.value.state == Stopped && !StopNeedsLink(r.value)
    ensures r.Ok? ==> r.value.data == Fresh()
  {
    var stopped :- Stop(dev, linkOk);
    Ok(stopped.(data := Fresh()))
  }

  /** `canPublishOnDemand`: responding or publishing only, with a publication
      message free of placeholders. */
  function CanPublishOnDemand(d: DeviceData): (r: bool)
    ensures r <==> Publishing(d) && !HasMaskParam(JObject(d.publicationMessage.value))
  {
    (ModeOf(d) == Responding || ModeOf(d) == PublishingOnly) && !HasMaskParam(JObject(d.publicationMessage.value))
  }

  /** `publishMessage`: the stored message, unchanged, to the stored topic. */
  function PublishMessage(dev: Device, linkOk: bool): (r: Result<Listener.Publication>)
    ensures r.Err? && r.error == IllegalState <==>
              !Publishing(dev.data) || HasMaskParam(JObject(dev.data.publicationMessage.value))
    ensures r.Ok? <==> Publishing(dev.data) && !HasMaskParam(JObject(dev.data.publicationMessage.value)) && linkOk
    ensures r.Ok? ==> r.value == Listener.Publication(dev.data.publicationTopic.value, dev.data.publicationMessage.value)
  {
    if !CanPublishOnDemand(dev.data) then Err(IllegalState)
    else if !linkOk then Err(Transport)
    else Ok(Listener.Publication(dev.data.publicationTopic.value, dev.data.publicationMessage.value))
  }

  /** `isExpectedMessageOnSubscribedTopic`: an unsubscribed device refuses;
      a subscribed device that never created a listener fails on the null
      listener; otherwise the latch is read and cleared. */
  function IsExpectedMessage(dev: Device): (r: Result<(bool, Device)>)
    ensures r.Err? <==> !Subscribed(dev.data) || dev.listener.None?
    ensures r.Err? ==> r.error == if Subscribed(dev.data) then NullReference else IllegalState
    ensures r.Ok? ==> r.value.0 == dev.listener.value.latch
    ensures r.Ok? ==> r.value.1.listener == Some(dev.listener.value.(latch := false))
    ensures r.Ok? ==> r.value.1.data == dev.data && r.value.1.state == dev.state && r.value.1.connected == dev.connected
  {
    if !Subscribed(dev.data) then Err(IllegalState)
    else if dev.listener.None? then Err(NullReference)
    else
      var (seen, latch) := Listener.Poll(dev.listener.value.latch);
      Ok((seen, dev.(listener := Some(dev.listener.value.(latch := latch)))))
  }

  /** A message the broker routes to the device's listener.  Nothing is
      delivered to a disconnected device or one without a listener.  The
      listener replies through its own publisher, so a reply also needs that
      publisher connected. */
  function Deliver(v: Listener.Variant, dev: Device, m: Listener.Message, linkOk: bool)
    : (r: Result<(Device, Option<Listener.Publication>)>)
    ensures !dev.connected || dev.listener.None? ==> r == Ok((dev, None))
    ensures r.Ok? ==> r.value.0.data == dev.data && r.value.0.state == dev.state && r.value.0.connected == dev.connected
    ensures r.Ok? ==> r.value.0.listener.Some? == dev.listener.Some?
    ensures r.Ok? && r.value.1.Some? ==> dev.listener.value.publisherConnected && r.value.0.listener.value.latch
    ensures r.Ok? && dev.listener.Some? && dev.listener.value.latch ==> r.value.0.listener.value.latch
  {
    if !dev.connected || dev.listener.None? then Ok((dev, None))
    else
      var l := dev.listener.value;
      var reaction :- Listener.OnMessage(v, dev.data, l.latch, m, linkOk && l.publisherConnected);
      Ok((dev.(listener := Some(l.(latch := reaction.received))), reaction.sent))
  }

  /** Starting twice is starting once. */
  lemma StartIdempotent(dev: Device, linkOk: bool, linkOk2: bool)
    requires Start(dev, linkOk).Ok?
    ensures Start(Start(dev, linkOk).value, linkOk2) == Start(dev, linkOk)
  {
  }

  /** A closed device restarts idle: connected, but with the state and the
      listener it was closed with. */
  lemma RestartAfterCloseIsIdle(dev: Device, linkOk: bool)
    requires Close(dev, linkOk).Ok?
    ensures Start(Close(dev, linkOk).value, true) == Ok(Close(dev, linkOk).value.(connected := true))
  {
    FreshIsIdle();
  }

  /** Right after a start that creates a listener, polling reports nothing,
      and a message the listener accepts is reported by exactly one poll. */
  lemma FreshListenerReportsOnce(v: Listener.Variant, dev: Device, m: Listener.Message)
    requires Start(dev, true).Ok? && !dev.connected && Subscribed(dev.data)
    requires Deliver(v, Start(dev, true).value, m, true).Ok?
    ensures IsExpectedMessage(Start(dev, true).value).Ok?
    ensures !IsExpectedMessage(Start(dev, true).value).value.0
    ensures var after := Deliver(v, Start(dev, true).value, m, true).value.0;
            var first := IsExpectedMessage(after);
            && first.Ok?
            && (first.value.0 <==> Listener.OnMessage(v, dev.data, false, m, Publishing(dev.data)).value.received)
            && !IsExpectedMessage(first.value.1).value.0
  {
  }

  /** On-demand publishing depends on the configuration only, not on the life
      cycle. */
  lemma PublishIgnoresLifecycle(a: Device, b: Device, linkOk: bool)
    requires a.data == b.data
    ensures PublishMessage(a, linkOk) == PublishMessage(b, linkOk)
  {
  }
}
