/** Properties of the listener: which branch a message takes, what the latch
    records, and where the two variants part. */
module ListenerFacts {
  import opened Outcomes
  import opened JsonTree
  import opened MaskMatcher
  import opened Templates
  import opened DeviceConfig
  import opened Listener
  import Strings

  /** On the placeholder path the reply is the publication template filled
      from a strict extraction, sent whatever topic the message arrived on,
      even one the topic condition rules out. */
  lemma PlaceholderReplyIgnoresTopic(
    v: Variant, d: DeviceData, latch: bool, payload: Members, topic: string, linkOk: bool, b: Bindings, reply: Members)
    requires HasParams(v, d.messageCondition) == Ok(true) && Publishing(d)
    requires MatchObject(payload, d.messageCondition.value, true) == Ok(b)
    requires Substitute(v, d.publicationMessage.value, b) == Ok(reply)
    requires d.responseDelay >= 0 && linkOk
    ensures OnMessage(v, d, latch, Message(topic, payload), linkOk) ==
            Ok(Reaction(true, Some(Publication(d.publicationTopic.value, reply))))
  {
  }

  /** On the placeholder path a payload that does not fit the condition
      publishes nothing but still sets the latch. */
  lemma MappingFailureStillSetsLatch(v: Variant, d: DeviceData, latch: bool, m: Message, linkOk: bool)
    requires HasParams(v, d.messageCondition) == Ok(true) && Publishing(d)
    requires MatchObject(m.payload, d.messageCondition.value, true).Err?
    requires MatchObject(m.payload, d.messageCondition.value, true).error.PayloadMapping?
    ensures OnMessage(v, d, latch, m, linkOk) == Ok(Reaction(true, None))
  {
  }

  /** Off the placeholder path a message is acted on exactly when the
      subscription conditions are met: the stored publication message is sent
      unchanged when a publication is configured, and the latch is set; an
      unmet message leaves the latch as it was. */
  lemma PlainPathActsIffConditionsMet(v: Variant, d: DeviceData, latch: bool, m: Message)
    requires HasParams(v, d.messageCondition).Ok?
    requires !(HasParams(v, d.messageCondition).value && Publishing(d))
    requires d.responseDelay >= 0
    ensures OnMessage(v, d, latch, m, true).Ok? <==> ConditionsMet(v, d, m).Ok?
    ensures ConditionsMet(v, d, m).Ok? ==>
              OnMessage(v, d, latch, m, true).value ==
              if !ConditionsMet(v, d, m).value then Reaction(latch, None)
              else if Publishing(d) then Reaction(true, Some(Publication(d.publicationTopic.value, d.publicationMessage.value)))
              else Reaction(true, None)
  {
  }

  /** The latch only records: what a message does, apart from setting the
      latch, does not depend on the latch. */
  lemma DecisionIgnoresLatch(v: Variant, d: DeviceData, m: Message, linkOk: bool)
    ensures OnMessage(v, d, false, m, linkOk).Ok? == OnMessage(v, d, true, m, linkOk).Ok?
    ensures OnMessage(v, d, false, m, linkOk).Err? ==>
              OnMessage(v, d, false, m, linkOk).error == OnMessage(v, d, true, m, linkOk).error
    ensures OnMessage(v, d, false, m, linkOk).Ok? ==>
              && OnMessage(v, d, false, m, linkOk).value.sent == OnMessage(v, d, true, m, linkOk).value.sent
              && OnMessage(v, d, true, m, linkOk).value.received
  {
  }

  /** A message is accepted when, handled with the latch clear, it sets it. */
  predicate Accepted(v: Variant, d: DeviceData, m: Message, linkOk: bool)
  {
    OnMessage(v, d, false, m, linkOk).Ok? && OnMessage(v, d, false, m, linkOk).value.received
  }

  /** The latch after a run of messages, each handled in turn; the first
      failure ends the run. */
  function DeliverAll(v: Variant, d: DeviceData, latch: bool, ms: seq<Message>, linkOk: bool): (r: Result<bool>)
    ensures r.Ok? && latch ==> r.value
    ensures r.Ok? <==> forall i | 0 <= i < |ms| :: OnMessage(v, d, false, ms[i], linkOk).Ok?
    decreases |ms|
  {
    if ms == [] then Ok(latch)
    else
      DecisionIgnoresLatch(v, d, ms[0], linkOk);
      var first :- OnMessage(v, d, latch, ms[0], linkOk);
      var rest := DeliverAll(v, d, first.received, ms[1..], linkOk);
      assert forall i | 1 <= i < |ms| :: ms[i] == ms[1..][i - 1];
      rest
  }

  /** After a run of messages the latch is set exactly when it was set before
      or some message of the run was accepted. */
  lemma {:induction false} LatchRecordsAcceptance(v: Variant, d: DeviceData, latch: bool, ms: seq<Message>, linkOk: bool)
    requires DeliverAll(v, d, latch, ms, linkOk).Ok?
    ensures DeliverAll(v, d, latch, ms, linkOk).value <==>
            latch || exists i | 0 <= i < |ms| :: Accepted(v, d, ms[i], linkOk)
    decreases |ms|
  {
    if ms != [] {
      DecisionIgnoresLatch(v, d, ms[0], linkOk);
      var first := OnMessage(v, d, latch, ms[0], linkOk).value;
      assert first.received <==> latch || Accepted(v, d, ms[0], linkOk);
      LatchRecordsAcceptance(v, d, first.received, ms[1..], linkOk);
      assert forall i | 1 <= i < |ms| :: ms[i] == ms[1..][i - 1];
      if exists i | 0 <= i < |ms| :: Accepted(v, d, ms[i], linkOk) {
        var i :| 0 <= i < |ms| && Accepted(v, d, ms[i], linkOk);
        if i > 0 {
          assert Accepted(v, d, ms[1..][i - 1], linkOk);
        }
      }
    }
  }

  /** However many accepted messages arrive before a poll, that poll reports
      true once and the next reports false. */
  lemma SeveralMessagesOnePoll(v: Variant, d: DeviceData, ms: seq<Message>, linkOk: bool, i: nat, j: nat)
    requires DeliverAll(v, d, false, ms, linkOk).Ok?
    requires i < j < |ms| && Accepted(v, d, ms[i], linkOk) && Accepted(v, d, ms[j], linkOk)
    ensures Poll(DeliverAll(v, d, false, ms, linkOk).value).0
    ensures !Poll(Poll(DeliverAll(v, d, false, ms, linkOk).value).1).0
  {
    LatchRecordsAcceptance(v, d, false, ms, linkOk);
  }

  /** As written, a listener without a message condition fails on every
      message: `containsMaskParams` parses the missing condition before any
      branch is chosen, so a topic-only subscription never fires. */
  lemma MissingConditionFails(d: DeviceData, latch: bool, m: Message, linkOk: bool)
    requires d.messageCondition.None?
    ensures OnMessage(AsWritten, d, latch, m, linkOk) == Err(NullReference)
  {
  }

  /** Corrected, a topic-only listener fires exactly on its topic, and replies
      with the stored message when a publication is configured. */
  lemma TopicOnlyListenerFires(d: DeviceData, latch: bool, m: Message)
    requires d.messageCondition.None? && d.topicCondition.Some?
    requires d.responseDelay >= 0
    ensures OnMessage(Corrected, d, latch, m, true).Ok?
    ensures OnMessage(Corrected, d, latch, m, true).value.received <==> latch || m.topic == d.topicCondition.value
    ensures OnMessage(Corrected, d, latch, m, true).value.sent ==
            if m.topic == d.topicCondition.value && Publishing(d)
            then Some(Publication(d.publicationTopic.value, d.publicationMessage.value))
            else None
  {
  }

  /** Corrected, a listener with neither condition ignores every message. */
  lemma NothingTriggersWithoutConditions(d: DeviceData, latch: bool, m: Message, linkOk: bool)
    requires d.messageCondition.None? && d.topicCondition.None?
    ensures OnMessage(Corrected, d, latch, m, linkOk) == Ok(Reaction(latch, None))
  {
  }

  /** The value a string member of an object keeps when the code as written
      fills the object: its spaces are deleted, and nothing replaces it unless
      what is left is a placeholder. */
  lemma FilledStringMember(c: Members, b: Bindings, s: string)
    requires UpdateJsonParamsWithValues(c, b).Ok?
    requires s in c && SpaceFree(s) && c[s].JString?
    requires !IsPlaceholder(Squeeze(c[s].text))
    ensures s in UpdateJsonParamsWithValues(c, b).value
    ensures UpdateJsonParamsWithValues(c, b).value[s] == JString(Squeeze(c[s].text))
  {
    UpdateSteps(c, b);
    var squeezed := SqueezeTree(JObject(c)).value.members;
    SqueezedMember(c, s);
    FilledMember(squeezed, b, s);
    var t := Squeeze(c[s].text);
    SqueezeString(c[s].text);
    FillPlainString(t, b);
    assert c[s] == JString(c[s].text);
    assert squeezed[s] == JString(t);
  }

  lemma FillPlainString(x: string, b: Bindings)
    requires !IsPlaceholder(x)
    ensures Fill(JString(x), b) == Ok(JString(x))
  {
  }

  lemma SqueezeString(x: string)
    ensures SqueezeTree(JString(x)) == Ok(JString(Squeeze(x)))
  {
  }

  /** The two steps of the substitution as written, when it succeeds. */
  lemma UpdateSteps(c: Members, b: Bindings)
    requires UpdateJsonParamsWithValues(c, b).Ok?
    ensures SqueezeTree(JObject(c)).Ok? && SqueezeTree(JObject(c)).value.JObject?
    ensures Fill(SqueezeTree(JObject(c)).value, b).Ok?
    ensures UpdateJsonParamsWithValues(c, b).value == Fill(JObject(SqueezeTree(JObject(c)).value.members), b).value.members
  {
  }

  lemma SqueezedMember(c: Members, s: string)
    requires SqueezeTree(JObject(c)).Ok?
    requires s in c && SpaceFree(s)
    ensures s in SqueezeTree(JObject(c)).value.members
    ensures SqueezeTree(JObject(c)).value.members[s] == SqueezeTree(c[s]).value
  {
    Strings.StripNothing(s, {' '});
    assert SqueezeTree(JObject(c)).value.members[Squeeze(s)] == SqueezeValues(c)[s];
  }

  lemma FilledMember(m: Members, b: Bindings, s: string)
    requires Fill(JObject(m), b).Ok?
    requires s in m
    ensures s in Fill(JObject(m), b).value.members
    ensures Fill(JObject(m), b).value.members[s] == Fill(m[s], b).value
  {
    assert Fill(JObject(m), b).value.members == FillValues(m, b);
  }

  /** As written, a condition with placeholders never matches a payload that
      carries one of its literal strings holding a space: the literal loses
      its space before the comparison. */
  lemma SpacedLiteralNeverMatches(c: Members, payload: Members, s: string)
    requires HasMaskParam(JObject(c))
    requires s in c && SpaceFree(s) && c[s].JString? && !SpaceFree(c[s].text)
    requires !IsPlaceholder(Squeeze(c[s].text))
    requires s in payload && payload[s] == c[s]
    ensures PayloadMatches(AsWritten, Some(c), payload) != Ok(true)
  {
    if PayloadMatches(AsWritten, Some(c), payload) == Ok(true) {
      var b := AcceptedPayloadRebuilt(c, payload);
      FilledStringMember(c, b, s);
      SqueezeChangesSpacedText(c[s].text);
      assert false;
    }
  }

  /** As written, a payload accepted by a condition with placeholders is the
      condition filled with the bindings its strict match finds. */
  lemma AcceptedPayloadRebuilt(c: Members, payload: Members) returns (b: Bindings)
    requires HasMaskParam(JObject(c))
    requires PayloadMatches(AsWritten, Some(c), payload) == Ok(true)
    ensures MatchObject(payload, c, true) == Ok(b)
    ensures UpdateJsonParamsWithValues(c, b) == Ok(payload)
  {
    b := MatchObject(payload, c, true).value;
  }

  lemma SqueezeChangesSpacedText(t: string)
    requires !SpaceFree(t)
    ensures Squeeze(t) != t
  {
    var i :| 0 <= i < |t| && t[i] == ' ';
    if |Squeeze(t)| == |t| {
      assert Squeeze(t)[i] != t[i];
    }
  }
}
