/** What a responding device does with the messages its placeholder condition
    describes: it accepts exactly the instances of the condition, and answers
    each with the instance of its reply template under the same values. */
module RoundTrip {
  import opened Outcomes
  import opened JsonTree
  import opened MaskMatcher
  import opened Templates
  import opened DeviceConfig
  import opened Listener
  import opened Extraction
  import TemplateFacts
  import ListenerFacts

  /** Every instance of a simple condition with placeholders passes the
      payload test; as written too, when the condition holds no spaces. */
  lemma InstancesMatch(v: Variant, e: Members, env: map<string, Json>)
    requires SimpleMask(JObject(e)) && Supplies(env, JObject(e)) && HasMaskParam(JObject(e))
    requires v == AsWritten ==> SpaceFreeTree(JObject(e))
    ensures PayloadMatches(v, Some(e), Inst(JObject(e), env).members) == Ok(true)
  {
    var payload := Inst(JObject(e), env).members;
    ExtractThenFill(e, env, e);
    var b := MatchObject(payload, e, true).value;
    if v == AsWritten {
      TemplateFacts.SpaceFreeTemplatesAgree(e, b);
    }
    assert Substitute(v, e, b) == Ok(payload);
    PayloadTestPasses(v, e, payload, b);
  }

  /** The payload test succeeds when the strict match's bindings rebuild the
      payload from the condition. */
  lemma PayloadTestPasses(v: Variant, c: Members, payload: Members, b: Bindings)
    requires HasMaskParam(JObject(c))
    requires MatchObject(payload, c, true) == Ok(b)
    requires Substitute(v, c, b) == Ok(payload)
    ensures PayloadMatches(v, Some(c), payload) == Ok(true)
  {
    PayloadTestUnfolds(v, c, payload, b);
  }

  lemma PayloadTestUnfolds(v: Variant, c: Members, payload: Members, b: Bindings)
    requires HasMaskParam(JObject(c))
    requires MatchObject(payload, c, true) == Ok(b)
    ensures Substitute(v, c, b).Ok? ==> PayloadMatches(v, Some(c), payload) == Ok(Substitute(v, c, b).value == payload)
  {
  }

  /** Conversely, a payload the intended payload test accepts is an instance
      of the condition. */
  lemma MatchesAreInstances(e: Members, payload: Members)
    requires PayloadMatches(Corrected, Some(e), payload) == Ok(true)
    ensures exists env :: payload == Inst(JObject(e), env).members
  {
    if HasMaskParam(JObject(e)) {
      var b := MatchObject(payload, e, true).value;
      TemplateFacts.FillOkIsInstance(JObject(e), b);
      assert payload == Inst(JObject(e), BoundValues(b)).members;
    } else {
      TemplateFacts.InstWithNothingBound(JObject(e));
      assert payload == Inst(JObject(e), map[]).members;
    }
  }

  /** A responding device whose condition has placeholders answers an
      instance of the condition, on whatever topic it arrives, with the
      instance of its reply template under the same values, provided the
      template mentions only names the condition binds.  As written this
      holds when neither the condition nor the template holds a space. */
  lemma RespondsWithInstance(
    v: Variant, d: DeviceData, latch: bool, topic: string, env: map<string, Json>)
    requires Publishing(d) && d.messageCondition.Some? && d.responseDelay >= 0
    requires var e := d.messageCondition.value;
             SimpleMask(JObject(e)) && Supplies(env, JObject(e)) && HasMaskParam(JObject(e))
    requires forall n | Mentions(JObject(d.publicationMessage.value), n) :: Mentions(JObject(d.messageCondition.value), n)
    requires v == AsWritten ==> SpaceFreeTree(JObject(d.publicationMessage.value))
    ensures var e := d.messageCondition.value;
            OnMessage(v, d, latch, Message(topic, Inst(JObject(e), env).members), true) ==
            Ok(Reaction(true, Some(Publication(d.publicationTopic.value, Inst(JObject(d.publicationMessage.value), env).members))))
  {
    var e := d.messageCondition.value;
    var template := d.publicationMessage.value;
    ExtractThenFill(e, env, template);
    var b := MatchObject(Inst(JObject(e), env).members, e, true).value;
    if v == AsWritten {
      TemplateFacts.SpaceFreeTemplatesAgree(template, b);
    }
    assert Substitute(v, template, b) == Ok(Inst(JObject(template), env).members);
    ListenerFacts.PlaceholderReplyIgnoresTopic(
      v, d, latch, Inst(JObject(e), env).members, topic, true, b, Inst(JObject(template), env).members);
  }
}
