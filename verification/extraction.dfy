/** The round trip the listener relies on: strictly matching a condition
    against one of its instances recovers the values the instance put in, each
    tagged with its own kind, and filling any template with them is the
    reference substitution. */
module Extraction {
  import opened Outcomes
  import opened JsonTree
  import opened MaskMatcher
  import opened Templates
  import KeyOrder
  import TemplateFacts
  import MatcherFacts

  /** A mask made of objects, strings, booleans and 32-bit integers: no arrays
      and no literal the classifier rejects. */
  predicate SimpleMask(t: Json)
  {
    match t
    case JObject(m) => forall k | k in m :: SimpleMask(m[k])
    case JArray(_) => false
    case JInt(n) => IsJavaInt(n)
    case JOther(_) => false
    case _ => true
  }

  /** `env` gives every name `t` mentions a value the classifier accepts and
      that reads back after rendering. */
  ghost predicate Supplies(env: map<string, Json>, t: Json)
  {
    forall n | Mentions(t, n) :: n in env && Classify(env[n]).Ok? && (env[n].JString? ==> Quotable(env[n].text))
  }

  /** Every binding in `b` is for a name `t` mentions and holds `env`'s value,
      tagged with that value's kind. */
  predicate Agrees(b: Bindings, env: map<string, Json>, t: Json)
  {
    forall n | n in b ::
      Mentions(t, n) && n in env && Classify(env[n]).Ok? && b[n] == JsonValue(Classify(env[n]).value, env[n])
  }

  /** Every name `t` mentions is bound in `b`. */
  ghost predicate Covers(b: Bindings, t: Json)
  {
    forall n | Mentions(t, n) :: n in b
  }

  /** What a member mentions its object mentions. */
  lemma MemberMentions(e: Members, k: string)
    requires k in e
    ensures forall n | Mentions(e[k], n) :: Mentions(JObject(e), n)
  {
  }

  /** Matching a simple mask against its instance, strictly or not, succeeds
      and binds exactly the mentioned names to the supplied values. */
  lemma {:induction false} ExtractObject(e: Members, env: map<string, Json>, strict: bool)
    requires SimpleMask(JObject(e)) && Supplies(env, JObject(e))
    ensures MatchObject(Inst(JObject(e), env).members, e, strict).Ok?
    ensures Agrees(MatchObject(Inst(JObject(e), env).members, e, strict).value, env, JObject(e))
    ensures Covers(MatchObject(Inst(JObject(e), env).members, e, strict).value, JObject(e))
    decreases JObject(e), 3
  {
    var actual := Inst(JObject(e), env).members;
    assert actual.Keys == e.Keys;
    var keys := KeyOrder.Enumerate(e.Keys);
    ExtractMembers(e, env, strict, keys, map[]);
    assert forall n | Mentions(JObject(e), n) :: exists k | k in keys :: Mentions(e[k], n);
  }

  lemma {:induction false} ExtractMembers(e: Members, env: map<string, Json>, strict: bool, keys: seq<string>, acc: Bindings)
    requires forall k | k in keys :: k in e
    requires SimpleMask(JObject(e)) && Supplies(env, JObject(e)) && Agrees(acc, env, JObject(e))
    ensures Inst(JObject(e), env).members.Keys == e.Keys
    ensures MatchMembers(Inst(JObject(e), env).members, e, strict, keys, acc).Ok?
    ensures Agrees(MatchMembers(Inst(JObject(e), env).members, e, strict, keys, acc).value, env, JObject(e))
    ensures forall k, n | k in keys && Mentions(e[k], n) ::
              n in MatchMembers(Inst(JObject(e), env).members, e, strict, keys, acc).value
    decreases JObject(e), 2, |keys|
  {
    var actual := Inst(JObject(e), env).members;
    assert actual.Keys == e.Keys;
    if keys != [] {
      var k := keys[0];
      ExtractMember(e, env, strict, k);
      var found := MatchMember(actual, e, strict, k).value;
      MemberMentions(e, k);
      ExtractMembers(e, env, strict, keys[1..], acc + found);
      assert MatchMembers(actual, e, strict, keys, acc) == MatchMembers(actual, e, strict, keys[1..], acc + found);
      forall j, n | j in keys && Mentions(e[j], n)
        ensures n in MatchMembers(actual, e, strict, keys, acc).value
      {
        if j != k {
          assert j in keys[1..];
        } else {
          KeptByLaterMembers(actual, e, strict, keys[1..], acc + found, n);
        }
      }
    }
  }

  /** A name already bound stays bound through the rest of the key loop. */
  lemma {:induction false} KeptByLaterMembers(message: Members, mask: Members, strict: bool, keys: seq<string>, acc: Bindings, n: string)
    requires forall k | k in keys :: k in mask && k in message
    requires n in acc
    requires MatchMembers(message, mask, strict, keys, acc).Ok?
    ensures n in MatchMembers(message, mask, strict, keys, acc).value
    decreases |keys|
  {
    if keys != [] {
      var found := MatchMember(message, mask, strict, keys[0]).value;
      KeptByLaterMembers(message, mask, strict, keys[1..], acc + found, n);
    }
  }

  lemma {:induction false} ExtractMember(e: Members, env: map<string, Json>, strict: bool, k: string)
    requires k in e
    requires SimpleMask(JObject(e)) && Supplies(env, JObject(e))
    ensures Inst(JObject(e), env).members.Keys == e.Keys
    ensures MatchMember(Inst(JObject(e), env).members, e, strict, k).Ok?
    ensures Agrees(MatchMember(Inst(JObject(e), env).members, e, strict, k).value, env, e[k])
    ensures Covers(MatchMember(Inst(JObject(e), env).members, e, strict, k).value, e[k])
    decreases JObject(e), 1
  {
    var actual := Inst(JObject(e), env).members;
    assert actual.Keys == e.Keys;
    var part := actual[k];
    assert part == Inst(e[k], env);
    MemberMentions(e, k);
    match e[k]
    case JObject(m) =>
      ExtractObject(m, env, strict);
      NestedMatch(actual, e, strict, k, m);
    case JString(s) =>
      if IsPlaceholder(s) {
        var n := PlaceholderName(s);
        assert Mentions(e[k], n);
        PlaceholderMatch(actual, e, strict, k, n);
      } else {
        LiteralMatch(actual, e, strict, k);
      }
    case JInt(_) =>
      LiteralMatch(actual, e, strict, k);
    case JBool(_) =>
      LiteralMatch(actual, e, strict, k);
  }

  /** The member step on an object-valued mask member is the nested match. */
  lemma NestedMatch(message: Members, mask: Members, strict: bool, k: string, m: Members)
    requires k in mask && k in message && mask[k] == JObject(m) && message[k].JObject?
    ensures MatchMember(message, mask, strict, k) == MatchObject(message[k].members, m, strict)
  {
  }

  /** The member step on a placeholder binds its name to the message value. */
  lemma PlaceholderMatch(message: Members, mask: Members, strict: bool, k: string, n: string)
    requires k in mask && k in message
    requires IsPlaceholderString(mask[k]) && PlaceholderName(mask[k].text) == n
    requires Classify(message[k]).Ok?
    ensures MatchMember(message, mask, strict, k) == Ok(map[n := JsonValue(Classify(message[k]).value, message[k])])
  {
  }

  /** The member step on a literal the message repeats binds nothing. */
  lemma LiteralMatch(message: Members, mask: Members, strict: bool, k: string)
    requires k in mask && k in message && message[k] == mask[k]
    requires !IsPlaceholderString(mask[k]) && !mask[k].JObject? && !mask[k].JArray?
    requires Classify(mask[k]).Ok?
    ensures MatchMember(message, mask, strict, k) == Ok(map[])
  {
  }

  /** Non-strict matching tolerates keys the mask does not name: a message
      that repeats an instance on the mask's keys, whatever else it holds,
      matches and binds exactly the mentioned names to the supplied values. */
  lemma ExtraKeysTolerated(e: Members, env: map<string, Json>, message: Members)
    requires SimpleMask(JObject(e)) && Supplies(env, JObject(e))
    requires forall k | k in e :: k in message && message[k] == Inst(JObject(e), env).members[k]
    ensures MatchObject(message, e, false).Ok?
    ensures Agrees(MatchObject(message, e, false).value, env, JObject(e))
    ensures Covers(MatchObject(message, e, false).value, JObject(e))
  {
    var actual := Inst(JObject(e), env).members;
    assert actual.Keys == e.Keys;
    ExtractObject(e, env, false);
    MatcherFacts.NonStrictIgnoresExtraKeys(message, actual, e);
  }

  /** Bindings agreeing with supplied values read back as themselves. */
  lemma AgreeingBindingsReadable(b: Bindings, env: map<string, Json>, t: Json)
    requires Agrees(b, env, t) && Supplies(env, t)
    ensures Readable(b)
    ensures forall n | n in b :: BoundValues(b)[n] == env[n]
  {
  }

  /** Extracting from an instance of a simple mask and filling a template
      that mentions only names the mask binds gives the template's instance
      under the same values: each value keeps its kind, a string stays a
      string and a number or boolean stays bare. */
  lemma ExtractThenFill(e: Members, env: map<string, Json>, template: Members)
    requires SimpleMask(JObject(e)) && Supplies(env, JObject(e))
    requires forall n | Mentions(JObject(template), n) :: Mentions(JObject(e), n)
    ensures MatchObject(Inst(JObject(e), env).members, e, true).Ok?
    ensures FillTemplate(template, MatchObject(Inst(JObject(e), env).members, e, true).value) ==
            Ok(Inst(JObject(template), env).members)
  {
    ExtractObject(e, env, true);
    var b := MatchObject(Inst(JObject(e), env).members, e, true).value;
    AgreeingBindingsReadable(b, env, JObject(e));
    FillObjectIsInstance(template, b);
    TemplateFacts.InstReadsOnlyMentionedNames(JObject(template), BoundValues(b), env);
  }

  lemma FillObjectIsInstance(template: Members, b: Bindings)
    requires Readable(b)
    ensures FillTemplate(template, b) == Ok(Inst(JObject(template), BoundValues(b)).members)
  {
    TemplateFacts.FillIsInstance(JObject(template), b);
  }
}
