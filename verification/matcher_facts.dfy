/** Properties of the mask matcher that relate several calls or whole inputs. */
module MatcherFacts {
  import opened Outcomes
  import opened JsonTree
  import opened MaskMatcher
  import KeyOrder

  /** The key loop succeeds exactly when every visited key succeeds. */
  lemma {:induction false} MembersOkIffEveryMemberOk(
    message: Members, mask: Members, strict: bool, keys: seq<string>, acc: Bindings)
    requires forall k | k in keys :: k in mask
    requires strict ==> forall k | k in keys :: k in message
    ensures MatchMembers(message, mask, strict, keys, acc).Ok? <==>
            forall k | k in keys :: MatchMember(message, mask, strict, k).Ok?
    decreases |keys|
  {
    if keys != [] {
      var first := MatchMember(message, mask, strict, keys[0]);
      assert forall k :: k in keys <==> k == keys[0] || k in keys[1..];
      if first.Ok? {
        MembersOkIffEveryMemberOk(message, mask, strict, keys[1..], acc + first.value);
        assert MatchMembers(message, mask, strict, keys, acc) ==
               MatchMembers(message, mask, strict, keys[1..], acc + first.value);
      } else {
        assert MatchMembers(message, mask, strict, keys, acc).Err?;
        assert keys[0] in keys;
      }
    }
  }

  /** A failing key loop reports the error of the first key that fails. */
  lemma {:induction false} MembersReportFirstFailure(
    message: Members, mask: Members, strict: bool, keys: seq<string>, acc: Bindings)
    requires forall k | k in keys :: k in mask
    requires strict ==> forall k | k in keys :: k in message
    requires MatchMembers(message, mask, strict, keys, acc).Err?
    ensures exists j | 0 <= j < |keys| ::
              && (forall i | 0 <= i < j :: MatchMember(message, mask, strict, keys[i]).Ok?)
              && MatchMember(message, mask, strict, keys[j]) ==
                 Err(MatchMembers(message, mask, strict, keys, acc).error)
    decreases |keys|
  {
    var first := MatchMember(message, mask, strict, keys[0]);
    if first.Ok? {
      MembersReportFirstFailure(message, mask, strict, keys[1..], acc + first.value);
      var j :| 0 <= j < |keys[1..]| &&
               (forall i | 0 <= i < j :: MatchMember(message, mask, strict, keys[1..][i]).Ok?) &&
               MatchMember(message, mask, strict, keys[1..][j]) ==
               Err(MatchMembers(message, mask, strict, keys[1..], acc + first.value).error);
      assert forall i | 0 <= i < j + 1 :: MatchMember(message, mask, strict, keys[i]).Ok? by {
        forall i | 0 <= i < j + 1
          ensures MatchMember(message, mask, strict, keys[i]).Ok?
        {
          if i > 0 {
            assert keys[i] == keys[1..][i - 1];
          }
        }
      }
      assert keys[j + 1] == keys[1..][j];
    } else {
      assert MatchMember(message, mask, strict, keys[0]) ==
             Err(MatchMembers(message, mask, strict, keys, acc).error);
    }
  }

  /** One step of the key loop when its first key succeeds. */
  lemma MembersStep(message: Members, mask: Members, strict: bool, keys: seq<string>, acc: Bindings)
    requires forall k | k in keys :: k in mask
    requires strict ==> forall k | k in keys :: k in message
    requires keys != [] && MatchMember(message, mask, strict, keys[0]).Ok?
    ensures MatchMembers(message, mask, strict, keys, acc) ==
            MatchMembers(message, mask, strict, keys[1..], acc + MatchMember(message, mask, strict, keys[0]).value)
  {
  }

  /** No key of `keys` binds `name`. */
  predicate NeverBinds(message: Members, mask: Members, strict: bool, keys: seq<string>, name: string)
    requires forall k | k in keys :: k in mask
  {
    forall i | 0 <= i < |keys| ::
      MatchMember(message, mask, strict, keys[i]).Ok? ==> name !in MatchMember(message, mask, strict, keys[i]).value
  }

  /** Putting bindings over earlier ones: a name bound by several keys ends up
      with the value from the last of them. */
  lemma {:induction false} MembersLastWriteWins(
    message: Members, mask: Members, strict: bool, keys: seq<string>, acc: Bindings,
    name: string, j: nat)
    requires forall k | k in keys :: k in mask
    requires strict ==> forall k | k in keys :: k in message
    requires MatchMembers(message, mask, strict, keys, acc).Ok?
    requires j < |keys|
    requires MatchMember(message, mask, strict, keys[j]).Ok?
    requires name in MatchMember(message, mask, strict, keys[j]).value
    requires NeverBinds(message, mask, strict, keys[j + 1..], name)
    ensures name in MatchMembers(message, mask, strict, keys, acc).value
    ensures MatchMembers(message, mask, strict, keys, acc).value[name] ==
            MatchMember(message, mask, strict, keys[j]).value[name]
    decreases |keys|
  {
    var first := MatchMember(message, mask, strict, keys[0]);
    assert first.Ok?;
    MembersStep(message, mask, strict, keys, acc);
    var rest := keys[1..];
    if j == 0 {
      NameSurvives(message, mask, strict, rest, acc + first.value, name);
    } else {
      assert rest[j - 1] == keys[j] && rest[j..] == keys[j + 1..];
      MembersLastWriteWins(message, mask, strict, rest, acc + first.value, name, j - 1);
    }
  }

  /** A bound name that no later key binds again keeps its value. */
  lemma {:induction false} NameSurvives(
    message: Members, mask: Members, strict: bool, keys: seq<string>, acc: Bindings, name: string)
    requires forall k | k in keys :: k in mask
    requires strict ==> forall k | k in keys :: k in message
    requires MatchMembers(message, mask, strict, keys, acc).Ok?
    requires name in acc
    requires NeverBinds(message, mask, strict, keys, name)
    ensures name in MatchMembers(message, mask, strict, keys, acc).value
    ensures MatchMembers(message, mask, strict, keys, acc).value[name] == acc[name]
    decreases |keys|
  {
    if keys != [] {
      var first := MatchMember(message, mask, strict, keys[0]);
      MembersStep(message, mask, strict, keys, acc);
      assert NeverBinds(message, mask, strict, keys[1..], name) by {
        forall i | 0 <= i < |keys[1..]|
          ensures MatchMember(message, mask, strict, keys[1..][i]).Ok? ==>
                  name !in MatchMember(message, mask, strict, keys[1..][i]).value
        {
          assert keys[1..][i] == keys[i + 1];
        }
      }
      NameSurvives(message, mask, strict, keys[1..], acc + first.value, name);
    }
  }

  /** In non-strict mode a mask key the message lacks makes the match fail, and
      when it is the only failing key the failure is that missing key. */
  lemma MissingMaskKeyFails(message: Members, mask: Members, key: string)
    requires key in mask && key !in message
    ensures MatchObject(message, mask, false).Err?
    ensures (forall k | k in mask && k != key :: MatchMember(message, mask, false, k).Ok?) ==>
            MatchObject(message, mask, false) == Err(MissingKey(key))
  {
    var keys := KeyOrder.Enumerate(mask.Keys);
    var r := MatchMembers(message, mask, false, keys, map[]);
    assert MatchObject(message, mask, false) == r;
    MembersOkIffEveryMemberOk(message, mask, false, keys, map[]);
    assert MatchMember(message, mask, false, key) == Err(MissingKey(key));
    assert key in keys;
    if forall k | k in mask && k != key :: MatchMember(message, mask, false, k).Ok? {
      OnlyFailureReported(message, mask, false, keys, map[], key);
    }
  }

  /** When a single key of the loop fails, the loop reports that key's error. */
  lemma OnlyFailureReported(
    message: Members, mask: Members, strict: bool, keys: seq<string>, acc: Bindings, key: string)
    requires forall k | k in keys :: k in mask
    requires strict ==> forall k | k in keys :: k in message
    requires key in keys && MatchMember(message, mask, strict, key).Err?
    requires forall k | k in keys && k != key :: MatchMember(message, mask, strict, k).Ok?
    ensures MatchMembers(message, mask, strict, keys, acc) == MatchMember(message, mask, strict, key)
  {
    MembersOkIffEveryMemberOk(message, mask, strict, keys, acc);
    MembersReportFirstFailure(message, mask, strict, keys, acc);
    var r := MatchMembers(message, mask, strict, keys, acc);
    var j :| 0 <= j < |keys| && MatchMember(message, mask, strict, keys[j]) == Err(r.error);
    assert keys[j] == key;
  }

  /** In non-strict mode only the mask keys of the message are read: messages
      that agree on them match identically, whatever else they hold. */
  lemma NonStrictIgnoresExtraKeys(message: Members, other: Members, mask: Members)
    requires forall k | k in mask :: (k in message <==> k in other)
    requires forall k | k in mask && k in message :: message[k] == other[k]
    ensures MatchObject(message, mask, false) == MatchObject(other, mask, false)
  {
    MembersAgree(message, other, mask, KeyOrder.Enumerate(mask.Keys), map[]);
  }

  lemma {:induction false} MembersAgree(
    message: Members, other: Members, mask: Members, keys: seq<string>, acc: Bindings)
    requires forall k | k in keys :: k in mask
    requires forall k | k in mask :: (k in message <==> k in other)
    requires forall k | k in mask && k in message :: message[k] == other[k]
    ensures MatchMembers(message, mask, false, keys, acc) == MatchMembers(other, mask, false, keys, acc)
    decreases |keys|
  {
    if keys != [] {
      var first := MatchMember(message, mask, false, keys[0]);
      assert first == MatchMember(other, mask, false, keys[0]);
      if first.Ok? {
        MembersAgree(message, other, mask, keys[1..], acc + first.value);
      }
    }
  }

  /** A literal mask member whose message value differs rejects the message;
      when it is the only failing member and the key sets pass the strict
      check, the failure is the value mismatch the listener catches. */
  lemma LiteralMismatchRejected(message: Members, mask: Members, strict: bool, key: string)
    requires key in mask && key in message
    requires IsScalar(mask[key]) && !IsPlaceholderString(mask[key]) && Classify(mask[key]).Ok?
    requires Classify(message[key]).Ok? && message[key] != mask[key]
    ensures MatchObject(message, mask, strict).Err?
    ensures (strict ==> mask.Keys == message.Keys) &&
            (forall k | k in mask && k != key :: MatchMember(message, mask, strict, k).Ok?) ==>
            MatchObject(message, mask, strict) == Err(PayloadMapping(Values))
  {
    if !(strict && mask.Keys != message.Keys) {
      var keys := KeyOrder.Enumerate(mask.Keys);
      MembersOkIffEveryMemberOk(message, mask, strict, keys, map[]);
      LiteralMemberRejected(message, mask, strict, key);
      if forall k | k in mask && k != key :: MatchMember(message, mask, strict, k).Ok? {
        assert key in keys;
        OnlyFailureReported(message, mask, strict, keys, map[], key);
      }
    }
  }

  lemma LiteralMemberRejected(message: Members, mask: Members, strict: bool, key: string)
    requires key in mask && key in message
    requires IsScalar(mask[key]) && !IsPlaceholderString(mask[key]) && Classify(mask[key]).Ok?
    requires Classify(message[key]).Ok? && message[key] != mask[key]
    ensures MatchMember(message, mask, strict, key) == Err(PayloadMapping(Values))
  {
    var part, maskPart := message[key], mask[key];
    assert MatchPart(part, maskPart).Err?;
    var kind := Classify(part).value;
    var maskKind := Classify(maskPart).value;
    assert maskKind != OBJECT && maskKind != ARRAY;
  }

  /** The index of the last object-valued mask element before `n`, if any. */
  function LastObjectBefore(maskItems: seq<Json>, n: nat): (r: Option<nat>)
    requires n <= |maskItems|
    ensures r.Some? ==> r.value < n && maskItems[r.value].JObject? &&
                        forall j | r.value < j < n :: !maskItems[j].JObject?
    ensures r.None? ==> forall j | 0 <= j < n :: !maskItems[j].JObject?
  {
    if n == 0 then None
    else if maskItems[n - 1].JObject? then Some(n - 1)
    else LastObjectBefore(maskItems, n - 1)
  }

  /** Array bindings are overwritten, not merged: a successful array match
      yields exactly the bindings of its last object-valued mask element, and
      none when there is no such element. */
  lemma ArrayKeepsLastObjectBindings(items: seq<Json>, maskItems: seq<Json>, strict: bool)
    requires MatchArray(items, maskItems, strict).Ok?
    ensures match LastObjectBefore(maskItems, |maskItems|)
            case None => MatchArray(items, maskItems, strict).value == map[]
            case Some(j) =>
              j < |items| && items[j].JObject? &&
              MatchArray(items, maskItems, strict) ==
              MatchObject(items[j].members, maskItems[j].members, strict)
  {
    ElementsKeepLast(items, maskItems, strict, 0, map[], LastObjectBefore(maskItems, |maskItems|));
  }

  lemma {:induction false} ElementsKeepLast(
    items: seq<Json>, maskItems: seq<Json>, strict: bool, i: nat, acc: Bindings, last: Option<nat>)
    requires i <= |maskItems| && last == LastObjectBefore(maskItems, |maskItems|)
    requires MatchElements(items, maskItems, strict, i, acc).Ok?
    ensures last.None? || last.value < i ==> MatchElements(items, maskItems, strict, i, acc).value == acc
    ensures last.Some? && i <= last.value ==>
              && last.value < |items| && items[last.value].JObject?
              && MatchElements(items, maskItems, strict, i, acc) ==
                 MatchObject(items[last.value].members, maskItems[last.value].members, strict)
    decreases |maskItems| - i
  {
    if i < |maskItems| {
      if !maskItems[i].JObject? {
        SkipStep(items, maskItems, strict, i, acc);
        ElementsKeepLast(items, maskItems, strict, i + 1, acc, last);
        assert last.Some? ==> last.value != i;
      } else {
        var found := ObjectStep(items, maskItems, strict, i, acc);
        ElementsKeepLast(items, maskItems, strict, i + 1, found, last);
        assert last.Some? && i <= last.value;
      }
    }
  }

  /** The element loop passes over a non-object mask element. */
  lemma SkipStep(items: seq<Json>, maskItems: seq<Json>, strict: bool, i: nat, acc: Bindings)
    requires i < |maskItems| && !maskItems[i].JObject?
    ensures MatchElements(items, maskItems, strict, i, acc) == MatchElements(items, maskItems, strict, i + 1, acc)
  {
  }

  /** What the element loop does at an object mask element. */
  lemma ObjectVisit(items: seq<Json>, maskItems: seq<Json>, strict: bool, i: nat, acc: Bindings)
    requires i < |maskItems| && maskItems[i].JObject?
    ensures i >= |items| ==> MatchElements(items, maskItems, strict, i, acc) == Err(MissingElement(i))
    ensures i < |items| && !items[i].JObject? ==> MatchElements(items, maskItems, strict, i, acc) == Err(NotAnObject)
    ensures i < |items| && items[i].JObject? ==>
              var found := MatchObject(items[i].members, maskItems[i].members, strict);
              MatchElements(items, maskItems, strict, i, acc) ==
              if found.Ok? then MatchElements(items, maskItems, strict, i + 1, found.value) else Err(found.error)
  {
  }

  /** The element loop replaces its bindings at an object mask element. */
  lemma ObjectStep(items: seq<Json>, maskItems: seq<Json>, strict: bool, i: nat, acc: Bindings) returns (found: Bindings)
    requires i < |maskItems| && maskItems[i].JObject?
    requires MatchElements(items, maskItems, strict, i, acc).Ok?
    ensures i < |items| && items[i].JObject?
    ensures MatchObject(items[i].members, maskItems[i].members, strict) == Ok(found)
    ensures MatchElements(items, maskItems, strict, i, acc) == MatchElements(items, maskItems, strict, i + 1, found)
  {
    found := MatchObject(items[i].members, maskItems[i].members, strict).value;
  }

  /** Scalar array elements are never compared: replacing the message element
      under a non-object mask element changes nothing. */
  lemma ScalarElementsIgnored(items: seq<Json>, maskItems: seq<Json>, strict: bool, j: nat, x: Json)
    requires j < |items| && j < |maskItems| && !maskItems[j].JObject?
    ensures MatchArray(items[j := x], maskItems, strict) == MatchArray(items, maskItems, strict)
  {
    ElementsIgnoreScalar(items, maskItems, strict, j, x, 0, map[]);
  }

  lemma {:induction false} ElementsIgnoreScalar(
    items: seq<Json>, maskItems: seq<Json>, strict: bool, j: nat, x: Json, i: nat, acc: Bindings)
    requires j < |items| && j < |maskItems| && !maskItems[j].JObject?
    requires i <= |maskItems|
    ensures MatchElements(items[j := x], maskItems, strict, i, acc) ==
            MatchElements(items, maskItems, strict, i, acc)
    decreases |maskItems| - i
  {
    if i < |maskItems| {
      if !maskItems[i].JObject? {
        SkipStep(items[j := x], maskItems, strict, i, acc);
        SkipStep(items, maskItems, strict, i, acc);
        ElementsIgnoreScalar(items, maskItems, strict, j, x, i + 1, acc);
      } else {
        assert i < |items| ==> items[j := x][i] == items[i];
        ObjectVisit(items[j := x], maskItems, strict, i, acc);
        ObjectVisit(items, maskItems, strict, i, acc);
        if i < |items| && items[i].JObject? {
          var found := MatchObject(items[i].members, maskItems[i].members, strict);
          if found.Ok? {
            ElementsIgnoreScalar(items, maskItems, strict, j, x, i + 1, found.value);
          }
        }
      }
    }
  }

  /** A mask without placeholders or arrays whose literals are all recognised. */
  predicate PlainMask(j: Json)
  {
    match j
    case JObject(m) => forall k | k in m :: !IsPlaceholderString(m[k]) && PlainMask(m[k])
    case JArray(_) => false
    case _ => Classify(j).Ok?
  }

  /** For plain masks, strict matching is structural equality. */
  lemma {:induction false} StrictPlainMatchIsEquality(message: Members, mask: Members)
    requires PlainMask(JObject(mask))
    ensures MatchObject(message, mask, true).Ok? <==> message == mask
    decreases JObject(mask), 2
  {
    if mask.Keys == message.Keys {
      StrictPlainMembersAreEquality(message, mask);
      SameKeysPointwise(message, mask);
    }
  }

  lemma {:induction false} StrictPlainMembersAreEquality(message: Members, mask: Members)
    requires PlainMask(JObject(mask)) && mask.Keys == message.Keys
    ensures MatchObject(message, mask, true).Ok? <==> forall k | k in mask :: message[k] == mask[k]
    decreases JObject(mask), 1
  {
    var keys := KeyOrder.Enumerate(mask.Keys);
    assert MatchObject(message, mask, true) == MatchMembers(message, mask, true, keys, map[]);
    MembersOkIffEveryMemberOk(message, mask, true, keys, map[]);
    forall k | k in mask
      ensures MatchMember(message, mask, true, k).Ok? <==> message[k] == mask[k]
    {
      StrictPlainMemberIsEquality(message, mask, k);
    }
  }

  /** Maps with the same keys are equal exactly when they agree on each key. */
  lemma SameKeysPointwise(a: Members, b: Members)
    requires a.Keys == b.Keys
    ensures a == b <==> forall k | k in b :: a[k] == b[k]
  {
  }

  lemma {:induction false} StrictPlainMemberIsEquality(message: Members, mask: Members, key: string)
    requires PlainMask(JObject(mask)) && key in mask && key in message
    ensures MatchMember(message, mask, true, key).Ok? <==> message[key] == mask[key]
    decreases JObject(mask), 0
  {
    var part, maskPart := message[key], mask[key];
    if part.JObject? && maskPart.JObject? {
      StrictPlainMatchIsEquality(part.members, maskPart.members);
    }
  }

  /** `o` is `j` or a value nested in it at any depth. */
  predicate Occurs(o: Json, j: Json)
    decreases j
  {
    || o == j
    || (j.JObject? && exists k | k in j.members :: Occurs(o, j.members[k]))
    || (j.JArray? && exists i | 0 <= i < |j.items| :: Occurs(o, j.items[i]))
  }

  /** An object with a member holding a placeholder string: where the
      detector's `:"{...}"` pattern can match. */
  predicate PlaceholderMember(o: Json)
  {
    o.JObject? && exists k | k in o.members :: IsPlaceholderString(o.members[k])
  }

  /** The detector finds a placeholder exactly when some object at any depth
      has a member holding one. */
  lemma {:induction false} HasMaskParamIffOccurs(j: Json)
    ensures HasMaskParam(j) <==> exists o | Occurs(o, j) :: PlaceholderMember(o)
    decreases j
  {
    match j
    case JObject(m) =>
      if HasMaskParam(j) {
        var k :| k in m && (IsPlaceholderString(m[k]) || HasMaskParam(m[k]));
        if IsPlaceholderString(m[k]) {
          assert Occurs(j, j) && PlaceholderMember(j);
        } else {
          HasMaskParamIffOccurs(m[k]);
          var o :| Occurs(o, m[k]) && PlaceholderMember(o);
          assert Occurs(o, j);
        }
      }
      if exists o | Occurs(o, j) :: PlaceholderMember(o) {
        var o :| Occurs(o, j) && PlaceholderMember(o);
        if o != j {
          var k :| k in m && Occurs(o, m[k]);
          HasMaskParamIffOccurs(m[k]);
        }
      }
    case JArray(xs) =>
      if HasMaskParam(j) {
        var i :| 0 <= i < |xs| && HasMaskParam(xs[i]);
        HasMaskParamIffOccurs(xs[i]);
        var o :| Occurs(o, xs[i]) && PlaceholderMember(o);
        assert Occurs(o, j);
      }
      if exists o | Occurs(o, j) :: PlaceholderMember(o) {
        var o :| Occurs(o, j) && PlaceholderMember(o);
        var i :| 0 <= i < |xs| && Occurs(o, xs[i]);
        HasMaskParamIffOccurs(xs[i]);
      }
    case _ =>
  }
}
