/** The mask matcher of `MessageParser`: walking a mask tree against a message
    tree, collecting placeholder bindings, and the placeholder detector. */
module MaskMatcher {
  import opened Outcomes
  import opened JsonTree
  import KeyOrder

  /** Placeholder name to the typed message value bound to it. */
  type Bindings = map<string, JsonValue>

  /** A mask string of the form `{name}` (`JSON_VALUE_PARAM_REGEXP`). */
  predicate IsPlaceholder(s: string)
  {
    |s| >= 2 && s[0] == '{' && s[|s| - 1] == '}'
  }

  function PlaceholderName(s: string): string
    requires IsPlaceholder(s)
  {
    s[1..|s| - 1]
  }

  function PlaceholderText(name: string): string
  {
    "{" + name + "}"
  }

  lemma PlaceholderNameRoundTrip(name: string)
    ensures IsPlaceholder(PlaceholderText(name))
    ensures PlaceholderName(PlaceholderText(name)) == name
  {
    assert PlaceholderText(name)[1..|name| + 1] == name;
  }

  lemma PlaceholderTextRoundTrip(s: string)
    requires IsPlaceholder(s)
    ensures PlaceholderText(PlaceholderName(s)) == s
  {
  }

  predicate IsPlaceholderString(j: Json)
  {
    j.JString? && IsPlaceholder(j.text)
  }

  /** Some object member, at any depth, holds a placeholder string: the
      `:"{...}"` pattern of `MASK_IN_JSON_REGEXP` within one value.  Array
      elements that are placeholder strings follow `[` or `,`, not `:`, and are
      not detected. */
  function HasMaskParam(j: Json): (r: bool)
    ensures r ==> !IsScalar(j)
    ensures j.JArray? && (forall i | 0 <= i < |j.items| :: IsScalar(j.items[i])) ==> !r
  {
    match j
    case JObject(m) => exists k | k in m :: IsPlaceholderString(m[k]) || HasMaskParam(m[k])
    case JArray(xs) => exists i | 0 <= i < |xs| :: HasMaskParam(xs[i])
    case _ => false
  }

  /** `containsMaskParams`: parsing a null text fails. */
  function ContainsMaskParams(text: Option<Members>): (r: Result<bool>)
    ensures r.Err? <==> text.None?
    ensures r.Ok? ==> (r.value <==> exists k | k in text.value ::
                         IsPlaceholderString(text.value[k]) || HasMaskParam(text.value[k]))
  {
    match text
    case None => Err(NullReference)
    case Some(m) => Ok(HasMaskParam(JObject(m)))
  }

  predicate AllWellTyped(b: Bindings)
  {
    forall n | n in b :: WellTyped(b[n])
  }

  /** `v` is `j` or a value nested somewhere inside it. */
  predicate Occurs(v: Json, j: Json)
  {
    v == j ||
    match j
    case JObject(m) => exists k | k in m :: Occurs(v, m[k])
    case JArray(xs) => exists i | 0 <= i < |xs| :: Occurs(v, xs[i])
    case _ => false
  }

  predicate DrawnFrom(b: Bindings, message: Json)
  {
    forall n | n in b :: Occurs(b[n].value, message)
  }

  predicate NoMissingKey(r: Result<Bindings>)
  {
    r.Ok? || !r.error.MissingKey?
  }

  /** The structure strict matching insists on along the path it visits: equal
      key sets for every pair of objects, equal lengths for every pair of
      arrays, and an object wherever an object-valued mask element sits. */
  predicate SameShape(message: Members, mask: Members)
    decreases JObject(mask), 0
  {
    && mask.Keys == message.Keys
    && forall k | k in mask :: ShapeAgrees(message[k], mask[k])
  }

  predicate ShapeAgrees(part: Json, maskPart: Json)
    decreases maskPart, 1
  {
    match maskPart
    case JObject(b) => part.JObject? ==> SameShape(part.members, b)
    case JArray(ys) =>
      part.JArray? ==>
        && |part.items| == |ys|
        && forall i | 0 <= i < |ys| && ys[i].JObject? ::
             part.items[i].JObject? && SameShape(part.items[i].members, ys[i].members)
    case _ => true
  }

  /** `getParamsValuesFromMessage`: in strict mode the key sets must agree;
      then every mask key is visited and the bindings found under it are put
      over those found before. */
  function MatchObject(message: Members, mask: Members, strict: bool): (r: Result<Bindings>)
    ensures strict && mask.Keys != message.Keys ==> r == Err(PayloadMapping(KeySets))
    ensures strict ==> NoMissingKey(r)
    ensures r.Ok? ==> AllWellTyped(r.value)
    ensures r.Ok? ==> DrawnFrom(r.value, JObject(message))
    ensures r.Ok? && !HasMaskParam(JObject(mask)) ==> r.value == map[]
    ensures strict && r.Ok? ==> SameShape(message, mask)
    decreases JObject(mask), 3
  {
    if strict && mask.Keys != message.Keys then Err(PayloadMapping(KeySets))
    else MatchMembers(message, mask, strict, KeyOrder.Enumerate(mask.Keys), map[])
  }

  /** The loop over the mask keys, `acc` holding the bindings collected so far. */
  function MatchMembers(message: Members, mask: Members, strict: bool, keys: seq<string>, acc: Bindings)
    : (r: Result<Bindings>)
    requires forall k | k in keys :: k in mask
    requires strict ==> forall k | k in keys :: k in message
    ensures strict ==> NoMissingKey(r)
    ensures r.Ok? && AllWellTyped(acc) ==> AllWellTyped(r.value)
    ensures r.Ok? && DrawnFrom(acc, JObject(message)) ==> DrawnFrom(r.value, JObject(message))
    ensures r.Ok? && acc == map[] && !HasMaskParam(JObject(mask)) ==> r.value == map[]
    ensures strict && r.Ok? ==> forall k | k in keys :: ShapeAgrees(message[k], mask[k])
    decreases JObject(mask), 2, |keys|
  {
    if keys == [] then Ok(acc)
    else
      var found :- MatchMember(message, mask, strict, keys[0]);
      MatchMembers(message, mask, strict, keys[1..], acc + found)
  }

  /** One iteration of the key loop: look the key up in the message, then
      dispatch on the kinds of the message part and of the mask part. */
  function MatchMember(message: Members, mask: Members, strict: bool, key: string): (r: Result<Bindings>)
    requires key in mask
    ensures key !in message ==> r == Err(MissingKey(key))
    ensures strict ==> key in message ==> NoMissingKey(r)
    ensures r.Ok? ==> AllWellTyped(r.value)
    ensures r.Ok? ==> DrawnFrom(r.value, JObject(message))
    ensures r.Ok? && !HasMaskParam(JObject(mask)) ==> r.value == map[]
    ensures strict && r.Ok? ==> ShapeAgrees(message[key], mask[key])
    decreases JObject(mask), 1
  {
    if key !in message then Err(MissingKey(key))
    else
      var part := message[key];
      var maskPart := mask[key];
      var partKind :- Classify(part);
      var r :=
        if partKind == OBJECT then
          var maskKind :- Classify(maskPart);
          if maskKind == OBJECT then MatchObject(part.members, maskPart.members, strict)
          else MatchPart(part, maskPart)
        else if partKind == ARRAY then
          var maskKind :- Classify(maskPart);
          if maskKind == ARRAY then MatchArray(part.items, maskPart.items, strict)
          else MatchPart(part, maskPart)
        else MatchPart(part, maskPart);
      DrawnFromInside(r, part, message, key);
      r
  }

  /** Bindings drawn from a member's value are drawn from the whole object. */
  lemma DrawnFromInside(r: Result<Bindings>, part: Json, message: Members, key: string)
    requires key in message && message[key] == part
    ensures r.Ok? && DrawnFrom(r.value, part) ==> DrawnFrom(r.value, JObject(message))
  {
    if r.Ok? && DrawnFrom(r.value, part) {
      forall n | n in r.value
        ensures Occurs(r.value[n].value, JObject(message))
      {
        assert Occurs(r.value[n].value, message[key]);
      }
    }
  }

  /** `extractParamFromArray`: strict mode requires equal lengths; only
      object-valued mask elements are visited, and each visit REPLACES the
      bindings collected so far. */
  function MatchArray(items: seq<Json>, maskItems: seq<Json>, strict: bool): (r: Result<Bindings>)
    ensures strict && |maskItems| != |items| ==> r == Err(PayloadMapping(ArrayLengths))
    ensures strict ==> NoMissingKey(r)
    ensures r.Ok? ==> AllWellTyped(r.value)
    ensures r.Ok? ==> DrawnFrom(r.value, JArray(items))
    ensures r.Ok? && !HasMaskParam(JArray(maskItems)) ==> r.value == map[]
    ensures strict && r.Ok? ==> ShapeAgrees(JArray(items), JArray(maskItems))
    decreases JArray(maskItems), 3
  {
    if strict && |maskItems| != |items| then Err(PayloadMapping(ArrayLengths))
    else MatchElements(items, maskItems, strict, 0, map[])
  }

  function MatchElements(items: seq<Json>, maskItems: seq<Json>, strict: bool, i: nat, acc: Bindings)
    : (r: Result<Bindings>)
    requires i <= |maskItems|
    ensures strict ==> NoMissingKey(r)
    ensures r.Ok? && AllWellTyped(acc) ==> AllWellTyped(r.value)
    ensures r.Ok? && DrawnFrom(acc, JArray(items)) ==> DrawnFrom(r.value, JArray(items))
    ensures r.Ok? && acc == map[] && !HasMaskParam(JArray(maskItems)) ==> r.value == map[]
    ensures strict && r.Ok? ==> forall j | i <= j < |maskItems| && maskItems[j].JObject? ::
              j < |items| && items[j].JObject? && SameShape(items[j].members, maskItems[j].members)
    decreases JArray(maskItems), 2, |maskItems| - i
  {
    if i == |maskItems| then Ok(acc)
    else if !maskItems[i].JObject? then MatchElements(items, maskItems, strict, i + 1, acc)
    else if i >= |items| then Err(MissingElement(i))
    else if !items[i].JObject? then Err(NotAnObject)
    else
      var found :- MatchObject(items[i].members, maskItems[i].members, strict);
      assert DrawnFrom(found, JArray(items)) by {
        forall n | n in found
          ensures Occurs(found[n].value, JArray(items))
        {
          assert Occurs(found[n].value, items[i]);
        }
      }
      MatchElements(items, maskItems, strict, i + 1, found)
  }

  /** `extractParamFromPart`: a placeholder mask string binds its name to the
      message part, tagged with the part's kind; any other mask value must
      equal the message part. */
  function MatchPart(part: Json, maskPart: Json): (r: Result<Bindings>)
    requires Classify(part).Ok?
    ensures r.Ok? <==> Classify(maskPart).Ok? && (IsPlaceholderString(maskPart) || part == maskPart)
    ensures r.Err? ==> r.error == UnrecognisedValue || r.error == PayloadMapping(Values)
    ensures Classify(maskPart).Err? ==> r == Err(UnrecognisedValue)
    ensures Classify(maskPart).Ok? && r.Err? ==> r == Err(PayloadMapping(Values))
    ensures r.Ok? && IsPlaceholderString(maskPart) ==>
              r.value == map[PlaceholderName(maskPart.text) := JsonValue(Classify(part).value, part)]
    ensures r.Ok? && !IsPlaceholderString(maskPart) ==> r.value == map[]
    ensures r.Ok? ==> AllWellTyped(r.value) && DrawnFrom(r.value, part)
  {
    var maskKind :- Classify(maskPart);
    if maskKind == STRING && IsPlaceholder(maskPart.text) then
      var kind := Classify(part).value;
      Ok(map[PlaceholderName(maskPart.text) := JsonValue(kind, part)])
    else if part == maskPart then Ok(map[])
    else Err(PayloadMapping(Values))
  }
}
