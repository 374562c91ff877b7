/** Properties of the substitutor: its relation to the reference substitution
    `Inst`, what the whitespace deletion costs, and when it fails. */
module TemplateFacts {
  import opened Outcomes
  import opened JsonTree
  import opened MaskMatcher
  import opened Templates
  import Strings

  /** With bindings that read back as themselves, filling without deleting
      spaces is the reference substitution: every occurrence of every bound
      token is replaced by its value and nothing else changes. */
  lemma {:induction false} FillIsInstance(t: Json, b: Bindings)
    requires Readable(b)
    ensures Fill(t, b) == Ok(Inst(t, BoundValues(b)))
    decreases t, 1
  {
    match t
    case JObject(m) =>
      forall k | k in m
        ensures Fill(m[k], b) == Ok(Inst(m[k], BoundValues(b)))
      {
        FillIsInstance(m[k], b);
      }
      assert !exists k | k in m :: Fill(m[k], b).Err?;
      var filled := FillValues(m, b);
      assert filled == map k | k in m :: Inst(m[k], BoundValues(b));
    case JArray(xs) =>
      ItemsAreInstances(xs, b, 0);
      var items := FillItems(xs, b, 0).value;
      assert items == seq(|xs|, i requires 0 <= i < |xs| => Inst(xs[i], BoundValues(b)));
    case JString(s) =>
    case _ =>
  }

  lemma {:induction false} ItemsAreInstances(xs: seq<Json>, b: Bindings, i: nat)
    requires Readable(b) && i <= |xs|
    ensures FillItems(xs, b, i).Ok?
    ensures forall j | i <= j < |xs| :: FillItems(xs, b, i).value[j - i] == Inst(xs[j], BoundValues(b))
    decreases JArray(xs), 0, |xs| - i
  {
    forall j | i <= j < |xs|
      ensures Fill(xs[j], b) == Ok(Inst(xs[j], BoundValues(b)))
    {
      FillIsInstance(xs[j], b);
    }
    var r := FillItems(xs, b, i).value;
    forall j | i <= j < |xs|
      ensures r[j - i] == Inst(xs[j], BoundValues(b))
    {
      assert r[j - i] == Fill(xs[i + (j - i)], b).value;
    }
  }

  /** Whenever filling with well-typed bindings succeeds, it is the reference
      substitution: a binding that would not read back makes it fail rather
      than produce something else. */
  lemma {:induction false} FillOkIsInstance(t: Json, b: Bindings)
    requires AllWellTyped(b)
    requires Fill(t, b).Ok?
    ensures Fill(t, b) == Ok(Inst(t, BoundValues(b)))
    decreases t, 3
  {
    match t
    case JObject(m) =>
      FillOkObjectIsInstance(m, b);
    case JArray(xs) =>
      FillOkArrayIsInstance(xs, b);
    case JString(s) =>
      if IsPlaceholder(s) && PlaceholderName(s) in b {
        ReparseOkIsValue(b[PlaceholderName(s)]);
      }
    case _ =>
  }

  lemma {:induction false} FillOkObjectIsInstance(m: Members, b: Bindings)
    requires AllWellTyped(b)
    requires Fill(JObject(m), b).Ok?
    ensures Fill(JObject(m), b) == Ok(Inst(JObject(m), BoundValues(b)))
    decreases JObject(m), 1
  {
    assert !exists k | k in m :: Fill(m[k], b).Err?;
    forall k | k in m
      ensures Fill(m[k], b) == Ok(Inst(m[k], BoundValues(b)))
    {
      assert Fill(m[k], b).Ok?;
      FillOkIsInstance(m[k], b);
    }
    var filled := FillValues(m, b);
    assert filled == map k | k in m :: Inst(m[k], BoundValues(b));
  }

  lemma {:induction false} FillOkArrayIsInstance(xs: seq<Json>, b: Bindings)
    requires AllWellTyped(b)
    requires Fill(JArray(xs), b).Ok?
    ensures Fill(JArray(xs), b) == Ok(Inst(JArray(xs), BoundValues(b)))
    decreases JArray(xs), 2
  {
    FillOkItemsFromStart(xs, b);
    InstArrayItems(xs, BoundValues(b));
    var items := FillItems(xs, b, 0).value;
    assert items == Inst(JArray(xs), BoundValues(b)).items;
    assert Fill(JArray(xs), b) == Ok(JArray(items));
  }

  lemma {:induction false} FillOkItemsFromStart(xs: seq<Json>, b: Bindings)
    requires AllWellTyped(b)
    requires FillItems(xs, b, 0).Ok?
    ensures |FillItems(xs, b, 0).value| == |xs|
    ensures forall j | 0 <= j < |xs| :: FillItems(xs, b, 0).value[j] == Inst(xs[j], BoundValues(b))
    decreases JArray(xs), 1
  {
    var r := FillItems(xs, b, 0);
    forall j | 0 <= j < |xs|
      ensures r.value[j] == Inst(xs[j], BoundValues(b))
    {
      assert r.value[j] == Fill(xs[0 + j], b).value;
      FillOkIsInstance(xs[j], b);
    }
  }

  /** The elements of an array's instance are the instances of its elements. */
  lemma InstArrayItems(xs: seq<Json>, env: map<string, Json>)
    ensures Inst(JArray(xs), env).JArray?
    ensures |Inst(JArray(xs), env).items| == |xs|
    ensures forall j | 0 <= j < |xs| :: Inst(JArray(xs), env).items[j] == Inst(xs[j], env)
  {
  }

  /** A well-typed binding either reads back as its own value or fails. */
  lemma ReparseOkIsValue(v: JsonValue)
    requires WellTyped(v) && Reparse(v).Ok?
    ensures Reparse(v) == Ok(v.value)
  {
    assert v.value.JString? ==> v.kind == STRING;
  }

  lemma {:induction false} FillOkItemsAreInstances(xs: seq<Json>, b: Bindings, i: nat)
    requires AllWellTyped(b) && i <= |xs|
    requires FillItems(xs, b, i).Ok?
    ensures forall j | i <= j < |xs| :: FillItems(xs, b, i).value[j - i] == Inst(xs[j], BoundValues(b))
    decreases JArray(xs), 0, |xs| - i
  {
    forall j | i <= j < |xs|
      ensures Fill(xs[j], b) == Ok(Inst(xs[j], BoundValues(b)))
    {
      FillOkIsInstance(xs[j], b);
    }
    var r := FillItems(xs, b, i).value;
    forall j | i <= j < |xs|
      ensures r[j - i] == Inst(xs[j], BoundValues(b))
    {
      assert r[j - i] == Fill(xs[i + (j - i)], b).value;
    }
  }

  /** A template without spaces in its strings and keys survives the
      whitespace deletion unchanged. */
  lemma {:induction false} SpaceFreeSurvivesSqueeze(t: Json)
    requires SpaceFreeTree(t)
    ensures SqueezeTree(t) == Ok(t)
    decreases t, 1
  {
    match t
    case JObject(m) =>
      forall k | k in m
        ensures SqueezeTree(m[k]) == Ok(m[k])
      {
        SpaceFreeSurvivesSqueeze(m[k]);
      }
      SpaceFreeObjectSurvives(m);
    case JArray(xs) =>
      SpaceFreeItemsSurvive(xs, 0);
      var items := SqueezeItems(xs, 0).value;
      assert items == xs;
    case JString(s) =>
      Strings.StripNothing(s, {' '});
    case _ =>
  }

  lemma SpaceFreeObjectSurvives(m: Members)
    requires forall k | k in m :: SpaceFree(k)
    requires forall k | k in m :: SqueezeTree(m[k]) == Ok(m[k])
    ensures SqueezeTree(JObject(m)) == Ok(JObject(m))
  {
    assert SqueezeValues(m) == m;
    RenameSpaceFree(m);
  }

  /** Keys without spaces keep their names. */
  lemma RenameSpaceFree(m: Members)
    requires forall k | k in m :: SpaceFree(k)
    ensures KeysStayDistinct(m) && Rename(m) == m
  {
    SpaceFreeKeysDistinct(m);
    var r := Rename(m);
    assert r.Keys == m.Keys;
  }

  lemma SpaceFreeKeysDistinct(m: Members)
    requires forall k | k in m :: SpaceFree(k)
    ensures forall k | k in m :: Squeeze(k) == k
    ensures KeysStayDistinct(m)
  {
    forall k | k in m
      ensures Squeeze(k) == k
    {
      Strings.StripNothing(k, {' '});
    }
  }

  lemma {:induction false} SpaceFreeItemsSurvive(xs: seq<Json>, i: nat)
    requires i <= |xs|
    requires forall j | 0 <= j < |xs| :: SpaceFreeTree(xs[j])
    ensures SqueezeItems(xs, i) == Ok(xs[i..])
    decreases JArray(xs), 0, |xs| - i
  {
    if i < |xs| {
      SpaceFreeSurvivesSqueeze(xs[i]);
      SpaceFreeItemsSurvive(xs, i + 1);
      SqueezeItemsStep(xs, i);
      SplitFirst(xs, i);
    } else {
      assert xs[i..] == [];
    }
  }

  /** One element of the squeeze loop over an array. */
  lemma SqueezeItemsStep(xs: seq<Json>, i: nat)
    requires i < |xs| && SqueezeTree(xs[i]).Ok? && SqueezeItems(xs, i + 1).Ok?
    ensures SqueezeItems(xs, i) == Ok([SqueezeTree(xs[i]).value] + SqueezeItems(xs, i + 1).value)
  {
  }

  lemma SplitFirst(xs: seq<Json>, i: nat)
    requires i < |xs|
    ensures xs[i..] == [xs[i]] + xs[i + 1..]
  {
  }

  /** On a template without spaces in its strings and keys, the code as
      written and the intended substitution agree. */
  lemma SpaceFreeTemplatesAgree(template: Members, b: Bindings)
    requires SpaceFreeTree(JObject(template))
    ensures UpdateJsonParamsWithValues(template, b) == FillTemplate(template, b)
  {
    SpaceFreeSurvivesSqueeze(JObject(template));
  }

  /** Only the names a template mentions matter to the reference substitution. */
  lemma {:induction false} InstReadsOnlyMentionedNames(t: Json, env1: map<string, Json>, env2: map<string, Json>)
    requires forall n | Mentions(t, n) :: (n in env1 <==> n in env2) && (n in env1 ==> env1[n] == env2[n])
    ensures Inst(t, env1) == Inst(t, env2)
    decreases t
  {
    match t
    case JObject(m) =>
      forall k | k in m
        ensures Inst(m[k], env1) == Inst(m[k], env2)
      {
        forall n | Mentions(m[k], n)
          ensures Mentions(t, n)
        {
        }
        InstReadsOnlyMentionedNames(m[k], env1, env2);
      }
    case JArray(xs) =>
      forall i | 0 <= i < |xs|
        ensures Inst(xs[i], env1) == Inst(xs[i], env2)
      {
        forall n | Mentions(xs[i], n)
          ensures Mentions(t, n)
        {
        }
        InstReadsOnlyMentionedNames(xs[i], env1, env2);
      }
      assert Inst(t, env1).items == Inst(t, env2).items;
    case JString(s) =>
      if IsPlaceholder(s) {
        assert Mentions(t, PlaceholderName(s));
      }
    case _ =>
  }

  /** A template that mentions no bound name is left as it is. */
  lemma UnmentionedTemplateUnchanged(t: Json, b: Bindings)
    requires Readable(b)
    requires forall n | n in b :: !Mentions(t, n)
    ensures Fill(t, b) == Ok(t)
  {
    FillIsInstance(t, b);
    InstReadsOnlyMentionedNames(t, BoundValues(b), map[]);
    InstWithNothingBound(t);
  }

  lemma {:induction false} InstWithNothingBound(t: Json)
    ensures Inst(t, map[]) == t
    decreases t
  {
    match t
    case JObject(m) =>
      forall k | k in m
        ensures Inst(m[k], map[]) == m[k]
      {
        InstWithNothingBound(m[k]);
      }
    case JArray(xs) =>
      forall i | 0 <= i < |xs|
        ensures Inst(xs[i], map[]) == xs[i]
      {
        InstWithNothingBound(xs[i]);
      }
      assert Inst(t, map[]).items == xs;
    case _ =>
  }

  /** A string binding that does not read back makes the whole substitution
      fail. */
  lemma UnreadableBindingRejected(template: Members, key: string, b: Bindings, name: string)
    requires key in template && template[key] == JString(PlaceholderText(name))
    requires name in b && b[name].kind == STRING && b[name].value.JString? && !Quotable(b[name].value.text)
    ensures FillTemplate(template, b) == Err(InvalidJson)
  {
    PlaceholderNameRoundTrip(name);
    assert Fill(template[key], b).Err?;
  }

  lemma SqueezeAB()
    ensures Squeeze("a b") == "ab"
  {
    assert "a b" == "a" + " b";
    Strings.StripAppend("a", " b", {' '});
    Strings.StripNothing("a", {' '});
    Strings.StripNothing("b", {' '});
    assert Strings.Strip(" b", {' '}) == Strings.Strip("b", {' '});
  }

  /** As written, spaces inside a template's string values are lost. */
  lemma SpacesInValuesAreLost()
    ensures UpdateJsonParamsWithValues(map["state" := JString("a b")], map[]) ==
            Ok(map["state" := JString("ab")])
  {
    SqueezeAB();
    Strings.StripNothing("state", {' '});
    SqueezeOneString("state", "a b", map["state" := JString("a b")]);
    NothingBoundAfterSqueeze(map["state" := JString("a b")], map["state" := JString("ab")]);
  }

  /** With no bindings, the code as written returns the squeezed template. */
  lemma NothingBoundAfterSqueeze(t: Members, squeezed: Members)
    requires SqueezeTree(JObject(t)) == Ok(JObject(squeezed))
    ensures UpdateJsonParamsWithValues(t, map[]) == Ok(squeezed)
  {
    UnmentionedTemplateUnchanged(JObject(squeezed), map[]);
  }

  /** A one-member object under a space-free key keeps its key and loses the
      spaces of its string value. */
  lemma SqueezeOneString(k: string, s: string, t: Members)
    requires SpaceFree(k)
    requires t == map[k := JString(s)]
    ensures SqueezeTree(JObject(t)) == Ok(JObject(map[k := JString(Squeeze(s))]))
  {
    OneStringSqueezes(k, s, t);
    OneStringValues(k, s, t);
    SqueezeSpaceFreeKeys(t);
  }

  lemma OneStringSqueezes(k: string, s: string, t: Members)
    requires t == map[k := JString(s)]
    requires SpaceFree(k)
    ensures forall j | j in t :: SpaceFree(j) && SqueezeTree(t[j]).Ok?
  {
  }

  lemma OneStringValues(k: string, s: string, t: Members)
    requires t == map[k := JString(s)]
    requires forall j | j in t :: SpaceFree(j) && SqueezeTree(t[j]).Ok?
    ensures SqueezeValues(t) == map[k := JString(Squeeze(s))]
  {
  }

  /** An object whose keys hold no spaces and whose members survive the
      whitespace deletion keeps its keys. */
  lemma SqueezeSpaceFreeKeys(m: Members)
    requires forall k | k in m :: SpaceFree(k) && SqueezeTree(m[k]).Ok?
    ensures SqueezeTree(JObject(m)) == Ok(JObject(SqueezeValues(m)))
  {
    SpaceFreeKeysDistinct(m);
    SpaceFreeValuesStay(m);
    SqueezedObject(m);
  }

  lemma SpaceFreeValuesStay(m: Members)
    requires forall k | k in m :: SpaceFree(k) && SqueezeTree(m[k]).Ok?
    ensures KeysStayDistinct(SqueezeValues(m))
    ensures Rename(SqueezeValues(m)) == SqueezeValues(m)
  {
    var v := SqueezeValues(m);
    assert forall k | k in v :: SpaceFree(k);
    RenameSpaceFree(v);
  }

  /** The object case of the whitespace deletion when nothing fails. */
  lemma SqueezedObject(m: Members)
    requires KeysStayDistinct(m)
    requires !exists k | k in m :: SqueezeTree(m[k]).Err?
    ensures SqueezeTree(JObject(m)) == Ok(JObject(Rename(SqueezeValues(m))))
  {
  }

  /** The intended substitution keeps them. */
  lemma SpacesInValuesAreKept()
    ensures FillTemplate(map["state" := JString("a b")], map[]) ==
            Ok(map["state" := JString("a b")])
  {
    UnmentionedTemplateUnchanged(JObject(map["state" := JString("a b")]), map[]);
  }

  /** As written, two keys that differ only in spaces collide and the
      substitution fails; the intended substitution keeps both. */
  lemma SpacedKeysCollide()
    ensures UpdateJsonParamsWithValues(map["a b" := JInt(1), "ab" := JInt(2)], map[]) == Err(InvalidJson)
    ensures FillTemplate(map["a b" := JInt(1), "ab" := JInt(2)], map[]) ==
            Ok(map["a b" := JInt(1), "ab" := JInt(2)])
  {
    var t := map["a b" := JInt(1), "ab" := JInt(2)];
    SqueezeAB();
    Strings.StripNothing("ab", {' '});
    assert !KeysStayDistinct(t) by {
      assert Squeeze("a b") == Squeeze("ab");
    }
    UnmentionedTemplateUnchanged(JObject(t), map[]);
  }
}
