/** The substitutor of `MessageParser` (`updateJsonParamsWithValues`):
    filling a template object with the values bound by the mask matcher.

    Java works on text: it serialises the template, deletes all whitespace,
    replaces every `"{name}"` token by the rendered binding and parses the
    result again.  org.json writes every whitespace character inside a string
    or a key as an escape sequence except the plain space, so on the tree the
    whitespace deletion removes the spaces from every string and every key.
    Deleting them can make two keys equal, which the parser then rejects as a
    duplicate key.  A bound token is replaced by what its rendered binding
    reads back as.  `UpdateJsonParamsWithValues` is the code as written,
    `FillTemplate` the evidently intended behaviour that keeps spaces. */
module Templates {
  import opened Outcomes
  import opened JsonTree
  import opened MaskMatcher
  import Strings

  /** `s` without its spaces. */
  function Squeeze(s: string): (r: string)
    ensures forall i | 0 <= i < |r| :: r[i] != ' '
  {
    Strings.Strip(s, {' '})
  }

  predicate SpaceFree(s: string)
  {
    forall i | 0 <= i < |s| :: s[i] != ' '
  }

  /** No two keys of `m` become equal when spaces are deleted. */
  predicate KeysStayDistinct(m: Members)
  {
    forall k1, k2 | k1 in m && k2 in m && k1 != k2 :: Squeeze(k1) != Squeeze(k2)
  }

  /** The members of `m` under their keys without spaces. */
  function Rename(m: Members): (r: Members)
    requires KeysStayDistinct(m)
    ensures forall k | k in m :: Squeeze(k) in r && r[Squeeze(k)] == m[k]
    ensures forall k | k in r :: exists j | j in m :: Squeeze(j) == k
  {
    map k | k in m :: Squeeze(k) := m[k]
  }

  /** Bindings whose rendered text reads back as the bound value itself: every
      binding carries its own kind and no string binding holds a character
      that ends or breaks a quoted string. */
  predicate Readable(b: Bindings)
  {
    forall n | n in b :: WellTyped(b[n]) && (b[n].value.JString? ==> Quotable(b[n].value.text))
  }

  /** The value a bound token turns into once the filled text is parsed again:
      a scalar is rendered (`getParamValue`) and read back; an object or array
      binding is its own serialisation and reads back as itself. */
  function Reparse(v: JsonValue): (r: Result<Json>)
    ensures WellTyped(v) && (v.value.JString? ==> Quotable(v.value.text)) ==> r == Ok(v.value)
    ensures v.kind == STRING && v.value.JString? && !Quotable(v.value.text) ==> r == Err(InvalidJson)
    ensures r.Err? ==> r.error == InvalidJson
  {
    if IsScalar(v.value) then
      var literal := ReadLiteral(Render(v));
      match literal
      case Some(j) => Ok(j)
      case None => Err(InvalidJson)
    else Ok(v.value)
  }

  /** The template after the whitespace deletion: spaces removed from every
      string and every key, failing when two keys of one object collide. */
  function SqueezeTree(t: Json): (r: Result<Json>)
    ensures r.Err? ==> r.error == InvalidJson
    ensures r.Ok? && t.JObject? ==> r.value.JObject?
    decreases t, 1
  {
    match t
    case JObject(m) =>
      if exists k | k in m :: SqueezeTree(m[k]).Err? then Err(InvalidJson)
      else if !KeysStayDistinct(m) then Err(InvalidJson)
      else Ok(JObject(Rename(SqueezeValues(m))))
    case JArray(xs) =>
      var items :- SqueezeItems(xs, 0);
      Ok(JArray(items))
    case JString(s) => Ok(JString(Squeeze(s)))
    case _ => Ok(t)
  }

  function SqueezeValues(m: Members): (r: Members)
    requires forall k | k in m :: SqueezeTree(m[k]).Ok?
    ensures r.Keys == m.Keys
    ensures forall k | k in m :: r[k] == SqueezeTree(m[k]).value
    decreases JObject(m), 0
  {
    map k | k in m :: SqueezeTree(m[k]).value
  }

  /** The elements of an array from index `i` on, each squeezed. */
  function SqueezeItems(xs: seq<Json>, i: nat): (r: Result<seq<Json>>)
    requires i <= |xs|
    ensures r.Err? ==> r.error == InvalidJson
    ensures r.Ok? ==> |r.value| == |xs| - i
    decreases JArray(xs), 0, |xs| - i
  {
    if i == |xs| then Ok([])
    else
      var first := SqueezeTree(xs[i]);
      var rest := SqueezeItems(xs, i + 1);
      if first.Err? then Err(InvalidJson)
      else if rest.Err? then Err(InvalidJson)
      else Ok([first.value] + rest.value)
  }

  /** The template `t` with every bound placeholder string replaced by what
      its binding reads back as. */
  function Fill(t: Json, b: Bindings): (r: Result<Json>)
    ensures r.Err? ==> r.error == InvalidJson
    ensures r.Ok? && t.JObject? ==> r.value.JObject?
    decreases t, 1
  {
    match t
    case JObject(m) =>
      if exists k | k in m :: Fill(m[k], b).Err? then Err(InvalidJson)
      else Ok(JObject(FillValues(m, b)))
    case JArray(xs) =>
      var items :- FillItems(xs, b, 0);
      Ok(JArray(items))
    case JString(s) =>
      if IsPlaceholder(s) && PlaceholderName(s) in b then Reparse(b[PlaceholderName(s)])
      else Ok(t)
    case _ => Ok(t)
  }

  /** The members of an object, each filled. */
  function FillValues(m: Members, b: Bindings): (r: Members)
    requires forall k | k in m :: Fill(m[k], b).Ok?
    ensures r.Keys == m.Keys
    ensures forall k | k in m :: r[k] == Fill(m[k], b).value
    decreases JObject(m), 0
  {
    map k | k in m :: Fill(m[k], b).value
  }

  /** The elements of an array from index `i` on, filled one by one. */
  function FillItems(xs: seq<Json>, b: Bindings, i: nat): (r: Result<seq<Json>>)
    requires i <= |xs|
    ensures r.Err? ==> r.error == InvalidJson
    ensures r.Ok? <==> forall j | i <= j < |xs| :: Fill(xs[j], b).Ok?
    ensures r.Ok? ==> |r.value| == |xs| - i
    ensures r.Ok? ==> forall j | 0 <= j < |r.value| :: r.value[j] == Fill(xs[i + j], b).value
    decreases JArray(xs), 0, |xs| - i
  {
    if i == |xs| then Ok([])
    else
      var first := Fill(xs[i], b);
      var rest := FillItems(xs, b, i + 1);
      if first.Err? then Err(InvalidJson)
      else if rest.Err? then Err(InvalidJson)
      else
        var items := [first.value] + rest.value;
        FilledItemsShift(xs, b, i, first.value, rest.value);
        assert |items| == |xs| - i;
        Ok(items)
  }

  lemma FilledItemsShift(xs: seq<Json>, b: Bindings, i: nat, first: Json, rest: seq<Json>)
    requires i < |xs| && Fill(xs[i], b) == Ok(first) && |rest| == |xs| - i - 1
    requires forall j | i + 1 <= j < |xs| :: Fill(xs[j], b).Ok?
    requires forall j | 0 <= j < |rest| :: rest[j] == Fill(xs[i + 1 + j], b).value
    ensures forall j | i <= j < |xs| :: Fill(xs[j], b).Ok?
    ensures forall j | 0 <= j < |[first] + rest| ::
              i + j < |xs| && Fill(xs[i + j], b).Ok? && ([first] + rest)[j] == Fill(xs[i + j], b).value
  {
    forall j | 0 <= j < |[first] + rest|
      ensures i + j < |xs| && Fill(xs[i + j], b).Ok? && ([first] + rest)[j] == Fill(xs[i + j], b).value
    {
      if j > 0 {
        assert ([first] + rest)[j] == rest[j - 1];
        assert i + 1 + (j - 1) == i + j;
      }
    }
  }

  /** `updateJsonParamsWithValues` as written: the template loses the spaces
      inside its strings and keys, then its bound tokens are replaced. */
  function UpdateJsonParamsWithValues(template: Members, b: Bindings): (r: Result<Members>)
    ensures r.Err? ==> r.error == InvalidJson
  {
    var squeezed :- SqueezeTree(JObject(template));
    var filled :- Fill(squeezed, b);
    Ok(filled.members)
  }

  /** The substitution as evidently intended: only formatting whitespace is
      deleted, so string and key contents survive. */
  function FillTemplate(template: Members, b: Bindings): (r: Result<Members>)
    ensures r.Err? ==> r.error == InvalidJson
  {
    var filled :- Fill(JObject(template), b);
    Ok(filled.members)
  }

  /** Reference definition: `t` with every placeholder string whose name `env`
      binds replaced by the bound value, every occurrence alike. */
  function Inst(t: Json, env: map<string, Json>): Json
  {
    match t
    case JObject(m) => JObject(map k | k in m :: Inst(m[k], env))
    case JArray(xs) => JArray(seq(|xs|, i requires 0 <= i < |xs| => Inst(xs[i], env)))
    case JString(s) => if IsPlaceholder(s) && PlaceholderName(s) in env then env[PlaceholderName(s)] else t
    case _ => t
  }

  /** The values of a binding map, without their kinds. */
  function BoundValues(b: Bindings): (env: map<string, Json>)
    ensures env.Keys == b.Keys
    ensures forall n | n in b :: env[n] == b[n].value
  {
    map n | n in b :: b[n].value
  }

  /** Every string and key of `t` is free of spaces. */
  predicate SpaceFreeTree(t: Json)
  {
    match t
    case JObject(m) => forall k | k in m :: SpaceFree(k) && SpaceFreeTree(m[k])
    case JArray(xs) => forall i | 0 <= i < |xs| :: SpaceFreeTree(xs[i])
    case JString(s) => SpaceFree(s)
    case _ => true
  }

  /** Some placeholder string of `t`, at any depth, is named `n`. */
  predicate Mentions(t: Json, n: string)
  {
    match t
    case JObject(m) => exists k | k in m :: Mentions(m[k], n)
    case JArray(xs) => exists i | 0 <= i < |xs| :: Mentions(xs[i], n)
    case JString(s) => IsPlaceholder(s) && PlaceholderName(s) == n
    case _ => false
  }
}
