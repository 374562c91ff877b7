# AWS IoT device mock — masked-JSON correlation core

This project models the decision core of `aws-iot-device-mock`, a Java simulator of an AWS IoT device used in test automation. A simulated device subscribes to an MQTT topic and decides whether an incoming message is the expected trigger. When it is, the device may publish a reply, and it records the trigger in a latch that a test polls.

The hard part is the correlation engine in `MessageParser`:

- a **mask matcher** walks a JSON mask that contains `{name}` placeholders against a message, and collects typed bindings;
- a **substitutor** writes those bindings into a JSON template;
- a **detector** tells whether a JSON text holds placeholders.

Around the engine the project models four more pieces:

- the **trigger gate and consume-once latch** of `IoTDeviceListener`;
- the older gate `IoTDeviceSubscriber`;
- the **configuration record** `IoTDeviceData`, together with the mode predicates, the on-demand publish guard and the start/stop/close life cycle of `IoTDevice`;
- the string helpers `minimize` and `generateAwsClientId`.

Modules, one concept each:

| module | file | what it holds |
|---|---|---|
| `Outcomes` | outcomes.dfy | `Option` for Java's nullable references; `Result` and `Error` for the exceptions the code raises |
| `JsonTree` | json.dfy | parsed JSON trees, the classifier `getValueType`, the binding value `JsonValue`, and the scalar text a binding is rendered as |
| `KeyOrder` | keyorder.dfy | a fixed enumeration of an object's key set, standing for `HashMap` iteration order |
| `MaskMatcher` | matcher.dfy | `getParamsValuesFromMessage`, `extractParamFromArray`, `extractParamFromPart`, and `containsMaskParams` |
| `MatcherFacts` | matcher_facts.dfy | properties of the matcher that relate several calls |
| `Templates` | templates.dfy | `updateJsonParamsWithValues` as written, the intended substitution, and a reference substitution `Inst` |
| `TemplateFacts` | template_facts.dfy | how the substitutors relate to `Inst` and to each other |
| `Extraction` | extraction.dfy | the extract-then-fill round trip: matching an instance of a mask recovers the values put in |
| `DeviceConfig` | devicedata.dfy | `IoTDeviceData`, its setters, and the device modes |
| `Listener` | listener.dfy | `IoTDeviceListener.onMessage`, its condition helpers, and the latch |
| `ListenerFacts` | listener_facts.dfy | branch, latch and variant properties of the listener |
| `RoundTrip` | round_trip.dfy | what a responding device does with instances of its placeholder condition |
| `Subscriber` | subscriber.dfy | `IoTDeviceSubscriber` |
| `Device` | device.dfy | `IoTDevice` |
| `Strings` | strings.dfy | `StringOperations` |

How the Java is rendered in the model:

- **Exceptions are values.** Each exception becomes an `Error` value:
  - `PayloadMappingException` becomes `PayloadMapping`, carrying which rule failed;
  - `IllegalArgumentException` from `getValueType` becomes `UnrecognisedValue`;
  - the `JSONException` that `JSONObject.get` throws on a missing key becomes `MissingKey`;
  - an unparsable substituted text becomes `InvalidJson`;
  - a null dereference becomes `NullReference`;
  - `IllegalStateException` becomes `IllegalState`;
  - `AwsException` becomes `Transport`.
- **JSON is handled as trees.** Texts are held as parsed trees. Where the code compares org.json re-serialisations (`toString()`), the model compares trees. This is an abstraction: two equal trees can serialise in different key orders, as "## Left out" explains.
- **Integers follow Java.** A number is classified as `NUMBER` only when it fits Java's 32-bit `Integer`; any other number is rejected as org.json would.
- **The broker is a parameter.** Whether the broker accepts a call is the parameter `linkOk`.
- **Randomness is a parameter.** The random choices of `generate` are the parameter `picks`.

Two variants of the listener and the subscriber are modelled side by side (`Listener.Variant`):

- `AsWritten` follows the code.
- `Corrected` repairs the defects listed under "## Findings".

Behaviours of the code a reader may not expect, which the model keeps:

- **Strict matching.** The listener matches placeholder conditions in strict mode (IoTDeviceListener.java lines 40 and 134), not in non-strict mode.
- **No conditions.** With neither a topic condition nor a message condition, the listener triggers on nothing. As written, it even fails on every message, because line 37 parses the missing condition. It never acts as a wildcard; only `IoTDeviceSubscriber` is one.
- **Mode.** The device mode depends on the subscription topic and the publication pair only. The topic condition plays no part.
- **Array bindings.** Bindings from array elements are overwritten, not merged.
- **Delay units.** The response delay is passed to `Thread.sleep`, so it counts milliseconds despite its name.
- **Missing delay field.** `IoTDeviceData` declares no delay field, although `IoTDevice` and `IoTDeviceListener` both use one. `DeviceConfig.DeviceData` adds it as `responseDelay`, with Java's default of 0.

## Model

Source paths are relative to the repository root.

| member | source | states |
|---|---|---|
| JsonTree.Classify | src/main/java/com/testcraftsmanship/awsiotdevice/parser/MessageParser.java:72-86 | each of the five kinds is returned exactly for its own shape of value, and NUMBER only for a 32-bit integer; every other value (null, long, decimal) is rejected as unrecognised, an error distinct from a mapping mismatch |
| JsonTree.NatText | src/main/java/com/testcraftsmanship/awsiotdevice/parser/MessageParser.java:64 | the decimal text of a number is non-empty and made of digits only |
| JsonTree.ReadNatText | src/main/java/com/testcraftsmanship/awsiotdevice/parser/MessageParser.java:64 | reading back the decimal text of a natural number gives the number |
| JsonTree.IntText | src/main/java/com/testcraftsmanship/awsiotdevice/parser/MessageParser.java:64 | the text of any integer, negative ones included, reads back as the integer, and starts with a minus sign exactly when the integer is negative |
| JsonTree.Render | src/main/java/com/testcraftsmanship/awsiotdevice/parser/MessageParser.java:60-66 | a well-typed scalar binding is rendered quoted when it is a string and bare otherwise, and reading the rendered literal back gives the bound value with its kind unchanged; in the model a string binding holding a quote, a line break or NUL does not read back as a literal (org.json fails alike for a line break or NUL, while a quote may splice members that org.json still parses) |
| KeyOrder.PrecedesIrreflexive | src/main/java/com/testcraftsmanship/awsiotdevice/parser/MessageParser.java:107 | no key precedes itself in the fixed key order |
| KeyOrder.PrecedesTransitive | src/main/java/com/testcraftsmanship/awsiotdevice/parser/MessageParser.java:107 | the fixed key order is transitive |
| KeyOrder.PrecedesTotal | src/main/java/com/testcraftsmanship/awsiotdevice/parser/MessageParser.java:107 | any two distinct keys are ordered one way or the other |
| KeyOrder.LeastExists | src/main/java/com/testcraftsmanship/awsiotdevice/parser/MessageParser.java:107 | every non-empty key set has a first key |
| KeyOrder.LeastUnique | src/main/java/com/testcraftsmanship/awsiotdevice/parser/MessageParser.java:107 | the first key of a key set is unique |
| KeyOrder.Least | src/main/java/com/testcraftsmanship/awsiotdevice/parser/MessageParser.java:107 | the chosen key belongs to the set and no key of the set precedes it |
| KeyOrder.Enumerate | src/main/java/com/testcraftsmanship/awsiotdevice/parser/MessageParser.java:107 | the key loop visits exactly the mask's keys, in ascending order, as many as there are keys |
| KeyOrder.EnumerateDistinct | src/main/java/com/testcraftsmanship/awsiotdevice/parser/MessageParser.java:107 | the key loop visits no key twice |
| MaskMatcher.PlaceholderNameRoundTrip | src/main/java/com/testcraftsmanship/awsiotdevice/parser/MessageParser.java:17 | writing a name in braces gives a placeholder whose captured name is that name |
| MaskMatcher.PlaceholderTextRoundTrip | src/main/java/com/testcraftsmanship/awsiotdevice/parser/MessageParser.java:143-147 | a placeholder string is the braces around its captured name |
| MaskMatcher.HasMaskParam | src/main/java/com/testcraftsmanship/awsiotdevice/parser/MessageParser.java:51-54 | only an object or array can hold a detected placeholder, and an array whose elements are all scalars, placeholder strings included, is never detected, since the pattern needs a `:` before the token |
| MatcherFacts.HasMaskParamIffOccurs | src/main/java/com/testcraftsmanship/awsiotdevice/parser/MessageParser.java:51-57 | the detector finds a placeholder exactly when some object, at any depth, has a member holding a placeholder string, which is where the `:"{...}"` pattern matches |
| MaskMatcher.ContainsMaskParams | src/main/java/com/testcraftsmanship/awsiotdevice/parser/MessageParser.java:51-54 | parsing a null text fails; otherwise the answer is true exactly when some object member, at any depth, holds a placeholder string |
| MaskMatcher.MatchObject | src/main/java/com/testcraftsmanship/awsiotdevice/parser/MessageParser.java:100-121 | strict mode with differing key sets fails with a key-set mismatch; strict mode never reports a missing key; every binding is well typed and is a value drawn from the message; a mask without placeholders binds nothing; a strict success implies equal key sets and equal array lengths along the visited path |
| MaskMatcher.MatchMembers | src/main/java/com/testcraftsmanship/awsiotdevice/parser/MessageParser.java:107-119 | the key loop keeps bindings well typed and drawn from the message, and under strict mode every visited key agrees in shape |
| MaskMatcher.MatchMember | src/main/java/com/testcraftsmanship/awsiotdevice/parser/MessageParser.java:108-118 | a mask key the message lacks fails with a missing-key error naming that key; a success binds only well-typed values drawn from the message |
| MaskMatcher.MatchArray | src/main/java/com/testcraftsmanship/awsiotdevice/parser/MessageParser.java:123-137 | strict mode with unequal lengths fails with a length mismatch; a success binds only well-typed values drawn from the message array |
| MaskMatcher.MatchElements | src/main/java/com/testcraftsmanship/awsiotdevice/parser/MessageParser.java:130-135 | the element loop keeps bindings well typed and drawn from the message, and a strict success gives every object-valued mask element an object in the message |
| MaskMatcher.MatchPart | src/main/java/com/testcraftsmanship/awsiotdevice/parser/MessageParser.java:139-158 | a leaf succeeds exactly when the mask is a placeholder or equals the message value; a placeholder binds its name to the message value tagged with the message value's kind, never the mask's; otherwise nothing is bound; an unclassifiable mask value fails as unrecognised, and with a classifiable mask every failure is the value-mismatch mapping error |
| MatcherFacts.MembersOkIffEveryMemberOk | src/main/java/com/testcraftsmanship/awsiotdevice/parser/MessageParser.java:107-119 | the key loop succeeds exactly when every visited key succeeds |
| MatcherFacts.MembersReportFirstFailure | src/main/java/com/testcraftsmanship/awsiotdevice/parser/MessageParser.java:107-119 | a failing key loop reports the error of the first failing key, and every key before it succeeded |
| MatcherFacts.MembersLastWriteWins | src/main/java/com/testcraftsmanship/awsiotdevice/parser/MessageParser.java:113-117 | with `putAll` merging, a name bound by several keys ends up with the value from the last key that binds it |
| MatcherFacts.NameSurvives | src/main/java/com/testcraftsmanship/awsiotdevice/parser/MessageParser.java:113-117 | a binding that no later key rebinds keeps its value to the end of the loop |
| MatcherFacts.MissingMaskKeyFails | src/main/java/com/testcraftsmanship/awsiotdevice/parser/MessageParser.java:107-109 | in non-strict mode a mask key missing from the message makes the match fail, with a missing-key error for that key when every other key matches |
| MatcherFacts.OnlyFailureReported | src/main/java/com/testcraftsmanship/awsiotdevice/parser/MessageParser.java:107-119 | when exactly one key of the loop fails, the loop fails with that key's error |
| MatcherFacts.NonStrictIgnoresExtraKeys | src/main/java/com/testcraftsmanship/awsiotdevice/parser/MessageParser.java:103-109 | in non-strict mode only mask keys are read: two messages that agree on the mask's keys give the same result, so extra message keys are tolerated |
| MatcherFacts.MembersAgree | src/main/java/com/testcraftsmanship/awsiotdevice/parser/MessageParser.java:107-119 | in non-strict mode the key loop gives the same result on two messages that agree on the mask's keys |
| MatcherFacts.LiteralMismatchRejected | src/main/java/com/testcraftsmanship/awsiotdevice/parser/MessageParser.java:152-157 | a literal scalar mask member whose message value differs makes the whole match fail, in either mode; when it is the only failing member and strict mode's key sets agree, the failure is the value-mismatch mapping error the listener catches |
| MatcherFacts.LiteralMemberRejected | src/main/java/com/testcraftsmanship/awsiotdevice/parser/MessageParser.java:152-157 | a literal scalar mask member whose message value differs makes that member's step fail with the value-mismatch mapping error |
| MatcherFacts.LastObjectBefore | src/main/java/com/testcraftsmanship/awsiotdevice/parser/MessageParser.java:130-131 | the index found is an object-valued mask element with no object-valued element after it, and none is found exactly when no element is an object |
| MatcherFacts.ArrayKeepsLastObjectBindings | src/main/java/com/testcraftsmanship/awsiotdevice/parser/MessageParser.java:129-136 | a successful array match returns exactly the bindings of the last object-valued mask element matched against its message element, or nothing when there is none: earlier elements' bindings are overwritten, not merged |
| MatcherFacts.ElementsKeepLast | src/main/java/com/testcraftsmanship/awsiotdevice/parser/MessageParser.java:130-135 | from any point of the element loop, the result is the bindings of the last object-valued element still ahead, or those collected so far if none is ahead |
| MatcherFacts.ScalarElementsIgnored | src/main/java/com/testcraftsmanship/awsiotdevice/parser/MessageParser.java:130-135 | replacing a message element opposite a scalar mask element never changes the array match: scalar elements are never compared |
| MatcherFacts.ElementsIgnoreScalar | src/main/java/com/testcraftsmanship/awsiotdevice/parser/MessageParser.java:130-135 | the element loop gives the same result when a message element opposite a non-object mask element is replaced |
| MatcherFacts.StrictPlainMatchIsEquality | src/main/java/com/testcraftsmanship/awsiotdevice/parser/MessageParser.java:100-121 | for a mask without placeholders or arrays, strict matching succeeds exactly when the message equals the mask |
| MatcherFacts.StrictPlainMembersAreEquality | src/main/java/com/testcraftsmanship/awsiotdevice/parser/MessageParser.java:107-119 | with equal key sets and a plain mask, the strict match succeeds exactly when every member equals the mask's |
| MatcherFacts.SameKeysPointwise | src/main/java/com/testcraftsmanship/awsiotdevice/parser/MessageParser.java:103 | two objects with the same keys are equal exactly when they agree on every key |
| MatcherFacts.StrictPlainMemberIsEquality | src/main/java/com/testcraftsmanship/awsiotdevice/parser/MessageParser.java:108-118 | for a plain mask, one strict member step succeeds exactly when the message member equals the mask member |
| Templates.Squeeze | src/main/java/com/testcraftsmanship/awsiotdevice/parser/MessageParser.java:35 | a squeezed text holds no space |
| Templates.Rename | src/main/java/com/testcraftsmanship/awsiotdevice/parser/MessageParser.java:35 | every member survives under its key without spaces, and every resulting key comes from some original key |
| Templates.Reparse | src/main/java/com/testcraftsmanship/awsiotdevice/parser/MessageParser.java:39-48 | a well-typed binding whose text reads back becomes its own value once the filled text is parsed again; the model reports invalid JSON for a string holding a quote, a line break or NUL, and for no other reason |
| Templates.SqueezeTree | src/main/java/com/testcraftsmanship/awsiotdevice/parser/MessageParser.java:35 | deleting spaces from a template fails only as invalid JSON, when two keys collide, and keeps an object an object |
| Templates.SqueezeValues | src/main/java/com/testcraftsmanship/awsiotdevice/parser/MessageParser.java:35 | the squeezed members keep the object's key set, each squeezed on its own |
| Templates.SqueezeItems | src/main/java/com/testcraftsmanship/awsiotdevice/parser/MessageParser.java:35 | squeezing the elements of an array keeps their number, and fails only as invalid JSON |
| Templates.Fill | src/main/java/com/testcraftsmanship/awsiotdevice/parser/MessageParser.java:37-48 | replacing bound placeholder tokens fails only as invalid JSON, and keeps an object an object |
| Templates.FillValues | src/main/java/com/testcraftsmanship/awsiotdevice/parser/MessageParser.java:37-46 | the filled members keep the object's key set, each filled on its own |
| Templates.FillItems | src/main/java/com/testcraftsmanship/awsiotdevice/parser/MessageParser.java:37-46 | filling an array succeeds exactly when every element fills, and the result lists the filled elements in order |
| Templates.FilledItemsShift | src/main/java/com/testcraftsmanship/awsiotdevice/parser/MessageParser.java:37-46 | one filled element followed by the filled rest is the filled array from that element on |
| Templates.UpdateJsonParamsWithValues | src/main/java/com/testcraftsmanship/awsiotdevice/parser/MessageParser.java:34-49 | the substitution as written fails only as invalid JSON |
| Templates.FillTemplate | src/main/java/com/testcraftsmanship/awsiotdevice/parser/MessageParser.java:37-48 | the intended substitution fails only as invalid JSON |
| Templates.BoundValues | src/main/java/com/testcraftsmanship/awsiotdevice/parser/JsonValue.java:6-14 | the values of the bindings, under the same names, without their kinds |
| TemplateFacts.FillIsInstance | src/main/java/com/testcraftsmanship/awsiotdevice/parser/MessageParser.java:37-48 | with bindings that read back, filling any template is the reference substitution: every bound placeholder, however often repeated, becomes its value, and unbound ones stay |
| TemplateFacts.ItemsAreInstances | src/main/java/com/testcraftsmanship/awsiotdevice/parser/MessageParser.java:37-48 | with bindings that read back, each filled array element is the reference substitution of that element |
| TemplateFacts.FillOkIsInstance | src/main/java/com/testcraftsmanship/awsiotdevice/parser/MessageParser.java:37-48 | with well-typed bindings, whenever filling succeeds its result is the reference substitution |
| TemplateFacts.FillOkObjectIsInstance | src/main/java/com/testcraftsmanship/awsiotdevice/parser/MessageParser.java:37-48 | the object case of the previous row |
| TemplateFacts.FillOkArrayIsInstance | src/main/java/com/testcraftsmanship/awsiotdevice/parser/MessageParser.java:37-48 | the array case of the previous row |
| TemplateFacts.FillOkItemsFromStart | src/main/java/com/testcraftsmanship/awsiotdevice/parser/MessageParser.java:37-48 | a successful element fill keeps the length and gives each element's reference substitution |
| TemplateFacts.InstArrayItems | src/main/java/com/testcraftsmanship/awsiotdevice/parser/MessageParser.java:37-46 | the reference substitution of an array substitutes each element and keeps the length |
| TemplateFacts.ReparseOkIsValue | src/main/java/com/testcraftsmanship/awsiotdevice/parser/MessageParser.java:60-66 | a well-typed binding that parses back parses back as its own value |
| TemplateFacts.FillOkItemsAreInstances | src/main/java/com/testcraftsmanship/awsiotdevice/parser/MessageParser.java:37-48 | every element of a successful element fill is that element's reference substitution |
| TemplateFacts.SpaceFreeSurvivesSqueeze | src/main/java/com/testcraftsmanship/awsiotdevice/parser/MessageParser.java:35 | a template without spaces in its strings and keys is left unchanged by the whitespace deletion |
| TemplateFacts.SpaceFreeObjectSurvives | src/main/java/com/testcraftsmanship/awsiotdevice/parser/MessageParser.java:35 | an object with space-free keys whose members survive unchanged survives unchanged |
| TemplateFacts.RenameSpaceFree | src/main/java/com/testcraftsmanship/awsiotdevice/parser/MessageParser.java:35 | keys without spaces keep their names and cannot collide |
| TemplateFacts.SpaceFreeKeysDistinct | src/main/java/com/testcraftsmanship/awsiotdevice/parser/MessageParser.java:35 | space-free keys are their own squeezed forms and stay distinct |
| TemplateFacts.SpaceFreeItemsSurvive | src/main/java/com/testcraftsmanship/awsiotdevice/parser/MessageParser.java:35 | space-free array elements are left unchanged by the whitespace deletion |
| TemplateFacts.SqueezeItemsStep | src/main/java/com/testcraftsmanship/awsiotdevice/parser/MessageParser.java:35 | squeezing elements from one index on is the squeezed element followed by the squeezed rest |
| TemplateFacts.SplitFirst | src/main/java/com/testcraftsmanship/awsiotdevice/parser/MessageParser.java:35 | an array suffix is its first element followed by the shorter suffix |
| TemplateFacts.SpaceFreeTemplatesAgree | src/main/java/com/testcraftsmanship/awsiotdevice/parser/MessageParser.java:34-49 | on a template without spaces in its strings and keys, the code as written and the intended substitution give the same result |
| TemplateFacts.InstReadsOnlyMentionedNames | src/main/java/com/testcraftsmanship/awsiotdevice/parser/MessageParser.java:37-46 | only the names a template mentions matter: a binding for an absent token changes nothing |
| TemplateFacts.UnmentionedTemplateUnchanged | src/main/java/com/testcraftsmanship/awsiotdevice/parser/MessageParser.java:37-46 | a template that mentions no bound name is returned unchanged by the intended substitution |
| TemplateFacts.InstWithNothingBound | src/main/java/com/testcraftsmanship/awsiotdevice/parser/MessageParser.java:37-46 | with no bindings, the reference substitution leaves any template unchanged |
| TemplateFacts.UnreadableBindingRejected | src/main/java/com/testcraftsmanship/awsiotdevice/parser/MessageParser.java:39-48 | in the model, a string binding holding a quote, a line break or NUL, written into a template, makes the re-parse fail with invalid JSON (org.json fails alike on a line break or NUL, but may parse the text a quote splices) |
| TemplateFacts.SqueezeAB | src/main/java/com/testcraftsmanship/awsiotdevice/parser/MessageParser.java:35 | the text "a b" squeezes to "ab" |
| TemplateFacts.SpacesInValuesAreLost | src/main/java/com/testcraftsmanship/awsiotdevice/parser/MessageParser.java:35 | as written, the template `{"state":"a b"}` with no bindings comes out as `{"state":"ab"}` |
| TemplateFacts.NothingBoundAfterSqueeze | src/main/java/com/testcraftsmanship/awsiotdevice/parser/MessageParser.java:34-49 | as written, with no bindings the result is the squeezed template |
| TemplateFacts.SqueezeOneString | src/main/java/com/testcraftsmanship/awsiotdevice/parser/MessageParser.java:35 | a one-member object under a space-free key keeps the key and loses the spaces of its string |
| TemplateFacts.OneStringSqueezes | src/main/java/com/testcraftsmanship/awsiotdevice/parser/MessageParser.java:35 | a one-string object under a space-free key meets the conditions under which its keys survive |
| TemplateFacts.OneStringValues | src/main/java/com/testcraftsmanship/awsiotdevice/parser/MessageParser.java:35 | the squeezed members of a one-string object hold the squeezed string |
| TemplateFacts.SqueezeSpaceFreeKeys | src/main/java/com/testcraftsmanship/awsiotdevice/parser/MessageParser.java:35 | with space-free keys, squeezing an object squeezes its members in place |
| TemplateFacts.SpaceFreeValuesStay | src/main/java/com/testcraftsmanship/awsiotdevice/parser/MessageParser.java:35 | squeezed members under space-free keys keep those keys when renamed |
| TemplateFacts.SqueezedObject | src/main/java/com/testcraftsmanship/awsiotdevice/parser/MessageParser.java:35 | an object whose keys stay distinct squeezes to its renamed, squeezed members |
| TemplateFacts.SpacesInValuesAreKept | src/main/java/com/testcraftsmanship/awsiotdevice/parser/MessageParser.java:35 | the intended substitution returns `{"state":"a b"}` unchanged |
| TemplateFacts.SpacedKeysCollide | src/main/java/com/testcraftsmanship/awsiotdevice/parser/MessageParser.java:35 | as written, keys `"a b"` and `"ab"` collide and the substitution fails; the intended one keeps both |
| Extraction.ExtractObject | src/main/java/com/testcraftsmanship/awsiotdevice/parser/MessageParser.java:100-121 | matching a simple mask against any instance of it, strictly or not, succeeds, and binds exactly the mentioned names, each to the supplied value tagged with its own kind |
| Extraction.ExtraKeysTolerated | src/main/java/com/testcraftsmanship/awsiotdevice/parser/MessageParser.java:103-119 | in non-strict mode, a message that repeats an instance of a simple mask on the mask's keys and holds any further keys still matches, and binds exactly the mentioned names to the supplied values |
| Extraction.ExtractMembers | src/main/java/com/testcraftsmanship/awsiotdevice/parser/MessageParser.java:107-119 | the key loop over an instance succeeds, binds only supplied values, and binds every name any visited key mentions |
| Extraction.KeptByLaterMembers | src/main/java/com/testcraftsmanship/awsiotdevice/parser/MessageParser.java:113-117 | a name already bound stays bound through the rest of the key loop |
| Extraction.ExtractMember | src/main/java/com/testcraftsmanship/awsiotdevice/parser/MessageParser.java:108-118 | one member step on an instance succeeds and binds exactly the names that member mentions, to their supplied values |
| Extraction.NestedMatch | src/main/java/com/testcraftsmanship/awsiotdevice/parser/MessageParser.java:110-113 | a member step on an object-valued mask member is the nested match |
| Extraction.PlaceholderMatch | src/main/java/com/testcraftsmanship/awsiotdevice/parser/MessageParser.java:142-149 | a member step on a placeholder binds its name to the message value with that value's kind |
| Extraction.LiteralMatch | src/main/java/com/testcraftsmanship/awsiotdevice/parser/MessageParser.java:152-153 | a member step on a literal the message repeats binds nothing |
| Extraction.AgreeingBindingsReadable | src/main/java/com/testcraftsmanship/awsiotdevice/parser/MessageParser.java:60-66 | bindings that agree with supplied values read back, and their values are the supplied ones |
| Extraction.ExtractThenFill | src/main/java/com/testcraftsmanship/awsiotdevice/parser/MessageParser.java:34-49 | extracting from an instance of a simple mask and filling any template that mentions only the mask's names gives the template's instance under the same values: each value keeps its kind, and repeated tokens are all replaced |
| Extraction.FillObjectIsInstance | src/main/java/com/testcraftsmanship/awsiotdevice/parser/MessageParser.java:37-48 | with readable bindings, the intended substitution of an object is its reference substitution |
| DeviceConfig.Fresh | src/main/java/com/testcraftsmanship/awsiotdevice/device/IoTDeviceData.java:10-14 | a new record has all five fields null and a zero delay |
| DeviceConfig.SetPublicationMessage | src/main/java/com/testcraftsmanship/awsiotdevice/device/IoTDeviceData.java:16-18 | a null message fails before anything is stored; otherwise the parsed message is stored and no other field changes |
| DeviceConfig.Get | src/main/java/com/testcraftsmanship/awsiotdevice/device/IoTDeviceData.java:7-8 | each getter returns a value of its field's type |
| DeviceConfig.Set | src/main/java/com/testcraftsmanship/awsiotdevice/device/IoTDeviceData.java:7-8 | a setter stores its argument verbatim, so its getter returns it, and leaves every other field unchanged |
| DeviceConfig.LastWriteWins | src/main/java/com/testcraftsmanship/awsiotdevice/device/IoTDeviceData.java:7-8 | reading a field returns the last value written to it, whatever was written to other fields since |
| DeviceConfig.Apply | src/main/java/com/testcraftsmanship/awsiotdevice/device/IoTDeviceData.java:7-8 | the plain setters never touch the publication message |
| DeviceConfig.SettersCommute | src/main/java/com/testcraftsmanship/awsiotdevice/device/IoTDeviceData.java:7-8 | setters of different fields commute |
| DeviceConfig.Subscribed | src/main/java/com/testcraftsmanship/awsiotdevice/device/IoTDevice.java:145-147 | a device is subscribed exactly when the subscription topic getter returns a topic |
| DeviceConfig.Publishing | src/main/java/com/testcraftsmanship/awsiotdevice/device/IoTDevice.java:149-152 | a device publishes exactly when the publication topic getter returns a topic and a publication message is set, the same test as the listener's at IoTDeviceListener.java lines 98-100 |
| DeviceConfig.ModeOf | src/main/java/com/testcraftsmanship/awsiotdevice/device/IoTDevice.java:133-152 | responding, publishing-only, subscribed-only and idle are exclusive and cover every configuration, each holding exactly under its condition on "subscribed" and "publishing" |
| DeviceConfig.ModeIgnoresConditions | src/main/java/com/testcraftsmanship/awsiotdevice/device/IoTDevice.java:133-152 | the mode depends only on which of the subscription topic, publication topic and publication message are set |
| DeviceConfig.FreshIsIdle | src/main/java/com/testcraftsmanship/awsiotdevice/device/IoTDevice.java:133-152 | a fresh record is idle |
| Listener.HasParams | src/main/java/com/testcraftsmanship/awsiotdevice/device/IoTDeviceListener.java:37 | as written, the placeholder test fails on a missing condition; otherwise it is true exactly when the condition holds a placeholder |
| Listener.TopicMatches | src/main/java/com/testcraftsmanship/awsiotdevice/device/IoTDeviceListener.java:121-124 | the topic test holds exactly when a topic condition is set and equals the message topic; without a condition it never holds |
| Listener.Substitute | src/main/java/com/testcraftsmanship/awsiotdevice/device/IoTDeviceListener.java:41-42 | with bindings that read back as themselves, the corrected substitutor always gives the reference substitution and the one as written gives it on a template without spaces; the only failure is invalid JSON |
| Listener.PayloadMatches | src/main/java/com/testcraftsmanship/awsiotdevice/device/IoTDeviceListener.java:126-145 | a missing condition never matches; a condition without placeholders matches exactly the equal payload; a match implies equality or a strict mapping; mapping and missing-key failures never escape |
| Listener.ConditionsMet | src/main/java/com/testcraftsmanship/awsiotdevice/device/IoTDeviceListener.java:102-118 | topic and payload, payload alone without a topic condition, or topic alone without a message condition; with neither condition nothing satisfies; it fails exactly when the payload test fails |
| Listener.Reply | src/main/java/com/testcraftsmanship/awsiotdevice/device/IoTDeviceListener.java:90-96 | after the wait, the reply goes to the publication topic and sets the latch; a negative delay or a broker failure are the only errors |
| Listener.OnMessage | src/main/java/com/testcraftsmanship/awsiotdevice/device/IoTDeviceListener.java:36-62 | a set latch stays set; a reply is sent only on a configured publication, to its topic, with the latch set, a usable delay and a working link; a mapping failure never escapes |
| Listener.Poll | src/main/java/com/testcraftsmanship/awsiotdevice/device/IoTDeviceListener.java:70-76 | a poll returns the latch and clears it |
| ListenerFacts.PlaceholderReplyIgnoresTopic | src/main/java/com/testcraftsmanship/awsiotdevice/device/IoTDeviceListener.java:37-44 | on the placeholder path the reply is the publication template filled from the strict extraction, whatever topic the message came on |
| ListenerFacts.MappingFailureStillSetsLatch | src/main/java/com/testcraftsmanship/awsiotdevice/device/IoTDeviceListener.java:45-47 | on the placeholder path a mapping failure publishes nothing but sets the latch |
| ListenerFacts.PlainPathActsIffConditionsMet | src/main/java/com/testcraftsmanship/awsiotdevice/device/IoTDeviceListener.java:48-61 | off the placeholder path: met with a publication sends the stored message unchanged and sets the latch; met without one only sets the latch; unmet leaves the latch as it was |
| ListenerFacts.DecisionIgnoresLatch | src/main/java/com/testcraftsmanship/awsiotdevice/device/IoTDeviceListener.java:36-62 | whether a message fails, and what it sends, does not depend on the latch, and a set latch stays set |
| ListenerFacts.DeliverAll | src/main/java/com/testcraftsmanship/awsiotdevice/device/IoTDeviceListener.java:36-62 | a run of messages succeeds exactly when each one does, and a set latch stays set through it |
| ListenerFacts.LatchRecordsAcceptance | src/main/java/com/testcraftsmanship/awsiotdevice/device/IoTDeviceListener.java:61 | after a run of messages the latch is set exactly when it was set before or some message of the run was accepted |
| ListenerFacts.SeveralMessagesOnePoll | src/main/java/com/testcraftsmanship/awsiotdevice/device/IoTDeviceListener.java:70-76 | two accepted messages before a poll give one true, and the next poll gives false |
| ListenerFacts.MissingConditionFails | src/main/java/com/testcraftsmanship/awsiotdevice/device/IoTDeviceListener.java:37 | as written, a listener without a message condition fails on every message |
| ListenerFacts.TopicOnlyListenerFires | src/main/java/com/testcraftsmanship/awsiotdevice/device/IoTDeviceListener.java:112-114 | corrected, a topic-only listener is triggered exactly on its topic and replies with the stored message when a publication is configured |
| ListenerFacts.NothingTriggersWithoutConditions | src/main/java/com/testcraftsmanship/awsiotdevice/device/IoTDeviceListener.java:102-118 | corrected, a listener with neither condition ignores every message |
| ListenerFacts.FilledStringMember | src/main/java/com/testcraftsmanship/awsiotdevice/parser/MessageParser.java:35-48 | as written, a non-placeholder string member under a space-free key comes out with its spaces deleted |
| ListenerFacts.FillPlainString | src/main/java/com/testcraftsmanship/awsiotdevice/parser/MessageParser.java:37-46 | a string that is not a placeholder is left as it is by filling |
| ListenerFacts.SqueezeString | src/main/java/com/testcraftsmanship/awsiotdevice/parser/MessageParser.java:35 | a string squeezes to its text without spaces |
| ListenerFacts.UpdateSteps | src/main/java/com/testcraftsmanship/awsiotdevice/parser/MessageParser.java:34-49 | a successful substitution as written is the whitespace deletion followed by the fill |
| ListenerFacts.SqueezedMember | src/main/java/com/testcraftsmanship/awsiotdevice/parser/MessageParser.java:35 | a member under a space-free key keeps its key through the deletion and holds its squeezed value |
| ListenerFacts.FilledMember | src/main/java/com/testcraftsmanship/awsiotdevice/parser/MessageParser.java:37-46 | filling an object fills each member under the same key |
| ListenerFacts.SpacedLiteralNeverMatches | src/main/java/com/testcraftsmanship/awsiotdevice/device/IoTDeviceListener.java:132-137 | as written, a condition with placeholders never matches a payload that repeats one of its literal strings holding a space |
| ListenerFacts.AcceptedPayloadRebuilt | src/main/java/com/testcraftsmanship/awsiotdevice/device/IoTDeviceListener.java:132-137 | as written, an accepted payload is matched strictly and is exactly the condition filled from its own bindings |
| ListenerFacts.SqueezeChangesSpacedText | src/main/java/com/testcraftsmanship/awsiotdevice/parser/MessageParser.java:35 | a text holding a space is changed by the deletion |
| RoundTrip.InstancesMatch | src/main/java/com/testcraftsmanship/awsiotdevice/device/IoTDeviceListener.java:126-145 | every instance of a simple condition with placeholders, under values whose strings hold no quote, line break or NUL, passes the payload test: with the intended substitution always, as written when the condition holds no spaces |
| RoundTrip.PayloadTestPasses | src/main/java/com/testcraftsmanship/awsiotdevice/device/IoTDeviceListener.java:132-137 | the payload test passes when the strict match's bindings rebuild the payload |
| RoundTrip.PayloadTestUnfolds | src/main/java/com/testcraftsmanship/awsiotdevice/device/IoTDeviceListener.java:132-137 | after a successful strict match, the payload test compares the rebuilt condition with the payload |
| RoundTrip.MatchesAreInstances | src/main/java/com/testcraftsmanship/awsiotdevice/device/IoTDeviceListener.java:126-145 | conversely, every payload the intended test accepts is an instance of the condition |
| RoundTrip.RespondsWithInstance | src/main/java/com/testcraftsmanship/awsiotdevice/device/IoTDeviceListener.java:36-47 | a responding device given an instance of its placeholder condition replies, on any topic, with the publication template instantiated with the same values |
| Subscriber.PayloadMatches | src/main/java/com/testcraftsmanship/awsiotdevice/device/IoTDeviceSubscriber.java:66-72 | as written, a missing condition fails on the parse at line 68; otherwise the payload matches exactly when it equals the condition |
| Subscriber.ConditionsMet | src/main/java/com/testcraftsmanship/awsiotdevice/device/IoTDeviceSubscriber.java:54-89 | with no condition every message triggers; otherwise the listener's three-way rule, with a topic-only subscriber failing as written |
| Subscriber.OnMessage | src/main/java/com/testcraftsmanship/awsiotdevice/device/IoTDeviceSubscriber.java:42-52 | an unmet message sends nothing; a trigger with a configured publication and a working link sends the stored message unchanged to the publication topic, and nothing else is ever sent |
| Subscriber.NoRequirementsAlwaysReply | src/main/java/com/testcraftsmanship/awsiotdevice/device/IoTDeviceSubscriber.java:74-77 | with neither condition, every message triggers the stored reply |
| Subscriber.TopicOnlySubscriberFails | src/main/java/com/testcraftsmanship/awsiotdevice/device/IoTDeviceSubscriber.java:68-70 | as written, a topic-only subscriber fails on every message |
| Subscriber.TopicOnlySubscriberFires | src/main/java/com/testcraftsmanship/awsiotdevice/device/IoTDeviceSubscriber.java:83-85 | corrected, a topic-only subscriber replies exactly on its topic |
| Subscriber.SameRuleAsListener | src/main/java/com/testcraftsmanship/awsiotdevice/device/IoTDeviceSubscriber.java:79-89 | once some condition is set and the message condition has no placeholder, the subscriber decides as the listener does, and it fails only on the missing-condition parse |
| Subscriber.GatesDisagreeWithoutConditions | src/main/java/com/testcraftsmanship/awsiotdevice/device/IoTDeviceSubscriber.java:74-77 | with no condition the subscriber fires on every message and the listener on none |
| Device.New | src/main/java/com/testcraftsmanship/awsiotdevice/device/IoTDevice.java:24-34 | a new device has no state, no connection, no listener and a fresh record |
| Device.Configure | src/main/java/com/testcraftsmanship/awsiotdevice/device/IoTDevice.java:41-55 | each configuration setter changes only its own field and leaves the life cycle alone |
| Device.PublishMessageTo | src/main/java/com/testcraftsmanship/awsiotdevice/device/IoTDevice.java:36-39 | a null message fails before anything is written; otherwise message and topic are set together and nothing else changes |
| Device.ConditionsKeepMode | src/main/java/com/testcraftsmanship/awsiotdevice/device/IoTDevice.java:45-55 | setting a trigger condition or the delay never changes the mode |
| Device.Start | src/main/java/com/testcraftsmanship/awsiotdevice/device/IoTDevice.java:57-84 | a no-op when connected; otherwise it connects, runs in the three configured modes and keeps the state when idle; a listener is created only when subscribed, with its publisher connected only when also publishing |
| Device.Stop | src/main/java/com/testcraftsmanship/awsiotdevice/device/IoTDevice.java:86-99 | a success always ends stopped, with both connections closed, the configuration and the latch kept; a broker failure is possible only when something was connected |
| Device.Close | src/main/java/com/testcraftsmanship/awsiotdevice/device/IoTDevice.java:101-104 | closing fails exactly when stopping does, and otherwise ends stopped with a fresh record |
| Device.CanPublishOnDemand | src/main/java/com/testcraftsmanship/awsiotdevice/device/IoTDevice.java:128-131 | on-demand publishing is allowed exactly when a publication topic and message are configured and the message holds no placeholder, whether or not the device is subscribed |
| Device.PublishMessage | src/main/java/com/testcraftsmanship/awsiotdevice/device/IoTDevice.java:106-118 | on-demand publishing is refused with an illegal-state error exactly when no publication is configured or the message has placeholders; otherwise the stored message is sent unchanged to the stored topic |
| Device.IsExpectedMessage | src/main/java/com/testcraftsmanship/awsiotdevice/device/IoTDevice.java:120-126 | an unsubscribed device refuses with an illegal-state error; a subscribed one without a listener fails on the null listener; otherwise the latch is returned and cleared |
| Device.Deliver | src/main/java/com/testcraftsmanship/awsiotdevice/device/IoTDeviceListener.java:36-62 | a disconnected device or one without a listener ignores the message; a reply needs the listener's publisher; the configuration is never changed and a set latch stays set |
| Device.StartIdempotent | src/main/java/com/testcraftsmanship/awsiotdevice/device/IoTDevice.java:57-61 | starting twice is starting once |
| Device.RestartAfterCloseIsIdle | src/main/java/com/testcraftsmanship/awsiotdevice/device/IoTDevice.java:101-104 | a closed device restarts idle: connected, with the state and listener it was closed with |
| Device.FreshListenerReportsOnce | src/main/java/com/testcraftsmanship/awsiotdevice/device/IoTDevice.java:120-126 | right after a start that creates a listener a poll reports nothing, and an accepted message is reported by exactly one poll |
| Device.PublishIgnoresLifecycle | src/main/java/com/testcraftsmanship/awsiotdevice/device/IoTDevice.java:106-118 | on-demand publishing depends on the configuration only |
| Strings.Strip | src/main/java/com/testcraftsmanship/awsiotdevice/utils/StringOperations.java:19 | the result holds none of the deleted characters and is never longer than the input |
| Strings.StripKeepsCounts | src/main/java/com/testcraftsmanship/awsiotdevice/utils/StringOperations.java:19 | every kept character occurs as often as in the input |
| Strings.StripAppend | src/main/java/com/testcraftsmanship/awsiotdevice/utils/StringOperations.java:19 | deletion distributes over concatenation, so kept characters stay in order |
| Strings.StripNothing | src/main/java/com/testcraftsmanship/awsiotdevice/utils/StringOperations.java:19 | a text without deleted characters is unchanged |
| Strings.StripIdempotent | src/main/java/com/testcraftsmanship/awsiotdevice/utils/StringOperations.java:19 | deleting twice is deleting once |
| Strings.Minimize | src/main/java/com/testcraftsmanship/awsiotdevice/utils/StringOperations.java:18-20 | the result holds no whitespace and is never longer than the input |
| Strings.MinimizeKeepsCounts | src/main/java/com/testcraftsmanship/awsiotdevice/utils/StringOperations.java:18-20 | every non-whitespace character is kept as often as it occurs |
| Strings.MinimizeIdempotent | src/main/java/com/testcraftsmanship/awsiotdevice/utils/StringOperations.java:18-20 | `minimize` is idempotent |
| Strings.MinimizeAppend | src/main/java/com/testcraftsmanship/awsiotdevice/utils/StringOperations.java:18-20 | `minimize` distributes over concatenation, so non-whitespace characters keep their order |
| Strings.Generate | src/main/java/com/testcraftsmanship/awsiotdevice/utils/StringOperations.java:22-29 | the result has the requested length and its i-th character is the one the i-th random pick chose |
| Strings.AlphabetIsAlphanumeric | src/main/java/com/testcraftsmanship/awsiotdevice/utils/StringOperations.java:6-8 | the identifier alphabet has 62 characters, all ASCII letters or digits |
| Strings.AlphabetCoversAlphanumerics | src/main/java/com/testcraftsmanship/awsiotdevice/utils/StringOperations.java:6-8 | every ASCII letter and digit is in the identifier alphabet |
| Strings.GenerateAwsClientId | src/main/java/com/testcraftsmanship/awsiotdevice/utils/StringOperations.java:14-16 | a client identifier has exactly 26 characters, each an ASCII letter or digit chosen by the random picks |

## Left out

- MQTT and AWS transport are left out: connecting, subscribing, publishing, credential and SSM lookup. The broker's answer is the parameter `linkOk`, and a connection is a boolean.
- Topic filtering by the broker is left out, including wildcards and resubscription after a reconnect. `Device.Deliver` delivers to any connected device that has a listener.
- A listener keeps the record it was created with, even after `closeSimulation` replaces the device's record. The model's listener reads the device's current record, and the two differ only for a listener that outlives a close.
- Partial failures inside `startSimulation` and `stopSimulation` are not modelled. Examples are a connect that succeeds followed by a subscribe that fails, or a stop that disconnects the publisher and then fails on the client. A failure leaves the modelled device unchanged.
- `synchronized` and threading are left out, along with the blocking wait itself and `InterruptedException`. The delay is kept only as the check `Thread.sleep` makes, that it is not negative.
- Logging is left out.
- The simulator wiring (`IoTDeviceSimulator`), the fluent configuration DSL and `AwsException` are left out: they are plain wrappers.
- IoTDeviceState.java is not part of this model; its two values and the initial null are `Device.State`.
- JSON text is not modelled: neither parsing (lenient single-quoted input included) nor serialisation. Texts are held as trees, and an unparsable condition or payload text is not represented.
- Serialisation key order is not represented. The listener and the subscriber compare `toString()` texts, which list keys in `HashMap` order; keys with equal hash codes are listed in insertion order, so `{"Aa":1,"BB":2}` and `{"BB":2,"Aa":1}` give different texts and compare unequal (IoTDeviceListener.java lines 137 and 144, IoTDeviceSubscriber.java line 70). The model compares trees, so it reports a match there.
- Object key order is not represented in matching either. The order in which the key loop visits a mask's keys, which is `HashMap` order in Java, is the fixed ascending order `KeyOrder.Enumerate`. Every property above that does not name the order holds for any order.
- Floating-point, long and `null` JSON values are kept only as the literal `JOther`, which the classifier rejects.
- The regular-expression corner cases of the text-level code are left out:
  - metacharacters in placeholder names;
  - `$` or `\` in a replacement text;
  - `"{name}"` tokens used as object keys or inside escaped quotes;
  - a `.*?` of the detector that spans two values;
  - line breaks inside a placeholder.
- Placeholders are detected and replaced on whole string values.
- A string binding holding a quote is written into the filled text without escaping, so the quote closes its string and what follows becomes text of the template: binding `a","y":"b` into `{"reply":"{x}"}` gives `{"reply":"a","y":"b"}`, which org.json parses. The model does not parse spliced text: it reports invalid JSON for every string binding that holds a quote. For a line break or NUL inside a string org.json's reader fails too.
- A string binding holding a backslash is read back as written. org.json would decode the backslash as the start of an escape sequence.
- A bound value whose rendering contains another placeholder token is left out. Java's replacement loop could then replace that token too, and the result would depend on map order; the model replaces in one pass.
- `minimize` on the serialised template is modelled as deleting spaces from every string and key. org.json writes every other whitespace character as an escape, so a space is the only whitespace left in its output.
- Rendering a container binding (an object or array bound to a placeholder) is modelled as writing its tree into the template. Java would write org.json's text of it, which is not modelled.
- `Extraction.ExtractThenFill`: the round trip is proved for masks without arrays, because array bindings are overwritten (see `MatcherFacts.ArrayKeepsLastObjectBindings`) and then a round trip does not hold in general.
- `JsonTree.Render`: its second promise, that a string holding a quote does not read back, is the model's answer; org.json may instead parse the members the quote splices (see the quote line above).
- `Templates.Reparse`: reports invalid JSON for a string binding holding a quote, where org.json may instead parse the spliced members (see the quote line above).
- `TemplateFacts.UnreadableBindingRejected`: the invalid JSON it states is the model's answer for a quote; org.json fails alike only for a line break or NUL.
- `TemplateFacts.FillOkIsInstance`: a fill succeeds only when no string binding holds a quote, a line break or NUL, so the property says nothing about the spliced text org.json would produce for a quote.
- `TemplateFacts.FillOkObjectIsInstance`: as for `TemplateFacts.FillOkIsInstance`.
- `TemplateFacts.FillOkArrayIsInstance`: as for `TemplateFacts.FillOkIsInstance`.
- `TemplateFacts.FillOkItemsFromStart`: as for `TemplateFacts.FillOkIsInstance`.
- `TemplateFacts.FillOkItemsAreInstances`: as for `TemplateFacts.FillOkIsInstance`.
- `TemplateFacts.ReparseOkIsValue`: as for `Templates.Reparse`, a string binding holding a quote never parses back in the model.
- `Templates.SqueezeItems`: states the length of the squeezed array and its only error, but not the elements. The elements are stated on space-free input by `TemplateFacts.SpaceFreeItemsSurvive`.
- `Templates.UpdateJsonParamsWithValues`: its own contract states only that it fails as invalid JSON. What it computes is stated by `TemplateFacts.SpaceFreeTemplatesAgree` and `TemplateFacts.NothingBoundAfterSqueeze`, and its defect by the findings below.
- `Templates.FillTemplate`: its own contract states only that it fails as invalid JSON. What it computes is stated by `TemplateFacts.FillIsInstance` and `TemplateFacts.FillOkIsInstance`.
- `Templates.Fill`: as for `Templates.FillTemplate`, its result is stated by the two lemmas named there.
- `Subscriber.OnMessage`: a trigger without a configured publication is modelled as `Transport`. How the broker client handles a null topic or message is not visible here.
- `Listener.PayloadMatches`: its own contract states only one direction of the placeholder case. Both directions are proved separately, by `RoundTrip.InstancesMatch` and `RoundTrip.MatchesAreInstances`.
- `Strings.GenerateAwsClientId`: `java.util.Random` is replaced by the sequence of chosen indices `picks`.

## Findings

| source | as written | input that shows it | evidently intended | confidence | as-written member | corrected member |
|---|---|---|---|---|---|---|
| src/main/java/com/testcraftsmanship/awsiotdevice/parser/MessageParser.java:35 | `minimize` deletes every whitespace character of the serialised template, including spaces inside string values and keys | template `{"state":"a b"}` with no bindings gives `{"state":"ab"}`; keys `"a b"` and `"ab"` collide and the re-parse fails; a listener condition `{"id":"{x}","state":"a b"}` never matches the payload `{"id":1,"state":"a b"}` | only formatting whitespace is removed, so string contents survive substitution | medium; not executed | TemplateFacts.SpacesInValuesAreLost | TemplateFacts.SpacesInValuesAreKept |
| src/main/java/com/testcraftsmanship/awsiotdevice/device/IoTDeviceListener.java:132-137 | the payload test uses the space-deleting substitutor on the condition itself | condition `{"id":"{x}","state":"a b"}`, payload `{"id":1,"state":"a b"}` | every instance of a condition passes the payload test | medium; not executed | ListenerFacts.SpacedLiteralNeverMatches | RoundTrip.InstancesMatch |
| src/main/java/com/testcraftsmanship/awsiotdevice/device/IoTDeviceListener.java:37 | `containsMaskParams` parses the message condition with no null check, before any branch is chosen | a listener with topic condition `"t"`, no message condition, and a message on `"t"`: the handler throws instead of firing | a missing message condition means "no placeholders", so the topic-only branch at lines 112-114 can fire | high; not executed | ListenerFacts.MissingConditionFails | ListenerFacts.TopicOnlyListenerFires |
| src/main/java/com/testcraftsmanship/awsiotdevice/device/IoTDeviceSubscriber.java:68 | the message condition is parsed at line 68, before the null check at line 70 | a subscriber with topic condition `"t"`, no message condition, and a message on `"t"`: the handler throws | the null check comes first, so the topic-only rule at lines 83-85 can fire | high; not executed | Subscriber.TopicOnlySubscriberFails | Subscriber.TopicOnlySubscriberFires |
