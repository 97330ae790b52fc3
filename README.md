# Ditto connectivity helpers and access-control-list builder, modelled in Dafny

This project models three small pieces of Eclipse Ditto:

- **The "connection opened" event strategy** (`ConnectionEvents`). When the
  connectivity service replays or applies a `ConnectionOpened` event, it
  turns the prior connection state into the next one. The model is the pure
  function `Handle`. A null prior connection is rejected. Otherwise the
  result is the same connection with its status set to OPEN.
- **The mutable access-control-list builder** (`AccessControl`). This is the
  fluent builder of the version 1 authorization model. It is a class whose
  `entries` field is a map from authorization subject to entry. `set`,
  `setAll`, `remove(entry)`, `remove(subject)` and `removeAll` each change
  that map in place and return the builder itself. `build` returns an
  immutable snapshot of the map.
- **Message-mapper helpers** (`MessageMappers`):
  - `determineCharset` finds the first match of `;.?charset=` in a
    Content-Type. It takes everything after that match as a charset name and
    asks the Java platform whether the name is supported.
  - `apply` / `createAnyMessageMapper` choose the mapper for a mapping
    engine name: the built-in script mapper for "javascript", or a class
    instantiated by name. They also classify instantiation failures.

Java `null` arguments and results are modelled as `Option`. Thrown
exceptions are modelled as the `Failure` side of a `Result` (module
`Wrappers`). The builder's setters return `Success(this)`, which is the
builder itself, so calls can be chained.

The platform services the helpers call are parameters:
- `registry: string -> Option<Charset>` is the set of charsets the Java
  platform provides.
- `createInstanceFor: string -> Instantiation<M>` is the actor system's
  dynamic class instantiation.

The legality rule that `Charset.isSupported` applies to names it does not
know is modelled concretely, as `LegalCharsetName`. It is the Java platform's
rule: a non-empty name made of ASCII letters and digits, plus `-`, `+`, `:`, `_`
and `.` anywhere except at the start.

Strings are sequences of Unicode scalar values. Java's regular expressions
also work on code points, so `.` consumes one whole character.

## Model

| member | source | states |
|---|---|---|
| `ConnectionEvents.Handle` | services/connectivity/messaging/src/main/java/org/eclipse/ditto/services/connectivity/messaging/persistence/strategies/events/ConnectionOpenedStrategy.java:29-34 | A missing prior connection is rejected with a null-argument error naming "connection", and only then. Otherwise the result's status is OPEN and everything else equals the prior connection. |
| `ConnectionEvents.HandleIgnoresEventAndRevision` | services/connectivity/messaging/src/main/java/org/eclipse/ditto/services/connectivity/messaging/persistence/strategies/events/ConnectionOpenedStrategy.java:30-33 | The result is the same for every event payload and every revision. |
| `ConnectionEvents.HandleChangesOnlyStatus` | services/connectivity/messaging/src/main/java/org/eclipse/ditto/services/connectivity/messaging/persistence/strategies/events/ConnectionOpenedStrategy.java:33 | The result is the prior connection with status OPEN. It equals the prior connection exactly when that connection was already OPEN. |
| `ConnectionEvents.HandleIdempotent` | services/connectivity/messaging/src/main/java/org/eclipse/ditto/services/connectivity/messaging/persistence/strategies/events/ConnectionOpenedStrategy.java:33 | Applying the strategy to its own output, with any event and revision, returns an equal connection. |
| `AccessControl.Put` | model/things/src/main/java/org/eclipse/ditto/model/things/AccessControlListBuilder.java:28-35 | After setting an entry, its subject maps to that entry, any previous entry of that subject is gone, and every other subject keeps its entry. It keeps the one-entry-per-subject invariant. |
| `AccessControl.PutAll` | model/things/src/main/java/org/eclipse/ditto/model/things/AccessControlListBuilder.java:37-44 | After setting several entries, the subjects present are the old ones plus those of the given entries. Subjects not among the given entries keep their entries. The one-entry-per-subject invariant is kept. |
| `AccessControl.PutAllSnoc` | model/things/src/main/java/org/eclipse/ditto/model/things/AccessControlListBuilder.java:37-44 | Setting a run of entries and then one more equals setting the extended run. This makes `setAll` the same as repeated `set`. |
| `AccessControl.PutAllLastWins` | model/things/src/main/java/org/eclipse/ditto/model/things/AccessControlListBuilder.java:37-44 | For a subject that occurs several times among the given entries, the last entry with that subject is the one kept. |
| `AccessControl.PutAllTakesFromEntries` | model/things/src/main/java/org/eclipse/ditto/model/things/AccessControlListBuilder.java:37-44 | Every subject occurring among the given entries maps afterwards to one of those entries, and that entry carries the subject. |
| `AccessControl.Drop` | model/things/src/main/java/org/eclipse/ditto/model/things/AccessControlListBuilder.java:56-72 | After removing subjects, none of them has an entry, and every other entry is exactly as before. |
| `AccessControl.AccessControlListBuilder.Set` | model/things/src/main/java/org/eclipse/ditto/model/things/AccessControlListBuilder.java:28-35 | A null entry is rejected and leaves the entries unchanged. Otherwise the entries become `Put(old entries, entry)` and the builder itself is returned. |
| `AccessControl.AccessControlListBuilder.SetAll` | model/things/src/main/java/org/eclipse/ditto/model/things/AccessControlListBuilder.java:37-44 | A null collection is rejected and leaves the entries unchanged. Otherwise each entry is set in iteration order, the entries become `PutAll(old entries, entries)`, and the builder is returned. |
| `AccessControl.AccessControlListBuilder.RemoveEntry` | model/things/src/main/java/org/eclipse/ditto/model/things/AccessControlListBuilder.java:46-54 | A null entry is rejected. Otherwise the effect is exactly that of removing the entry's subject, so matching is by subject only. The builder is returned. |
| `AccessControl.AccessControlListBuilder.RemoveSubject` | model/things/src/main/java/org/eclipse/ditto/model/things/AccessControlListBuilder.java:56-63 | A null subject is rejected. Otherwise that subject has no entry afterwards, all other entries are untouched, and the builder is returned. |
| `AccessControl.AccessControlListBuilder.RemoveAll` | model/things/src/main/java/org/eclipse/ditto/model/things/AccessControlListBuilder.java:65-72 | A null collection is rejected. Otherwise no subject of the given entries has an entry afterwards, other subjects are untouched, and the builder is returned. |
| `AccessControl.AccessControlListBuilder.Build` | model/things/src/main/java/org/eclipse/ditto/model/things/AccessControlListBuilder.java:74-80 | The built list holds exactly the entries currently set, one per subject. |
| `AccessControl.BuildIsSnapshot` | model/things/src/main/java/org/eclipse/ditto/model/things/AccessControlListBuilder.java:74-80 | A list built before a later `set` still holds the old entries, while a list built afterwards holds the new ones. |
| `MessageMappers.MatchAt` | services/connectivity/mapping/src/main/java/org/eclipse/ditto/services/connectivity/mapping/MessageMappers.java:38 | A match found at an index is a substring that `;.?charset=` matches. When none is found, no substring starting there matches. |
| `MessageMappers.FindFrom` | services/connectivity/mapping/src/main/java/org/eclipse/ditto/services/connectivity/mapping/MessageMappers.java:38 | The match returned is a match of the pattern, and no earlier index starts one. When none is returned, there is no match at all. |
| `MessageMappers.SplitAtFirstMatch` | services/connectivity/mapping/src/main/java/org/eclipse/ditto/services/connectivity/mapping/MessageMappers.java:68 | Splitting with limit 2 gives one part (the whole input) exactly when nothing matches. Otherwise it gives the text before the first match and all of the text after it. |
| `MessageMappers.CharsetCandidate` | services/connectivity/mapping/src/main/java/org/eclipse/ditto/services/connectivity/mapping/MessageMappers.java:68-69 | There is a candidate name exactly when the pattern matches somewhere. The candidate is a proper suffix of the Content-Type: the second element of the split. |
| `MessageMappers.LegalCharsetName` | services/connectivity/mapping/src/main/java/org/eclipse/ditto/services/connectivity/mapping/MessageMappers.java:69 | The Java platform's rule for charset names that `isSupported` applies. A legal name contains no semicolon and no blank. |
| `MessageMappers.IsSupported` | services/connectivity/mapping/src/main/java/org/eclipse/ditto/services/connectivity/mapping/MessageMappers.java:69 | A name is supported exactly when the platform knows it. Otherwise an illegal name raises an illegal-charset-name error and a legal one is unsupported. |
| `MessageMappers.DetermineCharset` | services/connectivity/mapping/src/main/java/org/eclipse/ditto/services/connectivity/mapping/MessageMappers.java:59-74 | A null Content-Type, or one without a charset candidate, yields UTF-8. A supported candidate yields that charset. An unsupported legal one yields UTF-8. An illegal one raises the illegal-charset-name error. |
| `MessageMappers.NoCharsetParameterMeansUtf8` | services/connectivity/mapping/src/main/java/org/eclipse/ditto/services/connectivity/mapping/MessageMappers.java:66-73 | If the pattern matches nowhere in the Content-Type, the result is UTF-8 whatever charsets the platform has. |
| `MessageMappers.CandidateFollowsFirstMatch` | services/connectivity/mapping/src/main/java/org/eclipse/ditto/services/connectivity/mapping/MessageMappers.java:68-70 | The candidate name is everything after the first match of the pattern. |
| `MessageMappers.LaterMatchesStayInCandidate` | services/connectivity/mapping/src/main/java/org/eclipse/ditto/services/connectivity/mapping/MessageMappers.java:68-70 | Any later match of the pattern is not split off: it remains a match inside the candidate name. |
| `MessageMappers.TrailingParameterThrows` | services/connectivity/mapping/src/main/java/org/eclipse/ditto/services/connectivity/mapping/MessageMappers.java:66-74 | For "text/plain; charset=UTF-8; format=flowed", the code as written throws an illegal-charset-name error for "UTF-8; format=flowed" instead of returning a charset. |
| `MessageMappers.CharsetValue` | services/connectivity/mapping/src/main/java/org/eclipse/ditto/services/connectivity/mapping/MessageMappers.java:59-74 | The corrected charset value holds no semicolon and has no leading or trailing blank. |
| `MessageMappers.ValueEndsAtNextParameter` | services/connectivity/mapping/src/main/java/org/eclipse/ditto/services/connectivity/mapping/MessageMappers.java:59-74 | For the corrected version, a legal charset name followed by `;` and further parameters has exactly that name as its value. |
| `MessageMappers.DetermineCharsetOrUtf8` | services/connectivity/mapping/src/main/java/org/eclipse/ditto/services/connectivity/mapping/MessageMappers.java:59-74 | The corrected version never throws. A charset other than UTF-8 comes back only when the platform knows the charset value. When the platform knows the value, that charset is returned. |
| `MessageMappers.CorrectionAgreesWhereOriginalReturns` | services/connectivity/mapping/src/main/java/org/eclipse/ditto/services/connectivity/mapping/MessageMappers.java:59-74 | Wherever the original returns a charset, the corrected version returns the same one. |
| `MessageMappers.TrailingParameterFallsBack` | services/connectivity/mapping/src/main/java/org/eclipse/ditto/services/connectivity/mapping/MessageMappers.java:59-74 | For the Content-Type that made the original throw, the corrected version returns the platform's UTF-8, or the UTF-8 fallback if the platform lacks it. |
| `MessageMappers.NamedCharsetBeforeParameterIsHonoured` | services/connectivity/mapping/src/main/java/org/eclipse/ditto/services/connectivity/mapping/MessageMappers.java:59-74 | For "text/plain; charset=ISO-8859-1; format=flowed", the corrected version returns ISO-8859-1 whenever the platform knows it. |
| `MessageMappers.EqualsIgnoreCase` | services/connectivity/mapping/src/main/java/org/eclipse/ditto/services/connectivity/mapping/MessageMappers.java:52 | Equal strings are equal ignoring case. Strings that are equal ignoring case have the same length. |
| `MessageMappers.IsJavaScriptEngine` | services/connectivity/mapping/src/main/java/org/eclipse/ditto/services/connectivity/mapping/MessageMappers.java:52 | Only names as long as "javascript" qualify, and "javascript" itself does. |
| `MessageMappers.CreateAnyMessageMapper` | services/connectivity/mapping/src/main/java/org/eclipse/ditto/services/connectivity/mapping/MessageMappers.java:116-141 | A successful instantiation returns that instance. A missing class, failed instantiation or class-cast failure gives absent (null), and only those do. Any other failure raises an illegal-state error naming the class and carrying the cause. |
| `MessageMappers.Apply` | services/connectivity/mapping/src/main/java/org/eclipse/ditto/services/connectivity/mapping/MessageMappers.java:40-57 | The script mapper results exactly when the engine equals "javascript" ignoring case. Any other engine name goes unchanged to dynamic instantiation. |
| `MessageMappers.ScriptEngineIgnoresInstantiation` | services/connectivity/mapping/src/main/java/org/eclipse/ditto/services/connectivity/mapping/MessageMappers.java:51-53 | For the script engine, the result does not depend on dynamic instantiation at all. |
| `MessageMappers.OtherEngineUsesItsOwnName` | services/connectivity/mapping/src/main/java/org/eclipse/ditto/services/connectivity/mapping/MessageMappers.java:54-55 | For any other engine, only the instantiation outcome for that very name matters. |
| `MessageMappers.AnyAsciiCaseSelectsScript` | services/connectivity/mapping/src/main/java/org/eclipse/ditto/services/connectivity/mapping/MessageMappers.java:52 | "javascript" in any mix of upper- and lower-case ASCII letters selects the script mapper. |
| `MessageMappers.ScriptEngineSpellings` | services/connectivity/mapping/src/main/java/org/eclipse/ditto/services/connectivity/mapping/MessageMappers.java:52 | An engine name selects the script mapper if and only if it spells "javascript" with each letter in either ASCII case, except that the "i" may also be a dotless i or a capital I with dot above, and the "s" may also be a long s. |
| `MessageMappers.DotlessISelectsScript` | services/connectivity/mapping/src/main/java/org/eclipse/ditto/services/connectivity/mapping/MessageMappers.java:52 | Because of Java's case mapping, "javascr&#305;pt" (with a dotless i) also selects the script mapper. |

## Findings

| source | as written | input that shows it | evidently intended | confidence | as-written member | corrected member |
|---|---|---|---|---|---|---|
| services/connectivity/mapping/src/main/java/org/eclipse/ditto/services/connectivity/mapping/MessageMappers.java:66-74 | The name is everything after `charset=`, including any later parameters, and it goes straight to `Charset.isSupported`, which throws for an illegal name | `text/plain; charset=UTF-8; format=flowed` gives the name `UTF-8; format=flowed` and an IllegalCharsetNameException | The documentation promises the charset the Content-Type names, with UTF-8 as the fallback. The charset parameter's value should end at the next `;` and lose surrounding blanks before the lookup, and an unknown value should fall back to UTF-8 | medium, not executed | `MessageMappers.TrailingParameterThrows` | `MessageMappers.DetermineCharsetOrUtf8` |

## Left out

- The details of a connection (id, type, URI, sources, targets and so on) are a type parameter. The strategy only copies them. The `Connection` class and its builder are not part of this model.
- `AclEntry` and `AuthorizationSubject` are stand-ins: a subject id plus a set of permissions. Their classes, and the `AccessControlList` implementation, are not part of this model.
- Only the builder interface exists in the source. `SetAll` setting entries in iteration order, so that the last duplicate wins, is this model's reading of "all previous entries with the same authorization subject are replaced".
- `SetAll`, `RemoveAll`: null elements inside the given collection are not modelled. The collection is a sequence of entries, and only a null collection is rejected.
- The builder is single-threaded (`@NotThreadSafe`). Concurrent use is not modelled.
- `DetermineCharset`: the platform's charset table is the parameter `registry`. `Charset.forName` is taken to return the same charset that made `isSupported` true. Charset aliases and providers are not modelled.
- `IsSupported`: only illegal names raise an error. The platform's other failures, such as a null name (which the split never produces), are not modelled.
- `DetermineCharsetOrUtf8`: a quoted parameter value (`charset="UTF-8"`, which section 3.1.1.1 of RFC 7231 allows) is not unquoted. It is looked up with its quotes, so unless the platform knows that name the result falls back to UTF-8. Parameter names are still matched case-sensitively, as in the original.
- `MatchAt`: only the fixed pattern `;.?charset=` is modelled, not a general regular-expression engine.
- `EqualsIgnoreCase`: exact for Java's `String.equalsIgnoreCase` only when one of the strings is ASCII. That is the only way it is used: it compares with "javascript".
- `UpperCase`, `LowerCase`: only the case mappings that can make a character equal an ASCII letter are modelled. These are the ASCII letters, dotless i, long s, capital I with dot above, and the Kelvin sign. All other characters map to themselves.
- `CreateAnyMessageMapper`: failures are four kinds. Subclasses of the three tolerated exception types count as those kinds. Any other throwable is `OtherThrowable`.
- Creating the script (Rhino) mapper, the script mapper configuration builders and `configurationOf` (MessageMappers.java:76-114) are left out. They delegate to an embedded script engine and configuration classes that are not part of this model. The script mapper is the opaque value `JavaScriptMapper`.
- `DefaultMessageMapperFactory`, `PoliciesStreamSupervisorCreator`, `ThingModifySignalMapper` and `RetrieveConnectionStatusStrategy` are left out. They are reflection-based loading, actor and stream wiring, and protocol envelope building over collaborators that are not part of this model.
- The event-sourcing engine, the journal, snapshotting and the catch-up synchronization stream are not part of this model.
