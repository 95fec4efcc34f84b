# common-base: XML splitting in the reactive JAXB decoder, and the password-flow exception

This Dafny project models two parts of the `common-base` libraries.

**`ReactiveJaxbDecoder`** decodes an XML body into objects of an output class. It has two
decisions of its own, and both are modelled here.

- `toQName` names the element that holds an output class. It takes the `@XmlRootElement`
  annotation, or else `@XmlType`. A `"##default"` local name becomes the class's short name
  as a property. A `"##default"` namespace becomes the package's `@XmlSchema` namespace, or
  no namespace. A class with neither annotation is refused with an `IllegalArgumentException`.
- `split` cuts the stream of StAX events into one list per element of that name. It does this
  with a stateful `SplitFunction`, which counts the element depth and keeps a barrier.

`SplitFunction` is a class whose `Apply` method changes `events`, `elementDepth` and
`barrier` in place, as the Java class does. `Split` runs one fresh `SplitFunction` over a
finite event sequence. It is proved equal to `Subtrees`, an independent reference definition:
the complete elements rooted at the wanted name, scanned in document order. Lemmas about
`Subtrees` then state what `split` delivers:

- every list is a whole element, from its start element to its matching end element;
- the lists are taken from the input in order and never overlap;
- an element nested inside one of the same name is delivered only as part of the outer one;
- an element whose end never arrives is not delivered.

The class invariant `Valid` also shows that the `Assert.state(events != null, …)` guards in
`apply` always hold.

**`PasswordFlowAuthenticationException`** is thrown by the OAuth2 password-flow client. The
model covers the message built from the HTTP status and the response body, the constructor,
and `status()`. The lemmas show that:

- the status code can be read back from the message;
- the no-message sentinel is returned exactly when neither the reason phrase nor the body has
  text, provided the sentinel does not begin like a status report and the body is not the
  sentinel itself (a body equal to the sentinel is passed through unchanged when there is no
  status);
- `status()` falls back to 401 Unauthorized.

Modules:

- `Wrappers`: `Option` and `Result`.
- `JavaText`: `Character.isWhitespace`, `StringUtils.hasText`, and the decimal rendering of an
  `int` together with its inverse.
- `XmlEvents`: events, nesting depth, matching ends, and the reference split `Subtrees`.
- `XmlCodec`: `ToQName`, the `SplitFunction` class and `Split`.
- `Exceptions`: the exception.

Source paths in the table are relative to the repository root.

## Model

| member | source | states |
|---|---|---|
| XmlCodec.ToQName | common-base-reactive/src/main/java/org/bremersee/http/codec/xml/ReactiveJaxbDecoder.java:166-196 | The result is a failure exactly when the class has neither `@XmlRootElement` nor `@XmlType`, and then it carries the exact error message. Otherwise the local part and the namespace are the annotation's values, each substituted when it is `"##default"`: the local part by the short name as a property; the namespace by the package schema namespace, or by no namespace when there is none. |
| XmlCodec.RootElementTakesPrecedence | common-base-reactive/src/main/java/org/bremersee/http/codec/xml/ReactiveJaxbDecoder.java:170-177 | When `@XmlRootElement` is present, the name does not depend on `@XmlType` at all. |
| XmlCodec.DefaultMarkerResolved | common-base-reactive/src/main/java/org/bremersee/http/codec/xml/ReactiveJaxbDecoder.java:183-194 | Neither the resolved local part nor the resolved namespace is the `"##default"` marker, unless the short name or the schema namespace is that very text. |
| XmlCodec.SplitFunction.constructor | common-base-reactive/src/main/java/org/bremersee/http/codec/xml/ReactiveJaxbDecoder.java:227-243 | A new splitter has the desired name, no list, depth 0, no barrier, and satisfies its invariant. |
| XmlCodec.SplitFunction.Apply | common-base-reactive/src/main/java/org/bremersee/http/codec/xml/ReactiveJaxbDecoder.java:246-270 | Keeps the invariant: the depth is the nesting balance of all events consumed, and while a barrier is set the list exists and holds the still-open element begun at the barrier. A list is delivered exactly by the end element that brings the depth back to the barrier. What is delivered is that complete element, and the barrier is then lifted, while the `events` field still refers to the delivered list. A capture begins only when none is active and a start element of the desired name arrives. During a capture every event is recorded, and the barrier stays. |
| XmlCodec.Split | common-base-reactive/src/main/java/org/bremersee/http/codec/xml/ReactiveJaxbDecoder.java:198-222 | Running one fresh splitter over the events yields exactly `Subtrees` of the input, in order. |
| XmlEvents.CloseFromMeaning | common-base-reactive/src/main/java/org/bremersee/http/codec/xml/ReactiveJaxbDecoder.java:261-264 | The matching end is found after exactly k events iff the depth returns to the barrier after k events and stays above it before. |
| XmlEvents.SubtreesAreSubtrees | common-base-reactive/src/main/java/org/bremersee/http/codec/xml/ReactiveJaxbDecoder.java:246-270 | Every delivered list starts with a start element of the desired name and ends at its matching end element. |
| XmlEvents.SubtreeEndsWithEnd | common-base-reactive/src/main/java/org/bremersee/http/codec/xml/ReactiveJaxbDecoder.java:257-267 | A delivered list's last event is the end element that closed it. |
| XmlEvents.SubtreesAfterSubtree | common-base-reactive/src/main/java/org/bremersee/http/codec/xml/ReactiveJaxbDecoder.java:261-267 | After a complete element is delivered, the splitter goes on with the rest of the input as if it had just begun. |
| XmlEvents.SubtreesSkip | common-base-reactive/src/main/java/org/bremersee/http/codec/xml/ReactiveJaxbDecoder.java:247-256 | Outside a capture, an event other than a start element of the desired name delivers nothing and begins nothing. |
| XmlEvents.SubtreesOfOpen | common-base-reactive/src/main/java/org/bremersee/http/codec/xml/ReactiveJaxbDecoder.java:257-269 | An element whose end element never arrives is never delivered. |
| XmlEvents.SubtreesInDocumentOrder | common-base-reactive/src/main/java/org/bremersee/http/codec/xml/ReactiveJaxbDecoder.java:198-222 | The delivered lists, read one after another, are a subsequence of the input: nothing is invented, repeated or reordered. |
| XmlEvents.SiblingsExample | common-base-reactive/src/main/java/org/bremersee/http/codec/xml/ReactiveJaxbDecoder.java:198-219 | The documented example: two sibling `child` elements inside `root` give two lists, each a whole `child` element. |
| XmlEvents.NestedExample | common-base-reactive/src/main/java/org/bremersee/http/codec/xml/ReactiveJaxbDecoder.java:247-254 | A `child` nested inside a `child` is delivered only as part of the outer one, because no capture begins while a barrier is set. |
| Exceptions.StatusReport | common-base/src/main/java/org/bremersee/exception/PasswordFlowAuthenticationException.java:57-65 | With a status and something to report, the message is exactly "Server returned status code " and the code, followed by " (" + reason phrase + ")" when the reason phrase has text, followed by ": " + body when the body has text. |
| Exceptions.BuildMessage | common-base/src/main/java/org/bremersee/exception/PasswordFlowAuthenticationException.java:49-66 | The result is the sentinel when neither the reason phrase nor the body has text. Without a status it is the body, which then has text. Otherwise it is exactly the prefix and the code, then " (" + reason phrase + ")" when the reason phrase has text, then ": " + body when the body has text. Each of the three combinations is fixed completely. |
| Exceptions.Create | common-base/src/main/java/org/bremersee/exception/PasswordFlowAuthenticationException.java:39-42 | The exception stores the given status, and its message is the built message. |
| Exceptions.Status | common-base/src/main/java/org/bremersee/exception/PasswordFlowAuthenticationException.java:44-47 | `status()` is the stored status's code, or 401 when there is none. |
| Exceptions.CreatedStatus | common-base/src/main/java/org/bremersee/exception/PasswordFlowAuthenticationException.java:39-47 | A constructed exception reports 401 iff it was given no status or a 401 status. |
| Exceptions.StatusCodeRecoverable | common-base/src/main/java/org/bremersee/exception/PasswordFlowAuthenticationException.java:57-65 | Whenever a status is reported, reading the digits after the prefix gives back exactly its code, whatever the reason phrase and body are. |
| Exceptions.NoMessageExactly | common-base/src/main/java/org/bremersee/exception/PasswordFlowAuthenticationException.java:49-56 | If the sentinel neither looks like a status report nor equals the body, the message is the sentinel iff neither the reason phrase nor the body has text. |
| JavaText.ContainsText | common-base/src/main/java/org/bremersee/exception/PasswordFlowAuthenticationException.java:50-51 | `hasText`: a string has text iff some character of it is not Java whitespace. |
| JavaText.ParseDecimalString | common-base/src/main/java/org/bremersee/exception/PasswordFlowAuthenticationException.java:58 | Reading back the decimal rendering of a code gives the code. |

## Left out

- The Reactor and JAXB plumbing of the decoder is left out: `decode`, `decodeToMono`, `unmarshal`, `canDecode`, the `XMLEventReader`, and the `DecodingException` and `CodecException` mapping. It is I/O over foreign libraries. A stream is modelled as a finite sequence of events, and `flatMap` as a loop that collects the lists.
- The StAX events keep only what splitting looks at: start elements with their qualified name, end elements, and everything else as `Other`. Attributes, text and the names of end elements are not kept.
- XmlCodec.SplitFunction.Apply: does not model 32-bit overflow of `elementDepth`, or the coincidence of a depth with the `Integer.MAX_VALUE` "no barrier" value. The depth is unbounded, and the missing barrier is `None`.
- XmlCodec.Split: a delivered list is a value. The Java code hands out the same `ArrayList` that its `events` field still refers to. `Apply` states that the field equals the delivered list. No event is added to it afterwards, because the barrier is lifted and the next capture creates a new list first. The sharing itself is therefore not modelled.
- Reflection is an input. `OutputClass` holds the annotations, the package's `@XmlSchema` namespace and the result of `ClassUtils.getShortNameAsProperty`. How Spring derives that short name is not part of this model.
- `RestApiExceptionUtils.NO_MESSAGE_VALUE` is not part of this model. Its text is the parameter `noMessageValue`.
- `HttpStatus` is a code and a reason phrase. Spring's enumeration of the known statuses is not modelled, and neither is `AuthenticationException`'s cause or stack trace.
- `Character.isWhitespace` follows the Unicode space separators other than no-break spaces, plus the listed control characters. Whether U+180E counts depends on the Java version, and it is not treated as whitespace here.
- The other files of the repository are not part of this model: the object-mapper auto-configuration, the request-headers builder, the access-token retriever, the access-control repository, and the error decoder and exception mapper with their tests.
