/**
 * The decisions of the reactive JAXB decoder (`ReactiveJaxbDecoder`): which qualified element
 * name an output class is read from, and how the stream of StAX events is cut into one list
 * of events per element of that name.
 */
module XmlCodec {
  import opened Wrappers
  import opened XmlEvents

  /** The value a JAXB name or namespace attribute has when it was not given. */
  const JAXB_DEFAULT_ANNOTATION_VALUE: string := "##default"

  /** `XMLConstants.NULL_NS_URI`: no namespace. */
  const NULL_NS_URI: string := ""

  /** The `name` and `namespace` attributes of `@XmlRootElement` or `@XmlType`. */
  datatype XmlNameAnnotation = XmlNameAnnotation(name: string, namespace: string)

  /**
   * What the decoder reads from an output class by reflection: its name, its
   * `@XmlRootElement` and `@XmlType` annotations if present, the `namespace` of the
   * `@XmlSchema` annotation of its package if the package has one, and the class's short name
   * as a bean property name (`ClassUtils.getShortNameAsProperty`).
   */
  datatype OutputClass = OutputClass(
    name: string,
    rootElement: Option<XmlNameAnnotation>,
    xmlType: Option<XmlNameAnnotation>,
    packageSchemaNamespace: Option<string>,
    shortNameAsProperty: string)

  /** `IllegalArgumentException` with its message. */
  datatype IllegalArgument = IllegalArgument(message: string)

  /** The annotation the element name is taken from: the root element wins over the type. */
  function NameAnnotation(c: OutputClass): Option<XmlNameAnnotation> {
    if c.rootElement.Some? then c.rootElement else c.xmlType
  }

  /**
   * The qualified name of the elements that hold instances of the output class, by the
   * default naming rules of JAXB: the names of `@XmlRootElement`, else of `@XmlType`; a
   * defaulted local name is the class's short name as a property; a defaulted namespace is the
   * package's schema namespace, or no namespace when the package has no `@XmlSchema`. A class
   * with neither annotation is refused.
   */
  function ToQName(c: OutputClass): (r: Result<QName, IllegalArgument>)
    ensures r.Failure? <==> c.rootElement.None? && c.xmlType.None?
    ensures r.Failure? ==>
      r.error.message == "Output class [" + c.name
        + "] is neither annotated with @XmlRootElement nor @XmlType"
    ensures r.Success? ==>
      var a := NameAnnotation(c).value;
      && (a.name != JAXB_DEFAULT_ANNOTATION_VALUE ==> r.value.localPart == a.name)
      && (a.name == JAXB_DEFAULT_ANNOTATION_VALUE ==> r.value.localPart == c.shortNameAsProperty)
      && (a.namespace != JAXB_DEFAULT_ANNOTATION_VALUE ==> r.value.namespaceUri == a.namespace)
      && (a.namespace == JAXB_DEFAULT_ANNOTATION_VALUE && c.packageSchemaNamespace.Some? ==>
            r.value.namespaceUri == c.packageSchemaNamespace.value)
      && (a.namespace == JAXB_DEFAULT_ANNOTATION_VALUE && c.packageSchemaNamespace.None? ==>
            r.value.namespaceUri == NULL_NS_URI)
  {
    match NameAnnotation(c)
    case None =>
      Failure(IllegalArgument("Output class [" + c.name
        + "] is neither annotated with @XmlRootElement nor @XmlType"))
    case Some(a) =>
      var localPart :=
        if a.name == JAXB_DEFAULT_ANNOTATION_VALUE then c.shortNameAsProperty else a.name;
      var namespaceUri :=
        if a.namespace != JAXB_DEFAULT_ANNOTATION_VALUE then a.namespace
        else if c.packageSchemaNamespace.Some? then c.packageSchemaNamespace.value
        else NULL_NS_URI;
      Success(QName(namespaceUri, localPart))
  }

  /** With a root element annotation, the type annotation plays no part. */
  lemma RootElementTakesPrecedence(c: OutputClass, other: Option<XmlNameAnnotation>)
    requires c.rootElement.Some?
    ensures ToQName(c.(xmlType := other)) == ToQName(c)
  {
  }

  /** The default marker never leaks into the name: a resolved name holds `"##default"` only
      when the class's short name or its package's schema namespace is that very text. */
  lemma DefaultMarkerResolved(c: OutputClass)
    requires ToQName(c).Success?
    requires c.shortNameAsProperty != JAXB_DEFAULT_ANNOTATION_VALUE
    requires c.packageSchemaNamespace != Some(JAXB_DEFAULT_ANNOTATION_VALUE)
    ensures ToQName(c).value.localPart != JAXB_DEFAULT_ANNOTATION_VALUE
    ensures ToQName(c).value.namespaceUri != JAXB_DEFAULT_ANNOTATION_VALUE
  {
  }

  /** Still inside the element named `name` that `cur` began: `cur` starts with it, every
      non-empty prefix of `cur` is still open, and `cur` is `depth` levels deep. */
  ghost predicate Capturing(name: QName, cur: seq<XmlEvent>, depth: int) {
    |cur| >= 1 && cur[0] == Start(name) && Open(cur) && Balance(cur) == depth
  }

  /**
   * The stateful function that `split` maps over the event stream (`SplitFunction`). It
   * counts the element depth; when, with no capture active, a start element named
   * `desiredName` arrives, it opens a new event list and sets the barrier to the depth of
   * that element; it records every event while the depth is above the barrier; and the end
   * element that brings the depth back to the barrier delivers the list and lifts the
   * barrier. `barrier == None` stands for the `Integer.MAX_VALUE` "no barrier" of the Java
   * class, and `events == None` for a list that has not been created yet.
   */
  class SplitFunction {
    const desiredName: QName
    var events: Option<seq<XmlEvent>>
    var elementDepth: int
    var barrier: Option<int>
    /** Every event passed to `Apply` so far. */
    ghost var consumed: seq<XmlEvent>

    /** The element depth counts the open elements seen; while a barrier is set, the list
        exists and holds exactly the events since the capture began (a suffix of what was
        consumed), which form the still-open element named `desiredName` at the barrier. */
    ghost predicate Valid()
      reads this
    {
      && elementDepth == Balance(consumed)
      && (barrier.Some? ==>
            && events.Some?
            && Capturing(desiredName, events.value, elementDepth - barrier.value)
            && |events.value| <= |consumed|
            && consumed[|consumed| - |events.value|..] == events.value)
    }

    /** The events of the capture in progress; empty when no capture is active. */
    ghost function Pending(): seq<XmlEvent>
      reads this
    {
      if barrier.Some? && events.Some? then events.value else []
    }

    constructor (desiredName: QName)
      ensures Valid()
      ensures this.desiredName == desiredName
      ensures events.None? && elementDepth == 0 && barrier.None? && consumed == []
    {
      this.desiredName := desiredName;
      events := None;
      elementDepth := 0;
      barrier := None;
      consumed := [];
    }

    /**
     * Consumes one event; returns the finished event list when `event` closes the captured
     * element (`Mono.just(events)`), and `None` otherwise (`Mono.empty()`).
     */
    method Apply(event: XmlEvent) returns (emitted: Option<seq<XmlEvent>>)
      requires Valid()
      modifies this
      ensures Valid()
      ensures consumed == old(consumed) + [event]
      ensures elementDepth == old(elementDepth) + Weight(event)
      // a list is delivered exactly by the end element that returns to the barrier
      ensures emitted.Some? <==>
        event.End? && old(barrier).Some? && elementDepth == old(barrier).value
      // what is delivered is the complete element, the last events consumed, and the
      // barrier is lifted
      ensures emitted.Some? ==>
        && IsSubtree(desiredName, emitted.value)
        && emitted == Some(old(events).value + [event])
        && barrier.None?
        // the field still refers to the delivered list, as the Java field does
        && events == emitted
      // a capture begins only without an active one, at a start element of the desired name
      ensures old(barrier).None? && event == Start(desiredName) ==>
        barrier == Some(old(elementDepth)) && events == Some([event])
      ensures old(barrier).None? && event != Start(desiredName) ==>
        barrier.None? && events == old(events)
      // during a capture the barrier stays and every event is recorded, nested elements of
      // the desired name included
      ensures old(barrier).Some? && emitted.None? ==>
        barrier == old(barrier) && events == Some(old(events).value + [event])
      // the same, in terms of the capture in progress
      ensures emitted.Some? ==> emitted.value == old(Pending()) + [event] && Pending() == []
      ensures emitted.None? ==>
        || Pending() == old(Pending()) + [event]
        || (old(Pending()) == [] && Pending() == [] && event != Start(desiredName))
    {
      ghost var cur0, depth0, barrier0 := events, elementDepth, barrier;
      if barrier0.Some? {
        OpenAbovePositive(cur0.value, 0);
      }
      consumed := consumed + [event];
      BalanceSnoc(old(consumed), event);
      if event.Start? {
        if barrier.None? {
          var startElementName := event.name;
          if desiredName == startElementName {
            events := Some([]);
            barrier := Some(elementDepth);
          }
        }
        elementDepth := elementDepth + 1;
      }
      if barrier.Some? && elementDepth > barrier.value {
        assert events.Some?;
        events := Some(events.value + [event]);
      }
      emitted := None;
      if event.End? {
        elementDepth := elementDepth - 1;
        if barrier.Some? && elementDepth == barrier.value {
          barrier := None;
          assert events.Some?;
          emitted := Some(events.value);
        }
      }
      if barrier0.None? {
        if event == Start(desiredName) {
          var cur := [event];
          assert cur[1..] == [] && [] + [event] == cur;
          assert barrier == Some(depth0) && events == Some(cur) && emitted.None?;
          BalanceSnoc([], event);
          assert OpenAbove(cur[1..], 1);
          assert Capturing(desiredName, cur, elementDepth - barrier.value);
        } else {
          assert barrier.None? && events == cur0 && emitted.None?;
        }
      } else {
        var cur := cur0.value;
        BalanceSnoc(cur, event);
        assert events == Some(cur + [event]);
        if event.End? && elementDepth == barrier0.value {
          assert barrier.None? && emitted == Some(cur + [event]);
          ClosedSnoc(cur, event, 0);
        } else {
          assert barrier == barrier0 && emitted.None?;
          OpenSnoc(cur, event, 0);
          assert Capturing(desiredName, cur + [event], elementDepth - barrier.value);
        }
      }
    }
  }

  /** The loop step of `Split`, on values. */
  lemma SplitStep(name: QName, whole: seq<seq<XmlEvent>>, lists: seq<seq<XmlEvent>>,
                  pending: seq<XmlEvent>, e: XmlEvent, rest: seq<XmlEvent>,
                  out: Option<seq<XmlEvent>>, pending': seq<XmlEvent>)
    requires whole == lists + Subtrees(name, pending + ([e] + rest))
    requires out.Some? ==> out.value == pending + [e] && IsSubtree(name, out.value) && pending' == []
    requires out.None? ==>
      pending' == pending + [e] || (pending == [] && pending' == [] && e != Start(name))
    ensures whole == (if out.Some? then lists + [out.value] else lists) + Subtrees(name, pending' + rest)
  {
    SubtreesStep(name, pending, e, rest, out, pending');
  }

  /**
   * `split`: the event stream mapped through one fresh `SplitFunction` and flattened, so
   * that the delivered lists come out in the order in which their end elements arrive.
   * They are exactly the subtrees rooted at `desiredName`, in document order.
   */
  method Split(input: seq<XmlEvent>, desiredName: QName) returns (lists: seq<seq<XmlEvent>>)
    ensures lists == Subtrees(desiredName, input)
  {
    var f := new SplitFunction(desiredName);
    lists := [];
    ghost var pending: seq<XmlEvent> := [];
    ghost var whole := Subtrees(desiredName, input);
    var i := 0;
    assert pending + input[i..] == input;
    while i < |input|
      invariant 0 <= i <= |input|
      invariant f.Valid() && f.desiredName == desiredName && pending == f.Pending()
      invariant whole == lists + Subtrees(desiredName, pending + input[i..])
    {
      var e := input[i];
      ghost var rest := input[i + 1..];
      assert input[i..] == [e] + rest;
      var out := f.Apply(e);
      ghost var pending' := f.Pending();
      SplitStep(desiredName, whole, lists, pending, e, rest, out, pending');
      if out.Some? {
        lists := lists + [out.value];
      }
      pending := pending';
      i := i + 1;
    }
    assert pending + input[i..] == pending;
    if pending != [] {
      SubtreesOfOpen(desiredName, pending);
    }
  }
}
