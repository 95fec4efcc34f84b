/**
 * The StAX events that the splitter of the reactive JAXB decoder consumes, the nesting
 * balance of an event sequence, and an independent definition of which subtrees the
 * splitter is meant to cut out of a document.
 */
module XmlEvents {
  import opened Wrappers

  /** `javax.xml.namespace.QName`: equal when namespace URI and local part are equal. */
  datatype QName = QName(namespaceUri: string, localPart: string)

  /** A start element with its qualified name, an end element, or anything else
      (characters, comments, processing instructions, document start and end). */
  datatype XmlEvent = Start(name: QName) | End | Other

  /** How an event changes the element depth. */
  function Weight(e: XmlEvent): int {
    match e
    case Start(_) => 1
    case End => -1
    case Other => 0
  }

  /** Number of start elements minus number of end elements. */
  function Balance(s: seq<XmlEvent>): int {
    if s == [] then 0 else Weight(s[0]) + Balance(s[1..])
  }

  lemma {:induction false} BalanceSnoc(s: seq<XmlEvent>, e: XmlEvent)
    ensures Balance(s + [e]) == Balance(s) + Weight(e)
  {
    if s == [] {
      assert [] + [e] == [e] && [e][1..] == [];
    } else {
      BalanceSnoc(s[1..], e);
      assert (s + [e])[1..] == s[1..] + [e];
    }
  }

  /** Every non-empty prefix of `s`, counted from a depth of `base`, stays above zero: the
      element open at depth `base` is not closed within `s`. */
  predicate OpenAbove(s: seq<XmlEvent>, base: int) {
    s == [] || (base + Weight(s[0]) > 0 && OpenAbove(s[1..], base + Weight(s[0])))
  }

  /** An element was opened by `s[0]` and has not been closed yet. */
  predicate Open(s: seq<XmlEvent>) {
    OpenAbove(s, 0)
  }

  /** Counted from a depth of `base`, the number of events after which the depth first comes
      back to zero, provided it never dropped below before. */
  function CloseFrom(s: seq<XmlEvent>, base: int): (r: Option<nat>)
    ensures r.Some? ==> 1 <= r.value <= |s|
  {
    if s == [] then None
    else
      var b := base + Weight(s[0]);
      if b > 0 then
        match CloseFrom(s[1..], b)
        case None => None
        case Some(k) => Some(k + 1)
      else if b == 0 then Some(1)
      else None
  }

  /** The length of the element that starts `s`, if `s` holds its matching end. */
  function MatchLength(s: seq<XmlEvent>): (r: Option<nat>)
    ensures r.Some? ==> 1 <= r.value <= |s|
  {
    CloseFrom(s, 0)
  }

  /** A complete element named `name` with everything nested in it, from its start element to
      its matching end element. */
  predicate IsSubtree(name: QName, t: seq<XmlEvent>) {
    |t| >= 1 && t[0] == Start(name) && MatchLength(t) == Some(|t|)
  }

  /** `MatchLength` finds the first point after which as many elements have been closed as
      opened, and at every earlier point more were open. */
  lemma {:induction false} CloseFromMeaning(s: seq<XmlEvent>, base: int, k: nat)
    ensures CloseFrom(s, base) == Some(k) <==>
      && 1 <= k <= |s|
      && base + Balance(s[..k]) == 0
      && forall j :: 1 <= j < k ==> base + Balance(s[..j]) > 0
  {
    if s != [] && 1 <= k <= |s| {
      var b := base + Weight(s[0]);
      forall j | 1 <= j <= |s| ensures base + Balance(s[..j]) == b + Balance(s[1..][..j - 1]) {
        assert s[..j][1..] == s[1..][..j - 1];
      }
      if k == 1 {
        assert s[1..][..0] == [];
      } else {
        CloseFromMeaning(s[1..], b, k - 1);
        var inner := forall j :: 1 <= j < k - 1 ==> b + Balance(s[1..][..j]) > 0;
        var outer := forall j :: 1 <= j < k ==> base + Balance(s[..j]) > 0;
        if outer {
          assert base + Balance(s[..1]) > 0;
          forall j | 1 <= j < k - 1 ensures b + Balance(s[1..][..j]) > 0 {
            assert base + Balance(s[..j + 1]) > 0;
          }
        }
        if b > 0 && inner {
          forall j | 1 <= j < k ensures base + Balance(s[..j]) > 0 {
            if j > 1 { assert b + Balance(s[1..][..j - 1]) > 0; }
          }
        }
        assert outer <==> b > 0 && inner;
      }
    }
  }

  /** Within an open element the depth stays positive. */
  lemma {:induction false} OpenAbovePositive(s: seq<XmlEvent>, base: int)
    requires s != [] && OpenAbove(s, base)
    ensures base + Balance(s) > 0
  {
    if |s| > 1 {
      OpenAbovePositive(s[1..], base + Weight(s[0]));
    }
  }

  /** An open element stays open over one more event that leaves it unclosed. */
  lemma {:induction false} OpenSnoc(cur: seq<XmlEvent>, e: XmlEvent, base: int)
    requires OpenAbove(cur, base) && base + Balance(cur + [e]) > 0
    ensures OpenAbove(cur + [e], base)
  {
    var c := cur + [e];
    if cur == [] {
      assert c == [e] && c[1..] == [];
    } else {
      assert c[1..] == cur[1..] + [e];
      OpenSnoc(cur[1..], e, base + Weight(cur[0]));
    }
  }

  /** The event that brings the depth of an open element back to zero closes it. */
  lemma {:induction false} ClosedSnoc(cur: seq<XmlEvent>, e: XmlEvent, base: int)
    requires OpenAbove(cur, base) && base + Balance(cur + [e]) == 0
    ensures CloseFrom(cur + [e], base) == Some(|cur| + 1)
  {
    var c := cur + [e];
    if cur == [] {
      assert c == [e] && c[1..] == [];
    } else {
      assert c[1..] == cur[1..] + [e];
      ClosedSnoc(cur[1..], e, base + Weight(cur[0]));
    }
  }

  /** What follows a closed element does not change where it closes. */
  lemma {:induction false} CloseFromAppend(t: seq<XmlEvent>, rest: seq<XmlEvent>, base: int)
    requires CloseFrom(t, base).Some?
    ensures CloseFrom(t + rest, base) == CloseFrom(t, base)
  {
    assert (t + rest)[0] == t[0];
    var b := base + Weight(t[0]);
    if b > 0 {
      assert (t + rest)[1..] == t[1..] + rest;
      CloseFromAppend(t[1..], rest, b);
    }
  }

  /** Cutting the input right after the matching end does not change where it is. */
  lemma {:induction false} CloseFromPrefix(s: seq<XmlEvent>, base: int)
    requires CloseFrom(s, base).Some?
    ensures CloseFrom(s[..CloseFrom(s, base).value], base) == CloseFrom(s, base)
  {
    var k := CloseFrom(s, base).value;
    var b := base + Weight(s[0]);
    assert s[..k][0] == s[0];
    if b > 0 {
      CloseFromPrefix(s[1..], b);
      assert s[..k][1..] == s[1..][..k - 1];
    }
  }

  /** An element that is still open has no matching end. */
  lemma {:induction false} OpenNoClose(s: seq<XmlEvent>, base: int)
    requires OpenAbove(s, base)
    ensures CloseFrom(s, base).None?
  {
    if s != [] {
      OpenNoClose(s[1..], base + Weight(s[0]));
    }
  }

  /** The event that closes an element is an end element. */
  lemma {:induction false} CloseIsEnd(s: seq<XmlEvent>, base: int)
    requires base > 0 && CloseFrom(s, base) == Some(|s|)
    ensures s[|s| - 1] == End
  {
    if |s| > 1 {
      CloseIsEnd(s[1..], base + Weight(s[0]));
    }
  }

  /**
   * Reference definition of the split: the subtrees rooted at an element named `name`, in
   * document order. Scanning from the front, a start element named `name` begins a subtree
   * that runs to its matching end element; scanning resumes after it, so that an element of
   * the same name nested inside a subtree is part of that subtree and begins no subtree of its
   * own. A subtree whose end is missing is never delivered, and nothing after its start is.
   */
  function Subtrees(name: QName, s: seq<XmlEvent>): seq<seq<XmlEvent>>
    decreases |s|
  {
    if s == [] then []
    else if s[0] != Start(name) then Subtrees(name, s[1..])
    else
      match MatchLength(s)
      case None => []
      case Some(k) => [s[..k]] + Subtrees(name, s[k..])
  }

  /** Every delivered list is one complete subtree rooted at `name`. */
  lemma {:induction false} SubtreesAreSubtrees(name: QName, s: seq<XmlEvent>)
    ensures forall t :: t in Subtrees(name, s) ==> IsSubtree(name, t)
    decreases |s|
  {
    if s == [] {
    } else if s[0] != Start(name) {
      SubtreesAreSubtrees(name, s[1..]);
    } else {
      match MatchLength(s)
      case None =>
      case Some(k) =>
        SubtreesAreSubtrees(name, s[k..]);
        CloseFromPrefix(s, 0);
    }
  }

  /** A subtree begins with its start element and ends with an end element. */
  lemma SubtreeEndsWithEnd(name: QName, t: seq<XmlEvent>)
    requires IsSubtree(name, t)
    ensures t[0] == Start(name) && t[|t| - 1] == End
  {
    CloseIsEnd(t[1..], 1);
  }

  /** Events before a start element of the wanted name are passed over. */
  lemma SubtreesSkip(name: QName, e: XmlEvent, rest: seq<XmlEvent>)
    requires e != Start(name)
    ensures Subtrees(name, [e] + rest) == Subtrees(name, rest)
  {
    assert ([e] + rest)[1..] == rest;
  }

  /** A subtree at the front of the input is delivered first, and scanning goes on after it. */
  lemma SubtreesAfterSubtree(name: QName, t: seq<XmlEvent>, rest: seq<XmlEvent>)
    requires IsSubtree(name, t)
    ensures Subtrees(name, t + rest) == [t] + Subtrees(name, rest)
  {
    var s := t + rest;
    assert s[..|t|] == t && s[|t|..] == rest;
    CloseFromAppend(t, rest, 0);
  }

  /**
   * One event of the splitter, seen from the reference definition. `pending` holds the events
   * of a capture that has begun (empty when none has). The event either completes the capture,
   * which is then delivered; or extends it (or begins one); or is passed over outside any
   * capture. In each case the split of the remaining input is the delivered list, if any,
   * followed by the split of what is pending afterwards and the rest.
   */
  lemma SubtreesStep(name: QName, pending: seq<XmlEvent>, e: XmlEvent, rest: seq<XmlEvent>,
                     out: Option<seq<XmlEvent>>, pending': seq<XmlEvent>)
    requires out.Some? ==> out.value == pending + [e] && IsSubtree(name, out.value) && pending' == []
    requires out.None? ==>
      pending' == pending + [e] || (pending == [] && pending' == [] && e != Start(name))
    ensures Subtrees(name, pending + ([e] + rest)) ==
      (if out.Some? then [out.value] else []) + Subtrees(name, pending' + rest)
  {
    if out.Some? {
      SubtreesAfterSubtree(name, out.value, rest);
      assert pending + ([e] + rest) == out.value + rest;
      assert pending' + rest == rest;
    } else if pending' == pending + [e] {
      assert pending + ([e] + rest) == pending' + rest;
    } else {
      SubtreesSkip(name, e, rest);
      assert pending + ([e] + rest) == [e] + rest && pending' + rest == rest;
    }
  }

  /** An element whose end is missing delivers nothing. */
  lemma SubtreesOfOpen(name: QName, s: seq<XmlEvent>)
    requires |s| >= 1 && s[0] == Start(name) && Open(s)
    ensures Subtrees(name, s) == []
  {
    OpenNoClose(s, 0);
  }

  /** `sub` is `s` with some events left out, the others kept in order. */
  predicate IsSubsequence<T(==)>(sub: seq<T>, s: seq<T>)
    decreases |s|
  {
    if sub == [] then true
    else if s == [] then false
    else (sub[0] == s[0] && IsSubsequence(sub[1..], s[1..])) || IsSubsequence(sub, s[1..])
  }

  lemma SubsequenceDrop<T>(sub: seq<T>, e: T, s: seq<T>)
    requires IsSubsequence(sub, s)
    ensures IsSubsequence(sub, [e] + s)
  {
    assert ([e] + s)[1..] == s;
  }

  lemma {:induction false} SubsequencePrepend<T>(p: seq<T>, sub: seq<T>, s: seq<T>)
    requires IsSubsequence(sub, s)
    ensures IsSubsequence(p + sub, p + s)
    decreases |p|
  {
    if p != [] {
      SubsequencePrepend(p[1..], sub, s);
      assert (p + sub)[1..] == p[1..] + sub;
      assert (p + s)[1..] == p[1..] + s;
    } else {
      assert p + sub == sub && p + s == s;
    }
  }

  function Flatten<T>(ls: seq<seq<T>>): seq<T> {
    if ls == [] then [] else ls[0] + Flatten(ls[1..])
  }

  /** The delivered events, read one list after another, are events of the input in input
      order: the lists do not overlap and none invents or reorders an event. */
  lemma {:induction false} SubtreesInDocumentOrder(name: QName, s: seq<XmlEvent>)
    ensures IsSubsequence(Flatten(Subtrees(name, s)), s)
    decreases |s|
  {
    if s == [] {
    } else if s[0] != Start(name) {
      SubtreesInDocumentOrder(name, s[1..]);
      SubsequenceDrop(Flatten(Subtrees(name, s[1..])), s[0], s[1..]);
      assert [s[0]] + s[1..] == s;
    } else {
      match MatchLength(s)
      case None =>
      case Some(k) =>
        var r := Subtrees(name, s[k..]);
        SubtreesInDocumentOrder(name, s[k..]);
        SubsequencePrepend(s[..k], Flatten(r), s[k..]);
        assert s[..k] + s[k..] == s;
        assert ([s[..k]] + r)[1..] == r;
    }
  }

  /** The two-sibling document of the `split` documentation: `<root><child>foo</child>
      <child>bar</child></root>` split at `child` gives the two `child` elements, each whole. */
  lemma {:induction false} SiblingsExample(root: QName, child: QName)
    requires root != child
    ensures Subtrees(child, [Start(root), Start(child), Other, End, Start(child), Other, End, End])
         == [[Start(child), Other, End], [Start(child), Other, End]]
  {
    var c := [Start(child), Other, End];
    assert c[1..] == [Other, End] && c[1..][1..] == [End] && [End][1..] == [];
    assert CloseFrom([End], 1) == Some(1);
    assert CloseFrom([Other, End], 1) == Some(2);
    assert MatchLength(c) == Some(3);
    SubtreesSkip(child, End, []);
    SubtreesAfterSubtree(child, c, [End]);
    SubtreesAfterSubtree(child, c, c + [End]);
    SubtreesSkip(child, Start(root), c + (c + [End]));
    assert [Start(root), Start(child), Other, End, Start(child), Other, End, End]
        == [Start(root)] + (c + (c + [End]));
  }

  /** An element nested inside an element of the same name is delivered as part of the outer
      one only: `<child><child/></child><child/>` gives two lists, not three. */
  lemma {:induction false} NestedExample(child: QName)
    ensures Subtrees(child, [Start(child), Start(child), End, End, Start(child), End])
         == [[Start(child), Start(child), End, End], [Start(child), End]]
  {
    var outer := [Start(child), Start(child), End, End];
    var inner := [Start(child), End];
    assert inner[1..] == [End] && [End][1..] == [];
    assert outer[1..] == [Start(child), End, End] && outer[1..][1..] == [End, End];
    assert [End, End][1..] == [End];
    assert CloseFrom([End], 1) == Some(1);
    assert MatchLength(inner) == Some(2);
    assert CloseFrom([End, End], 2) == Some(2);
    assert CloseFrom([Start(child), End, End], 1) == Some(3);
    assert MatchLength(outer) == Some(4);
    SubtreesAfterSubtree(child, inner, []);
    assert inner + [] == inner;
    SubtreesAfterSubtree(child, outer, inner);
    assert [Start(child), Start(child), End, End, Start(child), End] == outer + inner;
  }
}
