/**
 A parsed XML document in the shape Python's ElementTree gives it, and the
 ElementTree queries the extractor uses: the `.//X` descendant step,
 `find`, `findall`, the `[@attr]` filter, a `/X` child step and `itertext`.
 Parsing XML text is not modelled: a document is given as its tree, with
 comments and processing instructions already dropped (ElementTree's default
 parser does not keep them).
 */
module Tei {
  import opened Wrappers
  import opened Strings

  /** An expanded element name: namespace URI ("" when there is none) and
      local name. `tei:figure` with the TEI namespace prefix stands for
      `QName("http://www.tei-c.org/ns/1.0", "figure")`. */
  datatype QName = QName(ns: string, local: string)

  /** An element: its name, attributes, the text before its first child
      (`text`), the text after its end tag up to the next sibling (`tail`)
      and its children in document order. */
  datatype Element = Element(
    name: QName,
    attrib: map<string, string>,
    text: Option<string>,
    tail: Option<string>,
    children: seq<Element>)

  /** `e.iter()`: `e` itself, then everything below it in document order. */
  function Iter(e: Element): (r: seq<Element>)
    ensures r != [] && r[0] == e
  {
    [e] + IterAll(e.children)
  }

  /** The `iter()` of each element of `es`, one after the other. */
  function IterAll(es: seq<Element>): seq<Element> {
    if es == [] then [] else Iter(es[0]) + IterAll(es[1..])
  }

  /** `iter()` over a single element is that element's `iter()`. */
  lemma IterAllOne(e: Element)
    ensures IterAll([e]) == Iter(e)
  {
    assert [e][1..] == [];
  }

  /** The `.//` step from `e`: every element strictly below `e`, in document
      order; `e` itself is not included. */
  function Descendants(e: Element): seq<Element> {
    IterAll(e.children)
  }

  /** `x` sits somewhere strictly below `e`, at any depth. */
  ghost predicate Below(x: Element, e: Element)
    decreases e
  {
    exists i :: 0 <= i < |e.children| && (x == e.children[i] || Below(x, e.children[i]))
  }

  lemma {:induction false} IterMember(x: Element, e: Element)
    ensures x in Iter(e) <==> x == e || Below(x, e)
    decreases e
  {
    IterAllMember(x, e.children);
  }

  lemma {:induction false} IterAllMember(x: Element, es: seq<Element>)
    ensures x in IterAll(es) <==> exists i :: 0 <= i < |es| && (x == es[i] || Below(x, es[i]))
    decreases es
  {
    if es != [] {
      IterMember(x, es[0]);
      IterAllMember(x, es[1..]);
      if exists i :: 0 <= i < |es| && (x == es[i] || Below(x, es[i])) {
        var i :| 0 <= i < |es| && (x == es[i] || Below(x, es[i]));
        if i > 0 {
          assert es[1..][i - 1] == es[i];
        }
      }
    }
  }

  /** The `.//` step finds exactly the elements below `e`, at every depth. */
  lemma DescendantsAreBelow(x: Element, e: Element)
    ensures x in Descendants(e) <==> Below(x, e)
  {
    IterAllMember(x, e.children);
  }

  /** Number of elements in a tree. */
  function Size(e: Element): nat {
    1 + SizeAll(e.children)
  }

  function SizeAll(es: seq<Element>): nat {
    if es == [] then 0 else Size(es[0]) + SizeAll(es[1..])
  }

  lemma {:induction false} SizeAllBound(es: seq<Element>, i: nat)
    requires i < |es|
    ensures Size(es[i]) <= SizeAll(es)
  {
    if i > 0 {
      SizeAllBound(es[1..], i - 1);
    }
  }

  lemma {:induction false} BelowIsSmaller(x: Element, e: Element)
    requires Below(x, e)
    ensures Size(x) < Size(e)
    decreases e
  {
    var i :| 0 <= i < |e.children| && (x == e.children[i] || Below(x, e.children[i]));
    SizeAllBound(e.children, i);
    if x != e.children[i] {
      BelowIsSmaller(x, e.children[i]);
    }
  }

  /** The element a `.//` query starts from is never among its results. */
  lemma RootNotDescendant(e: Element)
    ensures e !in Descendants(e)
  {
    DescendantsAreBelow(e, e);
    if Below(e, e) {
      BelowIsSmaller(e, e);
    }
  }

  /** The elements of `es` named `q`, in order. */
  function Named(es: seq<Element>, q: QName): (r: seq<Element>)
    ensures |r| <= |es|
  {
    if es == [] then []
    else (if es[0].name == q then [es[0]] else []) + Named(es[1..], q)
  }

  lemma {:induction false} NamedMember(es: seq<Element>, q: QName, x: Element)
    ensures x in Named(es, q) <==> x in es && x.name == q
  {
    if es != [] {
      NamedMember(es[1..], q, x);
      assert es == [es[0]] + es[1..];
    }
  }

  lemma {:induction false} NamedAppend(a: seq<Element>, b: seq<Element>, q: QName)
    ensures Named(a + b, q) == Named(a, q) + Named(b, q)
  {
    if a == [] {
      assert a + b == b;
    } else {
      assert (a + b)[1..] == a[1..] + b;
      NamedAppend(a[1..], b, q);
    }
  }

  /** The elements of `es` that carry attribute `key`: the `[@key]` filter. */
  function WithAttr(es: seq<Element>, key: string): (r: seq<Element>)
    ensures |r| <= |es|
  {
    if es == [] then []
    else (if key in es[0].attrib then [es[0]] else []) + WithAttr(es[1..], key)
  }

  lemma {:induction false} WithAttrMember(es: seq<Element>, key: string, x: Element)
    ensures x in WithAttr(es, key) <==> x in es && key in x.attrib
  {
    if es != [] {
      WithAttrMember(es[1..], key, x);
      assert es == [es[0]] + es[1..];
    }
  }

  /** `e.findall('.//q')`. */
  function FindAll(e: Element, q: QName): seq<Element> {
    Named(Descendants(e), q)
  }

  /** `findall('.//q')` finds exactly the elements named `q` below `e`, at
      any depth. */
  lemma FindAllMember(e: Element, q: QName, x: Element)
    ensures x in FindAll(e, q) <==> Below(x, e) && x.name == q
  {
    NamedMember(Descendants(e), q, x);
    DescendantsAreBelow(x, e);
  }

  /** `e.find('.//q')`: the first match, or `None`. */
  function Find(e: Element, q: QName): Option<Element> {
    var all := FindAll(e, q);
    if all == [] then None else Some(all[0])
  }

  /** `find('.//q')` finds nothing exactly when no element below `e` is
      named `q`. */
  lemma FindNone(e: Element, q: QName)
    ensures Find(e, q).None? <==> forall x :: Below(x, e) ==> x.name != q
  {
    var all := FindAll(e, q);
    if all != [] {
      FindAllMember(e, q, all[0]);
    } else {
      forall x | Below(x, e)
        ensures x.name != q
      {
        FindAllMember(e, q, x);
      }
    }
  }

  /** `find('.//q')` yields the first element named `q` in document order
      below `e`. */
  lemma FindFirst(e: Element, q: QName)
    requires Find(e, q).Some?
    ensures exists k :: && 0 <= k < |Descendants(e)|
                        && Descendants(e)[k] == Find(e, q).value && Find(e, q).value.name == q
                        && forall j :: 0 <= j < k ==> Descendants(e)[j].name != q
  {
    NamedFirst(Descendants(e), q);
  }

  /** The `/q` step applied to each element of `es` in turn: their children
      named `q`, parent by parent. */
  function ChildStep(es: seq<Element>, q: QName): seq<Element> {
    if es == [] then [] else Named(es[0].children, q) + ChildStep(es[1..], q)
  }

  /** What the `/q` step yields is a child named `q` of one of `es`. */
  lemma {:induction false} ChildStepMember(es: seq<Element>, q: QName, x: Element)
    requires x in ChildStep(es, q)
    ensures x.name == q && exists i :: 0 <= i < |es| && x in es[i].children
  {
    NamedMember(es[0].children, q, x);
    if x !in Named(es[0].children, q) {
      ChildStepMember(es[1..], q, x);
      var j :| 0 <= j < |es[1..]| && x in es[1..][j].children;
      assert es[1..][j] == es[j + 1];
    }
  }

  /** Every child named `q` of one of `es` is yielded by the `/q` step. */
  lemma {:induction false} ChildStepComplete(es: seq<Element>, q: QName, k: nat, x: Element)
    requires k < |es| && x in es[k].children && x.name == q
    ensures x in ChildStep(es, q)
  {
    if k == 0 {
      NamedMember(es[0].children, q, x);
    } else {
      assert es[1..][k - 1] == es[k];
      ChildStepComplete(es[1..], q, k - 1, x);
    }
  }

  /** The first element of `es` named `q`, at its position `i`. */
  lemma {:induction false} NamedFirst(es: seq<Element>, q: QName)
    requires Named(es, q) != []
    ensures exists i :: 0 <= i < |es| && es[i] == Named(es, q)[0] && es[i].name == q
                        && forall j :: 0 <= j < i ==> es[j].name != q
  {
    if es[0].name != q {
      NamedFirst(es[1..], q);
      var i :| 0 <= i < |es[1..]| && es[1..][i] == Named(es[1..], q)[0] && es[1..][i].name == q
               && forall j :: 0 <= j < i ==> es[1..][j].name != q;
      assert es[i + 1] == es[1..][i];
      forall j | 0 <= j < i + 1
        ensures es[j].name != q
      {
        if j > 0 {
          assert es[j] == es[1..][j - 1];
        }
      }
    }
  }

  /** `x` is the first child named `q` of the first element of `es` that
      has such a child: what `.../q` yields first. */
  ghost predicate FirstChildNamed(es: seq<Element>, q: QName, x: Element) {
    exists k, i :: && 0 <= k < |es| && 0 <= i < |es[k].children|
                   && es[k].children[i] == x && x.name == q
                   && (forall j, c :: 0 <= j < k && c in es[j].children ==> c.name != q)
                   && (forall j :: 0 <= j < i ==> es[k].children[j].name != q)
  }

  /** The first result of the `/q` step is the first `q` child of the first
      parent that has one. */
  lemma {:induction false} ChildStepFirst(es: seq<Element>, q: QName)
    requires ChildStep(es, q) != []
    ensures FirstChildNamed(es, q, ChildStep(es, q)[0])
  {
    if Named(es[0].children, q) != [] {
      FirstChildNamedHead(es, q);
    } else {
      forall c | c in es[0].children
        ensures c.name != q
      {
        NamedMember(es[0].children, q, c);
      }
      ChildStepFirst(es[1..], q);
      FirstChildNamedShift(es, q, ChildStep(es[1..], q)[0]);
    }
  }

  lemma FirstChildNamedHead(es: seq<Element>, q: QName)
    requires es != [] && Named(es[0].children, q) != []
    ensures FirstChildNamed(es, q, Named(es[0].children, q)[0])
  {
    NamedFirst(es[0].children, q);
  }

  lemma FirstChildNamedShift(es: seq<Element>, q: QName, x: Element)
    requires es != [] && forall c :: c in es[0].children ==> c.name != q
    requires FirstChildNamed(es[1..], q, x)
    ensures FirstChildNamed(es, q, x)
  {
    var rest := es[1..];
    var k, i :| && 0 <= k < |rest| && 0 <= i < |rest[k].children|
                && rest[k].children[i] == x && x.name == q
                && (forall j, c :: 0 <= j < k && c in rest[j].children ==> c.name != q)
                && (forall j :: 0 <= j < i ==> rest[k].children[j].name != q);
    assert es[k + 1] == rest[k];
    forall j, c | 0 <= j < k + 1 && c in es[j].children
      ensures c.name != q
    {
      if j > 0 {
        assert es[j] == rest[j - 1];
      }
    }
  }

  /** `e.get(key)`. */
  function Get(e: Element, key: string): Option<string> {
    if key in e.attrib then Some(e.attrib[key]) else None
  }

  /** The string a `text` or `tail` slot yields to `itertext`: nothing for
      `None` or an empty string. */
  function Piece(t: Option<string>): (r: seq<string>)
    ensures forall p :: p in r ==> p != ""
  {
    if t.Some? && t.value != "" then [t.value] else []
  }

  /** `e.itertext()`: `e`'s text, then for each child that child's
      `itertext()` followed by the child's tail. `e`'s own tail is not
      included. Only non-empty strings are produced. */
  function Itertext(e: Element): (r: seq<string>)
    ensures forall p :: p in r ==> p != ""
  {
    Piece(e.text) + ItertextChildren(e.children)
  }

  function ItertextChildren(es: seq<Element>): (r: seq<string>)
    ensures forall p :: p in r ==> p != ""
  {
    if es == [] then []
    else Itertext(es[0]) + Piece(es[0].tail) + ItertextChildren(es[1..])
  }

  /** The characters of a `text` or `tail` slot. */
  function Chars(t: Option<string>): string {
    if t.Some? then t.value else ""
  }

  /** All character data inside `e` in document order: its text, and for
      each child all of the child's character data and then its tail. */
  function AllText(e: Element): string {
    Chars(e.text) + AllTextChildren(e.children)
  }

  function AllTextChildren(es: seq<Element>): string {
    if es == [] then "" else AllText(es[0]) + Chars(es[0].tail) + AllTextChildren(es[1..])
  }

  /** `''.join` distributes over concatenation of the pieces. */
  lemma {:induction false} JoinEmptyAppend(xs: seq<string>, ys: seq<string>)
    ensures Join("", xs + ys) == Join("", xs) + Join("", ys)
  {
    if xs == [] {
      assert xs + ys == ys;
    } else if ys == [] {
      assert xs + ys == xs;
    } else {
      JoinAppend("", xs, ys);
    }
  }

  lemma PieceJoin(t: Option<string>)
    ensures Join("", Piece(t)) == Chars(t)
  {
  }

  /** Joining `itertext()` with `''` gives all of the element's character
      data: dropping the empty pieces loses nothing. */
  lemma {:induction false} ItertextJoin(e: Element)
    ensures Join("", Itertext(e)) == AllText(e)
    decreases e
  {
    JoinEmptyAppend(Piece(e.text), ItertextChildren(e.children));
    PieceJoin(e.text);
    ItertextChildrenJoin(e.children);
  }

  lemma {:induction false} ItertextChildrenJoin(es: seq<Element>)
    ensures Join("", ItertextChildren(es)) == AllTextChildren(es)
    decreases es
  {
    if es != [] {
      var a, b, c := Itertext(es[0]), Piece(es[0].tail), ItertextChildren(es[1..]);
      JoinEmptyAppend(a + b, c);
      JoinEmptyAppend(a, b);
      ItertextJoin(es[0]);
      PieceJoin(es[0].tail);
      ItertextChildrenJoin(es[1..]);
    }
  }

  /** `itertext()` reaches the text of every element below `e`, whatever its
      depth. */
  lemma {:induction false} ItertextReachesBelow(x: Element, e: Element)
    requires Below(x, e)
    requires x.text.Some? && x.text.value != ""
    ensures x.text.value in Itertext(e)
    decreases e
  {
    var i :| 0 <= i < |e.children| && (x == e.children[i] || Below(x, e.children[i]));
    if x != e.children[i] {
      ItertextReachesBelow(x, e.children[i]);
    }
    ItertextChildrenHas(e.children, i, x.text.value);
  }

  lemma {:induction false} ItertextChildrenHas(es: seq<Element>, i: nat, p: string)
    requires i < |es|
    requires p in Itertext(es[i])
    ensures p in ItertextChildren(es)
  {
    if i > 0 {
      ItertextChildrenHas(es[1..], i - 1, p);
    }
  }

  /** `itertext()` does not depend on the element's own tail. */
  lemma ItertextIgnoresTail(e: Element, t: Option<string>)
    ensures Itertext(e.(tail := t)) == Itertext(e)
  {
  }

  /** Elements below `e` named `q`, counted tree by tree: a reference
      definition for the length of `findall('.//q')`. */
  function CountBelow(e: Element, q: QName): nat {
    CountAll(e.children, q)
  }

  function CountAll(es: seq<Element>, q: QName): nat {
    if es == [] then 0
    else (if es[0].name == q then 1 else 0) + CountBelow(es[0], q) + CountAll(es[1..], q)
  }

  lemma {:induction false} FindAllCountsIter(e: Element, q: QName)
    ensures |Named(Iter(e), q)| == (if e.name == q then 1 else 0) + CountBelow(e, q)
    decreases e
  {
    NamedAppend([e], IterAll(e.children), q);
    FindAllCountsIterAll(e.children, q);
  }

  lemma {:induction false} FindAllCountsIterAll(es: seq<Element>, q: QName)
    ensures |Named(IterAll(es), q)| == CountAll(es, q)
    decreases es
  {
    if es != [] {
      NamedAppend(Iter(es[0]), IterAll(es[1..]), q);
      FindAllCountsIter(es[0], q);
      FindAllCountsIterAll(es[1..], q);
    }
  }

  /** `len(e.findall('.//q'))` counts every element named `q` below `e`,
      at any depth. */
  lemma FindAllCount(e: Element, q: QName)
    ensures |FindAll(e, q)| == CountBelow(e, q)
  {
    FindAllCountsIterAll(e.children, q);
  }
}
