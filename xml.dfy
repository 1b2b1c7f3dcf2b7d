/**
 * The part of xml.etree.ElementTree the scripts use: an element with a tag, an
 * attribute map, optional text and an ordered list of children; `findall` with the
 * any-descendant path (every element strictly below the root, in document order), `elem.get(name)`
 * and `elem.find(tag)` (the first direct child with that tag).
 *
 * It also holds the link candidates both link extractors read off a manifest:
 * first, for each of the attribute names link, href, url, file, source in turn,
 * every element carrying a non-empty value for it; then every element with
 * non-empty text, as stripped text.
 */
module Xml {
  import opened Common

  datatype Element = Element(tag: string, attrib: map<string, string>, text: Option<string>, children: seq<Element>)

  /** `root.findall` over all descendants: every element below e, parents before children, siblings in order. */
  function Descendants(e: Element): seq<Element>
    decreases e, 1
  {
    Forest(e.children)
  }

  /** The elements of a list of sibling subtrees, each root followed by its own descendants. */
  function Forest(cs: seq<Element>): seq<Element>
    decreases cs, 0
  {
    if cs == [] then [] else [cs[0]] + Descendants(cs[0]) + Forest(cs[1..])
  }

  /** Every child of an element is among its descendants. */
  lemma {:induction false} ChildrenAreDescendants(e: Element)
    ensures forall c :: c in e.children ==> c in Descendants(e)
  {
    ForestContainsRoots(e.children);
  }

  lemma {:induction false} ForestContainsRoots(cs: seq<Element>)
    ensures forall c :: c in cs ==> c in Forest(cs)
    decreases |cs|
  {
    if cs != [] {
      ForestContainsRoots(cs[1..]);
      assert forall c :: c in cs ==> c == cs[0] || c in cs[1..];
    }
  }

  /** `elem.get(name)`. */
  function Attr(e: Element, name: string): Option<string> {
    if name in e.attrib then Some(e.attrib[name]) else None
  }

  /** `elem.find(tag)` for a plain tag: the first direct child with that tag. */
  function FindChild(e: Element, tag: string): (r: Option<Element>)
    ensures r.Some? ==> r.value in e.children && r.value.tag == tag
    ensures r.Some? <==> exists i :: 0 <= i < |e.children| && e.children[i].tag == tag
  {
    FirstWithTag(e.children, tag)
  }

  function FirstWithTag(cs: seq<Element>, tag: string): (r: Option<Element>)
    ensures r.Some? ==> r.value in cs && r.value.tag == tag
    ensures r.Some? <==> exists i :: 0 <= i < |cs| && cs[i].tag == tag
    ensures r.Some? ==> exists i :: 0 <= i < |cs| && cs[i] == r.value && forall k :: 0 <= k < i ==> cs[k].tag != tag
  {
    if cs == [] then None
    else if cs[0].tag == tag then Some(cs[0])
    else
      var r := FirstWithTag(cs[1..], tag);
      assert forall i :: 1 <= i < |cs| ==> cs[i] == cs[1..][i - 1];
      r
  }

  // ---------------------------------------------------------------------
  // Link candidates
  // ---------------------------------------------------------------------

  const LinkAttributes: seq<string> := ["link", "href", "url", "file", "source"]

  /** A string found on an element, together with that element (its date is read off it). */
  datatype Candidate = Candidate(link: string, elem: Element)

  /** `for elem in ds: link = elem.get(name); if link: ...` */
  function AttrPass(name: string, ds: seq<Element>): (r: seq<Candidate>)
    ensures forall c :: c in r <==> c.elem in ds && Attr(c.elem, name) == Some(c.link) && c.link != ""
    decreases |ds|
  {
    if ds == [] then []
    else
      var rest := AttrPass(name, ds[1..]);
      assert forall d :: d in ds <==> d == ds[0] || d in ds[1..];
      match Attr(ds[0], name)
      case Some(v) => if v != "" then [Candidate(v, ds[0])] + rest else rest
      case None => rest
  }

  /** The attribute passes for each name in turn. */
  function AttrPasses(names: seq<string>, ds: seq<Element>): (r: seq<Candidate>)
    ensures forall c :: c in r <==> exists n :: n in names && c.elem in ds && Attr(c.elem, n) == Some(c.link) && c.link != ""
    decreases |names|
  {
    if names == [] then []
    else
      var r := AttrPass(names[0], ds) + AttrPasses(names[1..], ds);
      assert forall n :: n in names <==> n == names[0] || n in names[1..];
      r
  }

  /** `for elem in ds: if elem.text: text = elem.text.strip() ...` */
  function TextPass(ds: seq<Element>): (r: seq<Candidate>)
    ensures forall c :: c in r <==> c.elem in ds && c.elem.text.Some? && c.elem.text.value != "" && c.link == Strip(c.elem.text.value)
    decreases |ds|
  {
    if ds == [] then []
    else
      var rest := TextPass(ds[1..]);
      assert forall d :: d in ds <==> d == ds[0] || d in ds[1..];
      match ds[0].text
      case Some(t) => if t != "" then [Candidate(Strip(t), ds[0])] + rest else rest
      case None => rest
  }

  /** Every string the link extractors look at, in the order they look at them. */
  function LinkCandidates(root: Element): seq<Candidate> {
    AttrPasses(LinkAttributes, Descendants(root)) + TextPass(Descendants(root))
  }

  /** A link value held by a link attribute of an element below the root. */
  ghost predicate AttrLink(root: Element, v: string) {
    exists d, n :: d in Descendants(root) && n in LinkAttributes && Attr(d, n) == Some(v) && v != ""
  }

  /** A link written as the (stripped, non-empty) text of an element below the root. */
  ghost predicate TextLink(root: Element, v: string) {
    exists d :: d in Descendants(root) && d.text.Some? && d.text.value != "" && v == Strip(d.text.value)
  }

  /** Each candidate comes from an element below the root, through a link attribute or its text. */
  lemma CandidateSound(root: Element, c: Candidate)
    requires c in LinkCandidates(root)
    ensures c.elem in Descendants(root)
    ensures AttrLink(root, c.link) || TextLink(root, c.link)
  {
    var ds := Descendants(root);
    var a := AttrPasses(LinkAttributes, ds);
    if c in a {
      var n :| n in LinkAttributes && c.elem in ds && Attr(c.elem, n) == Some(c.link) && c.link != "";
    } else {
      assert c in TextPass(ds);
    }
  }

  lemma AttrLinkFound(root: Element, v: string)
    requires AttrLink(root, v)
    ensures exists c :: c in LinkCandidates(root) && c.link == v
  {
    var ds := Descendants(root);
    var d, n :| d in ds && n in LinkAttributes && Attr(d, n) == Some(v) && v != "";
    assert Candidate(v, d) in AttrPasses(LinkAttributes, ds);
    assert Candidate(v, d) in LinkCandidates(root);
  }

  lemma TextLinkFound(root: Element, v: string)
    requires TextLink(root, v)
    ensures exists c :: c in LinkCandidates(root) && c.link == v
  {
    var ds := Descendants(root);
    var d :| d in ds && d.text.Some? && d.text.value != "" && v == Strip(d.text.value);
    assert Candidate(v, d) in TextPass(ds);
    assert Candidate(v, d) in LinkCandidates(root);
  }

  /** The candidate strings are exactly the attribute links and the text links. */
  lemma LinkCandidatesSpec(root: Element)
    ensures forall v :: (exists c :: c in LinkCandidates(root) && c.link == v) <==> AttrLink(root, v) || TextLink(root, v)
    ensures forall c :: c in LinkCandidates(root) ==> c.elem in Descendants(root)
  {
    forall c | c in LinkCandidates(root) ensures c.elem in Descendants(root) {
      CandidateSound(root, c);
    }
    forall v ensures (exists c :: c in LinkCandidates(root) && c.link == v) <==> AttrLink(root, v) || TextLink(root, v) {
      if exists c :: c in LinkCandidates(root) && c.link == v {
        var c :| c in LinkCandidates(root) && c.link == v;
        CandidateSound(root, c);
      }
      if AttrLink(root, v) {
        AttrLinkFound(root, v);
      }
      if TextLink(root, v) {
        TextLinkFound(root, v);
      }
    }
  }
}
