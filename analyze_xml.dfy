/**
 * analyze_xml.py: collects the structure of the XML files inside the
 * downloaded archives. For each file it gathers the tags, the attribute names
 * per tag and the child tags per parent tag, and folds every file that brings
 * something new into a running total.
 *
 * A structure is `elements` (a set) and two defaultdict(set)s, `attributes` and
 * `relationships`. Here a defaultdict is a map together with `Get`, which reads a
 * missing key as the empty set; which keys are present is modelled too, because
 * a defaultdict lookup inserts the key.
 */
module AnalyzeXml {
  import opened Common
  import opened Xml

  /** The value of a structure dict. */
  datatype Struct = Struct(elements: set<string>, attributes: map<string, set<string>>, relationships: map<string, set<string>>)

  /** A fresh structure: an empty set and two empty defaultdicts. */
  const Empty: Struct := Struct({}, map[], map[])

  /** Reading a defaultdict(set) without inserting. */
  function Get(m: map<string, set<string>>, k: string): set<string> {
    if k in m then m[k] else {}
  }

  // ---------------------------------------------------------------------
  // analyze_xml_structure / process_element
  // ---------------------------------------------------------------------

  /**
   * What process_element adds for one node before visiting its children: the
   * tag, the attribute names under the tag (the key is created only when there is
   * an attribute, since it is touched inside the loop over them), and the edge
   * from the parent's tag when there is a parent.
   */
  function Step(s: Struct, e: Element, parent: Option<string>): Struct {
    Struct(
      s.elements + {e.tag},
      if |e.attrib| > 0 then s.attributes[e.tag := Get(s.attributes, e.tag) + e.attrib.Keys] else s.attributes,
      if parent.Some? then s.relationships[parent.value := Get(s.relationships, parent.value) + {e.tag}] else s.relationships)
  }

  /** `process_element(e, parent)` applied to `s`: the node, then each child in order. */
  function Walk(s: Struct, e: Element, parent: Option<string>): Struct
    decreases e, 1
  {
    WalkForest(Step(s, e, parent), e.children, e.tag)
  }

  /** The children `cs` of a node tagged `p`, processed in order. */
  function WalkForest(s: Struct, cs: seq<Element>, p: string): Struct
    decreases cs, 0
  {
    if cs == [] then s
    else Walk(WalkForest(s, cs[..|cs| - 1], p), cs[|cs| - 1], Some(p))
  }

  /** Processing one more child extends the fold by that child. */
  lemma WalkForestSnoc(s: Struct, cs: seq<Element>, i: nat, p: string)
    requires i < |cs|
    ensures WalkForest(s, cs[..i + 1], p) == Walk(WalkForest(s, cs[..i], p), cs[i], Some(p))
  {
    assert cs[..i + 1][..i] == cs[..i];
  }

  /** The structure analyze_xml_structure returns for a parsed tree. */
  function Analyze(root: Element): Struct {
    Walk(Empty, root, None)
  }

  /** The structure dict, updated in place by process_element and by the merge block of main. */
  class Structure {
    var elements: set<string>
    var attributes: map<string, set<string>>
    var relationships: map<string, set<string>>

    function Value(): Struct
      reads this
    {
      Struct(elements, attributes, relationships)
    }

    constructor ()
      ensures Value() == Empty
    {
      elements := {};
      attributes := map[];
      relationships := map[];
    }

    /** The loop over `element.attrib.items()`: each name is added under the tag. */
    method AddAttributes(tag: string, attrib: map<string, string>)
      modifies this
      ensures elements == old(elements) && relationships == old(relationships)
      ensures attributes == if |attrib| > 0 then old(attributes)[tag := Get(old(attributes), tag) + attrib.Keys] else old(attributes)
    {
      var names, done := attrib.Keys, {};
      while names != {}
        invariant names == attrib.Keys - done && done <= attrib.Keys
        invariant elements == old(elements) && relationships == old(relationships)
        invariant attributes == if done == {} then old(attributes)
          else old(attributes)[tag := Get(old(attributes), tag) + done]
        decreases names
      {
        var name :| name in names;
        ghost var a0 := old(attributes);
        ghost var prev := attributes;
        var cur := Get(attributes, tag);
        assert cur == Get(a0, tag) + done;
        attributes := attributes[tag := cur + {name}];
        assert cur + {name} == Get(a0, tag) + (done + {name});
        if done == {} {
          assert prev == a0;
        } else {
          assert attributes == a0[tag := Get(a0, tag) + done][tag := cur + {name}];
        }
        names, done := names - {name}, done + {name};
      }
      assert done == attrib.Keys;
      assert |attrib| > 0 <==> attrib.Keys != {} by {
        if attrib.Keys == {} {
          assert attrib == map[];
        } else {
          var k :| k in attrib.Keys;
          assert k in attrib;
        }
      }
    }

    /** The part of process_element that records the node itself. */
    method Visit(e: Element, parent: Option<string>)
      modifies this
      ensures Value() == Step(old(Value()), e, parent)
    {
      elements := elements + {e.tag};
      AddAttributes(e.tag, e.attrib);
      if parent.Some? {
        relationships := relationships[parent.value := Get(relationships, parent.value) + {e.tag}];
      }
    }

    /** `process_element(e, parent)`. */
    method ProcessElement(e: Element, parent: Option<string>)
      modifies this
      ensures Value() == Walk(old(Value()), e, parent)
      decreases e
    {
      Visit(e, parent);
      ghost var start := Value();
      var i := 0;
      while i < |e.children|
        invariant 0 <= i <= |e.children|
        invariant Value() == WalkForest(start, e.children[..i], e.tag)
      {
        WalkForestSnoc(start, e.children, i, e.tag);
        ProcessElement(e.children[i], Some(e.tag));
        i := i + 1;
      }
      assert e.children[..i] == e.children;
    }

    /** The loop of has_new_information over `s.attributes`: each lookup inserts its key. */
    method ScanAttributes(s: Struct) returns (found: bool)
      modifies this
      ensures elements == old(elements) && relationships == old(relationships)
      ensures Extends(old(attributes), attributes, s.attributes.Keys)
      ensures found <==> exists k :: k in s.attributes && s.attributes[k] - Get(old(attributes), k) != {}
      ensures !found ==> attributes == Fill(old(attributes), s.attributes.Keys)
    {
      var keys := s.attributes.Keys;
      ghost var done := {};
      while keys != {}
        invariant keys == s.attributes.Keys - done && done <= s.attributes.Keys
        invariant elements == old(elements) && relationships == old(relationships)
        invariant attributes == Fill(old(attributes), done)
        invariant forall k :: k in done ==> s.attributes[k] - Get(old(attributes), k) == {}
        decreases keys
      {
        var k :| k in keys;
        var current := Get(attributes, k);
        FillStep(old(attributes), done, k);
        attributes := attributes[k := current];
        if s.attributes[k] - current != {} {
          return true;
        }
        keys, done := keys - {k}, done + {k};
      }
      return false;
    }

    /** The loop of has_new_information over `s.relationships`. */
    method ScanRelationships(s: Struct) returns (found: bool)
      modifies this
      ensures elements == old(elements) && attributes == old(attributes)
      ensures Extends(old(relationships), relationships, s.relationships.Keys)
      ensures found <==> exists k :: k in s.relationships && s.relationships[k] - Get(old(relationships), k) != {}
      ensures !found ==> relationships == Fill(old(relationships), s.relationships.Keys)
    {
      var keys := s.relationships.Keys;
      ghost var done := {};
      while keys != {}
        invariant keys == s.relationships.Keys - done && done <= s.relationships.Keys
        invariant elements == old(elements) && attributes == old(attributes)
        invariant relationships == Fill(old(relationships), done)
        invariant forall k :: k in done ==> s.relationships[k] - Get(old(relationships), k) == {}
        decreases keys
      {
        var k :| k in keys;
        var current := Get(relationships, k);
        FillStep(old(relationships), done, k);
        relationships := relationships[k := current];
        if s.relationships[k] - current != {} {
          return true;
        }
        keys, done := keys - {k}, done + {k};
      }
      return false;
    }

    /**
     * `has_new_information(s, self)`. The answer is `HasNew` of the old total; the
     * lookups may insert empty keys taken from s, but touch no existing content;
     * when the answer is false every key of s has been looked up.
     */
    method HasNewInformation(s: Struct) returns (r: bool)
      modifies this
      ensures r == HasNew(s, old(Value()))
      ensures elements == old(elements)
      ensures Extends(old(attributes), attributes, s.attributes.Keys)
      ensures Extends(old(relationships), relationships, s.relationships.Keys)
      ensures !r ==> Value() == Touch(old(Value()), s)
    {
      if s.elements - elements != {} {
        return true;
      }
      r := ScanAttributes(s);
      if r {
        return;
      }
      r := ScanRelationships(s);
    }

    /** `total_structure['attributes'][tag].update(attrs)` for every tag of n. */
    method MergeAttributes(n: map<string, set<string>>)
      modifies this
      ensures elements == old(elements) && relationships == old(relationships)
      ensures attributes == Union(old(attributes), n)
    {
      ghost var start := attributes;
      var keys := n.Keys;
      ghost var done: set<string> := {};
      while keys != {}
        invariant keys == n.Keys - done && done <= n.Keys
        invariant elements == old(elements) && relationships == old(relationships)
        invariant attributes.Keys == start.Keys + done
        invariant forall j :: j in done ==> Get(attributes, j) == Get(start, j) + n[j]
        invariant forall j :: j !in done ==> Get(attributes, j) == Get(start, j)
        decreases keys
      {
        var k :| k in keys;
        attributes := attributes[k := Get(attributes, k) + n[k]];
        keys, done := keys - {k}, done + {k};
      }
      SameDicts(attributes, Union(start, n));
    }

    /** `total_structure['relationships'][parent].update(children)` for every parent of n. */
    method MergeRelationships(n: map<string, set<string>>)
      modifies this
      ensures elements == old(elements) && attributes == old(attributes)
      ensures relationships == Union(old(relationships), n)
    {
      ghost var start := relationships;
      var keys := n.Keys;
      ghost var done: set<string> := {};
      while keys != {}
        invariant keys == n.Keys - done && done <= n.Keys
        invariant elements == old(elements) && attributes == old(attributes)
        invariant relationships.Keys == start.Keys + done
        invariant forall j :: j in done ==> Get(relationships, j) == Get(start, j) + n[j]
        invariant forall j :: j !in done ==> Get(relationships, j) == Get(start, j)
        decreases keys
      {
        var k :| k in keys;
        relationships := relationships[k := Get(relationships, k) + n[k]];
        keys, done := keys - {k}, done + {k};
      }
      SameDicts(relationships, Union(start, n));
    }

    /** The merge block of main. */
    method MergeFrom(s: Struct)
      modifies this
      ensures Value() == Merge(old(Value()), s)
    {
      elements := elements + s.elements;
      MergeAttributes(s.attributes);
      MergeRelationships(s.relationships);
    }
  }

  /** `analyze_xml_structure` on a tree already parsed. */
  method AnalyzeXmlStructure(root: Element) returns (st: Structure)
    ensures fresh(st)
    ensures st.Value() == Analyze(root)
  {
    st := new Structure();
    st.ProcessElement(root, None);
  }

  // ---------------------------------------------------------------------
  // What the walk collects
  // ---------------------------------------------------------------------

  /** The nodes of the tree rooted at e. */
  function Nodes(e: Element): set<Element>
    decreases e, 1
  {
    {e} + NodesOf(e.children)
  }

  /** The nodes of the subtrees `cs`. */
  function NodesOf(cs: seq<Element>): set<Element>
    decreases cs, 0
  {
    if cs == [] then {} else NodesOf(cs[..|cs| - 1]) + Nodes(cs[|cs| - 1])
  }

  ghost predicate TagIn(ns: set<Element>, t: string) {
    exists n :: n in ns && n.tag == t
  }

  ghost predicate AttrKeyIn(ns: set<Element>, t: string) {
    exists n :: n in ns && n.tag == t && |n.attrib| > 0
  }

  ghost predicate AttrIn(ns: set<Element>, t: string, a: string) {
    exists n :: n in ns && n.tag == t && a in n.attrib
  }

  ghost predicate ParentIn(ns: set<Element>, t: string) {
    exists n :: n in ns && n.tag == t && |n.children| > 0
  }

  /** Some child among `cs` has tag c. */
  ghost predicate RootTagIn(cs: seq<Element>, c: string) {
    exists ch :: ch in cs && ch.tag == c
  }

  ghost predicate EdgeIn(ns: set<Element>, p: string, c: string) {
    exists n :: n in ns && n.tag == p && RootTagIn(n.children, c)
  }

  lemma NodesOfSnoc(cs: seq<Element>)
    requires cs != []
    ensures var n := |cs| - 1;
      forall x :: x in NodesOf(cs) <==> x in NodesOf(cs[..n]) || x in Nodes(cs[n])
  {
    var n := |cs| - 1;
    assert cs == cs[..n] + [cs[n]];
  }

  lemma ElementsOfSnoc(cs: seq<Element>)
    requires cs != []
    ensures var n := |cs| - 1;
      forall t :: TagIn(NodesOf(cs), t) <==> TagIn(NodesOf(cs[..n]), t) || TagIn(Nodes(cs[n]), t)
  {
    NodesOfSnoc(cs);
  }

  lemma AttributesOfSnoc(cs: seq<Element>)
    requires cs != []
    ensures var n := |cs| - 1;
      && (forall t :: AttrKeyIn(NodesOf(cs), t) <==> AttrKeyIn(NodesOf(cs[..n]), t) || AttrKeyIn(Nodes(cs[n]), t))
      && (forall t, a :: AttrIn(NodesOf(cs), t, a) <==> AttrIn(NodesOf(cs[..n]), t, a) || AttrIn(Nodes(cs[n]), t, a))
  {
    NodesOfSnoc(cs);
  }

  lemma RelationshipsOfSnoc(cs: seq<Element>)
    requires cs != []
    ensures var n := |cs| - 1;
      && (forall t :: ParentIn(NodesOf(cs), t) <==> ParentIn(NodesOf(cs[..n]), t) || ParentIn(Nodes(cs[n]), t))
      && (forall t, c :: EdgeIn(NodesOf(cs), t, c) <==> EdgeIn(NodesOf(cs[..n]), t, c) || EdgeIn(Nodes(cs[n]), t, c))
      && (forall c :: RootTagIn(cs, c) <==> RootTagIn(cs[..n], c) || cs[n].tag == c)
  {
    var n := |cs| - 1;
    NodesOfSnoc(cs);
    assert cs == cs[..n] + [cs[n]];
    assert forall ch :: ch in cs <==> ch in cs[..n] || ch == cs[n];
  }

  lemma ElementsOfRoot(e: Element)
    ensures forall t :: TagIn(Nodes(e), t) <==> t == e.tag || TagIn(NodesOf(e.children), t)
  {
    assert e in Nodes(e);
  }

  lemma AttributesOfRoot(e: Element)
    ensures forall t :: AttrKeyIn(Nodes(e), t) <==> (t == e.tag && |e.attrib| > 0) || AttrKeyIn(NodesOf(e.children), t)
    ensures forall t, a :: AttrIn(Nodes(e), t, a) <==> (t == e.tag && a in e.attrib) || AttrIn(NodesOf(e.children), t, a)
  {
    assert e in Nodes(e);
  }

  lemma RelationshipsOfRoot(e: Element)
    ensures forall t :: ParentIn(Nodes(e), t) <==> (t == e.tag && |e.children| > 0) || ParentIn(NodesOf(e.children), t)
    ensures forall t, c :: EdgeIn(Nodes(e), t, c) <==> (t == e.tag && RootTagIn(e.children, c)) || EdgeIn(NodesOf(e.children), t, c)
  {
    assert e in Nodes(e);
  }

  lemma StepAttributes(s: Struct, e: Element, p: Option<string>)
    ensures forall t :: t in Step(s, e, p).attributes <==> t in s.attributes || (t == e.tag && |e.attrib| > 0)
    ensures forall t, a :: a in Get(Step(s, e, p).attributes, t) <==> a in Get(s.attributes, t) || (t == e.tag && a in e.attrib)
  {
    if |e.attrib| == 0 {
      assert e.attrib == map[];
    }
  }

  lemma StepRelationships(s: Struct, e: Element, p: Option<string>)
    ensures forall t :: t in Step(s, e, p).relationships <==> t in s.relationships || p == Some(t)
    ensures forall t, c :: c in Get(Step(s, e, p).relationships, t) <==> c in Get(s.relationships, t) || (p == Some(t) && c == e.tag)
  {
  }

  /** `elements` gains exactly the tags of the subtree. */
  lemma {:induction false} WalkElements(s: Struct, e: Element, p: Option<string>)
    ensures forall t :: t in Walk(s, e, p).elements <==> t in s.elements || TagIn(Nodes(e), t)
    decreases e, 1
  {
    WalkForestElements(Step(s, e, p), e.children, e.tag);
    ElementsOfRoot(e);
  }

  lemma {:induction false} WalkForestElements(s: Struct, cs: seq<Element>, p: string)
    ensures forall t :: t in WalkForest(s, cs, p).elements <==> t in s.elements || TagIn(NodesOf(cs), t)
    decreases cs, 0
  {
    if cs != [] {
      var n := |cs| - 1;
      WalkForestElements(s, cs[..n], p);
      WalkElements(WalkForest(s, cs[..n], p), cs[n], Some(p));
      ElementsOfSnoc(cs);
    }
  }

  /** `attributes` gains a key for each tag of a node with attributes, and under it exactly those nodes' attribute names. */
  lemma {:induction false} WalkAttributes(s: Struct, e: Element, p: Option<string>)
    ensures var r := Walk(s, e, p);
      && (forall t :: t in r.attributes <==> t in s.attributes || AttrKeyIn(Nodes(e), t))
      && (forall t, a :: a in Get(r.attributes, t) <==> a in Get(s.attributes, t) || AttrIn(Nodes(e), t, a))
    decreases e, 1
  {
    WalkForestAttributes(Step(s, e, p), e.children, e.tag);
    StepAttributes(s, e, p);
    AttributesOfRoot(e);
  }

  lemma {:induction false} WalkForestAttributes(s: Struct, cs: seq<Element>, p: string)
    ensures var r := WalkForest(s, cs, p);
      && (forall t :: t in r.attributes <==> t in s.attributes || AttrKeyIn(NodesOf(cs), t))
      && (forall t, a :: a in Get(r.attributes, t) <==> a in Get(s.attributes, t) || AttrIn(NodesOf(cs), t, a))
    decreases cs, 0
  {
    if cs != [] {
      var n := |cs| - 1;
      WalkForestAttributes(s, cs[..n], p);
      WalkAttributes(WalkForest(s, cs[..n], p), cs[n], Some(p));
      AttributesOfSnoc(cs);
    }
  }

  /**
   * `relationships` gains a key for the parent's tag and for each tag of a node
   * with children, and under a tag exactly the tags of the children of nodes with
   * that tag, plus e's own tag under the parent's.
   */
  lemma {:induction false} WalkRelationships(s: Struct, e: Element, p: Option<string>)
    ensures var r := Walk(s, e, p);
      && (forall t :: t in r.relationships <==> t in s.relationships || p == Some(t) || ParentIn(Nodes(e), t))
      && (forall t, c :: c in Get(r.relationships, t) <==>
            c in Get(s.relationships, t) || (p == Some(t) && c == e.tag) || EdgeIn(Nodes(e), t, c))
    decreases e, 1
  {
    WalkForestRelationships(Step(s, e, p), e.children, e.tag);
    StepRelationships(s, e, p);
    RelationshipsOfRoot(e);
  }

  lemma {:induction false} WalkForestRelationships(s: Struct, cs: seq<Element>, p: string)
    ensures var r := WalkForest(s, cs, p);
      && (forall t :: t in r.relationships <==> t in s.relationships || (cs != [] && t == p) || ParentIn(NodesOf(cs), t))
      && (forall t, c :: c in Get(r.relationships, t) <==>
            c in Get(s.relationships, t) || (t == p && RootTagIn(cs, c)) || EdgeIn(NodesOf(cs), t, c))
    decreases cs, 0
  {
    if cs != [] {
      var n := |cs| - 1;
      WalkForestRelationships(s, cs[..n], p);
      WalkRelationships(WalkForest(s, cs[..n], p), cs[n], Some(p));
      RelationshipsOfSnoc(cs);
    }
  }

  lemma {:induction false} NodesOfCons(cs: seq<Element>)
    requires cs != []
    ensures NodesOf(cs) == Nodes(cs[0]) + NodesOf(cs[1..])
    decreases |cs|
  {
    var n := |cs| - 1;
    if n == 0 {
      assert cs[..n] == [] && cs[1..] == [];
    } else {
      NodesOfCons(cs[..n]);
      assert cs[..n][1..] == cs[1..][..n - 1];
      assert cs[1..][n - 1] == cs[n];
    }
  }

  /** The nodes of a tree are its root and the descendants findall lists. */
  lemma {:induction false} NodesAreDocument(e: Element)
    ensures forall x :: x in Nodes(e) <==> x == e || x in Descendants(e)
    decreases e, 1
  {
    ForestIsDocument(e.children);
  }

  lemma {:induction false} ForestIsDocument(cs: seq<Element>)
    ensures forall x :: x in NodesOf(cs) <==> x in Forest(cs)
    decreases cs, 0
  {
    if cs != [] {
      NodesOfCons(cs);
      NodesAreDocument(cs[0]);
      ForestIsDocument(cs[1..]);
    }
  }

  /**
   * For a whole file: `elements` is exactly the set of tags in the tree;
   * `attributes[t]` is exactly the union of the attribute names of the nodes
   * tagged t (a key is present when such a node has attributes);
   * `relationships[p]` is exactly the set of tags of children of nodes tagged p
   * (a key is present when such a node has children). The root, having no
   * parent, contributes no incoming edge.
   */
  lemma AnalyzeSpec(root: Element)
    ensures var r := Analyze(root);
      && (forall t :: t in r.elements <==> TagIn(Nodes(root), t))
      && (forall t :: t in r.attributes <==> AttrKeyIn(Nodes(root), t))
      && (forall t, a :: a in Get(r.attributes, t) <==> AttrIn(Nodes(root), t, a))
      && (forall t :: t in r.relationships <==> ParentIn(Nodes(root), t))
      && (forall t, c :: c in Get(r.relationships, t) <==> EdgeIn(Nodes(root), t, c))
    ensures forall x :: x in Nodes(root) <==> x == root || x in Descendants(root)
  {
    WalkElements(Empty, root, None);
    WalkAttributes(Empty, root, None);
    WalkRelationships(Empty, root, None);
    NodesAreDocument(root);
  }

  /** A parsed file always names its root tag, so it always has new information for an empty total. */
  lemma RootTagRecorded(root: Element)
    ensures root.tag in Analyze(root).elements
  {
    WalkElements(Empty, root, None);
    assert root in Nodes(root);
  }

  // ---------------------------------------------------------------------
  // has_new_information and the merge block
  // ---------------------------------------------------------------------

  /** `has_new_information(s, t)` as a value: a tag, an attribute name or an edge of s that t lacks. */
  predicate HasNew(s: Struct, t: Struct) {
    || s.elements - t.elements != {}
    || (exists k :: k in s.attributes && s.attributes[k] - Get(t.attributes, k) != {})
    || (exists k :: k in s.relationships && s.relationships[k] - Get(t.relationships, k) != {})
  }

  /** s is componentwise contained in t (missing keys read as empty). */
  ghost predicate Covered(s: Struct, t: Struct) {
    && s.elements <= t.elements
    && (forall k :: Get(s.attributes, k) <= Get(t.attributes, k))
    && (forall k :: Get(s.relationships, k) <= Get(t.relationships, k))
  }

  lemma EmptyDifference(a: set<string>, b: set<string>)
    ensures a - b == {} <==> a <= b
  {
    if a - b == {} {
      forall x | x in a ensures x in b {
        assert x !in a - b;
      }
    }
  }

  /** has_new_information is false exactly when s is componentwise a subset of t. */
  lemma NoNewIffCovered(s: Struct, t: Struct)
    ensures !HasNew(s, t) <==> Covered(s, t)
  {
    EmptyDifference(s.elements, t.elements);
    forall k | k in s.attributes {
      EmptyDifference(s.attributes[k], Get(t.attributes, k));
    }
    forall k | k in s.relationships {
      EmptyDifference(s.relationships[k], Get(t.relationships, k));
    }
    if !HasNew(s, t) {
      forall k ensures Get(s.attributes, k) <= Get(t.attributes, k) {
        if k in s.attributes {
          assert s.attributes[k] - Get(t.attributes, k) == {};
        }
      }
      forall k ensures Get(s.relationships, k) <= Get(t.relationships, k) {
        if k in s.relationships {
          assert s.relationships[k] - Get(t.relationships, k) == {};
        }
      }
    }
    if Covered(s, t) {
      forall k | k in s.attributes ensures s.attributes[k] - Get(t.attributes, k) == {} {
        assert Get(s.attributes, k) == s.attributes[k];
      }
      forall k | k in s.relationships ensures s.relationships[k] - Get(t.relationships, k) == {} {
        assert Get(s.relationships, k) == s.relationships[k];
      }
    }
  }

  /** Two defaultdicts with the same keys and the same lookups are equal. */
  lemma SameDicts(m: map<string, set<string>>, n: map<string, set<string>>)
    requires m.Keys == n.Keys
    requires forall k :: Get(m, k) == Get(n, k)
    ensures m == n
  {
    forall k | k in m ensures m[k] == n[k] {
      assert Get(m, k) == Get(n, k);
    }
  }

  /** m2 is m with some keys of `ks` added, each holding the empty set, as defaultdict lookups leave it. */
  ghost predicate Extends(m: map<string, set<string>>, m2: map<string, set<string>>, ks: set<string>) {
    && m.Keys <= m2.Keys
    && (forall k :: k in m ==> m2[k] == m[k])
    && (forall k :: k in m2 && k !in m ==> k in ks && m2[k] == {})
  }

  /** Looking up every key of `ks` in the defaultdict m. */
  function Fill(m: map<string, set<string>>, ks: set<string>): (r: map<string, set<string>>)
    ensures Extends(m, r, ks) && r.Keys == m.Keys + ks
  {
    map k | k in m.Keys + ks :: Get(m, k)
  }
  /** Looking up one more key extends the filled dict by that key. */
  lemma FillStep(m: map<string, set<string>>, ks: set<string>, k: string)
    ensures Fill(m, ks)[k := Get(Fill(m, ks), k)] == Fill(m, ks + {k})
  {
    var a, b := Fill(m, ks)[k := Get(Fill(m, ks), k)], Fill(m, ks + {k});
    forall j | j in a ensures a[j] == b[j] {
    }
  }


  /** The total after has_new_information has looked up every key of s. */
  function Touch(t: Struct, s: Struct): Struct {
    Struct(t.elements, Fill(t.attributes, s.attributes.Keys), Fill(t.relationships, s.relationships.Keys))
  }

  /** Union of two defaultdict(set)s, key by key. */
  function Union(m: map<string, set<string>>, n: map<string, set<string>>): (r: map<string, set<string>>)
    ensures r.Keys == m.Keys + n.Keys
    ensures forall k :: Get(r, k) == Get(m, k) + Get(n, k)
  {
    map k | k in m.Keys + n.Keys :: Get(m, k) + Get(n, k)
  }

  /** The total after the merge block: every set of s added into t, key by key. */
  function Merge(t: Struct, s: Struct): Struct {
    Struct(t.elements + s.elements, Union(t.attributes, s.attributes), Union(t.relationships, s.relationships))
  }

  /** Added empty keys change no lookup. */
  lemma ExtendsKeepsLookups(m: map<string, set<string>>, m2: map<string, set<string>>, ks: set<string>)
    requires Extends(m, m2, ks)
    ensures forall k :: Get(m2, k) == Get(m, k)
  {
  }

  /** A total whose lookups agree with t's answers has_new_information the same way. */
  lemma HasNewSameLookups(s: Struct, t: Struct, t2: Struct)
    requires t2.elements == t.elements
    requires forall k :: Get(t2.attributes, k) == Get(t.attributes, k)
    requires forall k :: Get(t2.relationships, k) == Get(t.relationships, k)
    ensures HasNew(s, t2) == HasNew(s, t)
  {
  }

  lemma UnionAfterLookups(m: map<string, set<string>>, m2: map<string, set<string>>, n: map<string, set<string>>)
    requires Extends(m, m2, n.Keys)
    ensures Union(m2, n) == Union(m, n)
  {
    ExtendsKeepsLookups(m, m2, n.Keys);
    SameDicts(Union(m2, n), Union(m, n));
  }

  /** Keys inserted by the lookups of has_new_information vanish into the merge that follows. */
  lemma {:induction false} MergeAfterLookups(t: Struct, t2: Struct, s: Struct)
    requires t2.elements == t.elements
    requires Extends(t.attributes, t2.attributes, s.attributes.Keys)
    requires Extends(t.relationships, t2.relationships, s.relationships.Keys)
    ensures Merge(t2, s) == Merge(t, s)
  {
    UnionAfterLookups(t.attributes, t2.attributes, s.attributes);
    UnionAfterLookups(t.relationships, t2.relationships, s.relationships);
  }

  /** After the merge, the total contains both its old value and s. */
  lemma MergeCovers(t: Struct, s: Struct)
    ensures Covered(t, Merge(t, s)) && Covered(s, Merge(t, s))
  {
  }

  /** The merge adds nothing beyond s: any total containing t and s contains the merge. */
  lemma MergeLeast(t: Struct, s: Struct, u: Struct)
    requires Covered(t, u) && Covered(s, u)
    ensures Covered(Merge(t, s), u)
  {
  }

  /** After the merge, has_new_information(s, total) is false. */
  lemma MergeAbsorbs(t: Struct, s: Struct)
    ensures !HasNew(s, Merge(t, s))
  {
    MergeCovers(t, s);
    NoNewIffCovered(s, Merge(t, s));
  }

  /** Merging the same structure again changes nothing. */
  lemma {:induction false} MergeIdempotent(t: Struct, s: Struct)
    ensures Merge(Merge(t, s), s) == Merge(t, s)
  {
    var m := Merge(t, s);
    SameDicts(Union(m.attributes, s.attributes), m.attributes);
    SameDicts(Union(m.relationships, s.relationships), m.relationships);
  }

  // ---------------------------------------------------------------------
  // main: the archive loop and its stop rule
  // ---------------------------------------------------------------------

  /** One xml file: analysed, and merged into the total when it has new information. */
  function FileStep(t: Struct, count: nat, file: Element): (Struct, nat) {
    var s := Analyze(file);
    if HasNew(s, t) then (Merge(t, s), count + 1) else (Touch(t, s), count)
  }

  /** The files of one archive, in order, from total t and counter `count`. */
  function Files(t: Struct, count: nat, files: seq<Element>): (Struct, nat)
    decreases |files|
  {
    if files == [] then (t, count)
    else
      var (t0, c0) := Files(t, count, files[..|files| - 1]);
      FileStep(t0, c0, files[|files| - 1])
  }

  /** The state when the archive loop ends: total, `files_with_new_info`, archives analysed, and whether it broke off. */
  datatype Outcome = Outcome(total: Struct, withNewInfo: nat, processed: nat, stopped: bool)

  /** The archive loop as written: the stop rule tests the counter of the whole run. */
  function Archives(t: Struct, count: nat, archives: seq<seq<Element>>): Outcome
    decreases |archives|
  {
    if archives == [] then Outcome(t, count, 0, false)
    else
      var (t1, c1) := Files(t, count, archives[0]);
      if |archives[0]| >= 5 && c1 == 0 then Outcome(t1, c1, 1, true)
      else
        var o := Archives(t1, c1, archives[1..]);
        o.(processed := o.processed + 1)
  }

  /** The outcome of the remaining archives, counted from the i-th one. */
  function Shifted(o: Outcome, i: nat): Outcome {
    o.(processed := o.processed + i)
  }

  /** One turn of the archive loop, stated on Archives. */
  lemma ArchivesStep(t: Struct, count: nat, archives: seq<seq<Element>>, i: nat)
    requires i < |archives|
    ensures var (t1, c1) := Files(t, count, archives[i]);
      && (|archives[i]| >= 5 && c1 == 0 ==> Shifted(Archives(t, count, archives[i..]), i) == Outcome(t1, c1, i + 1, true))
      && (!(|archives[i]| >= 5 && c1 == 0) ==>
            Shifted(Archives(t, count, archives[i..]), i) == Shifted(Archives(t1, c1, archives[i + 1..]), i + 1))
  {
    assert archives[i..][0] == archives[i] && archives[i..][1..] == archives[i + 1..];
  }

  /** The loop of main over the archives, once their xml files are parsed, each list in size order. */
  method AnalyzeArchives(archives: seq<seq<Element>>) returns (total: Structure, filesWithNewInfo: nat, processed: nat)
    ensures fresh(total)
    ensures var o := Archives(Empty, 0, archives);
      total.Value() == o.total && filesWithNewInfo == o.withNewInfo && processed == o.processed
  {
    total := new Structure();
    filesWithNewInfo := 0;
    ghost var final := Archives(Empty, 0, archives);
    var i := 0;
    while i < |archives|
      invariant 0 <= i <= |archives|
      invariant final == Shifted(Archives(total.Value(), filesWithNewInfo, archives[i..]), i)
      invariant fresh(total)
    {
      ArchivesStep(total.Value(), filesWithNewInfo, archives, i);
      filesWithNewInfo := AnalyzeArchive(total, archives[i], filesWithNewInfo);
      if |archives[i]| >= 5 && filesWithNewInfo == 0 {
        processed := i + 1;
        return;
      }
      i := i + 1;
    }
    processed := i;
  }

  /** The loop over the xml files of one archive. */
  method AnalyzeArchive(total: Structure, files: seq<Element>, count: nat) returns (newCount: nat)
    modifies total
    ensures (total.Value(), newCount) == Files(old(total.Value()), count, files)
  {
    newCount := count;
    var j := 0;
    while j < |files|
      invariant 0 <= j <= |files|
      invariant (total.Value(), newCount) == Files(old(total.Value()), count, files[..j])
    {
      assert files[..j + 1][..j] == files[..j];
      var st := AnalyzeXmlStructure(files[j]);
      var s := st.Value();
      ghost var before := total.Value();
      var found := total.HasNewInformation(s);
      if found {
        ghost var looked := total.Value();
        newCount := newCount + 1;
        total.MergeFrom(s);
        MergeAfterLookups(before, looked, s);
      }
      j := j + 1;
    }
    assert files[..j] == files;
  }

  /**
   * The counter never decreases and grows by at most one per file; from an
   * empty total or a positive counter, any file leaves it positive, because a
   * parsed file always brings its root tag.
   */
  lemma {:induction false} FilesCount(t: Struct, count: nat, files: seq<Element>)
    ensures count <= Files(t, count, files).1 <= count + |files|
    ensures files != [] && (count > 0 || t == Empty) ==> Files(t, count, files).1 > 0
    decreases |files|
  {
    if files != [] {
      var n := |files| - 1;
      FilesCount(t, count, files[..n]);
      var (t0, c0) := Files(t, count, files[..n]);
      if n == 0 && count == 0 && t == Empty {
        RootTagRecorded(files[n]);
        assert HasNew(Analyze(files[n]), t0);
      }
    }
  }

  lemma {:induction false} ArchivesRunToEnd(t: Struct, count: nat, archives: seq<seq<Element>>)
    requires count > 0 || t == Empty
    ensures !Archives(t, count, archives).stopped && Archives(t, count, archives).processed == |archives|
    decreases |archives|
  {
    if archives != [] {
      FilesCount(t, count, archives[0]);
      var (t1, c1) := Files(t, count, archives[0]);
      ArchivesRunToEnd(t1, c1, archives[1..]);
    }
  }

  /**
   * As written, the stop rule never fires: the first xml file always has new
   * information for the empty total, so `files_with_new_info` is positive before
   * any archive with five files is finished, and every archive is analysed.
   */
  lemma StopRuleNeverFires(archives: seq<seq<Element>>)
    ensures !Archives(Empty, 0, archives).stopped
    ensures Archives(Empty, 0, archives).processed == |archives|
  {
    ArchivesRunToEnd(Empty, 0, archives);
  }

  /** The archive loop with the count of the current archive's new files in the stop rule. */
  function ArchivesPerArchive(t: Struct, count: nat, archives: seq<seq<Element>>): Outcome
    decreases |archives|
  {
    if archives == [] then Outcome(t, count, 0, false)
    else
      var (t1, c1) := Files(t, count, archives[0]);
      if |archives[0]| >= 5 && c1 == count then Outcome(t1, c1, 1, true)
      else
        var o := ArchivesPerArchive(t1, c1, archives[1..]);
        o.(processed := o.processed + 1)
  }

  /** Two totals that answer every lookup alike. */
  ghost predicate SameLookups(a: Struct, b: Struct) {
    && a.elements == b.elements
    && (forall k :: Get(a.attributes, k) == Get(b.attributes, k))
    && (forall k :: Get(a.relationships, k) == Get(b.relationships, k))
  }

  lemma FileStepNothingNew(t: Struct, t0: Struct, count: nat, file: Element)
    requires SameLookups(t0, t)
    ensures FileStep(t0, count, file).1 == count <==> !HasNew(Analyze(file), t)
    ensures FileStep(t0, count, file).1 == count ==> SameLookups(FileStep(t0, count, file).0, t)
  {
    var s := Analyze(file);
    HasNewSameLookups(s, t, t0);
    if !HasNew(s, t0) {
      ExtendsKeepsLookups(t0.attributes, Touch(t0, s).attributes, s.attributes.Keys);
      ExtendsKeepsLookups(t0.relationships, Touch(t0, s).relationships, s.relationships.Keys);
    }
  }

  /** No file of `files` has new information for t. */
  ghost predicate NoneNew(t: Struct, files: seq<Element>)
    decreases |files|
  {
    files == [] || (NoneNew(t, files[..|files| - 1]) && !HasNew(Analyze(files[|files| - 1]), t))
  }

  /** Copies of one file that t already covers have nothing new. */
  lemma {:induction false} NoneNewCopies(t: Struct, r: Element, files: seq<Element>)
    requires forall j :: 0 <= j < |files| ==> files[j] == r
    requires !HasNew(Analyze(r), t)
    ensures NoneNew(t, files)
    decreases |files|
  {
    if files != [] {
      NoneNewCopies(t, r, files[..|files| - 1]);
    }
  }

  /**
   * An archive adds to the counter exactly when one of its files has new
   * information for the total it started from; when none has, the total only
   * gained empty keys.
   */
  lemma {:induction false} FilesNothingNew(t: Struct, count: nat, files: seq<Element>)
    ensures Files(t, count, files).1 == count <==> NoneNew(t, files)
    ensures Files(t, count, files).1 == count ==> SameLookups(Files(t, count, files).0, t)
    decreases |files|
  {
    if files != [] {
      var n := |files| - 1;
      FilesNothingNew(t, count, files[..n]);
      FilesCount(t, count, files[..n]);
      var (t0, c0) := Files(t, count, files[..n]);
      assert Files(t, count, files) == FileStep(t0, c0, files[n]);
      if c0 == count {
        FileStepNothingNew(t, t0, count, files[n]);
      }
    }
  }

  /**
   * With the per-archive count, the loop breaks off right after an archive
   * exactly when that archive has at least five xml files and none of them has
   * new information for the total reached before it.
   */
  lemma PerArchiveStopRule(t: Struct, count: nat, archives: seq<seq<Element>>)
    requires archives != []
    ensures var o := ArchivesPerArchive(t, count, archives);
      (o.stopped && o.processed == 1) <==> |archives[0]| >= 5 && NoneNew(t, archives[0])
  {
    FilesNothingNew(t, count, archives[0]);
  }

  /**
   * An archive holding five copies of a file already merged stops the corrected
   * loop after two archives, while the loop as written goes on through all of
   * them.
   */
  lemma {:induction false} RepeatedArchive(r: Element, rest: seq<seq<Element>>)
    ensures var archives := [[r], [r, r, r, r, r]] + rest;
      && ArchivesPerArchive(Empty, 0, archives).processed == 2
      && ArchivesPerArchive(Empty, 0, archives).stopped
      && Archives(Empty, 0, archives).processed == 2 + |rest|
  {
    var archives := [[r], [r, r, r, r, r]] + rest;
    StopRuleNeverFires(archives);
    var first := Files(Empty, 0, [r]);
    FirstFileMerged(r);
    assert archives[0] == [r];
    PerArchiveShort(Empty, 0, archives);
    var five := [r, r, r, r, r];
    FiveCopies(first.0, r);
    assert archives[1..][0] == five;
    PerArchiveStopRule(first.0, first.1, archives[1..]);
  }

  lemma FiveCopies(t: Struct, r: Element)
    requires !HasNew(Analyze(r), t)
    ensures NoneNew(t, [r, r, r, r, r])
  {
    NoneNewCopies(t, r, [r, r, r, r, r]);
  }

  /** An archive with fewer than five xml files never stops the corrected loop. */
  lemma PerArchiveShort(t: Struct, count: nat, archives: seq<seq<Element>>)
    requires archives != [] && |archives[0]| < 5
    ensures var (t1, c1) := Files(t, count, archives[0]);
      ArchivesPerArchive(t, count, archives) == Shifted(ArchivesPerArchive(t1, c1, archives[1..]), 1)
  {
  }

  lemma FilesOne(t: Struct, count: nat, r: Element)
    ensures Files(t, count, [r]) == FileStep(t, count, r)
  {
    assert [r][..0] == [];
  }

  /** The first file of a run is merged into the empty total, after which it has nothing new. */
  lemma FirstFileMerged(r: Element)
    ensures Files(Empty, 0, [r]).1 == 1
    ensures !HasNew(Analyze(r), Files(Empty, 0, [r]).0)
  {
    var s := Analyze(r);
    RootTagRecorded(r);
    assert s.elements - Empty.elements != {};
    assert FileStep(Empty, 0, r) == (Merge(Empty, s), 1);
    FilesOne(Empty, 0, r);
    MergeAbsorbs(Empty, s);
  }
}
