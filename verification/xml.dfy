/**
 * The parsed form of an XML document (System.Xml.Linq.XElement) as far as the
 * core reads or writes it: element name, attributes, the element's own
 * character data (text or CDATA) and child elements in document order.
 */
module Xml {
  import opened Optional

  datatype Element = Element(name: string, attrs: map<string, string>, text: string, children: seq<Element>)

  /** XElement.Attribute(name), with null as None. */
  function Attribute(e: Element, name: string): (r: Option<string>)
    ensures r.Some? <==> name in e.attrs
    ensures r.Some? ==> r.value == e.attrs[name]
  {
    if name in e.attrs then Some(e.attrs[name]) else None
  }

  /**
   * XElement.Elements(name): the child elements with that name, each as
   * often as it occurs among the children, in document order (NamedAppend).
   */
  function Elements(e: Element, name: string): (r: seq<Element>)
    ensures forall c :: c in r ==> c in e.children && c.name == name
    ensures forall c :: c in e.children && c.name == name ==> c in r
    ensures forall c :: multiset(r)[c] == if c.name == name then multiset(e.children)[c] else 0
  {
    Named(e.children, name)
  }

  function Named(cs: seq<Element>, name: string): (r: seq<Element>)
    ensures |r| <= |cs|
    ensures forall c :: c in r ==> c in cs && c.name == name
    ensures forall c :: c in cs && c.name == name ==> c in r
    ensures forall c :: multiset(r)[c] == if c.name == name then multiset(cs)[c] else 0
  {
    assert cs != [] ==> cs == [cs[0]] + cs[1..];
    if cs == [] then []
    else if cs[0].name == name then [cs[0]] + Named(cs[1..], name)
    else Named(cs[1..], name)
  }

  /** Selecting by name distributes over concatenation. */
  lemma {:induction false} NamedAppend(a: seq<Element>, b: seq<Element>, name: string)
    ensures Named(a + b, name) == Named(a, name) + Named(b, name)
  {
    if a == [] {
      assert a + b == b;
    } else {
      assert (a + b)[0] == a[0] && (a + b)[1..] == a[1..] + b;
      NamedAppend(a[1..], b, name);
      if a[0].name == name {
        assert Named(a + b, name) == [a[0]] + (Named(a[1..], name) + Named(b, name));
      }
    }
  }

  /** Selecting by name keeps a sequence whose elements all have that name. */
  lemma {:induction false} NamedKeepsAll(cs: seq<Element>, name: string)
    requires forall i :: 0 <= i < |cs| ==> cs[i].name == name
    ensures Named(cs, name) == cs
  {
    if cs != [] {
      NamedKeepsAll(cs[1..], name);
      assert [cs[0]] + cs[1..] == cs;
    }
  }

  /** Selecting by name drops a sequence where no element has that name. */
  lemma {:induction false} NamedDropsAll(cs: seq<Element>, name: string)
    requires forall i :: 0 <= i < |cs| ==> cs[i].name != name
    ensures Named(cs, name) == []
  {
    if cs != [] {
      NamedDropsAll(cs[1..], name);
    }
  }

  /** XElement.Element(name): the first child element with that name, or None. */
  function FirstElement(e: Element, name: string): (r: Option<Element>)
    ensures r.None? <==> forall c :: c in e.children ==> c.name != name
    ensures r.Some? ==> exists k :: 0 <= k < |e.children| && e.children[k] == r.value && r.value.name == name
                                   && forall j :: 0 <= j < k ==> e.children[j].name != name
  {
    FirstNamed(e.children, name)
  }

  function FirstNamed(cs: seq<Element>, name: string): (r: Option<Element>)
    ensures r.None? <==> forall c :: c in cs ==> c.name != name
    ensures r.Some? ==> exists k :: 0 <= k < |cs| && cs[k] == r.value && r.value.name == name
                                   && forall j :: 0 <= j < k ==> cs[j].name != name
  {
    if cs == [] then None
    else if cs[0].name == name then Some(cs[0])
    else
      var r := FirstNamed(cs[1..], name);
      assert forall c :: c in cs ==> c == cs[0] || c in cs[1..];
      if r.Some? then
        var k :| 0 <= k < |cs[1..]| && cs[1..][k] == r.value && r.value.name == name
                 && forall j :: 0 <= j < k ==> cs[1..][j].name != name;
        assert cs[k + 1] == r.value;
        assert forall j :: 0 <= j < k + 1 ==> cs[j].name != name by {
          forall j | 0 <= j < k + 1 ensures cs[j].name != name {
            if j > 0 { assert cs[j] == cs[1..][j - 1]; }
          }
        }
        r
      else
        r
  }

  /** XElement.Value: the element's character data followed by that of its descendants. */
  function Value(e: Element): string
    decreases e, 1
  {
    e.text + ValueOfAll(e.children)
  }

  function ValueOfAll(cs: seq<Element>): string
    decreases cs, 0
  {
    if cs == [] then "" else Value(cs[0]) + ValueOfAll(cs[1..])
  }
}
