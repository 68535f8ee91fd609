/**
 * What the emitted HTML fragments promise about their attributes: a value
 * placed between double quotes that contains no quote, angle bracket or
 * ampersand is read back by an HTML parser as exactly that value.
 */
module Html {
  import Text

  /** A value that needs no escaping inside a double-quoted attribute. */
  predicate SafeAttributeValue(v: string)
  {
    forall i :: 0 <= i < |v| ==> v[i] != '"' && v[i] != '<' && v[i] != '>' && v[i] != '&'
  }

  /** ` name="value"` as it appears inside a start tag. */
  function Attribute(name: string, value: string): string
  {
    " " + name + "=\"" + value + "\""
  }

  /** The fragment carries the attribute `name` with exactly the value `value`. */
  predicate HasAttribute(html: string, name: string, value: string)
  {
    SafeAttributeValue(value) && Text.Contains(html, Attribute(name, value))
  }

  lemma ContainsMiddle(before: string, p: string, after: string)
    ensures Text.Contains(before + p + after, p)
  {
    var s := before + p + after;
    assert s[|before|..|before| + |p|] == p;
    assert Text.OccursAt(s, p, |before|);
  }

  /** Text spliced between three fixed parts is found in the result, both the first and the second piece. */
  lemma ContainsBoth(head: string, first: string, middle: string, second: string, tail: string)
    ensures Text.Contains(head + first + middle + second + tail, first)
    ensures Text.Contains(head + first + middle + second + tail, second)
  {
    ContainsMiddle(head, first, middle + second + tail);
    assert head + first + (middle + second + tail) == head + first + middle + second + tail;
    ContainsMiddle(head + first + middle, second, tail);
  }

  /** A fragment built around an attribute carries it, provided the value needs no escaping. */
  lemma AttributeInside(before: string, name: string, value: string, after: string)
    requires SafeAttributeValue(value)
    ensures HasAttribute(before + Attribute(name, value) + after, name, value)
  {
    ContainsMiddle(before, Attribute(name, value), after);
  }

  /** A fragment with two attributes, each needing no escaping, carries both. */
  lemma TwoAttributes(a: string, n1: string, v1: string, b: string, n2: string, v2: string, c: string)
    requires SafeAttributeValue(v1) && SafeAttributeValue(v2)
    ensures HasAttribute(a + Attribute(n1, v1) + b + Attribute(n2, v2) + c, n1, v1)
    ensures HasAttribute(a + Attribute(n1, v1) + b + Attribute(n2, v2) + c, n2, v2)
  {
    var rest := b + Attribute(n2, v2) + c;
    AttributeInside(a, n1, v1, rest);
    assert a + Attribute(n1, v1) + rest == a + Attribute(n1, v1) + b + Attribute(n2, v2) + c;
    AttributeInside(a + Attribute(n1, v1) + b, n2, v2, c);
  }

  /** The middle part of a concatenation can be sliced back out. */
  lemma SliceMiddle(a: string, b: string, c: string)
    ensures (a + b + c)[|a|..|a| + |b|] == b
  {
  }

  /**
   * A fragment made of a head, an attribute needing no escaping, a middle, a
   * body and a tail carries the attribute and gives back its head, its body
   * and its tail by position.
   */
  lemma AttributeFrame(head: string, name: string, value: string, middle: string, body: string, tail: string)
    requires SafeAttributeValue(value)
    ensures var html := head + Attribute(name, value) + middle + body + tail;
      var start := |head| + |Attribute(name, value)| + |middle|;
      start + |tail| <= |html| && html[..|head|] == head
      && html[start..|html| - |tail|] == body && html[|html| - |tail|..] == tail
      && HasAttribute(html, name, value)
  {
    var attr := Attribute(name, value);
    var open := head + attr + middle;
    assert open == head + (attr + middle);
    FrameSlices(head, open, body, tail);
    AttributeInside(head, name, value, middle + body + tail);
    assert head + attr + (middle + body + tail) == open + body + tail;
  }

  /** A fragment framed by a head and a tail gives back its head, its body and its tail. */
  lemma FrameSlices(head: string, open: string, body: string, tail: string)
    requires |head| <= |open|
    requires open[..|head|] == head
    ensures var html := open + body + tail;
      |open| + |tail| <= |html|
      && html[..|head|] == head
      && html[|open|..|html| - |tail|] == body
      && html[|html| - |tail|..] == tail
  {
    var html := open + body + tail;
    assert html == (open + body) + tail;
    assert html[..|open|] == open;
    assert html[..|head|] == open[..|head|];
  }

  lemma SafeConcat(a: string, b: string)
    requires SafeAttributeValue(a) && SafeAttributeValue(b)
    ensures SafeAttributeValue(a + b)
  {
    assert forall i :: |a| <= i < |a + b| ==> (a + b)[i] == b[i - |a|];
  }

  lemma SafeConcat4(a: string, b: string, c: string, d: string)
    requires SafeAttributeValue(a) && SafeAttributeValue(b) && SafeAttributeValue(c) && SafeAttributeValue(d)
    ensures SafeAttributeValue(a + b + c + d)
  {
    SafeConcat(a, b);
    SafeConcat(a + b, c);
    SafeConcat(a + b + c, d);
  }
}
