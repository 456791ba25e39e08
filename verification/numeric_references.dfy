/**
 * The per-element step of the rehype plugin in
 * src/rehype-numeric-references.ts: a link whose first child is a text node
 * reading `[n]` (one or more ASCII digits between brackets) gets the class
 * "numeric-reference" appended to its normalised class list. The tree walk
 * that applies the step to every element is the library's and is not part
 * of this model.
 */
module NumericReferences {
  import opened Wrappers

  /** A property value of a hast element, as far as the step looks at it. */
  datatype Value =
    | Str(s: string)
    | Num(n: int)
    | Flag(b: bool)
    | List(items: seq<Value>)

  /** A child node: text, or anything else (element, comment, ...). */
  datatype Child = Text(value: string) | Other(kind: string)

  /** An element node: its tag name, its properties object (possibly
      absent) and its children (possibly absent). */
  datatype Element = Element(tagName: string, properties: Option<map<string, Value>>, children: Option<seq<Child>>)

  /** The class the step adds. */
  const Marker: string := "numeric-reference"

  /** An ASCII digit, as `\d` matches it. */
  predicate Digit(c: char) {
    '0' <= c <= '9'
  }

  /** `/^\[\d+\]$/.test(v)`. */
  predicate IsReference(v: string) {
    && |v| >= 3
    && v[0] == '['
    && v[|v| - 1] == ']'
    && forall i :: 1 <= i < |v| - 1 ==> Digit(v[i])
  }

  /** The element is a link whose first child is a reference text. */
  predicate Matches(node: Element) {
    && node.tagName == "a"
    && node.children.Some?
    && |node.children.value| > 0
    && node.children.value[0].Text?
    && IsReference(node.children.value[0].value)
  }

  /** `existingClasses.filter((c) => typeof c === "string")`. */
  function Strings(items: seq<Value>): (r: seq<string>)
    ensures |r| <= |items|
  {
    if items == [] then []
    else (if items[0].Str? then [items[0].s] else []) + Strings(items[1..])
  }

  /** The existing classes as a list of strings: the strings of an array,
      a single string, or nothing. */
  function Classes(existing: Option<Value>): (r: seq<string>)
    ensures existing.Some? && existing.value.Str? ==> r == [existing.value.s]
    ensures existing.None? || existing.value.Num? || existing.value.Flag? ==> r == []
  {
    match existing
    case Some(List(items)) => Strings(items)
    case Some(Str(s)) => [s]
    case _ => []
  }

  /** The visitor's callback on one element. */
  function Mark(node: Element): (r: Element)
    ensures r.tagName == node.tagName && r.children == node.children
    ensures !Matches(node) ==> r == node
    ensures Matches(node) ==> r.properties.Some?
  {
    if !Matches(node) then node
    else
      var props := if node.properties.Some? then node.properties.value else map[];
      var existing := if "className" in props then Some(props["className"]) else None;
      var classes := Classes(existing);
      var updated := props["className" := List(Wrap(classes + [Marker]))];
      node.(properties := Some(updated))
  }

  /** Strings as a list of string values. */
  function Wrap(ss: seq<string>): (r: seq<Value>)
    ensures |r| == |ss|
    ensures forall i :: 0 <= i < |r| ==> r[i] == Str(ss[i])
  {
    if ss == [] then [] else [Str(ss[0])] + Wrap(ss[1..])
  }

  // ------------------------------------------------------------ properties

  /** The class list that Mark writes, read back as strings. */
  function ClassNameOf(node: Element): seq<string>
    requires node.properties.Some? && "className" in node.properties.value
  {
    Classes(Some(node.properties.value["className"]))
  }

  /** Reading back what Wrap wrote gives the strings again. */
  lemma {:induction false} StringsOfWrap(ss: seq<string>)
    ensures Strings(Wrap(ss)) == ss
  {
    if ss != [] {
      StringsOfWrap(ss[1..]);
      assert Wrap(ss)[1..] == Wrap(ss[1..]);
    }
  }

  /** The filter is a homomorphism over concatenation: it keeps the string
      entries, in their order. */
  lemma {:induction false} StringsAppend(a: seq<Value>, b: seq<Value>)
    ensures Strings(a + b) == Strings(a) + Strings(b)
  {
    if a != [] {
      StringsAppend(a[1..], b);
      assert (a + b)[1..] == a[1..] + b;
      assert (a + b)[0] == a[0];
    } else {
      assert a + b == b;
    }
  }

  /** A string entry is kept, any other entry is dropped. */
  lemma StringsOfOne(v: Value)
    ensures Strings([v]) == (if v.Str? then [v.s] else [])
  {
    assert [v][1..] == [];
  }

  /** A matching element ends up with className set to a list holding
      exactly its former classes followed by "numeric-reference", each as a
      string; every other property is kept. */
  lemma MarkedClasses(node: Element)
    requires Matches(node)
    ensures var r := Mark(node);
      var want := Classes(if node.properties.Some? && "className" in node.properties.value
                          then Some(node.properties.value["className"]) else None) + [Marker];
      && r.properties.Some? && "className" in r.properties.value
      && r.properties.value["className"].List?
      && |r.properties.value["className"].items| == |want|
      && (forall i :: 0 <= i < |want| ==> r.properties.value["className"].items[i] == Str(want[i]))
      && ClassNameOf(r) == want
      && (forall k :: k in r.properties.value && k != "className" ==>
            node.properties.Some? && k in node.properties.value && r.properties.value[k] == node.properties.value[k])
      && (node.properties.Some? ==> forall k :: k in node.properties.value ==> k in r.properties.value)
  {
    var props := if node.properties.Some? then node.properties.value else map[];
    var existing := if "className" in props then Some(props["className"]) else None;
    StringsOfWrap(Classes(existing) + [Marker]);
  }

  /** An array className becomes exactly its string entries, in order,
      followed by the marker; its other entries are dropped. */
  lemma ArrayClassName(node: Element, items: seq<Value>)
    requires Matches(node) && node.properties.Some?
    requires "className" in node.properties.value && node.properties.value["className"] == List(items)
    ensures var want := Strings(items) + [Marker];
      && Mark(node).properties.Some?
      && Mark(node).properties.value["className"].List?
      && |Mark(node).properties.value["className"].items| == |want|
      && (forall i :: 0 <= i < |want| ==> Mark(node).properties.value["className"].items[i] == Str(want[i]))
    ensures ClassNameOf(Mark(node)) == Strings(items) + [Marker]
  {
    MarkedClasses(node);
  }

  /** A string className s becomes [s, "numeric-reference"]. */
  lemma StringClassName(node: Element, s: string)
    requires Matches(node) && node.properties.Some?
    requires "className" in node.properties.value && node.properties.value["className"] == Str(s)
    ensures Mark(node).properties.Some?
    ensures Mark(node).properties.value["className"] == List([Str(s), Str(Marker)])
  {
    MarkedClasses(node);
  }

  /** Without properties, or without a usable className, the element gets
      just the marker; missing properties are created. */
  lemma FreshClassName(node: Element)
    requires Matches(node)
    requires node.properties.None? || "className" !in node.properties.value
             || node.properties.value["className"].Num? || node.properties.value["className"].Flag?
    ensures Mark(node).properties.Some?
    ensures Mark(node).properties.value["className"] == List([Str(Marker)])
  {
  }

  /** The step is not idempotent: a second visit appends the marker again. */
  lemma MarkedTwice(node: Element)
    requires Matches(node)
    ensures ClassNameOf(Mark(Mark(node))) == ClassNameOf(Mark(node)) + [Marker]
  {
    MarkedClasses(node);
    MarkedClasses(Mark(node));
  }

  /** Examples: "[1]" and "[12]" are references;
      "1", "[]", "[a]" and "[1] " are not. */
  lemma ReferenceExamples()
    ensures IsReference("[1]") && IsReference("[12]")
    ensures !IsReference("1") && !IsReference("[]") && !IsReference("[a]") && !IsReference("[1] ")
  {
    assert "[a]"[1] == 'a';
    assert "[1] "[3] == ' ';
  }
}
