/** The typed inline span produced by the inline engine: `TextType` and
    `TextNode` with its field-wise equality and its `repr`. */
module TextNodes {
  import opened Results
  import opened Strings

  /** The six kinds of inline span. */
  datatype TextType = Text | Bold | Italic | Code | Link | Image {

    /** The enum member's value string. */
    function Value(): string {
      match this
      case Text => "text"
      case Bold => "bold"
      case Italic => "italic"
      case Code => "code"
      case Link => "link"
      case Image => "image"
    }
  }

  /** Every member of the enum, in declaration order. */
  const AllTextTypes: seq<TextType> := [Text, Bold, Italic, Code, Link, Image]

  /** The enum is closed: these six members and no others, with distinct
      value strings. */
  lemma TextTypeIsClosed(t: TextType)
    ensures t in AllTextTypes
    ensures forall i, j :: 0 <= i < j < |AllTextTypes| ==> AllTextTypes[i].Value() != AllTextTypes[j].Value()
  {
  }

  /** A span: its text (the alt text for an image), its kind and its target URL. */
  datatype TextNode = TextNode(text: string, textType: TextType, url: Option<string>)

  /** The constructor, whose `url` is `None` when omitted. */
  function NewTextNode(text: string, textType: TextType, url: Option<string> := None): (n: TextNode)
    ensures n.text == text && n.textType == textType && n.url == url
  {
    TextNode(text, textType, url)
  }

  /** `TextNode.__eq__`: the three fields compared one by one. */
  predicate Equal(self: TextNode, other: TextNode) {
    other.text == self.text && other.textType == self.textType && other.url == self.url
  }

  /** Field-wise equality is exactly structural equality of the value: nodes
      that differ in any one field are unequal. */
  lemma EqualIsStructural(a: TextNode, b: TextNode)
    ensures Equal(a, b) <==> a == b
    ensures a.text != b.text || a.textType != b.textType || a.url != b.url ==> !Equal(a, b)
    ensures Equal(a, a)
    ensures Equal(a, b) ==> Equal(b, a)
  {
  }

  /** The `f"{url}"` rendering of the optional URL. */
  function UrlText(url: Option<string>): string {
    match url
    case None => "None"
    case Some(u) => u
  }

  /** `TextNode.__repr__`: `TextNode(<text>, <type value>, <url or None>)`. */
  function Repr(n: TextNode): (r: string)
    ensures StartsWith(r, "TextNode(" + n.text + ", " + n.textType.Value() + ", ")
    ensures |r| == 14 + |n.text| + |n.textType.Value()| + |UrlText(n.url)|
    ensures EndsWith(r, UrlText(n.url) + ")")
    ensures r[|r| - 1] == ')'
  {
    var head := "TextNode(" + n.text + ", " + n.textType.Value() + ", ";
    var tail := UrlText(n.url) + ")";
    var r := head + tail;
    assert r[..|head|] == head;
    assert r[|r| - |tail|..] == tail;
    r
  }

  /** The rendering does not tell a missing URL from the URL "None". */
  lemma ReprConflatesNone(text: string, t: TextType)
    ensures Repr(TextNode(text, t, None)) == Repr(TextNode(text, t, Some("None")))
  {
  }

  /** Nodes with the same text but different kinds never share a rendering:
      no value string is a prefix of another, so the kind shows in the repr. */
  lemma {:induction false} ReprSeparatesTypes(a: TextNode, b: TextNode)
    requires a.text == b.text
    requires a.textType != b.textType
    ensures Repr(a) != Repr(b)
  {
    var p := "TextNode(" + a.text + ", ";
    var va, vb := a.textType.Value(), b.textType.Value();
    var i := if va[0] != vb[0] then 0 else 1;
    assert va[i] != vb[i];
    assert Repr(a)[|p| + i] == va[i];
    assert Repr(b)[|p| + i] == vb[i];
  }

  /** The example rendering of a code span without a URL. */
  lemma ReprExample()
    ensures Repr(TextNode("Hello", Code, None)) == "TextNode(Hello, code, None)"
  {
  }
}
