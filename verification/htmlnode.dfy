/** The base HTML node: its constructor defaults, attribute rendering and the
    base `to_html`, which every subclass must override. */
module HtmlNodes {
  import opened Results

  /** One attribute, `name=value`, as stored in the node's props. */
  type Prop = (string, string)

  /** A node: `tag == None` renders raw text, `value == None` means the node
      has children, and `props` keeps the attributes in insertion order. */
  datatype HtmlNode = HtmlNode(
    tag: Option<string>,
    value: Option<string>,
    children: seq<HtmlNode>,
    props: seq<Prop>)

  /** The constructor. Each omitted argument is a fresh empty value; being
      immutable, no two nodes can share and mutate one default. */
  function NewHtmlNode(
    tag: Option<string> := None,
    value: Option<string> := None,
    children: seq<HtmlNode> := [],
    props: seq<Prop> := []): (n: HtmlNode)
    ensures n.tag == tag && n.value == value && n.children == children && n.props == props
  {
    HtmlNode(tag, value, children, props)
  }

  /** A node built with no arguments has no tag, no value, no children and
      no attributes. */
  lemma DefaultNodeIsEmpty()
    ensures NewHtmlNode() == HtmlNode(None, None, [], [])
    ensures NewHtmlNode(tag := Some("div")).children == []
  {
  }

  /** The base `to_html` renders nothing: it always fails. */
  function ToHtml(n: HtmlNode): (r: Result<string>)
    ensures r.Failure? && r.error == NotImplemented
  {
    Failure(NotImplemented)
  }

  /** The number of characters `PropsToHtml` emits: two separators plus the
      name and the value of each attribute. */
  function PropsWidth(props: seq<Prop>): nat {
    if |props| == 0 then 0 else 2 + |props[0].0| + |props[0].1| + PropsWidth(props[1..])
  }

  /** `prop_to_html`: each attribute as ` name=value`, in insertion order, with
      the value emitted verbatim (no quotes are added). */
  function PropsToHtml(props: seq<Prop>): (r: string)
    ensures |r| == PropsWidth(props)
    ensures props == [] <==> r == ""
    ensures props != [] ==> r[0] == ' ' && r[1 + |props[0].0|] == '='
  {
    if |props| == 0 then ""
    else
      var head := " " + props[0].0 + "=" + props[0].1;
      assert head[1 + |props[0].0|] == '=';
      head + PropsToHtml(props[1..])
  }

  /** Rendering distributes over concatenation of attribute lists, so the
      output lists the attributes in exactly the order they were inserted. */
  lemma {:induction false} PropsToHtmlAppend(a: seq<Prop>, b: seq<Prop>)
    ensures PropsToHtml(a + b) == PropsToHtml(a) + PropsToHtml(b)
  {
    if |a| > 0 {
      assert (a + b)[1..] == a[1..] + b;
      PropsToHtmlAppend(a[1..], b);
    } else {
      assert a + b == b;
    }
  }

  /** One attribute renders as a space, its name, `=` and its value. */
  lemma PropsToHtmlSingle(name: string, value: string)
    ensures PropsToHtml([(name, value)]) == " " + name + "=" + value
  {
    assert [(name, value)][1..] == [];
  }

  /** The renderer adds no quoting: a value that carries its own quotes keeps
      them, and nothing else is added. */
  lemma PropsQuotesAreTheCallers()
    ensures PropsToHtml([("class", "\"container\"")]) == " class=\"container\""
  {
    PropsToHtmlSingle("class", "\"container\"");
  }
}
