/** XMPPHP_XMLObj::toString: the serialiser that turns an element tree
    back into XML text. The functions follow the source's accumulation
    into `$string`; the lemmas state the shape of what comes out. */
module XmlText {

  import opened Strings
  import opened Attributes
  import opened XmlObj

  /** toString($string): appends this element's XML to s. */
  function ToString(n: Node, s: string): string
    decreases n, 1, 0
  {
    var head := s + OpenHead(n);
    var withAttrs := AttrsOut(n.attrs, 0, head) + ">";
    var withSubs := SubsOut(n, 0, withAttrs);
    withSubs + (Escape(n.data) + CloseTag(n))
  }

  /** The attribute loop from position i on: every pair whose key is not
      "xmlns" is written as key="escaped value" followed by a space. */
  function AttrsOut(attrs: Attrs, i: nat, s: string): string
    requires i <= |attrs|
    decreases |attrs| - i
  {
    if i == |attrs| then s
    else if attrs[i].0 != "xmlns" then AttrsOut(attrs, i + 1, s + AttrPiece(attrs[i]))
    else AttrsOut(attrs, i + 1, s)
  }

  /** The child loop from position i on: each child's own toString() is
      appended. */
  function SubsOut(n: Node, i: nat, s: string): string
    requires i <= |n.subs|
    decreases n, 0, |n.subs| - i
  {
    if i == |n.subs| then s
    else SubsOut(n, i + 1, s + ToString(n.subs[i], ""))
  }

  /* ---------------------------------------------------------------- */
  /*  The pieces of the output                                         */
  /* ---------------------------------------------------------------- */

  /** The start of the opening tag, up to the attributes: the namespace
      is written unescaped, followed by a space. */
  function OpenHead(n: Node): string {
    "<" + n.name + " xmlns=\"" + n.ns + "\" "
  }

  function AttrPiece(pair: (string, string)): string {
    pair.0 + "=\"" + Escape(pair.1) + "\" "
  }

  /** The attribute text of an array: the pieces of the pairs not keyed
      "xmlns", in array order. */
  function AttrText(attrs: Attrs): string
    decreases |attrs|
  {
    if |attrs| == 0 then ""
    else (if attrs[0].0 != "xmlns" then AttrPiece(attrs[0]) else "") + AttrText(attrs[1..])
  }

  /** The opening tag: the head, then the attribute text (whose every
      piece ends in a space), then the closing bracket. */
  function OpenTag(n: Node): string {
    OpenHead(n) + AttrText(n.attrs) + ">"
  }

  function CloseTag(n: Node): string {
    "</" + n.name + ">"
  }

  /** The serialisations of children i.. of n, concatenated in order. */
  function ChildrenText(n: Node, i: nat): string
    requires i <= |n.subs|
    decreases |n.subs| - i
  {
    if i == |n.subs| then "" else ToString(n.subs[i], "") + ChildrenText(n, i + 1)
  }

  /* ---------------------------------------------------------------- */
  /*  Accumulation and shape                                           */
  /* ---------------------------------------------------------------- */

  lemma {:induction false} AttrsOutAcc(attrs: Attrs, i: nat, s: string)
    requires i <= |attrs|
    ensures AttrsOut(attrs, i, s) == s + AttrText(attrs[i..])
    decreases |attrs| - i
  {
    if i == |attrs| {
      assert s + AttrText(attrs[i..]) == s + "";
    } else {
      var rest := AttrText(attrs[i + 1..]);
      assert attrs[i..][0] == attrs[i];
      assert attrs[i..][1..] == attrs[i + 1..];
      if attrs[i].0 != "xmlns" {
        AttrsOutAcc(attrs, i + 1, s + AttrPiece(attrs[i]));
        assert AttrText(attrs[i..]) == AttrPiece(attrs[i]) + rest;
        Assoc(s, AttrPiece(attrs[i]), rest);
      } else {
        AttrsOutAcc(attrs, i + 1, s);
        assert AttrText(attrs[i..]) == "" + rest;
        assert "" + rest == rest;
      }
    }
  }

  lemma {:induction false} SubsOutAcc(n: Node, i: nat, s: string)
    requires i <= |n.subs|
    ensures SubsOut(n, i, s) == s + ChildrenText(n, i)
    decreases |n.subs| - i
  {
    if i == |n.subs| {
      assert s + "" == s;
    } else {
      SubsOutAcc(n, i + 1, s + ToString(n.subs[i], ""));
    }
  }

  /** The element's markup, stated piece by piece: the opening tag, the
      children's serialisations in order, the escaped text and the
      closing tag. */
  function Markup(n: Node): string {
    OpenTag(n) + ChildrenText(n, 0) + Escape(n.data) + CloseTag(n)
  }

  /** toString appends the element's markup to whatever it is given. */
  lemma ToStringShape(n: Node, p: string)
    ensures ToString(n, p) == p + Markup(n)
  {
    var oh := OpenHead(n);
    var at := AttrText(n.attrs);
    var ct := ChildrenText(n, 0);
    var e := Escape(n.data);
    var cl := CloseTag(n);
    var ot := OpenTag(n);
    AttrsOutAcc(n.attrs, 0, p + oh);
    assert n.attrs[0..] == n.attrs;
    var c := p + oh + at + ">";
    Assoc(p, oh, at);
    Assoc(p, oh + at, ">");
    assert c == p + ot;
    SubsOutAcc(n, 0, c);
    assert ToString(n, p) == (c + ct) + (e + cl);
    Assoc(c + ct, e, cl);
    Assoc(p, ot, ct);
    Assoc(p, ot + ct, e);
    Assoc(p, ot + ct + e, cl);
  }

  /** toString(p) is p followed by toString(''). */
  lemma ToStringPrefix(n: Node, p: string)
    ensures ToString(n, p) == p + ToString(n, "")
  {
    var m := Markup(n);
    ToStringShape(n, p);
    assert ToString(n, "") == m by {
      ToStringShape(n, "");
      assert "" + m == m;
    }
  }

  /* ---------------------------------------------------------------- */
  /*  The xmlns attribute                                              */
  /* ---------------------------------------------------------------- */

  /** Whatever value an attribute keyed "xmlns" holds, it never reaches
      the output: the namespace written is always the node's own. */
  lemma {:induction false} AttrTextSkipsXmlns(a: Attrs, b: Attrs, v: string)
    ensures AttrText(a + [("xmlns", v)] + b) == AttrText(a + b)
    decreases |a|
  {
    if |a| == 0 {
      assert a + [("xmlns", v)] + b == [("xmlns", v)] + b;
      assert ([("xmlns", v)] + b)[1..] == b;
      assert a + b == b;
    } else {
      assert (a + [("xmlns", v)] + b)[1..] == a[1..] + [("xmlns", v)] + b;
      assert (a + b)[1..] == a[1..] + b;
      assert (a + [("xmlns", v)] + b)[0] == a[0] == (a + b)[0];
      AttrTextSkipsXmlns(a[1..], b, v);
    }
  }

  /* ---------------------------------------------------------------- */
  /*  Tag brackets                                                     */
  /* ---------------------------------------------------------------- */

  /** Number of elements in a tree. */
  function Size(n: Node): (r: nat)
    ensures r >= 1
    decreases n, 1
  {
    1 + SizeFrom(n, 0)
  }

  /** Number of elements in the subtrees of children i.. of n. */
  function SizeFrom(n: Node, i: nat): nat
    requires i <= |n.subs|
    decreases n, 0, |n.subs| - i
  {
    if i == |n.subs| then 0 else Size(n.subs[i]) + SizeFrom(n, i + 1)
  }

  /** Names, namespaces and attribute keys of the whole tree are free of
      the bracket c: these are the parts toString writes unescaped. */
  predicate BracketFree(n: Node, c: char)
    decreases n
  {
    Count(c, n.name) == 0 && Count(c, n.ns) == 0 &&
    (forall i :: 0 <= i < |n.attrs| ==> Count(c, n.attrs[i].0) == 0) &&
    (forall i :: 0 <= i < |n.subs| ==> BracketFree(n.subs[i], c))
  }

  lemma PieceBrackets(pair: (string, string), c: char)
    requires c == '<' || c == '>'
    requires Count(c, pair.0) == 0
    ensures Count(c, AttrPiece(pair)) == 0
  {
    var e := Escape(pair.1);
    CountAbsent(c, e);
    CountAbsent(c, "=\"");
    CountAbsent(c, "\" ");
    CountConcat(c, pair.0, "=\"");
    CountConcat(c, pair.0 + "=\"", e);
    CountConcat(c, pair.0 + "=\"" + e, "\" ");
  }

  lemma {:induction false} AttrTextBrackets(a: Attrs, c: char)
    requires c == '<' || c == '>'
    requires forall i :: 0 <= i < |a| ==> Count(c, a[i].0) == 0
    ensures Count(c, AttrText(a)) == 0
    decreases |a|
  {
    if |a| > 0 {
      AttrTextBrackets(a[1..], c);
      var piece := if a[0].0 != "xmlns" then AttrPiece(a[0]) else "";
      CountConcat(c, piece, AttrText(a[1..]));
      if a[0].0 != "xmlns" {
        PieceBrackets(a[0], c);
      }
    }
  }

  lemma XmlnsBrackets(c: char)
    requires c == '<' || c == '>'
    ensures Count(c, " xmlns=\"") == 0 && Count(c, "\" ") == 0
  {
    CountAbsent(c, " xmlns=\"");
    CountAbsent(c, "\" ");
  }

  lemma BracketCounts(c: char)
    requires c == '<' || c == '>'
    ensures Count(c, "<") + Count(c, ">") == 1
    ensures Count(c, "</") == Count(c, "<")
  {
    assert "</"[1..] == "/";
  }

  lemma OpenHeadBrackets(n: Node, c: char)
    requires c == '<' || c == '>'
    requires Count(c, n.name) == 0 && Count(c, n.ns) == 0
    ensures Count(c, OpenHead(n)) == Count(c, "<")
  {
    XmlnsBrackets(c);
    CountConcat(c, "<", n.name);
    CountConcat(c, "<" + n.name, " xmlns=\"");
    CountConcat(c, "<" + n.name + " xmlns=\"", n.ns);
    CountConcat(c, "<" + n.name + " xmlns=\"" + n.ns, "\" ");
  }

  lemma OpenTagBrackets(n: Node, c: char)
    requires c == '<' || c == '>'
    requires BracketFree(n, c)
    ensures Count(c, OpenTag(n)) == 1
  {
    BracketCounts(c);
    AttrTextBrackets(n.attrs, c);
    OpenHeadBrackets(n, c);
    CountConcat(c, OpenHead(n), AttrText(n.attrs));
    CountConcat(c, OpenHead(n) + AttrText(n.attrs), ">");
  }

  lemma CloseTagBrackets(n: Node, c: char)
    requires c == '<' || c == '>'
    requires Count(c, n.name) == 0
    ensures Count(c, CloseTag(n)) == 1
  {
    BracketCounts(c);
    CountConcat(c, "</", n.name);
    CountConcat(c, "</" + n.name, ">");
  }

  lemma ChildrenTextCons(n: Node, i: nat)
    requires i < |n.subs|
    ensures ChildrenText(n, i) == Markup(n.subs[i]) + ChildrenText(n, i + 1)
  {
    ToStringShape(n.subs[i], "");
    assert ToString(n.subs[i], "") == Markup(n.subs[i]);
  }

  /** Since attribute values and text are escaped, every element
      contributes exactly one '<' and one '>' to each of its two tags, and
      no other bracket appears. */
  lemma {:induction false} MarkupBrackets(n: Node, c: char)
    requires c == '<' || c == '>'
    requires BracketFree(n, c)
    ensures Count(c, Markup(n)) == 2 * Size(n)
    decreases n, 1
  {
    ChildrenBrackets(n, 0, c);
    OpenTagBrackets(n, c);
    CloseTagBrackets(n, c);
    var e := Escape(n.data);
    CountAbsent(c, e);
    CountConcat4(c, OpenTag(n), ChildrenText(n, 0), e, CloseTag(n));
  }

  lemma CountConcat4(c: char, a: string, b: string, d: string, e: string)
    ensures Count(c, a + b + d + e) == Count(c, a) + Count(c, b) + Count(c, d) + Count(c, e)
  {
    CountConcat(c, a, b);
    CountConcat(c, a + b, d);
    CountConcat(c, a + b + d, e);
  }

  lemma {:induction false} ChildrenBrackets(n: Node, i: nat, c: char)
    requires i <= |n.subs|
    requires c == '<' || c == '>'
    requires BracketFree(n, c)
    ensures Count(c, ChildrenText(n, i)) == 2 * SizeFrom(n, i)
    decreases n, 0, |n.subs| - i
  {
    if i < |n.subs| {
      var sub := n.subs[i];
      assert BracketFree(sub, c);
      MarkupBrackets(sub, c);
      ChildrenTextCons(n, i);
      ChildrenBrackets(n, i + 1, c);
      CountConcat(c, Markup(sub), ChildrenText(n, i + 1));
      assert SizeFrom(n, i) == Size(sub) + SizeFrom(n, i + 1);
    }
  }

  /* ---------------------------------------------------------------- */
  /*  A worked example                                                 */
  /* ---------------------------------------------------------------- */

  lemma ExampleNodes()
    ensures Construct("body", "", [], "") == Node("body", "", [], [], "")
    ensures Construct("message", "jabber:client", [("type", "chat")], "hi") ==
      Node("message", "jabber:client", [("type", "chat")], [], "hi")
  {
    LowerOfLower("message");
    LowerOfLower("body");
    LowerOfLower("type");
    var attrs := [("type", "chat")];
    assert attrs[..0] == [];
  }

  // The worked example below is assembled from small steps: each step
  // either unfolds one serialiser function on a node described field by
  // field, or joins short string literals.

  lemma JoinMessageHead(a: string, b: string, c: string, d: string, e: string)
    requires a == "<" && b == "message" && c == " xmlns=\"" && d == "jabber:client" && e == "\" "
    ensures a + b + c + d + e == "<message xmlns=\"jabber:client\" "
  {
  }

  lemma JoinTypePiece(a: string, b: string, c: string, d: string)
    requires a == "type" && b == "=\"" && c == "chat" && d == "\" "
    ensures a + b + c + d == "type=\"chat\" "
  {
  }

  lemma JoinMessageTag(a: string, b: string, c: string)
    requires a == "<message xmlns=\"jabber:client\" " && b == "type=\"chat\" " && c == ">"
    ensures a + b + c == "<message xmlns=\"jabber:client\" type=\"chat\" >"
  {
  }

  lemma JoinBodyHead(a: string, b: string, c: string, d: string, e: string)
    requires a == "<" && b == "body" && c == " xmlns=\"" && d == "" && e == "\" "
    ensures a + b + c + d + e == "<body xmlns=\"\" "
  {
  }

  lemma JoinBody(a: string, b: string, c: string, d: string, e: string, f: string, g: string, h: string)
    requires a == "<body xmlns=\"\" " && b == "" && c == ">" && d == "" && e == ""
    requires f == "</" && g == "body" && h == ">"
    ensures a + b + c + d + e + (f + g + h) == "<body xmlns=\"\" ></body>"
  {
  }

  lemma JoinMessageClose(a: string, b: string, c: string, d: string)
    requires a == "hi" && b == "</" && c == "message" && d == ">"
    ensures a + (b + c + d) == "hi</message>"
  {
  }

  lemma ExampleBodyMarkup(body: Node)
    requires body.name == "body" && body.ns == "" && body.attrs == [] && body.subs == [] && body.data == ""
    ensures Markup(body) == "<body xmlns=\"\" ></body>"
  {
    JoinBodyHead("<", body.name, " xmlns=\"", body.ns, "\" ");
    assert AttrText(body.attrs) == "";
    assert ChildrenText(body, 0) == "";
    assert Escape(body.data) == "";
    JoinBody(OpenHead(body), "", ">", "", "", "</", body.name, ">");
  }

  lemma ExampleAttrText(attrs: Attrs)
    requires attrs == [("type", "chat")]
    ensures AttrText(attrs) == "type=\"chat\" "
  {
    EscapeIdentityIff("chat");
    JoinTypePiece("type", "=\"", Escape("chat"), "\" ");
    assert attrs[1..] == [];
  }

  lemma ExampleOpenTag(msg: Node)
    requires msg.name == "message" && msg.ns == "jabber:client" && msg.attrs == [("type", "chat")]
    ensures OpenTag(msg) == "<message xmlns=\"jabber:client\" type=\"chat\" >"
  {
    JoinMessageHead("<", msg.name, " xmlns=\"", msg.ns, "\" ");
    ExampleAttrText(msg.attrs);
    JoinMessageTag(OpenHead(msg), AttrText(msg.attrs), ">");
  }

  lemma ExampleChildren(msg: Node)
    requires |msg.subs| == 1
    requires msg.subs[0].name == "body" && msg.subs[0].ns == "" && msg.subs[0].attrs == []
    requires msg.subs[0].subs == [] && msg.subs[0].data == ""
    ensures ChildrenText(msg, 0) == "<body xmlns=\"\" ></body>"
  {
    var body := msg.subs[0];
    ExampleBodyMarkup(body);
    ToStringShape(body, "");
    assert ToString(body, "") == Markup(body);
    assert ChildrenText(msg, 1) == "";
  }

  lemma ExampleMarkup(msg: Node)
    requires msg.name == "message" && msg.ns == "jabber:client" && msg.attrs == [("type", "chat")]
    requires msg.data == "hi" && |msg.subs| == 1
    requires msg.subs[0].name == "body" && msg.subs[0].ns == "" && msg.subs[0].attrs == []
    requires msg.subs[0].subs == [] && msg.subs[0].data == ""
    ensures Markup(msg) ==
      "<message xmlns=\"jabber:client\" type=\"chat\" >" + "<body xmlns=\"\" ></body>" + "hi</message>"
  {
    ExampleOpenTag(msg);
    ExampleChildren(msg);
    EscapeIdentityIff("hi");
    JoinMessageClose(Escape(msg.data), "</", msg.name, ">");
    Assoc(OpenTag(msg) + ChildrenText(msg, 0), Escape(msg.data), CloseTag(msg));
  }

  /** A chat message with an empty body child serialises with a space
      after every attribute, before each '>'. */
  lemma ExampleMessage()
    ensures ToString(AppendSub(Construct("message", "jabber:client", [("type", "chat")], "hi"),
                               Construct("body", "", [], "")), "")
      == "<message xmlns=\"jabber:client\" type=\"chat\" >" + "<body xmlns=\"\" ></body>" + "hi</message>"
  {
    ExampleNodes();
    var msg := AppendSub(Construct("message", "jabber:client", [("type", "chat")], "hi"), Construct("body", "", [], ""));
    assert msg.subs == [] + [Node("body", "", [], [], "")];
    ToStringShape(msg, "");
    ExampleMarkup(msg);
    assert "" + Markup(msg) == Markup(msg);
  }
}
