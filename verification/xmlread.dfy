/** A reader for exactly the text toString writes. It is not part of the
    library; it is the inverse against which the serialiser is shown to
    be lossless: reading back the serialisation of a tree yields the tree,
    attribute values and text included, with only the attributes keyed
    "xmlns" (which toString never writes) left out. */
module XmlRead {

  import opened Wrappers
  import opened Strings
  import opened Attributes
  import opened XmlObj
  import opened XmlText

  /* ---------------------------------------------------------------- */
  /*  Primitive steps                                                  */
  /* ---------------------------------------------------------------- */

  /** s without the literal p in front, when s starts with p. */
  function Expect(s: string, p: string): (r: Option<string>)
    ensures r.Some? <==> StartsWith(s, p)
    ensures r.Some? ==> s == p + r.value
  {
    if StartsWith(s, p) then
      assert s == s[..|p|] + s[|p|..];
      Some(s[|p|..])
    else None
  }

  /** s split before its first c: the text in front, and the rest
      starting with c. */
  function SplitAt(s: string, c: char): (r: Option<(string, string)>)
    ensures r.Some? ==> s == r.value.0 + r.value.1
    ensures r.Some? ==> |r.value.1| > 0 && r.value.1[0] == c
    decreases |s|
  {
    if |s| == 0 then None
    else if s[0] == c then Some(("", s))
    else
      match SplitAt(s[1..], c)
      case None => None
      case Some(p) =>
        assert s == [s[0]] + s[1..];
        Assoc([s[0]], p.0, p.1);
        Some(([s[0]] + p.0, p.1))
  }

  lemma ExpectConcat(p: string, t: string)
    ensures Expect(p + t, p) == Some(t)
  {
    assert (p + t)[..|p|] == p;
    assert (p + t)[|p|..] == t;
  }

  /** Splitting at c finds the first c, so text free of c comes back
      whole. */
  lemma {:induction false} SplitAtConcat(x: string, t: string, c: char)
    requires forall i :: 0 <= i < |x| ==> x[i] != c
    requires |t| > 0 && t[0] == c
    ensures SplitAt(x + t, c) == Some((x, t))
    decreases |x|
  {
    if |x| == 0 {
      assert x + t == t;
    } else {
      assert (x + t)[1..] == x[1..] + t;
      SplitAtConcat(x[1..], t, c);
      assert [x[0]] + x[1..] == x;
    }
  }

  /* ---------------------------------------------------------------- */
  /*  The reader                                                       */
  /* ---------------------------------------------------------------- */

  /** Reads `key="value" ` pieces up to and including the '>' that ends
      the opening tag; values are decoded. */
  function ReadAttrs(s: string): (r: Option<(Attrs, string)>)
    ensures r.Some? ==> |r.value.1| < |s|
    decreases |s|
  {
    if |s| > 0 && s[0] == '>' then Some(([], s[1..]))
    else
      var k :- SplitAt(s, '=');
      var r1 :- Expect(k.1, "=\"");
      var v :- SplitAt(r1, '"');
      var r2 :- Expect(v.1, "\" ");
      var more :- ReadAttrs(r2);
      Some(([(k.0, Unescape(v.0))] + more.0, more.1))
  }

  /** The next text is a child element: '<' not followed by '/'. */
  predicate StartsChild(s: string) {
    |s| >= 2 && s[0] == '<' && s[1] != '/'
  }

  /** Reads one element and returns it with the text after it. */
  function ReadElement(s: string): (r: Option<(Node, string)>)
    ensures r.Some? ==> |r.value.1| < |s|
    decreases |s|, 0
  {
    var head :- ReadHead(s);
    var attrs :- ReadAttrs(head.2);
    var subs :- ReadChildren(attrs.1);
    var close :- ReadClose(subs.1, head.0);
    Some((Node(head.0, head.1, attrs.0, subs.0, close.0), close.1))
  }

  /** The opening `<name xmlns="ns" ` of an element: its name, its
      namespace and what follows. */
  function ReadHead(s: string): (r: Option<(string, string, string)>)
    ensures r.Some? ==> |r.value.2| < |s|
  {
    var r1 :- Expect(s, "<");
    var name :- SplitAt(r1, ' ');
    var r2 :- Expect(name.1, " xmlns=\"");
    var ns :- SplitAt(r2, '"');
    var r3 :- Expect(ns.1, "\" ");
    Some((name.0, ns.0, r3))
  }

  /** The text content up to the next '<' (decoded), then the closing tag
      of the element called name. */
  function ReadClose(s: string, name: string): (r: Option<(string, string)>)
    ensures r.Some? ==> |r.value.1| < |s|
  {
    var text :- SplitAt(s, '<');
    var r4 :- Expect(text.1, "</" + name + ">");
    Some((Unescape(text.0), r4))
  }


  /** Reads child elements for as long as the text starts one. */
  function ReadChildren(s: string): (r: Option<(seq<Node>, string)>)
    ensures r.Some? ==> |r.value.1| <= |s|
    decreases |s|, 1
  {
    if StartsChild(s) then
      var first :- ReadElement(s);
      var rest :- ReadChildren(first.1);
      Some(([first.0] + rest.0, rest.1))
    else Some(([], s))
  }

  /* ---------------------------------------------------------------- */
  /*  What survives serialisation                                      */
  /* ---------------------------------------------------------------- */

  /** The attributes toString writes: those not keyed "xmlns", in order. */
  function CanonAttrs(a: Attrs): Attrs
    decreases |a|
  {
    if |a| == 0 then []
    else if a[0].0 == "xmlns" then CanonAttrs(a[1..])
    else [a[0]] + CanonAttrs(a[1..])
  }

  /** The tree as its serialisation describes it: every "xmlns"-keyed
      attribute dropped, at every level. */
  function Canon(n: Node): Node
    decreases n, 1
  {
    Node(n.name, n.ns, CanonAttrs(n.attrs), CanonSubs(n), n.data)
  }

  function CanonSubs(n: Node): (r: seq<Node>)
    ensures |r| == |n.subs|
    decreases n, 0
  {
    seq(|n.subs|, i requires 0 <= i < |n.subs| => Canon(n.subs[i]))
  }

  /** A name the reader can find the end of: no space, not starting
      with '/' (which would read as a closing tag). */
  predicate NameReadable(name: string) {
    (forall i :: 0 <= i < |name| ==> name[i] != ' ') && !(|name| > 0 && name[0] == '/')
  }

  /** A key the reader can find the end of: no '=', not starting with '>'
      (which would read as the end of the opening tag). */
  predicate KeyReadable(key: string) {
    (forall i :: 0 <= i < |key| ==> key[i] != '=') && !(|key| > 0 && key[0] == '>')
  }

  /** The parts toString writes unescaped do not contain the delimiters
      that end them. */
  predicate Readable(n: Node)
    decreases n
  {
    NameReadable(n.name) &&
    (forall i :: 0 <= i < |n.ns| ==> n.ns[i] != '"') &&
    (forall i :: 0 <= i < |n.attrs| ==> KeyReadable(n.attrs[i].0)) &&
    (forall i :: 0 <= i < |n.subs| ==> Readable(n.subs[i]))
  }

  /* ---------------------------------------------------------------- */
  /*  Round trip                                                       */
  /* ---------------------------------------------------------------- */

  /** One attribute piece, regrouped for reading from the front. */
  lemma AttrPieceSplit(pair: (string, string), x: string)
    ensures AttrPiece(pair) + x == pair.0 + ("=\"" + (Escape(pair.1) + ("\" " + x)))
  {
    var e := Escape(pair.1);
    Assoc(pair.0 + "=\"" + e, "\" ", x);
    Assoc(pair.0 + "=\"", e, "\" " + x);
    Assoc(pair.0, "=\"", e + ("\" " + x));
  }

  lemma ReadAttrPiece(pair: (string, string), x: string)
    requires KeyReadable(pair.0)
    ensures ReadAttrs(AttrPiece(pair) + x) ==
      match ReadAttrs(x)
      case None => None
      case Some(more) => Some(([pair] + more.0, more.1))
  {
    var e := Escape(pair.1);
    var s := AttrPiece(pair) + x;
    AttrPieceSplit(pair, x);
    assert s[0] != '>' by {
      if |pair.0| == 0 {
        assert s == "=\"" + (e + ("\" " + x));
      } else {
        assert s[0] == pair.0[0];
      }
    }
    SplitAtConcat(pair.0, "=\"" + (e + ("\" " + x)), '=');
    ExpectConcat("=\"", e + ("\" " + x));
    assert forall i :: 0 <= i < |e| ==> e[i] != '"';
    SplitAtConcat(e, "\" " + x, '"');
    ExpectConcat("\" ", x);
    UnescapeEscape(pair.1);
  }

  /** Reading the attribute text back, up to the closing bracket of the
      opening tag, yields the written attributes with their values
      decoded. */
  lemma {:induction false} ReadAttrText(a: Attrs, t: string)
    requires forall i :: 0 <= i < |a| ==> KeyReadable(a[i].0)
    ensures ReadAttrs(AttrText(a) + (">" + t)) == Some((CanonAttrs(a), t))
    decreases |a|
  {
    if |a| == 0 {
      assert AttrText(a) + (">" + t) == ">" + t;
      assert (">" + t)[1..] == t;
    } else {
      var rest := AttrText(a[1..]);
      ReadAttrText(a[1..], t);
      if a[0].0 == "xmlns" {
        assert AttrText(a) == "" + rest;
        assert "" + rest == rest;
      } else {
        Assoc(AttrPiece(a[0]), rest, ">" + t);
        ReadAttrPiece(a[0], rest + (">" + t));
      }
    }
  }

  /** An element's markup, regrouped for reading from the front. */
  lemma MarkupSplit(n: Node, t: string)
    ensures Markup(n) + t ==
      "<" + (n.name + (" xmlns=\"" + (n.ns + ("\" " + (AttrText(n.attrs) + (">" +
        (ChildrenText(n, 0) + (Escape(n.data) + (CloseTag(n) + t)))))))))
  {
    var ct := ChildrenText(n, 0);
    var e := Escape(n.data);
    var cl := CloseTag(n);
    var at := AttrText(n.attrs);
    var r1 := ct + (e + (cl + t));
    Assoc(OpenTag(n) + ct + e, cl, t);
    Assoc(OpenTag(n) + ct, e, cl + t);
    Assoc(OpenTag(n), ct, e + (cl + t));
    Assoc(OpenHead(n) + at, ">", r1);
    Assoc(OpenHead(n), at, ">" + r1);
    var y := at + (">" + r1);
    Assoc("<" + n.name + " xmlns=\"" + n.ns, "\" ", y);
    Assoc("<" + n.name + " xmlns=\"", n.ns, "\" " + y);
    Assoc("<" + n.name, " xmlns=\"", n.ns + ("\" " + y));
    Assoc("<", n.name, " xmlns=\"" + (n.ns + ("\" " + y)));
  }

  /** The text after the children is no child: it starts with the
      escaped text (which holds no '<') or with the closing tag "</". */
  lemma AfterChildren(n: Node, t: string)
    ensures !StartsChild(Escape(n.data) + (CloseTag(n) + t))
  {
    var e := Escape(n.data);
    var s := e + (CloseTag(n) + t);
    if |e| > 0 {
      assert s[0] == e[0];
    } else {
      assert s == CloseTag(n) + t;
      assert s[0] == '<' && s[1] == '/';
    }
  }

  lemma ReadHeadOf(n: Node, r2: string)
    requires NameReadable(n.name)
    requires forall i :: 0 <= i < |n.ns| ==> n.ns[i] != '"'
    ensures ReadHead("<" + (n.name + (" xmlns=\"" + (n.ns + ("\" " + r2))))) == Some((n.name, n.ns, r2))
  {
    ExpectConcat("<", n.name + (" xmlns=\"" + (n.ns + ("\" " + r2))));
    SplitAtConcat(n.name, " xmlns=\"" + (n.ns + ("\" " + r2)), ' ');
    ExpectConcat(" xmlns=\"", n.ns + ("\" " + r2));
    SplitAtConcat(n.ns, "\" " + r2, '"');
    ExpectConcat("\" ", r2);
  }

  lemma ReadCloseOf(n: Node, t: string)
    ensures ReadClose(Escape(n.data) + (CloseTag(n) + t), n.name) == Some((n.data, t))
  {
    var e := Escape(n.data);
    var cl := CloseTag(n);
    assert forall i :: 0 <= i < |e| ==> e[i] != '<';
    SplitAtConcat(e, cl + t, '<');
    ExpectConcat(cl, t);
    UnescapeEscape(n.data);
  }

  /** Reading back an element's markup, followed by any text, yields the
      element (as serialised) and that text. */
  lemma {:induction false} ReadMarkup(n: Node, t: string)
    requires Readable(n)
    ensures ReadElement(Markup(n) + t) == Some((Canon(n), t))
    decreases n, 1
  {
    var e := Escape(n.data);
    var cl := CloseTag(n);
    var r3 := ChildrenText(n, 0) + (e + (cl + t));
    var r2 := AttrText(n.attrs) + (">" + r3);
    MarkupSplit(n, t);
    ReadHeadOf(n, r2);
    ReadAttrText(n.attrs, r3);
    AfterChildren(n, t);
    ReadChildrenText(n, 0, e + (cl + t));
    assert CanonSubs(n)[0..] == CanonSubs(n);
    ReadCloseOf(n, t);
  }

  /** Markup always starts a child: '<' then the name or a space. */
  lemma MarkupStartsChild(c: Node, rest: string)
    requires NameReadable(c.name)
    ensures StartsChild(Markup(c) + rest)
  {
    MarkupSplit(c, rest);
    var s := Markup(c) + rest;
    assert s[0] == '<';
    if |c.name| > 0 {
      assert s[1] == c.name[0];
    } else {
      assert s[1] == ' ';
    }
  }

  /** One turn of the child loop. */
  lemma ReadChildrenStep(s: string, c: Node, rest: string, cs: seq<Node>, t: string)
    requires StartsChild(s)
    requires ReadElement(s) == Some((c, rest))
    requires ReadChildren(rest) == Some((cs, t))
    ensures ReadChildren(s) == Some(([c] + cs, t))
  {
  }

  /** Reading back the serialisations of children i.., followed by text
      that starts no child, yields those children (as serialised). */
  lemma ChildrenTextStep(n: Node, i: nat, t: string)
    requires i < |n.subs|
    ensures ChildrenText(n, i) + t == Markup(n.subs[i]) + (ChildrenText(n, i + 1) + t)
  {
    ChildrenTextCons(n, i);
    Assoc(Markup(n.subs[i]), ChildrenText(n, i + 1), t);
  }

  lemma CanonSubsStep(n: Node, i: nat)
    requires i < |n.subs|
    ensures CanonSubs(n)[i..] == [Canon(n.subs[i])] + CanonSubs(n)[i + 1..]
  {
    var cs := CanonSubs(n);
    assert cs[i] == Canon(n.subs[i]);
    assert cs[i..] == [cs[i]] + cs[i + 1..];
  }

  lemma {:induction false} ReadChildrenText(n: Node, i: nat, t: string)
    requires Readable(n) && i <= |n.subs|
    requires !StartsChild(t)
    ensures ReadChildren(ChildrenText(n, i) + t) == Some((CanonSubs(n)[i..], t))
    decreases n, 0, |n.subs| - i
  {
    if i == |n.subs| {
      assert ChildrenText(n, i) + t == t;
      assert CanonSubs(n)[i..] == [];
    } else {
      var c := n.subs[i];
      var rest := ChildrenText(n, i + 1) + t;
      var s := Markup(c) + rest;
      ChildrenTextStep(n, i, t);
      MarkupStartsChild(c, rest);
      ReadMarkup(c, rest);
      ReadChildrenText(n, i + 1, t);
      ReadChildrenStep(s, Canon(c), rest, CanonSubs(n)[i + 1..], t);
      CanonSubsStep(n, i);
    }
  }

  /** The serialiser loses nothing: reading back toString('') of a
      readable tree yields the tree, with only the "xmlns"-keyed
      attributes (never written) missing. */
  lemma ReadToString(n: Node)
    requires Readable(n)
    ensures ReadElement(ToString(n, "")) == Some((Canon(n), ""))
  {
    var m := Markup(n);
    assert ToString(n, "") == m by {
      ToStringShape(n, "");
      assert "" + m == m;
    }
    ReadMarkup(n, "");
    assert m + "" == m;
  }

  /** Hence two readable trees with the same serialisation agree on
      everything the serialisation writes. */
  lemma ToStringInjective(n1: Node, n2: Node)
    requires Readable(n1) && Readable(n2)
    requires ToString(n1, "") == ToString(n2, "")
    ensures Canon(n1) == Canon(n2)
  {
    ReadToString(n1);
    ReadToString(n2);
  }
}
