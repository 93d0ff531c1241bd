/** XMPPHP_XMLObj: one element of a parsed XML stanza, with its
    lower-cased tag name, namespace, attribute array, ordered children
    (`subs`) and inline text (`data`), together with the queries the
    protocol code asks of it. */
module XmlObj {

  import opened Wrappers
  import opened Strings
  import opened Attributes

  datatype Node = Node(name: string, ns: string, attrs: Attrs, subs: seq<Node>, data: string)

  /* ---------------------------------------------------------------- */
  /*  Construction                                                     */
  /* ---------------------------------------------------------------- */

  /** The normalisation construction establishes: a lower-case name and a
      PHP attribute array with distinct lower-case keys. */
  predicate Normalized(n: Node) {
    IsLower(n.name) && UniqueKeys(n.attrs) && LowerKeys(n.attrs)
  }

  /** A tree all of whose nodes are normalised. */
  predicate WellFormed(n: Node)
    decreases n
  {
    Normalized(n) && forall i :: 0 <= i < |n.subs| ==> WellFormed(n.subs[i])
  }

  /** The constructor: the name is lower-cased, the namespace and the text
      are stored as given, each attribute is stored under its lower-cased
      key and there are no children yet. */
  function Construct(name: string, ns: string, attrs: Attrs, data: string): (r: Node)
    ensures r.name == Lower(name) && r.ns == ns && r.data == data && r.subs == []
    ensures WellFormed(r)
    ensures forall k :: HasKey(r.attrs, k) <==> Mentions(attrs, k)
    ensures forall k, v :: Lookup(r.attrs, k) == Some(v) <==> exists i :: LastFor(attrs, k, i) && attrs[i].1 == v
  {
    forall k ensures HasKey(Normalize(attrs), k) <==> Mentions(attrs, k) {
      NormalizeKeys(attrs, k);
    }
    forall k, v ensures Lookup(Normalize(attrs), k) == Some(v) <==> exists i :: LastFor(attrs, k, i) && attrs[i].1 == v {
      NormalizeLastValueWins(attrs, k, v);
    }
    Node(Lower(name), ns, Normalize(attrs), [], data)
  }

  /** The parser's `$parent->subs[] = $child`. */
  function AppendSub(n: Node, child: Node): (r: Node)
    ensures r.subs == n.subs + [child]
    ensures r.name == n.name && r.ns == n.ns && r.attrs == n.attrs && r.data == n.data
    ensures WellFormed(n) && WellFormed(child) ==> WellFormed(r)
  {
    n.(subs := n.subs + [child])
  }

  /* ---------------------------------------------------------------- */
  /*  Filters                                                          */
  /* ---------------------------------------------------------------- */

  /** PHP's `$ns == null` on a namespace parameter: a null parameter and
      an empty string both switch the namespace filter off. */
  predicate NsFilterOff(ns: Option<string>) {
    ns.None? || ns.value == ""
  }

  /** `$ns == null OR $sub->ns == $ns` */
  predicate NsMatches(sub: Node, ns: Option<string>) {
    NsFilterOff(ns) || sub.ns == ns.value
  }

  /** `$name == '*' OR $sub->name == $name`: "*" stands for any name. */
  predicate NameMatches(sub: Node, name: string) {
    name == "*" || sub.name == name
  }

  /** PHP's `$attrs == null` on an attribute parameter: a null parameter
      and an empty array both switch the attribute filter off. */
  predicate AttrsFilterOff(attrs: Option<Attrs>) {
    attrs.None? || attrs.value == []
  }

  /** PHP's `$stored != $value` with a missing key read as null: a stored
      value must equal the probe, and null equals only the empty string. */
  predicate ValueMatches(stored: Option<string>, value: string) {
    match stored
    case None => value == ""
    case Some(s) => s == value
  }

  /** The probe pair (k, v) holds of a node's attribute array. */
  predicate PairHolds(attrs: Attrs, pair: (string, string)) {
    ValueMatches(Lookup(attrs, Lower(pair.0)), pair.1)
  }

  /* ---------------------------------------------------------------- */
  /*  hasAttrs                                                         */
  /* ---------------------------------------------------------------- */

  /** hasAttrs: every probe pair agrees with the node's attributes, the
      probe keys being compared case-insensitively. */
  function HasAttrs(n: Node, probe: Attrs): (r: bool)
    ensures r <==> forall i :: 0 <= i < |probe| ==> PairHolds(n.attrs, probe[i])
  {
    AllPairsHoldFrom(n.attrs, probe, 0)
  }

  /** The foreach of hasAttrs from position i on, returning false at the
      first pair that fails. */
  function AllPairsHoldFrom(attrs: Attrs, probe: Attrs, i: nat): (r: bool)
    requires i <= |probe|
    ensures r <==> forall j :: i <= j < |probe| ==> PairHolds(attrs, probe[j])
    decreases |probe| - i
  {
    if i == |probe| then true
    else if !PairHolds(attrs, probe[i]) then false
    else AllPairsHoldFrom(attrs, probe, i + 1)
  }

  /** An empty probe holds of every node. */
  lemma HasAttrsEmpty(n: Node)
    ensures HasAttrs(n, [])
  {
  }

  /** A probe of two parts holds iff both parts hold. */
  lemma HasAttrsConcat(n: Node, p1: Attrs, p2: Attrs)
    ensures HasAttrs(n, p1 + p2) <==> HasAttrs(n, p1) && HasAttrs(n, p2)
  {
    if HasAttrs(n, p1) && HasAttrs(n, p2) {
      forall i | 0 <= i < |p1 + p2| ensures PairHolds(n.attrs, (p1 + p2)[i]) {
        if i >= |p1| {
          assert (p1 + p2)[i] == p2[i - |p1|];
        }
      }
    }
    if HasAttrs(n, p1 + p2) {
      forall i | 0 <= i < |p1| ensures PairHolds(n.attrs, p1[i]) {
        assert (p1 + p2)[i] == p1[i];
      }
      forall i | 0 <= i < |p2| ensures PairHolds(n.attrs, p2[i]) {
        assert (p1 + p2)[|p1| + i] == p2[i];
      }
    }
  }

  /** A probe naming an attribute the node lacks holds only with the
      empty string as the expected value. */
  lemma HasAttrsMissingKey(n: Node, k: string, v: string)
    requires !HasKey(n.attrs, Lower(k))
    ensures HasAttrs(n, [(k, v)]) <==> v == ""
  {
  }

  /** Probe keys are matched case-insensitively. */
  lemma HasAttrsProbeCase(n: Node, k: string, v: string)
    ensures HasAttrs(n, [(k, v)]) == HasAttrs(n, [(Lower(k), v)])
  {
    LowerIdempotent(k);
  }

  /** A freshly constructed node has the attributes it was built with,
      provided no two of them collide after lower-casing. */
  lemma ConstructHasOwnAttrs(name: string, ns: string, attrs: Attrs, data: string)
    requires forall i, j :: 0 <= i < j < |attrs| ==> Lower(attrs[i].0) != Lower(attrs[j].0)
    ensures HasAttrs(Construct(name, ns, attrs, data), attrs)
  {
    var r := Construct(name, ns, attrs, data);
    forall i | 0 <= i < |attrs| ensures PairHolds(r.attrs, attrs[i]) {
      assert LastFor(attrs, Lower(attrs[i].0), i);
    }
  }

  /* ---------------------------------------------------------------- */
  /*  hasSub                                                           */
  /* ---------------------------------------------------------------- */

  /** hasSub: some direct child passes the name and namespace filters. */
  function HasSub(n: Node, name: string, ns: Option<string>): (r: bool)
    ensures r <==> exists i :: 0 <= i < |n.subs| && NameMatches(n.subs[i], name) && NsMatches(n.subs[i], ns)
  {
    HasSubFrom(n.subs, 0, name, ns)
  }

  /** The foreach of hasSub from position i on, returning true at the
      first child that passes. */
  function HasSubFrom(subs: seq<Node>, i: nat, name: string, ns: Option<string>): (r: bool)
    requires i <= |subs|
    ensures r <==> exists j :: i <= j < |subs| && NameMatches(subs[j], name) && NsMatches(subs[j], ns)
    decreases |subs| - i
  {
    if i == |subs| then false
    else if NameMatches(subs[i], name) && NsMatches(subs[i], ns) then true
    else HasSubFrom(subs, i + 1, name, ns)
  }

  /** With the namespace filter off, hasSub("*") asks whether there is
      any child at all. */
  lemma HasSubAnyIffChildren(n: Node, ns: Option<string>)
    requires NsFilterOff(ns)
    ensures HasSub(n, "*", ns) <==> |n.subs| > 0
  {
    if |n.subs| > 0 {
      assert NameMatches(n.subs[0], "*") && NsMatches(n.subs[0], ns);
    }
  }

  /** Child names are stored lower-cased, so in a well-formed tree a
      probe holding an upper-case letter never matches. */
  lemma HasSubUpperProbe(n: Node, name: string, ns: Option<string>)
    requires WellFormed(n) && !IsLower(name)
    ensures !HasSub(n, name, ns)
  {
    assert name != "*";
  }

  /** Only the name and namespace of the direct children are examined:
      dropping every grandchild, text and attribute changes nothing. */
  lemma HasSubShallow(n: Node, name: string, ns: Option<string>)
    ensures HasSub(n, name, ns) == HasSub(Shallow(n), name, ns)
  {
    var m := Shallow(n);
    if HasSub(n, name, ns) {
      var i :| 0 <= i < |n.subs| && NameMatches(n.subs[i], name) && NsMatches(n.subs[i], ns);
      assert NameMatches(m.subs[i], name) && NsMatches(m.subs[i], ns);
    }
    if HasSub(m, name, ns) {
      var i :| 0 <= i < |m.subs| && NameMatches(m.subs[i], name) && NsMatches(m.subs[i], ns);
      assert NameMatches(n.subs[i], name) && NsMatches(n.subs[i], ns);
    }
  }

  /** The node with each child reduced to its name and namespace. */
  function Shallow(n: Node): (r: Node)
    ensures |r.subs| == |n.subs|
    ensures forall i :: 0 <= i < |n.subs| ==> r.subs[i] == Node(n.subs[i].name, n.subs[i].ns, [], [], "")
  {
    n.(subs := seq(|n.subs|, i requires 0 <= i < |n.subs| => Node(n.subs[i].name, n.subs[i].ns, [], [], "")))
  }

  /** Appending a child adds exactly that child to what hasSub can see. */
  lemma HasSubAfterAppend(n: Node, child: Node, name: string, ns: Option<string>)
    ensures HasSub(AppendSub(n, child), name, ns) <==>
      HasSub(n, name, ns) || (NameMatches(child, name) && NsMatches(child, ns))
  {
    var m := AppendSub(n, child);
    if HasSub(n, name, ns) {
      var i :| 0 <= i < |n.subs| && NameMatches(n.subs[i], name) && NsMatches(n.subs[i], ns);
      assert m.subs[i] == n.subs[i];
    }
    if NameMatches(child, name) && NsMatches(child, ns) {
      assert m.subs[|n.subs|] == child;
    }
    if HasSub(m, name, ns) {
      var i :| 0 <= i < |m.subs| && NameMatches(m.subs[i], name) && NsMatches(m.subs[i], ns);
      if i < |n.subs| {
        assert m.subs[i] == n.subs[i];
      }
    }
  }

  /* ---------------------------------------------------------------- */
  /*  sub                                                              */
  /* ---------------------------------------------------------------- */

  /** The test sub applies: the exact name (no wildcard) and the
      namespace filter. */
  predicate SubMatches(sub: Node, name: string, ns: Option<string>) {
    sub.name == name && NsMatches(sub, ns)
  }

  /** Position i holds the first child of subs that passes sub's test. */
  predicate FirstSubMatch(subs: seq<Node>, i: int, name: string, ns: Option<string>) {
    0 <= i < |subs| && SubMatches(subs[i], name, ns) &&
    forall j :: 0 <= j < i ==> !SubMatches(subs[j], name, ns)
  }

  /** sub: the first direct child, in order, with exactly this name that
      passes the namespace filter, or None (PHP's implicit null return).
      The attribute parameter is accepted and ignored. */
  function Sub(n: Node, name: string, attrs: Option<Attrs>, ns: Option<string>): (r: Option<Node>)
    ensures r.None? <==> forall i :: 0 <= i < |n.subs| ==> !SubMatches(n.subs[i], name, ns)
    ensures r.Some? ==> exists i :: FirstSubMatch(n.subs, i, name, ns) && r.value == n.subs[i]
  {
    SubFrom(n.subs, 0, name, ns)
  }

  /** The foreach of sub from position i on. */
  function SubFrom(subs: seq<Node>, i: nat, name: string, ns: Option<string>): (r: Option<Node>)
    requires i <= |subs|
    requires forall j :: 0 <= j < i ==> !SubMatches(subs[j], name, ns)
    ensures r.None? <==> forall j :: i <= j < |subs| ==> !SubMatches(subs[j], name, ns)
    ensures r.Some? ==> exists j :: FirstSubMatch(subs, j, name, ns) && r.value == subs[j]
    decreases |subs| - i
  {
    if i == |subs| then None
    else if SubMatches(subs[i], name, ns) then
      assert FirstSubMatch(subs, i, name, ns);
      Some(subs[i])
    else SubFrom(subs, i + 1, name, ns)
  }

  /** sub ignores its attribute argument. */
  lemma SubIgnoresAttrs(n: Node, name: string, a1: Option<Attrs>, a2: Option<Attrs>, ns: Option<string>)
    ensures Sub(n, name, a1, ns) == Sub(n, name, a2, ns)
  {
  }

  /** There is only one first match, so sub's answer is determined by
      the position it comes from. */
  lemma FirstSubMatchUnique(subs: seq<Node>, i: int, j: int, name: string, ns: Option<string>)
    requires FirstSubMatch(subs, i, name, ns) && FirstSubMatch(subs, j, name, ns)
    ensures i == j
  {
  }

  /** For an ordinary name, sub finds a child exactly when hasSub says
      there is one; "*" is no wildcard for sub: it finds a child only
      when some child is literally named "*". */
  lemma SubAgreesWithHasSub(n: Node, name: string, attrs: Option<Attrs>, ns: Option<string>)
    ensures name != "*" ==> (Sub(n, name, attrs, ns).Some? <==> HasSub(n, name, ns))
    ensures name == "*" ==> (Sub(n, name, attrs, ns).Some? <==> exists i :: 0 <= i < |n.subs| && n.subs[i].name == "*" && NsMatches(n.subs[i], ns))
  {
    if name != "*" && HasSub(n, name, ns) {
      var i :| 0 <= i < |n.subs| && NameMatches(n.subs[i], name) && NsMatches(n.subs[i], ns);
      assert SubMatches(n.subs[i], name, ns);
    }
    if name == "*" && exists i :: 0 <= i < |n.subs| && n.subs[i].name == "*" && NsMatches(n.subs[i], ns) {
      var i :| 0 <= i < |n.subs| && n.subs[i].name == "*" && NsMatches(n.subs[i], ns);
      assert SubMatches(n.subs[i], name, ns);
    }
  }

  /** Appending a child never changes an existing first match; it can
      only supply one when there was none. */
  lemma SubAfterAppend(n: Node, child: Node, name: string, attrs: Option<Attrs>, ns: Option<string>)
    ensures Sub(AppendSub(n, child), name, attrs, ns) ==
      if Sub(n, name, attrs, ns).Some? then Sub(n, name, attrs, ns)
      else if SubMatches(child, name, ns) then Some(child)
      else None
  {
    var m := AppendSub(n, child);
    var r := Sub(m, name, attrs, ns);
    if Sub(n, name, attrs, ns).Some? {
      var i :| FirstSubMatch(n.subs, i, name, ns) && Sub(n, name, attrs, ns).value == n.subs[i];
      assert m.subs[i] == n.subs[i];
      assert FirstSubMatch(m.subs, i, name, ns);
      var j :| FirstSubMatch(m.subs, j, name, ns) && r.value == m.subs[j];
      FirstSubMatchUnique(m.subs, i, j, name, ns);
    } else if SubMatches(child, name, ns) {
      assert m.subs[|n.subs|] == child;
      assert FirstSubMatch(m.subs, |n.subs|, name, ns);
      var j :| FirstSubMatch(m.subs, j, name, ns) && r.value == m.subs[j];
      FirstSubMatchUnique(m.subs, |n.subs|, j, name, ns);
    } else {
      forall i | 0 <= i < |m.subs| ensures !SubMatches(m.subs[i], name, ns) {
        if i < |n.subs| {
          assert m.subs[i] == n.subs[i];
        }
      }
    }
  }

  /* ---------------------------------------------------------------- */
  /*  getSubs                                                          */
  /* ---------------------------------------------------------------- */

  /** The three filters of getSubs: name (with "*" as wildcard),
      namespace, and attributes. */
  predicate Matches(sub: Node, name: string, attrs: Option<Attrs>, ns: Option<string>) {
    NameMatches(sub, name) && NsMatches(sub, ns) && (AttrsFilterOff(attrs) || HasAttrs(sub, attrs.value))
  }

  /** The positions, in increasing order, of the children at or after
      `from` that pass all three filters. */
  function MatchPositions(subs: seq<Node>, from: nat, name: string, attrs: Option<Attrs>, ns: Option<string>): (ps: seq<nat>)
    requires from <= |subs|
    ensures forall k :: 0 <= k < |ps| ==> from <= ps[k] < |subs|
    ensures forall k, l :: 0 <= k < l < |ps| ==> ps[k] < ps[l]
    ensures forall i :: from <= i < |subs| ==> (i in ps <==> Matches(subs[i], name, attrs, ns))
    decreases |subs| - from
  {
    if from == |subs| then []
    else if Matches(subs[from], name, attrs, ns) then [from] + MatchPositions(subs, from + 1, name, attrs, ns)
    else MatchPositions(subs, from + 1, name, attrs, ns)
  }

  /** The children at the given positions, in the order of the positions. */
  function Picks(subs: seq<Node>, ps: seq<nat>): (r: seq<Node>)
    requires forall k :: 0 <= k < |ps| ==> ps[k] < |subs|
    ensures |r| == |ps|
    ensures forall k :: 0 <= k < |ps| ==> r[k] == subs[ps[k]]
  {
    seq(|ps|, k requires 0 <= k < |ps| => subs[ps[k]])
  }

  /** PHP's `$subs[] = $sub` on a collector that starts as false:
      appending to false creates a one-element array. */
  function Push(acc: Option<seq<Node>>, x: Node): Option<seq<Node>> {
    match acc
    case None => Some([x])
    case Some(s) => Some(s + [x])
  }

  /** The collector after appending a list of children in order. */
  function PushAll(acc: Option<seq<Node>>, xs: seq<Node>): Option<seq<Node>> {
    if |xs| == 0 then acc
    else match acc
      case None => Some(xs)
      case Some(s) => Some(s + xs)
  }

  /** The foreach of getSubs from position i on, with the collector so far. */
  function Collect(subs: seq<Node>, i: nat, name: string, attrs: Option<Attrs>, ns: Option<string>,
                   stopAtFirst: bool, acc: Option<seq<Node>>): Option<seq<Node>>
    requires i <= |subs|
    decreases |subs| - i
  {
    if i == |subs| then acc
    else if Matches(subs[i], name, attrs, ns) then
      var acc' := Push(acc, subs[i]);
      if stopAtFirst then acc' else Collect(subs, i + 1, name, attrs, ns, stopAtFirst, acc')
    else Collect(subs, i + 1, name, attrs, ns, stopAtFirst, acc)
  }

  lemma PushAllCons(acc: Option<seq<Node>>, x: Node, xs: seq<Node>)
    ensures PushAll(Push(acc, x), xs) == PushAll(acc, [x] + xs)
  {
    match acc
    case None =>
      if |xs| == 0 {
        assert [x] + xs == [x];
      }
    case Some(s) =>
      if |xs| == 0 {
        assert [x] + xs == [x];
      } else {
        assert s + ([x] + xs) == (s + [x]) + xs;
      }
  }

  lemma PicksCons(subs: seq<Node>, i: nat, ps: seq<nat>)
    requires i < |subs| && forall k :: 0 <= k < |ps| ==> ps[k] < |subs|
    ensures Picks(subs, [i] + ps) == [subs[i]] + Picks(subs, ps)
  {
  }

  /** Without stop_at_first the loop appends exactly the matching children,
      in order. */
  lemma {:induction false} CollectAll(subs: seq<Node>, i: nat, name: string, attrs: Option<Attrs>, ns: Option<string>,
                                      acc: Option<seq<Node>>)
    requires i <= |subs|
    ensures Collect(subs, i, name, attrs, ns, false, acc) ==
      PushAll(acc, Picks(subs, MatchPositions(subs, i, name, attrs, ns)))
    decreases |subs| - i
  {
    if i < |subs| {
      var rest := MatchPositions(subs, i + 1, name, attrs, ns);
      if Matches(subs[i], name, attrs, ns) {
        assert Collect(subs, i, name, attrs, ns, false, acc) == Collect(subs, i + 1, name, attrs, ns, false, Push(acc, subs[i]));
        CollectAll(subs, i + 1, name, attrs, ns, Push(acc, subs[i]));
        assert MatchPositions(subs, i, name, attrs, ns) == [i] + rest;
        PicksCons(subs, i, rest);
        PushAllCons(acc, subs[i], Picks(subs, rest));
      } else {
        CollectAll(subs, i + 1, name, attrs, ns, acc);
      }
    }
  }

  /** There are no match positions iff no child passes the filters. */
  lemma MatchPositionsEmpty(subs: seq<Node>, name: string, attrs: Option<Attrs>, ns: Option<string>)
    ensures |MatchPositions(subs, 0, name, attrs, ns)| == 0 <==>
      forall i :: 0 <= i < |subs| ==> !Matches(subs[i], name, attrs, ns)
  {
    var ps := MatchPositions(subs, 0, name, attrs, ns);
    if |ps| > 0 {
      assert ps[0] in ps;
    }
  }

  /** Position i holds the first child that passes all three filters. */
  predicate FirstMatch(subs: seq<Node>, i: int, name: string, attrs: Option<Attrs>, ns: Option<string>) {
    0 <= i < |subs| && Matches(subs[i], name, attrs, ns) &&
    forall j :: 0 <= j < i ==> !Matches(subs[j], name, attrs, ns)
  }

  /** With stop_at_first the loop returns at the first match, holding
      only that child. */
  lemma {:induction false} CollectFirst(subs: seq<Node>, i: nat, name: string, attrs: Option<Attrs>, ns: Option<string>)
    requires i <= |subs|
    requires forall j :: 0 <= j < i ==> !Matches(subs[j], name, attrs, ns)
    ensures Collect(subs, i, name, attrs, ns, true, None).None? <==>
      forall j :: i <= j < |subs| ==> !Matches(subs[j], name, attrs, ns)
    ensures Collect(subs, i, name, attrs, ns, true, None).Some? ==>
      exists j :: FirstMatch(subs, j, name, attrs, ns) && Collect(subs, i, name, attrs, ns, true, None).value == [subs[j]]
    decreases |subs| - i
  {
    if i < |subs| {
      if Matches(subs[i], name, attrs, ns) {
        assert FirstMatch(subs, i, name, attrs, ns);
      } else {
        CollectFirst(subs, i + 1, name, attrs, ns);
      }
    }
  }

  /** getSubs: the children passing all three filters, in order, or None
      (PHP's false) when no child passes; with stop_at_first only the first
      of them. */
  function GetSubs(n: Node, name: string, attrs: Option<Attrs>, ns: Option<string>, stopAtFirst: bool): (r: Option<seq<Node>>)
    ensures r.None? <==> forall i :: 0 <= i < |n.subs| ==> !Matches(n.subs[i], name, attrs, ns)
    ensures !stopAtFirst && r.Some? ==> r.value == Picks(n.subs, MatchPositions(n.subs, 0, name, attrs, ns))
    ensures stopAtFirst && r.Some? ==> exists i :: FirstMatch(n.subs, i, name, attrs, ns) && r.value == [n.subs[i]]
  {
    if stopAtFirst then
      CollectFirst(n.subs, 0, name, attrs, ns);
      Collect(n.subs, 0, name, attrs, ns, stopAtFirst, None)
    else
      CollectAll(n.subs, 0, name, attrs, ns, None);
      MatchPositionsEmpty(n.subs, name, attrs, ns);
      Collect(n.subs, 0, name, attrs, ns, stopAtFirst, None)
  }

  /** getSubs with every filter off returns all children in order, or
      None when there are none. */
  lemma GetSubsAll(n: Node)
    ensures GetSubs(n, "*", None, None, false) == if |n.subs| == 0 then None else Some(n.subs)
  {
    var ps := MatchPositions(n.subs, 0, "*", None, None);
    if |n.subs| > 0 {
      assert Matches(n.subs[0], "*", None, None);
      MatchPositionsAll(n.subs, 0, "*", None, None);
      RangeIndex(0, |n.subs|);
      assert Picks(n.subs, ps) == n.subs;
    }
  }

  /** The positions lo, lo + 1, ..., hi - 1 in order. */
  function Range(lo: nat, hi: nat): (ps: seq<nat>)
    requires lo <= hi
    ensures |ps| == hi - lo
    decreases hi - lo
  {
    if lo == hi then [] else [lo] + Range(lo + 1, hi)
  }

  lemma {:induction false} RangeIndex(lo: nat, hi: nat)
    requires lo <= hi
    ensures forall k :: 0 <= k < hi - lo ==> Range(lo, hi)[k] == lo + k
    decreases hi - lo
  {
    if lo < hi {
      RangeIndex(lo + 1, hi);
    }
  }

  /** When every child passes, the match positions are all positions. */
  lemma {:induction false} MatchPositionsAll(subs: seq<Node>, from: nat, name: string, attrs: Option<Attrs>, ns: Option<string>)
    requires from <= |subs|
    requires forall i :: from <= i < |subs| ==> Matches(subs[i], name, attrs, ns)
    ensures MatchPositions(subs, from, name, attrs, ns) == Range(from, |subs|)
    decreases |subs| - from
  {
    if from < |subs| {
      MatchPositionsAll(subs, from + 1, name, attrs, ns);
    }
  }


  /** getSubs with stop_at_first yields the first element of the full
      answer. */
  lemma GetSubsStopIsFirst(n: Node, name: string, attrs: Option<Attrs>, ns: Option<string>)
    ensures GetSubs(n, name, attrs, ns, true) ==
      match GetSubs(n, name, attrs, ns, false)
      case None => None
      case Some(all) => Some([all[0]])
  {
    var r := GetSubs(n, name, attrs, ns, true);
    if r.Some? {
      var i :| FirstMatch(n.subs, i, name, attrs, ns) && r.value == [n.subs[i]];
      var ps := MatchPositions(n.subs, 0, name, attrs, ns);
      assert i in ps;
      var k :| 0 <= k < |ps| && ps[k] == i;
      assert ps[0] in ps;
      assert ps[0] <= ps[k];
      assert ps[0] == i;
    }
  }

  /** For an ordinary name and no attribute filter, getSubs with
      stop_at_first wraps what sub returns. */
  lemma GetSubsFirstIsSub(n: Node, name: string, attrs: Option<Attrs>, ns: Option<string>)
    requires name != "*" && AttrsFilterOff(attrs)
    ensures GetSubs(n, name, attrs, ns, true) ==
      match Sub(n, name, attrs, ns)
      case None => None
      case Some(s) => Some([s])
  {
    assert forall i :: 0 <= i < |n.subs| ==> (Matches(n.subs[i], name, attrs, ns) <==> SubMatches(n.subs[i], name, ns));
    var r := GetSubs(n, name, attrs, ns, true);
    var s := Sub(n, name, attrs, ns);
    if r.Some? {
      var i :| FirstMatch(n.subs, i, name, attrs, ns) && r.value == [n.subs[i]];
      var j :| FirstSubMatch(n.subs, j, name, ns) && s.value == n.subs[j];
      assert FirstSubMatch(n.subs, i, name, ns);
      FirstSubMatchUnique(n.subs, i, j, name, ns);
    }
  }

  /** hasSub says whether getSubs (without attribute filter) finds
      anything. */
  lemma HasSubIffGetSubs(n: Node, name: string, ns: Option<string>, stopAtFirst: bool)
    ensures HasSub(n, name, ns) <==> GetSubs(n, name, None, ns, stopAtFirst).Some?
  {
    if HasSub(n, name, ns) {
      var i :| 0 <= i < |n.subs| && NameMatches(n.subs[i], name) && NsMatches(n.subs[i], ns);
      assert Matches(n.subs[i], name, None, ns);
    }
  }

  /** Appending a child extends the full answer of getSubs by that child
      exactly when it passes the filters. */
  lemma GetSubsAfterAppend(n: Node, child: Node, name: string, attrs: Option<Attrs>, ns: Option<string>)
    ensures GetSubs(AppendSub(n, child), name, attrs, ns, false) ==
      if Matches(child, name, attrs, ns) then Push(GetSubs(n, name, attrs, ns, false), child)
      else GetSubs(n, name, attrs, ns, false)
  {
    var m := AppendSub(n, child);
    CollectAll(m.subs, 0, name, attrs, ns, None);
    CollectAll(n.subs, 0, name, attrs, ns, None);
    MatchPositionsSnoc(n.subs, child, 0, name, attrs, ns);
    var ps := MatchPositions(n.subs, 0, name, attrs, ns);
    if Matches(child, name, attrs, ns) {
      PicksSnoc(n.subs, child, ps);
    } else {
      assert ps + [] == ps;
      PicksExtend(n.subs, child, ps);
    }
  }

  lemma PicksSnoc(subs: seq<Node>, child: Node, ps: seq<nat>)
    requires forall k :: 0 <= k < |ps| ==> ps[k] < |subs|
    ensures Picks(subs + [child], ps + [|subs|]) == Picks(subs, ps) + [child]
    ensures PushAll(None, Picks(subs + [child], ps + [|subs|])) == Push(PushAll(None, Picks(subs, ps)), child)
  {
    var p := Picks(subs, ps);
    assert Picks(subs + [child], ps + [|subs|]) == p + [child];
    if |p| == 0 {
      assert p + [child] == [child];
    }
  }

  lemma PicksExtend(subs: seq<Node>, child: Node, ps: seq<nat>)
    requires forall k :: 0 <= k < |ps| ==> ps[k] < |subs|
    ensures Picks(subs + [child], ps) == Picks(subs, ps)
  {
    assert Picks(subs + [child], ps) == Picks(subs, ps);
  }

  /** Extending the children by one extends the match positions by the
      new position exactly when the new child passes. */
  lemma {:induction false} MatchPositionsSnoc(subs: seq<Node>, child: Node, from: nat, name: string, attrs: Option<Attrs>, ns: Option<string>)
    requires from <= |subs|
    ensures MatchPositions(subs + [child], from, name, attrs, ns) ==
      MatchPositions(subs, from, name, attrs, ns) + (if Matches(child, name, attrs, ns) then [|subs|] else [])
    decreases |subs| - from
  {
    var ext := subs + [child];
    if from < |subs| {
      assert ext[from] == subs[from];
      MatchPositionsSnoc(subs, child, from + 1, name, attrs, ns);
      var tail := if Matches(child, name, attrs, ns) then [|subs|] else [];
      if Matches(subs[from], name, attrs, ns) {
        assert [from] + (MatchPositions(subs, from + 1, name, attrs, ns) + tail) ==
               ([from] + MatchPositions(subs, from + 1, name, attrs, ns)) + tail;
      }
    } else {
      assert ext[from] == child;
      assert MatchPositions(ext, from + 1, name, attrs, ns) == [];
    }
  }
}
