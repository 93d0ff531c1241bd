/** The attribute array of an element: a PHP array from string keys to
    string values. PHP arrays keep insertion order, and assigning to a key
    that is already present replaces the value in place, so the array is a
    sequence of pairs with pairwise distinct keys. */
module Attributes {

  import opened Wrappers
  import opened Strings

  type Attrs = seq<(string, string)>

  function Keys(a: Attrs): (r: seq<string>)
    ensures |r| == |a|
    ensures forall i :: 0 <= i < |a| ==> r[i] == a[i].0
  {
    seq(|a|, i requires 0 <= i < |a| => a[i].0)
  }

  predicate HasKey(a: Attrs, k: string) {
    exists i :: 0 <= i < |a| && a[i].0 == k
  }

  /** Every key occurs once, as in any PHP array. */
  predicate UniqueKeys(a: Attrs) {
    forall i, j :: 0 <= i < j < |a| ==> a[i].0 != a[j].0
  }

  /** Every key is lower-case. */
  predicate LowerKeys(a: Attrs) {
    forall i :: 0 <= i < |a| ==> IsLower(a[i].0)
  }

  /** `$a[$k]`: the value stored under k, or None when k is not a key. */
  function Lookup(a: Attrs, k: string): (r: Option<string>)
    ensures r.None? <==> !HasKey(a, k)
    ensures r.Some? ==> (k, r.value) in a
  {
    if |a| == 0 then None
    else if a[0].0 == k then Some(a[0].1)
    else
      assert HasKey(a, k) ==> HasKey(a[1..], k) by {
        if HasKey(a, k) {
          var i :| 0 <= i < |a| && a[i].0 == k;
          assert a[1..][i - 1] == a[i];
        }
      }
      Lookup(a[1..], k)
  }

  /** In an array with distinct keys the lookup finds the value paired
      with the key wherever it stands. */
  lemma {:induction false} LookupUnique(a: Attrs, i: nat)
    requires UniqueKeys(a) && i < |a|
    ensures Lookup(a, a[i].0) == Some(a[i].1)
    decreases i
  {
    if i > 0 {
      assert a[0].0 != a[i].0;
      assert a[1..][i - 1] == a[i];
      LookupUnique(a[1..], i - 1);
    }
  }

  /** `$a[$k] = $v`: a present key keeps its position and takes the new
      value; an absent key is appended at the end. */
  function Put(a: Attrs, k: string, v: string): (r: Attrs)
    ensures |r| == if HasKey(a, k) then |a| else |a| + 1
  {
    if |a| == 0 then [(k, v)]
    else if a[0].0 == k then [(k, v)] + a[1..]
    else
      assert HasKey(a, k) <==> HasKey(a[1..], k) by {
        if HasKey(a, k) {
          var i :| 0 <= i < |a| && a[i].0 == k;
          assert a[1..][i - 1] == a[i];
        }
        if HasKey(a[1..], k) {
          var i :| 0 <= i < |a[1..]| && a[1..][i].0 == k;
          assert a[i + 1] == a[1..][i];
        }
      }
      [a[0]] + Put(a[1..], k, v)
  }

  /** Put keeps the key order, appending k only when it is new. */
  lemma {:induction false} PutKeys(a: Attrs, k: string, v: string)
    ensures Keys(Put(a, k, v)) == if HasKey(a, k) then Keys(a) else Keys(a) + [k]
    decreases |a|
  {
    if |a| > 0 && a[0].0 != k {
      PutKeys(a[1..], k, v);
      assert HasKey(a, k) <==> HasKey(a[1..], k) by {
        if HasKey(a, k) {
          var i :| 0 <= i < |a| && a[i].0 == k;
          assert a[1..][i - 1] == a[i];
        }
        if HasKey(a[1..], k) {
          var i :| 0 <= i < |a[1..]| && a[1..][i].0 == k;
          assert a[i + 1] == a[1..][i];
        }
      }
      assert Keys(a) == [a[0].0] + Keys(a[1..]);
      assert Keys(Put(a, k, v)) == [a[0].0] + Keys(Put(a[1..], k, v));
    }
  }

  /** Put stores v under k and leaves every other key's value alone. */
  lemma {:induction false} PutLookup(a: Attrs, k: string, v: string, k': string)
    ensures Lookup(Put(a, k, v), k') == if k' == k then Some(v) else Lookup(a, k')
    decreases |a|
  {
    if |a| > 0 && a[0].0 != k {
      PutLookup(a[1..], k, v, k');
    }
  }

  /** Put keeps the keys distinct. */
  lemma PutUnique(a: Attrs, k: string, v: string)
    requires UniqueKeys(a)
    ensures UniqueKeys(Put(a, k, v))
  {
    PutKeys(a, k, v);
    var r := Put(a, k, v);
    forall i, j | 0 <= i < j < |r| ensures r[i].0 != r[j].0 {
      assert Keys(r)[i] == r[i].0 && Keys(r)[j] == r[j].0;
      if j == |a| {
        assert !HasKey(a, k);
        assert Keys(r)[i] == a[i].0;
      } else {
        assert Keys(r)[i] == a[i].0 && Keys(r)[j] == a[j].0;
      }
    }
  }

  /** Put keeps every key lower-case when the new key is. */
  lemma PutLower(a: Attrs, k: string, v: string)
    requires LowerKeys(a) && IsLower(k)
    ensures LowerKeys(Put(a, k, v))
  {
    PutKeys(a, k, v);
    var r := Put(a, k, v);
    forall i | 0 <= i < |r| ensures IsLower(r[i].0) {
      assert Keys(r)[i] == r[i].0;
      if i < |a| {
        assert Keys(r)[i] == a[i].0;
      }
    }
  }

  /** The input pairs mention k when some key lower-cases to k. */
  predicate Mentions(input: Attrs, k: string) {
    exists i :: 0 <= i < |input| && Lower(input[i].0) == k
  }

  /** The constructor's loop, which stores each pair under its
      lower-cased key, run over the given pairs in order. */
  function Normalize(input: Attrs): (r: Attrs)
    ensures UniqueKeys(r)
    ensures LowerKeys(r)
    decreases |input|
  {
    if |input| == 0 then []
    else
      var last := input[|input| - 1];
      var acc := Normalize(input[..|input| - 1]);
      PutUnique(acc, Lower(last.0), last.1);
      PutLower(acc, Lower(last.0), last.1);
      Put(acc, Lower(last.0), last.1)
  }

  lemma MentionsSnoc(input: Attrs, k: string)
    requires |input| > 0
    ensures Mentions(input, k) <==>
      Mentions(input[..|input| - 1], k) || Lower(input[|input| - 1].0) == k
  {
    var prefix := input[..|input| - 1];
    if Mentions(input, k) {
      var i :| 0 <= i < |input| && Lower(input[i].0) == k;
      if i < |prefix| {
        assert prefix[i] == input[i];
      }
    }
    if Mentions(prefix, k) {
      var i :| 0 <= i < |prefix| && Lower(prefix[i].0) == k;
      assert input[i] == prefix[i];
    }
  }

  /** The stored keys are exactly the lower-cased input keys. */
  lemma {:induction false} NormalizeKeys(input: Attrs, k: string)
    ensures HasKey(Normalize(input), k) <==> Mentions(input, k)
    decreases |input|
  {
    if |input| > 0 {
      var n := |input| - 1;
      var last := input[n];
      var acc := Normalize(input[..n]);
      NormalizeKeys(input[..n], k);
      MentionsSnoc(input, k);
      PutLookup(acc, Lower(last.0), last.1, k);
    }
  }

  /** Pair i is the last input pair whose key lower-cases to k. */
  predicate LastFor(input: Attrs, k: string, i: int) {
    0 <= i < |input| && Lower(input[i].0) == k &&
    forall j :: i < j < |input| ==> Lower(input[j].0) != k
  }

  /** Dropping a last pair whose key lower-cases to something else keeps
      the last pair for k where it was. */
  lemma LastForDropLast(input: Attrs, k: string, i: int)
    requires |input| > 0 && Lower(input[|input| - 1].0) != k
    ensures LastFor(input, k, i) <==> LastFor(input[..|input| - 1], k, i)
  {
    var prefix := input[..|input| - 1];
    if 0 <= i < |prefix| {
      assert prefix[i] == input[i];
      assert forall j :: i < j < |prefix| ==> prefix[j] == input[j];
    }
  }

  /** Case-colliding keys: the value stored under a lower-cased key is the
      value of the LAST input pair whose key lower-cases to it. */
  lemma {:induction false} NormalizeLastValueWins(input: Attrs, k: string, v: string)
    ensures Lookup(Normalize(input), k) == Some(v) <==>
      exists i :: LastFor(input, k, i) && input[i].1 == v
    decreases |input|
  {
    if |input| > 0 {
      var n := |input| - 1;
      var prefix := input[..n];
      var last := input[n];
      assert Normalize(input) == Put(Normalize(prefix), Lower(last.0), last.1);
      PutLookup(Normalize(prefix), Lower(last.0), last.1, k);
      if Lower(last.0) == k {
        assert LastFor(input, k, n);
        forall i | LastFor(input, k, i) ensures i == n { }
      } else {
        assert Lookup(Normalize(input), k) == Lookup(Normalize(prefix), k);
        NormalizeLastValueWins(prefix, k, v);
        forall i ensures LastFor(input, k, i) <==> LastFor(prefix, k, i) {
          LastForDropLast(input, k, i);
        }
      }
    }
  }

  /** Case-colliding keys: the keys appear in the order of their FIRST
      occurrence in the input, so a later colliding key keeps the first
      key's position. */
  lemma {:induction false} NormalizeKeyOrder(input: Attrs, p: nat, q: nat)
    requires p < q < |Normalize(input)|
    ensures FirstPos(input, Normalize(input)[p].0) < FirstPos(input, Normalize(input)[q].0) < |input|
    decreases |input|
  {
    var n := |input| - 1;
    var prefix := input[..n];
    var x := input[n];
    assert input == prefix + [x];
    var acc := Normalize(prefix);
    var r := Normalize(input);
    PutKeys(acc, Lower(x.0), x.1);
    assert r[p].0 == Keys(r)[p] == acc[p].0;
    KeyOfNormalizeIsEarly(prefix, p);
    FirstPosExtend(prefix, x, acc[p].0);
    if q < |acc| {
      assert r[q].0 == Keys(r)[q] == acc[q].0;
      NormalizeKeyOrder(prefix, p, q);
      KeyOfNormalizeIsEarly(prefix, q);
      FirstPosExtend(prefix, x, acc[q].0);
    } else {
      assert r[q].0 == Lower(x.0) && !HasKey(acc, Lower(x.0));
      NormalizeKeys(prefix, Lower(x.0));
      FirstPosAppendNew(prefix, x);
    }
  }

  /** A stored key first occurs somewhere in the input. */
  lemma KeyOfNormalizeIsEarly(input: Attrs, p: nat)
    requires p < |Normalize(input)|
    ensures FirstPos(input, Normalize(input)[p].0) < |input|
  {
    var k := Normalize(input)[p].0;
    assert HasKey(Normalize(input), k);
    NormalizeKeys(input, k);
    var i :| 0 <= i < |input| && Lower(input[i].0) == k;
    FirstPosBefore(input, k, i);
  }

  /** Position of the first input pair whose key lower-cases to k
      (|input| when there is none). */
  function FirstPos(input: Attrs, k: string): (p: nat)
    ensures p <= |input|
    ensures p < |input| ==> Lower(input[p].0) == k
    ensures forall j :: 0 <= j < p ==> Lower(input[j].0) != k
    decreases |input|
  {
    if |input| == 0 then 0
    else if Lower(input[0].0) == k then 0
    else 1 + FirstPos(input[1..], k)
  }

  lemma FirstPosBefore(input: Attrs, k: string, i: nat)
    requires i < |input| && Lower(input[i].0) == k
    ensures FirstPos(input, k) <= i
  {
  }

  lemma {:induction false} FirstPosExtend(input: Attrs, x: (string, string), k: string)
    requires FirstPos(input, k) < |input|
    ensures FirstPos(input + [x], k) == FirstPos(input, k)
    decreases |input|
  {
    if Lower(input[0].0) != k {
      assert (input + [x])[1..] == input[1..] + [x];
      FirstPosExtend(input[1..], x, k);
    }
  }

  lemma {:induction false} FirstPosAppendNew(input: Attrs, x: (string, string))
    requires !Mentions(input, Lower(x.0))
    ensures FirstPos(input + [x], Lower(x.0)) == |input|
    decreases |input|
  {
    if |input| > 0 {
      assert (input + [x])[1..] == input[1..] + [x];
      assert Lower(input[0].0) != Lower(x.0);
      FirstPosAppendNew(input[1..], x);
    }
  }
}
