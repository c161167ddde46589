/** Sequence operations that stand for the Python list operations the
    clustering pass relies on: `list.remove`, order-preserving selection
    and concatenation of a list of lists. */
module ListOps {

  /** The outcome of an operation that may raise: None stands for the
      raised exception. */
  datatype Option<T> = None | Some(value: T)

  /** Index of the first element of s equal to x, or |s| when there is none. */
  function FirstIndex<T(==)>(s: seq<T>, x: T): (k: nat)
    ensures k <= |s|
    ensures k < |s| <==> x in s
    ensures k < |s| ==> s[k] == x
    ensures x !in s[..k]
  {
    if s == [] then 0
    else if s[0] == x then 0
    else
      var k' := FirstIndex(s[1..], x);
      assert s[..k' + 1] == [s[0]] + s[1..][..k'];
      k' + 1
  }

  /** Python's `s.remove(x)`: deletes the first element equal to x, and
      raises ValueError (None here) when no element is equal to x. */
  function RemoveFirst<T(==)>(s: seq<T>, x: T): (r: Option<seq<T>>)
    ensures r.None? <==> x !in s
    ensures r.Some? ==> |r.value| == |s| - 1
    ensures r.Some? ==> multiset(r.value) + multiset{x} == multiset(s)
  {
    var k := FirstIndex(s, x);
    if k == |s| then None
    else
      assert s == s[..k] + [x] + s[k + 1..];
      Some(s[..k] + s[k + 1..])
  }

  /** Removing x from a list whose head is not x removes it from the tail. */
  lemma RemoveFirstCons<T>(h: T, t: seq<T>, x: T)
    requires h != x
    ensures RemoveFirst([h] + t, x) ==
      match RemoveFirst(t, x)
      case None => None
      case Some(u) => Some([h] + u)
  {
    var s := [h] + t;
    assert s[1..] == t;
    var k := FirstIndex(t, x);
    assert FirstIndex(s, x) == k + 1;
    if k < |t| {
      assert s[..k + 1] + s[k + 2..] == [h] + (t[..k] + t[k + 1..]);
    }
  }

  /** Removing x from a list whose head is x drops the head. */
  lemma RemoveFirstHead<T>(t: seq<T>, x: T)
    ensures RemoveFirst([x] + t, x) == Some(t)
  {
    var s := [x] + t;
    assert FirstIndex(s, x) == 0;
    assert s[..0] + s[1..] == t;
  }

  /** The elements of xs removed from s in turn, each by `RemoveFirst`:
      None as soon as one removal fails. On success, exactly one copy of
      each element of xs is gone. */
  function RemoveAll<T(==)>(s: seq<T>, xs: seq<T>): (r: Option<seq<T>>)
    ensures r.Some? ==> |r.value| + |xs| == |s|
    ensures r.Some? ==> multiset(r.value) + multiset(xs) == multiset(s)
    decreases |xs|
  {
    if xs == [] then Some(s)
    else
      assert xs == [xs[0]] + xs[1..];
      match RemoveFirst(s, xs[0])
      case None => None
      case Some(t) => RemoveAll(t, xs[1..])
  }

  /** Removing the elements of a + b is removing those of a, then those of b. */
  lemma {:induction false} RemoveAllAppend<T>(s: seq<T>, a: seq<T>, b: seq<T>)
    ensures RemoveAll(s, a + b) ==
            match RemoveAll(s, a)
            case None => None
            case Some(t) => RemoveAll(t, b)
    decreases |a|
  {
    if a == [] {
      assert a + b == b;
    } else {
      assert (a + b)[0] == a[0];
      assert (a + b)[1..] == a[1..] + b;
      match RemoveFirst(s, a[0])
      case None =>
      case Some(t) => RemoveAllAppend(t, a[1..], b);
    }
  }

  /** a can be obtained from b by deleting elements: a keeps b's relative order. */
  predicate IsSubseq<T(==)>(a: seq<T>, b: seq<T>)
    decreases |b|
  {
    if a == [] then true
    else if b == [] then false
    else (a[0] == b[0] && IsSubseq(a[1..], b[1..])) || IsSubseq(a, b[1..])
  }

  lemma {:induction false} IsSubseqRefl<T>(s: seq<T>)
    ensures IsSubseq(s, s)
    decreases |s|
  {
    if s != [] {
      IsSubseqRefl(s[1..]);
    }
  }

  /** Prefixing both sides by the same element keeps the relation. */
  lemma IsSubseqCons<T>(x: T, a: seq<T>, b: seq<T>)
    requires IsSubseq(a, b)
    ensures IsSubseq([x] + a, [x] + b)
  {
  }

  /** Prefixing only the larger side keeps the relation. */
  lemma IsSubseqExtend<T>(x: T, a: seq<T>, b: seq<T>)
    requires IsSubseq(a, b)
    ensures IsSubseq(a, [x] + b)
  {
  }

  lemma {:induction false} IsSubseqTrans<T>(a: seq<T>, b: seq<T>, c: seq<T>)
    requires IsSubseq(a, b) && IsSubseq(b, c)
    ensures IsSubseq(a, c)
    decreases |c|
  {
    if a != [] {
      assert b != [] && c != [];
      if IsSubseq(b, c[1..]) {
        IsSubseqTrans(a, b, c[1..]);
      } else if a[0] == b[0] && IsSubseq(a[1..], b[1..]) {
        IsSubseqTrans(a[1..], b[1..], c[1..]);
      } else {
        IsSubseqTrans(a, b[1..], c[1..]);
      }
    }
  }

  /** The lists of css one after another (the clusters, in order). */
  function Flatten<T>(css: seq<seq<T>>): seq<T>
  {
    if css == [] then [] else css[0] + Flatten(css[1..])
  }

  /** A non-empty prefix of c + css flattens to c followed by the flattened
      shorter prefix of css. */
  lemma FlattenPrefixCons<T>(c: seq<T>, css: seq<seq<T>>, i: nat)
    requires 0 < i <= |css| + 1
    ensures Flatten(([c] + css)[..i]) == c + Flatten(css[..i - 1])
  {
    var p := ([c] + css)[..i];
    assert p[0] == c;
    assert p[1..] == css[..i - 1];
  }

  /** Every element of every inner list is an element of the flattening. */
  lemma {:induction false} FlattenMember<T>(css: seq<seq<T>>, k: nat, x: T)
    requires k < |css| && x in css[k]
    ensures x in Flatten(css)
    decreases k
  {
    if k > 0 {
      FlattenMember(css[1..], k - 1, x);
    }
  }
}
