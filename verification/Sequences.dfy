/** Sequences up to the order of their elements. */
module Sequences {

  /** Taking one common element out of two sequences of the same elements leaves the same elements. */
  lemma TakenOut<T>(a: seq<T>, b: seq<T>, k: nat)
    requires a != [] && k < |b| && b[k] == a[0] && multiset(a) == multiset(b)
    ensures multiset(a[1..]) == multiset(b[..k] + b[k + 1..])
  {
    assert a == [a[0]] + a[1..];
    assert b == b[..k] + [b[k]] + b[k + 1..];
    assert multiset(a[1..]) == multiset(a) - multiset{a[0]};
    assert multiset(b[..k] + b[k + 1..]) == multiset(b) - multiset{b[k]};
  }

  lemma OneLess<T>(init: seq<T>, d: T, before: seq<T>, after: seq<T>)
    requires multiset(init + [d]) == multiset(before + [d] + after)
    ensures multiset(init) == multiset(before + after)
  {
    assert multiset(init) == multiset(init + [d]) - multiset{d};
    assert multiset(before + after) == multiset(before + [d] + after) - multiset{d};
  }

  lemma PutBack<T>(a: seq<T>, b: seq<T>, k: nat)
    requires a != [] && k < |b| && a[0] == b[k] && multiset(a[1..]) == multiset(b[..k] + b[k + 1..])
    ensures multiset(a) == multiset(b)
  {
    assert a == [a[0]] + a[1..];
    assert b == b[..k] + ([b[k]] + b[k + 1..]);
  }

  function Mapped<A, B>(f: A -> B, items: seq<A>): (r: seq<B>)
    ensures |r| == |items| && forall i | 0 <= i < |items| :: r[i] == f(items[i])
  {
    seq(|items|, i requires 0 <= i < |items| => f(items[i]))
  }

  lemma MappedWithout<A, B>(f: A -> B, items: seq<A>, k: nat)
    requires k < |items|
    ensures Mapped(f, items)[..k] + Mapped(f, items)[k + 1..] == Mapped(f, items[..k] + items[k + 1..])
  {
  }

  /** The same elements have the same images. */
  lemma {:induction false} ImagesPermuted<A, B>(f: A -> B, a: seq<A>, b: seq<A>)
    requires multiset(a) == multiset(b)
    ensures multiset(Mapped(f, a)) == multiset(Mapped(f, b))
    decreases |a|
  {
    assert |a| == |multiset(a)| == |multiset(b)| == |b|;
    if a != [] {
      assert a[0] in multiset(b);
      var k :| 0 <= k < |b| && b[k] == a[0];
      TakenOut(a, b, k);
      MappedWithout(f, a, 0);
      MappedWithout(f, b, k);
      ImagesPermuted(f, a[1..], b[..k] + b[k + 1..]);
      assert a[..0] + a[1..] == a[1..];
      PutBack(Mapped(f, a), Mapped(f, b), k);
    }
  }

  /** When different elements have different images, the same images are of the same elements. */
  lemma {:induction false} ImagesTell<A, B>(f: A -> B, a: seq<A>, b: seq<A>)
    requires forall x, y | x in a && y in b && f(x) == f(y) :: x == y
    requires multiset(Mapped(f, a)) == multiset(Mapped(f, b))
    ensures multiset(a) == multiset(b)
    decreases |a|
  {
    var fa, fb := Mapped(f, a), Mapped(f, b);
    assert |fa| == |multiset(fa)| == |multiset(fb)| == |fb|;
    if a != [] {
      assert fa[0] in multiset(fb);
      var k :| 0 <= k < |fb| && fb[k] == fa[0];
      TakenOut(fa, fb, k);
      MappedWithout(f, a, 0);
      MappedWithout(f, b, k);
      assert a[..0] + a[1..] == a[1..] && fa[..0] + fa[1..] == fa[1..];
      ImagesTell(f, a[1..], b[..k] + b[k + 1..]);
      PutBack(a, b, k);
    }
  }
}
