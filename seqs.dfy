/**
 * Order-preserving selection from a sequence: Python's `[x for x in xs if p(x)]`,
 * and the loop that keeps what a decoder accepts.
 */
module Seqs {
  import opened Wrappers

  /** The elements of `s` that satisfy `p`, in the order they occur in `s`. */
  function Filter<T>(s: seq<T>, p: T -> bool): (r: seq<T>)
    ensures |r| <= |s|
    ensures forall i :: 0 <= i < |r| ==> r[i] in s && p(r[i])
    ensures forall i :: 0 <= i < |s| && p(s[i]) ==> s[i] in r
  {
    if s == [] then []
    else
      var rest := Filter(s[1..], p);
      assert forall i :: 1 <= i < |s| ==> s[i] == s[1..][i - 1];
      if p(s[0]) then [s[0]] + rest else rest
  }

  /** Selecting from a concatenation selects from each part, keeping the parts in order. */
  lemma {:induction false} FilterConcat<T>(a: seq<T>, b: seq<T>, p: T -> bool)
    ensures Filter(a + b, p) == Filter(a, p) + Filter(b, p)
  {
    if a == [] {
      assert a + b == b;
    } else {
      var ab := a + b;
      assert ab[0] == a[0] && ab[1..] == a[1..] + b;
      FilterConcat(a[1..], b, p);
    }
  }

  /** Selecting from one element keeps it exactly when it satisfies `p`. */
  lemma FilterSingleton<T>(x: T, p: T -> bool)
    ensures Filter([x], p) == if p(x) then [x] else []
  {
  }

  /** Every element is selected exactly when the selection is the whole sequence. */
  lemma {:induction false} FilterAll<T>(s: seq<T>, p: T -> bool)
    ensures Filter(s, p) == s <==> forall i :: 0 <= i < |s| ==> p(s[i])
  {
    if s != [] {
      FilterAll(s[1..], p);
      if !p(s[0]) { assert |Filter(s, p)| < |s|; }
    }
  }

  /** Selecting around position `i`: the part before it, the element itself, and the part after it. */
  lemma FilterAround<T>(s: seq<T>, i: nat, p: T -> bool)
    requires i < |s|
    ensures Filter(s, p) == Filter(s[..i], p) + (Filter([s[i]], p) + Filter(s[i + 1..], p))
  {
    assert s == s[..i] + s[i..];
    FilterConcat(s[..i], s[i..], p);
    assert s[i..] == [s[i]] + s[i + 1..];
    FilterConcat([s[i]], s[i + 1..], p);
  }

  /**
   * When `q` implies `p`, selecting by `q` is selecting by `q` from what `p`
   * selects.
   */
  lemma {:induction false} FilterNarrow<T>(s: seq<T>, p: T -> bool, q: T -> bool)
    requires forall x :: q(x) ==> p(x)
    ensures Filter(s, q) == Filter(Filter(s, p), q)
  {
    if s != [] {
      FilterNarrow(s[1..], p, q);
      var rest := Filter(s[1..], p);
      if p(s[0]) {
        assert Filter(s, p) == [s[0]] + rest;
        assert ([s[0]] + rest)[0] == s[0] && ([s[0]] + rest)[1..] == rest;
      }
    }
  }

  /** `[f(x) for x in xs]`. */
  function Map<T, R>(xs: seq<T>, f: T -> R): (r: seq<R>)
    ensures |r| == |xs|
    ensures forall i :: 0 <= i < |xs| ==> r[i] == f(xs[i])
  {
    if xs == [] then []
    else
      var rest := Map(xs[1..], f);
      assert forall i :: 1 <= i < |xs| ==> xs[i] == xs[1..][i - 1];
      [f(xs[0])] + rest
  }

  /**
   * Decoding each item in order, keeping the values `decode` produces and
   * skipping the items it rejects (`Caught`); an item on which it raises an
   * uncaught exception (`Escaped`) gives `None` for the whole sequence.
   */
  function KeepDecoded<R, T>(items: seq<R>, decode: R -> Outcome<T>): (r: Option<seq<T>>)
    ensures r.Some? <==> forall i :: 0 <= i < |items| ==> !decode(items[i]).Escaped?
    ensures r.Some? ==> |r.value| <= |items|
  {
    if items == [] then Some([])
    else
      var rest := KeepDecoded(items[1..], decode);
      assert forall i :: 1 <= i < |items| ==> items[i] == items[1..][i - 1];
      match decode(items[0])
      case Escaped => None
      case Caught => rest
      case Ok(t) => if rest.Some? then Some([t] + rest.value) else None
  }

  /** Decoding one item keeps its value, skips it, or abandons the sequence. */
  lemma KeepDecodedOne<R, T>(item: R, decode: R -> Outcome<T>)
    ensures KeepDecoded([item], decode) == match decode(item)
                                           case Ok(t) => Some([t])
                                           case Caught => Some([])
                                           case Escaped => None
  {
    assert [item][0] == item && [item][1..] == [];
    assert KeepDecoded([item][1..], decode) == Some([]);
    match decode(item)
    case Ok(t) => assert [t] + [] == [t];
    case Caught =>
    case Escaped =>
  }

  /** Decoding a concatenation decodes each part and concatenates the results, in order. */
  lemma {:induction false} KeepDecodedConcat<R, T>(a: seq<R>, b: seq<R>, decode: R -> Outcome<T>)
    ensures KeepDecoded(a + b, decode)
            == if KeepDecoded(a, decode).Some? && KeepDecoded(b, decode).Some?
               then Some(KeepDecoded(a, decode).value + KeepDecoded(b, decode).value) else None
  {
    if a == [] {
      assert a + b == b;
      assert KeepDecoded(a, decode) == Some([]);
      if KeepDecoded(b, decode).Some? {
        assert [] + KeepDecoded(b, decode).value == KeepDecoded(b, decode).value;
      }
    } else {
      assert (a + b)[0] == a[0] && (a + b)[1..] == a[1..] + b;
      KeepDecodedConcat(a[1..], b, decode);
      var rest, tail := KeepDecoded(a[1..], decode), KeepDecoded(b, decode);
      match decode(a[0])
      case Escaped =>
      case Caught =>
      case Ok(t) =>
        if rest.Some? && tail.Some? {
          assert [t] + (rest.value + tail.value) == ([t] + rest.value) + tail.value;
        }
    }
  }

  /** Decoding one more item extends, keeps or abandons what was decoded so far. */
  lemma KeepDecodedSnoc<R, T>(items: seq<R>, item: R, decode: R -> Outcome<T>)
    requires KeepDecoded(items, decode).Some?
    ensures KeepDecoded(items + [item], decode)
            == match decode(item)
               case Ok(t) => Some(KeepDecoded(items, decode).value + [t])
               case Caught => KeepDecoded(items, decode)
               case Escaped => None
  {
    KeepDecodedConcat(items, [item], decode);
    KeepDecodedOne(item, decode);
    var done := KeepDecoded(items, decode).value;
    assert done + [] == done;
  }

  /** One item on which `decode` raises an uncaught exception abandons the whole sequence. */
  lemma KeepDecodedEscaped<R, T>(items: seq<R>, i: nat, decode: R -> Outcome<T>)
    requires i < |items| && decode(items[i]).Escaped?
    ensures KeepDecoded(items, decode) == None
  {
  }

  /** Decoding what `encode` produced gives back every item, in order, when `decode` inverts `encode`. */
  lemma {:induction false} KeepDecodedMap<T, R>(xs: seq<T>, encode: T -> R, decode: R -> Outcome<T>)
    requires forall x :: decode(encode(x)) == Ok(x)
    ensures KeepDecoded(Map(xs, encode), decode) == Some(xs)
  {
    if xs != [] {
      KeepDecodedMap(xs[1..], encode, decode);
      var encoded := Map(xs, encode);
      assert encoded[0] == encode(xs[0]);
      assert encoded[1..] == Map(xs[1..], encode);
      assert [xs[0]] + xs[1..] == xs;
    }
  }
}
