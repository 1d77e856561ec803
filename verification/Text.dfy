/** The byte order of strings, and the one sorted listing of a set of them. */
module Text {

  predicate Less(s: string, t: string) {
    if t == "" then false
    else if s == "" then true
    else if s[0] != t[0] then s[0] < t[0]
    else Less(s[1..], t[1..])
  }

  lemma {:induction false} LessTotal(s: string, t: string)
    ensures !Less(s, s)
    ensures s == t || Less(s, t) || Less(t, s)
    ensures !(Less(s, t) && Less(t, s))
  {
    if s != "" {
      LessTotal(s[1..], if t != "" then t[1..] else s[1..]);
    }
    if s != "" && t != "" && s[0] == t[0] {
      assert s == [s[0]] + s[1..] && t == [t[0]] + t[1..];
    }
  }

  lemma {:induction false} LessTransitive(s: string, t: string, u: string)
    requires Less(s, t) && Less(t, u)
    ensures Less(s, u)
  {
    if s != "" && s[0] == t[0] && t[0] == u[0] {
      LessTransitive(s[1..], t[1..], u[1..]);
    }
  }

  /** Strings are ordered by their first difference, a proper prefix coming first. */
  lemma {:induction false} LessIsLexicographic(s: string, t: string)
    ensures Less(s, t) <==> s < t || exists k :: 0 <= k < |s| && k < |t| && s[..k] == t[..k] && s[k] < t[k]
    decreases |s|
  {
    if s != [] && t != [] && s[0] == t[0] {
      var s', t' := s[1..], t[1..];
      LessIsLexicographic(s', t');
      assert s < t <==> s' < t';
      if k :| 0 <= k < |s'| && k < |t'| && s'[..k] == t'[..k] && s'[k] < t'[k] {
        assert s[..k + 1] == [s[0]] + s'[..k] && t[..k + 1] == [t[0]] + t'[..k];
        assert s[k + 1] < t[k + 1];
      }
      if k :| 0 <= k < |s| && k < |t| && s[..k] == t[..k] && s[k] < t[k] {
        assert s'[..k - 1] == s[..k][1..] && t'[..k - 1] == t[..k][1..];
        assert s'[k - 1] < t'[k - 1];
      }
    } else if s != [] && t != [] {
      assert s[..0] == t[..0];
    }
  }

  predicate Ascending(xs: seq<string>) {
    forall i, j :: 0 <= i < j < |xs| ==> Less(xs[i], xs[j])
  }

  function Elements(xs: seq<string>): set<string> {
    set x | x in xs
  }

  /** A set has at most one ascending listing, whatever order it was collected in. */
  lemma {:induction false} AscendingUnique(xs: seq<string>, ys: seq<string>)
    requires Ascending(xs) && Ascending(ys) && Elements(xs) == Elements(ys)
    ensures xs == ys
  {
    assert ys != [] ==> ys[0] in Elements(ys);
    if xs != [] {
      assert xs[0] in Elements(ys);
      assert ys[0] in Elements(xs);
      var i :| 0 <= i < |ys| && ys[i] == xs[0];
      var j :| 0 <= j < |xs| && xs[j] == ys[0];
      LessTotal(xs[0], ys[0]);
      LessTotal(xs[0], xs[0]);
      assert xs == [xs[0]] + xs[1..] && ys == [ys[0]] + ys[1..];
      forall x
        ensures x in xs[1..] <==> x in ys[1..]
      {
        LessTotal(xs[0], xs[0]);
        if x in xs[1..] {
          assert x in Elements(ys) && Less(xs[0], x);
        }
        if x in ys[1..] {
          assert x in Elements(xs) && Less(ys[0], x);
        }
      }
      AscendingUnique(xs[1..], ys[1..]);
    }
  }

  /** `sort.Strings` on distinct strings. */
  method Sort(xs: seq<string>) returns (r: seq<string>)
    requires forall i, j :: 0 <= i < j < |xs| ==> xs[i] != xs[j]
    ensures Ascending(r) && Elements(r) == Elements(xs)
  {
    r := [];
    for n := 0 to |xs|
      invariant Ascending(r) && Elements(r) == Elements(xs[..n])
    {
      var x := xs[n];
      assert xs[..n + 1] == xs[..n] + [x];
      NotYetPlaced(xs, n, r);
      var k := 0;
      while k < |r| && Less(r[k], x)
        invariant 0 <= k <= |r|
        invariant forall i :: 0 <= i < k ==> Less(r[i], x)
      {
        k := k + 1;
      }
      InsertAscending(r, k, x);
      assert Elements(r[..k] + [x] + r[k..]) == Elements(r) + {x} by {
        assert r == r[..k] + r[k..];
      }
      r := r[..k] + [x] + r[k..];
    }
    assert xs[..|xs|] == xs;
  }

  /** What is placed so far are earlier elements, so they differ from the next one. */
  lemma NotYetPlaced(xs: seq<string>, n: nat, r: seq<string>)
    requires n < |xs| && Elements(r) == Elements(xs[..n])
    requires forall i, j :: 0 <= i < j < |xs| ==> xs[i] != xs[j]
    ensures xs[n] !in r
  {
    forall k | 0 <= k < |r|
      ensures r[k] != xs[n]
    {
      assert r[k] in Elements(r);
      var i :| 0 <= i < n && xs[i] == r[k];
    }
  }

  lemma InsertAscending(r: seq<string>, k: nat, x: string)
    requires Ascending(r) && k <= |r| && x !in r
    requires forall i :: 0 <= i < k ==> Less(r[i], x)
    requires k < |r| ==> !Less(r[k], x)
    ensures Ascending(r[..k] + [x] + r[k..])
  {
    forall i | k <= i < |r|
      ensures Less(x, r[i])
    {
      LessTotal(r[k], x);
      if i > k {
        LessTransitive(x, r[k], r[i]);
      }
    }
  }
}
