/**
 * List operations of the host containers (`ArrayAdapter.Insert`/`Remove`,
 * `UICollectionView` insert/move/delete) as functions on sequences, and the
 * invariant of the reconcilers' placement pass: after placing the first `i`
 * containers, the host starts with exactly those containers and holds
 * nothing else but reused containers still waiting for their turn.
 */
module Sequences {

  predicate Distinct<E(==)>(s: seq<E>)
  {
    forall i, j :: 0 <= i < j < |s| ==> s[i] != s[j]
  }

  /** `Key(n)` is `n`; a proof opens a `Held` fact by mentioning `Key`. */
  function Key(n: int): int
  {
    n
  }

  /** `Held(b)` is `b`, phrased so that the solver learns `b` only where a
      proof calls `Unhold`: a proof that merely hands a long list of facts on
      to a callee does not have to carry them unfolded. */
  ghost predicate Held(b: bool)
  {
    forall u {:trigger Key(u)} :: Key(u) == 0 ==> b
  }

  lemma Unhold(b: bool)
    requires Held(b)
    ensures b
  {
    assert Key(0) == 0;
  }

  /** `List.Insert(index, x)`: `x` lands at `i`, the elements from `i` on shift right. */
  function InsertAt<E>(s: seq<E>, i: nat, x: E): (r: seq<E>)
    requires i <= |s|
    ensures |r| == |s| + 1 && r[i] == x
    ensures forall k :: 0 <= k < i ==> r[k] == s[k]
    ensures forall k :: i < k < |r| ==> r[k] == s[k - 1]
  {
    s[..i] + [x] + s[i..]
  }

  /** `List.RemoveAt(i)`: the element at `i` goes, those after it shift left. */
  function RemoveAt<E>(s: seq<E>, i: nat): (r: seq<E>)
    requires i < |s|
    ensures |r| == |s| - 1
    ensures forall k :: 0 <= k < i ==> r[k] == s[k]
    ensures forall k :: i <= k < |r| ==> r[k] == s[k + 1]
  {
    s[..i] + s[i + 1..]
  }

  /** The position of the first occurrence of `x`. */
  function IndexOf<E(==)>(s: seq<E>, x: E): (k: nat)
    requires x in s
    ensures k < |s| && s[k] == x && x !in s[..k]
  {
    if s[0] == x then 0 else 1 + IndexOf(s[1..], x)
  }

  /** Removing an element keeps the others and keeps them distinct. */
  lemma RemoveAtMembers<E>(s: seq<E>, i: nat, y: E)
    requires i < |s| && Distinct(s)
    ensures Distinct(RemoveAt(s, i))
    ensures y in RemoveAt(s, i) <==> y in s && y != s[i]
  {
    var r := RemoveAt(s, i);
    assert r == s[..i] + s[i + 1..];
    if y in s && y != s[i] {
      var k :| 0 <= k < |s| && s[k] == y;
      if k < i { assert r[k] == y; } else { assert r[k - 1] == y; }
    }
  }

  /** Inserting an element not yet present keeps a list distinct. */
  lemma InsertAtDistinct<E>(s: seq<E>, i: nat, x: E)
    requires i <= |s| && Distinct(s) && x !in s
    ensures Distinct(InsertAt(s, i, x))
  {
    var r := InsertAt(s, i, x);
    forall a, b | 0 <= a < b < |r|
      ensures r[a] != r[b]
    {
      if a == i {
        assert r[b] == s[b - 1];
      } else if b == i {
        assert r[a] == s[a];
      } else {
        var sa := if a < i then a else a - 1;
        var sb := if b < i then b else b - 1;
        assert r[a] == s[sa] && r[b] == s[sb] && sa < sb;
      }
    }
  }

  lemma DistinctSuffix<E>(s: seq<E>, i: nat)
    requires Distinct(s) && i <= |s|
    ensures Distinct(s[i..])
  {
    var t := s[i..];
    forall a, b | 0 <= a < b < |t|
      ensures t[a] != t[b]
    {
      assert t[a] == s[i + a] && t[b] == s[i + b];
    }
  }

  /** `s` without the elements of `d`, in the order of `s`. */
  function Without<E>(s: seq<E>, d: set<E>): (r: seq<E>)
    ensures |r| <= |s|
  {
    if s == [] then [] else (if s[0] in d then [] else [s[0]]) + Without(s[1..], d)
  }

  lemma {:induction false} WithoutMembers<E>(s: seq<E>, d: set<E>, x: E)
    ensures x in Without(s, d) <==> x in s && x !in d
  {
    if s != [] {
      WithoutMembers(s[1..], d, x);
      assert x in s <==> x == s[0] || x in s[1..];
    }
  }

  lemma {:induction false} WithoutNothing<E>(s: seq<E>)
    ensures Without(s, {}) == s
  {
    if s != [] {
      WithoutNothing(s[1..]);
      assert s == [s[0]] + s[1..];
    }
  }

  lemma {:induction false} WithoutDistinct<E>(s: seq<E>, d: set<E>)
    requires Distinct(s)
    ensures Distinct(Without(s, d))
  {
    if s != [] {
      DistinctSuffix(s, 1);
      WithoutDistinct(s[1..], d);
      WithoutMembers(s[1..], d, s[0]);
      var w := Without(s[1..], d);
      if s[0] !in d {
        assert s[0] !in w;
        InsertAtDistinct(w, 0, s[0]);
        assert [s[0]] + w == InsertAt(w, 0, s[0]);
      } else {
        assert [] + w == w;
      }
    }
  }

  /** Leaving out an element that does not occur changes nothing. */
  lemma {:induction false} WithoutAbsent<E>(s: seq<E>, d: set<E>, c: E)
    requires c !in s
    ensures Without(s, d + {c}) == Without(s, d)
  {
    if s != [] {
      WithoutAbsent(s[1..], d, c);
    }
  }

  /** Leaving out one more element `c` is removing `c` where it stands. */
  lemma {:induction false} WithoutOneMore<E>(s: seq<E>, d: set<E>, c: E)
    requires Distinct(s) && c in s && c !in d
    ensures c in Without(s, d)
    ensures Without(s, d + {c}) == RemoveAt(Without(s, d), IndexOf(Without(s, d), c))
  {
    WithoutMembers(s, d, c);
    DistinctSuffix(s, 1);
    var w := Without(s[1..], d);
    var w' := Without(s[1..], d + {c});
    assert Without(s, d) == (if s[0] in d then [] else [s[0]]) + w;
    assert Without(s, d + {c}) == (if s[0] in d + {c} then [] else [s[0]]) + w';
    if s[0] == c {
      assert c !in s[1..];
      WithoutAbsent(s[1..], d, c);
      RemoveAtFront(c, w);
    } else {
      assert c in s[1..];
      WithoutOneMore(s[1..], d, c);
      if s[0] !in d {
        RemoveAtBehind(s[0], w, c);
      } else {
        assert [] + w == w && [] + w' == w';
      }
    }
  }

  /** Taking out the head of a list that starts with `c`. */
  lemma RemoveAtFront<E>(c: E, w: seq<E>)
    ensures IndexOf([c] + w, c) == 0 && RemoveAt([c] + w, 0) == w
  {
    assert ([c] + w)[1..] == w;
  }

  /** Taking out `c` behind a different head `x` leaves the head in front. */
  lemma RemoveAtBehind<E>(x: E, w: seq<E>, c: E)
    requires c in w && x != c
    ensures IndexOf([x] + w, c) == 1 + IndexOf(w, c)
    ensures RemoveAt([x] + w, 1 + IndexOf(w, c)) == [x] + RemoveAt(w, IndexOf(w, c))
  {
    assert ([x] + w)[1..] == w;
  }

  /** A distinct list drawn from a distinct list `t` is no longer than `t`. */
  lemma {:induction false} DistinctInto<E>(s: seq<E>, t: seq<E>)
    requires Distinct(s) && Distinct(t)
    requires forall k :: 0 <= k < |s| ==> s[k] in t
    ensures |s| <= |t|
  {
    if s != [] {
      var t' := RemoveAt(t, IndexOf(t, s[0]));
      forall k | 0 <= k < |s| - 1
        ensures s[1..][k] in t'
      {
        assert s[1..][k] == s[k + 1] != s[0];
        RemoveAtMembers(t, IndexOf(t, s[0]), s[k + 1]);
      }
      RemoveAtMembers(t, IndexOf(t, s[0]), s[0]);
      DistinctInto(s[1..], t');
    }
  }

  /** The invariant of the placement pass after `i` steps. `cs` is the new
      container list, `host` the host's list and `reused` the containers that
      were already placed before the pass began. */
  ghost predicate Placed<E>(cs: seq<E>, host: seq<E>, i: nat, reused: set<E>)
  {
    && i <= |cs| && i <= |host| <= |cs| && host[..i] == cs[..i]
    && (forall k :: i <= k < |host| ==> host[k] in cs[i..] && host[k] in reused)
    && (forall j :: i <= j < |cs| && cs[j] in reused ==> cs[j] in host[i..])
    && Distinct(host)
  }

  /** Before the pass: the host holds exactly the reused containers, each of
      which has a place in the new list. */
  lemma PlacedStart<E>(cs: seq<E>, host: seq<E>, reused: set<E>)
    requires Distinct(host)
    requires forall x :: x in host <==> x in reused
    requires forall x :: x in reused ==> x in cs
    requires Distinct(cs)
    ensures Placed(cs, host, 0, reused)
  {
    DistinctInto(host, cs);
    assert cs[0..] == cs && host[0..] == host;
  }

  /** After the pass the host's list is the new container list. */
  lemma PlacedDone<E>(cs: seq<E>, host: seq<E>, reused: set<E>)
    requires Placed(cs, host, |cs|, reused)
    ensures host == cs
  {
    assert host == host[..|cs|] == cs[..|cs|] == cs;
  }

  /** A reused container is always somewhere at or after its target index,
      so looking it up there cannot go past the end. */
  lemma PlacedReusedPresent<E>(cs: seq<E>, host: seq<E>, i: nat, reused: set<E>)
    requires Placed(cs, host, i, reused) && i < |cs| && cs[i] in reused && Distinct(cs)
    ensures i < |host| && cs[i] in host
    ensures forall k :: 0 <= k < |host| && host[k] == cs[i] ==> i <= k
  {
    assert cs[i] in host[i..];
    forall k | 0 <= k < i
      ensures host[k] != cs[i]
    {
      assert host[k] == host[..i][k] == cs[..i][k] == cs[k];
    }
  }

  /** Step for a reused container already at its index. */
  lemma PlaceKept<E>(cs: seq<E>, host: seq<E>, i: nat, reused: set<E>)
    requires Placed(cs, host, i, reused) && i < |cs| && Distinct(cs)
    requires i < |host| && host[i] == cs[i]
    ensures Placed(cs, host, i + 1, reused)
  {
    assert host[..i + 1] == host[..i] + [host[i]];
    assert cs[..i + 1] == cs[..i] + [cs[i]];
    forall k | i + 1 <= k < |host|
      ensures host[k] in cs[i + 1..]
    {
      assert host[k] in cs[i..];
      var j :| i <= j < |cs| && cs[j] == host[k];
      assert j != i;
      assert cs[j] == cs[i + 1..][j - i - 1];
    }
    forall j | i + 1 <= j < |cs| && cs[j] in reused
      ensures cs[j] in host[i + 1..]
    {
      assert cs[j] in host[i..];
      var k :| i <= k < |host| && host[k] == cs[j];
      assert k != i;
      assert host[k] == host[i + 1..][k - i - 1];
    }
  }

  /** Step for a container never placed before: it is inserted at its index. */
  lemma PlaceFresh<E>(cs: seq<E>, host: seq<E>, i: nat, reused: set<E>)
    requires Placed(cs, host, i, reused) && i < |cs| && Distinct(cs)
    requires cs[i] !in reused
    ensures Placed(cs, InsertAt(host, i, cs[i]), i + 1, reused)
  {
    var h := InsertAt(host, i, cs[i]);
    assert h[..i] == host[..i];
    assert h[..i + 1] == h[..i] + [h[i]];
    assert cs[..i + 1] == cs[..i] + [cs[i]];
    forall k | i + 1 <= k < |h|
      ensures h[k] in cs[i + 1..] && h[k] in reused
    {
      assert h[k] == h[i + 1..][k - i - 1] == host[k - 1];
      assert host[k - 1] in cs[i..];
      var j :| i <= j < |cs| && cs[j] == h[k];
      assert j != i;
      assert cs[j] == cs[i + 1..][j - i - 1];
    }
    forall j | i + 1 <= j < |cs| && cs[j] in reused
      ensures cs[j] in h[i + 1..]
    {
      assert cs[j] in host[i..];
      assert h[i + 1..] == host[i..];
    }
    forall k | 0 <= k < |host|
      ensures host[k] != cs[i]
    {
      if k < i {
        assert host[k] == host[..i][k] == cs[..i][k] == cs[k];
      } else {
        assert host[k] in reused;
      }
    }
    InsertAtDistinct(host, i, cs[i]);
    var tail := host[i..];
    DistinctSuffix(host, i);
    forall k | 0 <= k < |tail|
      ensures tail[k] in cs[i + 1..]
    {
      assert tail[k] == h[i + 1 + k];
    }
    DistinctSuffix(cs, i + 1);
    DistinctInto(tail, cs[i + 1..]);
  }

  /** Step for a reused container found elsewhere (at `p`): it is taken out and
      put back at its index, as `Remove` then `Insert`, or as a move. */
  lemma PlaceMove<E>(cs: seq<E>, host: seq<E>, i: nat, reused: set<E>, p: nat)
    requires Placed(cs, host, i, reused) && i < |cs| && Distinct(cs)
    requires cs[i] in reused && p < |host| && host[p] == cs[i] && host[i] != cs[i]
    ensures i < p
    ensures Placed(cs, InsertAt(RemoveAt(host, p), i, cs[i]), i + 1, reused)
  {
    PlacedReusedPresent(cs, host, i, reused);
    var r := RemoveAt(host, p);
    MoveOut(cs, host, i, reused, p);
    PlaceFresh(cs, r, i, reused - {cs[i]});
    PlacedWiden(cs, InsertAt(r, i, cs[i]), i + 1, reused, cs[i]);
  }

  /** Taking the reused `cs[i]` out of the host leaves a host placed up to `i`
      for the other reused containers. */
  lemma MoveOut<E>(cs: seq<E>, host: seq<E>, i: nat, reused: set<E>, p: nat)
    requires Placed(cs, host, i, reused) && i < |cs| && Distinct(cs)
    requires cs[i] in reused && i < p < |host| && host[p] == cs[i]
    ensures Placed(cs, RemoveAt(host, p), i, reused - {cs[i]})
  {
    var r := RemoveAt(host, p);
    assert r[..i] == host[..i];
    forall k | i <= k < |r|
      ensures r[k] in cs[i..] && r[k] in reused - {cs[i]}
    {
      var hk := if k < p then k else k + 1;
      assert r[k] == host[hk];
      assert host[k] != host[p] || k == p;
    }
    forall j | i <= j < |cs| && cs[j] in reused - {cs[i]}
      ensures cs[j] in r[i..]
    {
      assert cs[j] in host[i..];
      var k :| i <= k < |host| && host[k] == cs[j];
      assert k != p;
      var rk := if k < p then k else k - 1;
      assert r[rk] == cs[j];
      assert r[i..][rk - i] == cs[j];
    }
    RemoveAtMembers(host, p, cs[i]);
  }

  /** A host placed up to `i` for all reused containers but `c`, where `c` lies
      before `i`, is placed for all of them. */
  lemma PlacedWiden<E>(cs: seq<E>, h: seq<E>, i: nat, reused: set<E>, c: E)
    requires Placed(cs, h, i, reused - {c}) && Distinct(cs) && c in cs[..i]
    ensures Placed(cs, h, i, reused)
  {
    forall j | i <= j < |cs| && cs[j] in reused
      ensures cs[j] in h[i..]
    {
      var m :| 0 <= m < i && cs[..i][m] == c;
      assert cs[m] == c && m != j;
    }
  }
}
