/** Circular doubly-linked lists threaded through index arrays, as the toroidal matrix uses
    them: a sentinel `h` and the sequence of members it heads, linked by `next` and `prev`. */
module CircularLists {

  predicate Distinct(s: seq<int>) {
    forall i, j :: 0 <= i < j < |s| ==> s[i] != s[j]
  }

  /** Following `next` from the sentinel h visits s in order and comes back to h;
      following `prev` visits it in reverse. An empty list is h pointing to itself. */
  predicate Encodes(next: seq<int>, prev: seq<int>, h: int, s: seq<int>) {
    |prev| == |next| && 0 <= h < |next| &&
    (forall k :: 0 <= k < |s| ==> 0 <= s[k] < |next|) &&
    next[h] == (if s == [] then h else s[0]) &&
    prev[h] == (if s == [] then h else s[|s| - 1]) &&
    (forall k {:trigger next[s[k]]} :: 0 <= k < |s| ==> next[s[k]] == if k + 1 < |s| then s[k + 1] else h) &&
    (forall k {:trigger prev[s[k]]} :: 0 <= k < |s| ==> prev[s[k]] == if k > 0 then s[k - 1] else h)
  }

  /** A prefix one longer is the shorter prefix and one more element. */
  lemma PrefixSnoc(s: seq<int>, k: int)
    requires 0 < k <= |s|
    ensures s[..k] == s[..k - 1] + [s[k - 1]]
  {
  }

  /** In a list without repeats, no element occurs before its own position. */
  lemma DistinctPrefix(s: seq<int>, k: int)
    requires Distinct(s) && 0 <= k < |s|
    ensures s[k] !in s[..k]
  {
  }

  /** s without the elements of t, order kept. */
  function Without(s: seq<int>, t: seq<int>): (r: seq<int>)
    ensures |r| <= |s|
    ensures forall x :: x in r <==> x in s && x !in t
  {
    if s == [] then [] else (if s[0] in t then [] else [s[0]]) + Without(s[1..], t)
  }

  lemma {:induction false} WithoutDistinct(s: seq<int>, t: seq<int>)
    requires Distinct(s)
    ensures Distinct(Without(s, t))
  {
    if s != [] {
      WithoutDistinct(s[1..], t);
      var rest := Without(s[1..], t);
      forall j | 0 <= j < |s| - 1
        ensures s[1..][j] != s[0]
      {
        assert s[1..][j] == s[j + 1];
      }
      assert s[0] !in s[1..];
      assert s[0] !in rest;
    }
  }

  lemma {:induction false} WithoutNothing(s: seq<int>, t: seq<int>)
    requires forall k :: 0 <= k < |s| ==> s[k] !in t
    ensures Without(s, t) == s
  {
    if s != [] {
      assert s[0] !in t;
      forall k | 0 <= k < |s| - 1
        ensures s[1..][k] !in t
      {
        assert s[1..][k] == s[k + 1];
      }
      WithoutNothing(s[1..], t);
      assert Without(s, t) == [s[0]] + Without(s[1..], t);
      assert [s[0]] + s[1..] == s;
    }
  }

  /** Removing t and then x is removing t + [x]. */
  lemma {:induction false} WithoutSnoc(s: seq<int>, t: seq<int>, x: int)
    ensures Without(s, t + [x]) == Without(Without(s, t), [x])
  {
    if s != [] {
      WithoutSnoc(s[1..], t, x);
      var w1 := Without(s[1..], t);
      if s[0] in t {
        assert s[0] in t + [x];
        assert Without(s, t) == w1;
      } else {
        var w := Without(s, t);
        assert w == [s[0]] + w1;
        assert w[0] == s[0] && w[1..] == w1;
        assert Without(w, [x]) == (if s[0] in [x] then [] else [s[0]]) + Without(w1, [x]);
        assert (s[0] in t + [x]) == (s[0] in [x]);
      }
    }
  }

  /** Removing one member of a list without repeats cuts it out at its position. */
  lemma {:induction false} WithoutAt(s: seq<int>, p: int)
    requires Distinct(s) && 0 <= p < |s|
    ensures Without(s, [s[p]]) == s[..p] + s[p + 1..]
  {
    if p == 0 {
      WithoutNothing(s[1..], [s[0]]);
      assert s[1..] == s[..0] + s[1..];
    } else {
      WithoutAt(s[1..], p - 1);
      assert s[1..][p - 1] == s[p];
      assert s[1..][..p - 1] + s[1..][p..] == s[1..p] + s[p + 1..];
      assert [s[0]] + (s[1..p] + s[p + 1..]) == s[..p] + s[p + 1..];
    }
  }

  lemma {:induction false} WithoutLength(s: seq<int>, x: int)
    requires Distinct(s) && x in s
    ensures |Without(s, [x])| == |s| - 1
  {
    var p :| 0 <= p < |s| && s[p] == x;
    WithoutAt(s, p);
  }

  /** In a well-formed list, a member's neighbours point back at it, and it is not its own
      neighbour. */
  lemma EncodesLocal(next: seq<int>, prev: seq<int>, h: int, s: seq<int>, p: int)
    requires Encodes(next, prev, h, s) && Distinct(s) && h !in s && 0 <= p < |s|
    ensures 0 <= prev[s[p]] < |next| && 0 <= next[s[p]] < |next|
    ensures next[prev[s[p]]] == s[p] && prev[next[s[p]]] == s[p]
    ensures next[s[p]] != s[p] && prev[s[p]] != s[p]
  {
    if p > 0 {
      assert prev[s[p]] == s[p - 1];
      assert next[s[p - 1]] == s[p];
    } else {
      assert prev[s[p]] == h;
    }
    if p + 1 < |s| {
      assert next[s[p]] == s[p + 1];
      assert prev[s[p + 1]] == s[p];
    } else {
      assert next[s[p]] == h;
    }
  }

  /** One position of the list left after unlinking s[p]: its links as the splice leaves them. */
  lemma SpliceOutAt(next: seq<int>, prev: seq<int>, h: int, s: seq<int>, p: int, k: int)
    requires Encodes(next, prev, h, s) && Distinct(s) && h !in s && 0 <= p < |s|
    requires 0 <= k < |s| - 1
    ensures var x := s[p];
      var prev1 := prev[next[x] := prev[x]];
      var next1 := next[prev1[x] := next[x]];
      var s' := s[..p] + s[p + 1..];
      next1[s'[k]] == (if k + 1 < |s'| then s'[k + 1] else h) &&
      prev1[s'[k]] == (if k > 0 then s'[k - 1] else h)
  {
    var x := s[p];
    EncodesLocal(next, prev, h, s, p);
    var prv, nxt := prev[x], next[x];
    var s' := s[..p] + s[p + 1..];
    assert prv == if p > 0 then s[p - 1] else h;
    assert nxt == if p + 1 < |s| then s[p + 1] else h;
    if k < p {
      assert s'[k] == s[k];
      if k + 1 < p {
        assert s'[k + 1] == s[k + 1];
      } else if k + 1 < |s'| {
        assert s'[k + 1] == s[k + 2];
      }
      if k > 0 {
        assert s'[k - 1] == s[k - 1];
      }
      if k == p - 1 {
        assert s[k] == prv;
      } else {
        assert s[k] != prv;
      }
      assert s[k] != nxt;
    } else {
      assert s'[k] == s[k + 1];
      if k + 1 < |s'| {
        assert s'[k + 1] == s[k + 2];
      }
      if k > p {
        assert s'[k - 1] == s[k];
      } else if k > 0 {
        assert s'[k - 1] == s[k - 1];
      }
      assert s[k + 1] != prv;
      if k == p {
        assert s[k + 1] == nxt;
      } else {
        assert s[k + 1] != nxt;
      }
    }
  }

  /** Unlinking member s[p] (`x.next.prev = x.prev; x.prev.next = x.next`) leaves a
      well-formed list of the remaining members, in the same order. */
  lemma EncodesSpliceOut(next: seq<int>, prev: seq<int>, h: int, s: seq<int>, p: int)
    requires Encodes(next, prev, h, s) && Distinct(s) && h !in s && 0 <= p < |s|
    ensures var x := s[p];
      var prev1 := prev[next[x] := prev[x]];
      var next1 := next[prev1[x] := next[x]];
      Encodes(next1, prev1, h, s[..p] + s[p + 1..])
  {
    var x := s[p];
    EncodesLocal(next, prev, h, s, p);
    var prv, nxt := prev[x], next[x];
    var prev1 := prev[nxt := prv];
    var next1 := next[prv := nxt];
    var s' := s[..p] + s[p + 1..];
    assert |s'| == |s| - 1;
    forall k | 0 <= k < |s'|
      ensures 0 <= s'[k] < |next|
    {
      if k < p { assert s'[k] == s[k]; } else { assert s'[k] == s[k + 1]; }
    }
    forall k | 0 <= k < |s'|
      ensures next1[s'[k]] == if k + 1 < |s'| then s'[k + 1] else h
      ensures prev1[s'[k]] == if k > 0 then s'[k - 1] else h
    {
      SpliceOutAt(next, prev, h, s, p, k);
    }
    if p > 0 {
      assert s'[0] == s[0];
    } else if |s'| > 0 {
      assert s'[0] == s[1];
    }
    if p < |s| - 1 {
      assert s'[|s'| - 1] == s[|s| - 1];
    } else if |s'| > 0 {
      assert s'[|s'| - 1] == s[|s| - 2];
    }
  }

  /** A list is untouched by writes to cells that are neither its sentinel nor its members,
      and by the arrays growing. */
  lemma EncodesFrame(next: seq<int>, prev: seq<int>, next1: seq<int>, prev1: seq<int>, h: int, s: seq<int>)
    requires Encodes(next, prev, h, s)
    requires |next| <= |next1| && |prev1| == |next1|
    requires next1[h] == next[h] && prev1[h] == prev[h]
    requires forall k :: 0 <= k < |s| ==> next1[s[k]] == next[s[k]] && prev1[s[k]] == prev[s[k]]
    ensures Encodes(next1, prev1, h, s)
  {
  }

  /** Linking a fresh cell n after the last member (`n.next = last.next; n.next.prev = n;
      last.next = n; n.prev = last`) appends it to the list. */
  lemma EncodesAppend(next: seq<int>, prev: seq<int>, h: int, s: seq<int>, n: int)
    requires Encodes(next, prev, h, s) && Distinct(s) && h !in s
    requires 0 <= n < |next| && n != h && n !in s
    ensures var last := prev[h];
      var next1 := next[n := next[last]];
      var prev1 := prev[next1[n] := n];
      var next2 := next1[last := n];
      var prev2 := prev1[n := last];
      Encodes(next2, prev2, h, s + [n]) && Distinct(s + [n])
  {
    var last := prev[h];
    assert next[last] == h;
    var s' := s + [n];
    var next2 := next[n := h][last := n];
    var prev2 := prev[h := n][n := last];
    forall k | 0 <= k < |s'|
      ensures next2[s'[k]] == if k + 1 < |s'| then s'[k + 1] else h
      ensures prev2[s'[k]] == if k > 0 then s'[k - 1] else h
    {
      if k < |s| - 1 {
        assert s[k] != last;
      }
    }
  }
}
