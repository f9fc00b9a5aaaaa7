/**
 * Helpers over arrays of strings (ids, topic labels, source types) that the
 * source gets from JavaScript built-ins: `filter(x => x !== v)` and
 * `Array.from(new Set(xs))`, and the notions used to state their results.
 */
module Lists {

  /** No element occurs twice. */
  predicate NoDup(s: seq<string>) {
    forall i, j :: 0 <= i < j < |s| ==> s[i] != s[j]
  }

  /** Number of occurrences of `x` in `s`. */
  function Count(s: seq<string>, x: string): nat {
    if s == [] then 0 else (if s[0] == x then 1 else 0) + Count(s[1..], x)
  }

  /** `s.filter(y => y !== x)`: `s` without any `x`, the other elements
      kept in order and each as often as before. */
  function RemoveAll(s: seq<string>, x: string): (r: seq<string>)
    ensures |r| <= |s|
    ensures forall y :: y in r <==> y in s && y != x
    ensures IsSubseq(r, s)
    ensures forall y :: y != x ==> Count(r, y) == Count(s, y)
  {
    if s == [] then []
    else
      var t := RemoveAll(s[1..], x);
      if s[0] == x then
        assert t != [] ==> t[0] in t && t[0] != s[0];
        t
      else
        assert ([s[0]] + t)[1..] == t;
        [s[0]] + t
  }

  /** `Array.from(new Set(s))`: the distinct elements of `s` in the order of
      their first occurrence. */
  function Dedup(s: seq<string>): (r: seq<string>)
    ensures forall y :: y in r <==> y in s
    ensures NoDup(r)
  {
    if s == [] then []
    else
      var d := Dedup(s[..|s| - 1]);
      var x := s[|s| - 1];
      assert forall y :: y in s <==> y in s[..|s| - 1] || y == x;
      if x in d then d else d + [x]
  }

  /** `sub` is `s` with some elements left out, the rest kept in order. */
  predicate IsSubseq(sub: seq<string>, s: seq<string>) {
    if sub == [] then true
    else if s == [] then false
    else if sub[0] == s[0] then IsSubseq(sub[1..], s[1..])
    else IsSubseq(sub, s[1..])
  }

  lemma {:induction false} IsSubseqLength(sub: seq<string>, s: seq<string>)
    requires IsSubseq(sub, s)
    ensures |sub| <= |s|
  {
    if sub != [] {
      if sub[0] == s[0] { IsSubseqLength(sub[1..], s[1..]); } else { IsSubseqLength(sub, s[1..]); }
    }
  }

  /** A subsequence of `s` is a subsequence of `s` with anything in front. */
  lemma {:induction false} IsSubseqCons(sub: seq<string>, x: string, s: seq<string>)
    requires IsSubseq(sub, s)
    ensures IsSubseq(sub, [x] + s)
    decreases |s|, 1
  {
    assert ([x] + s)[1..] == s;
    if sub != [] && sub[0] == x {
      IsSubseqDropHead(sub, s);
    }
  }

  /** Dropping the first element of a subsequence keeps it a subsequence. */
  lemma {:induction false} IsSubseqDropHead(sub: seq<string>, s: seq<string>)
    requires sub != [] && IsSubseq(sub, s)
    ensures IsSubseq(sub[1..], s)
    decreases |s|, 0
  {
    assert s == [s[0]] + s[1..];
    if sub[0] == s[0] {
      IsSubseqCons(sub[1..], s[0], s[1..]);
    } else {
      IsSubseqDropHead(sub, s[1..]);
      IsSubseqCons(sub[1..], s[0], s[1..]);
    }
  }

  lemma {:induction false} RemoveAllKeepsNoDup(s: seq<string>, x: string)
    requires NoDup(s)
    ensures NoDup(RemoveAll(s, x))
  {
    if s != [] {
      assert NoDup(s[1..]) by {
        forall i, j | 0 <= i < j < |s| - 1 ensures s[1..][i] != s[1..][j] {
          assert s[1..][i] == s[i + 1] && s[1..][j] == s[j + 1];
        }
      }
      RemoveAllKeepsNoDup(s[1..], x);
      var tail := RemoveAll(s[1..], x);
      if s[0] != x {
        assert s[0] !in s[1..] by {
          forall k | 0 <= k < |s| - 1 ensures s[1..][k] != s[0] { assert s[1..][k] == s[k + 1]; }
        }
        assert s[0] !in tail;
      }
    }
  }

  /** On a list without duplicates `Array.from(new Set(s))` changes nothing. */
  lemma {:induction false} DedupOfNoDup(s: seq<string>)
    requires NoDup(s)
    ensures Dedup(s) == s
  {
    if s != [] {
      var init := s[..|s| - 1];
      assert NoDup(init) by {
        forall i, j | 0 <= i < j < |init| ensures init[i] != init[j] { }
      }
      DedupOfNoDup(init);
      assert s[|s| - 1] !in init;
      assert init + [s[|s| - 1]] == s;
    }
  }

  lemma {:induction false} CountRemoveAll(s: seq<string>, x: string)
    ensures Count(RemoveAll(s, x), x) == 0
  {
    if s != [] {
      CountRemoveAll(s[1..], x);
      var tail := RemoveAll(s[1..], x);
      if s[0] != x {
        assert RemoveAll(s, x) == [s[0]] + tail;
        assert ([s[0]] + tail)[1..] == tail;
      } else {
        assert RemoveAll(s, x) == tail;
      }
    }
  }

  lemma {:induction false} CountOfPrefix(s: seq<string>, n: nat, x: string)
    requires n <= |s|
    ensures Count(s[..n], x) <= Count(s, x)
  {
    if n > 0 {
      assert s[..n][1..] == s[1..][..n - 1];
      CountOfPrefix(s[1..], n - 1, x);
    }
  }

  /** Adding one element to a `Set` built from `s`. */
  lemma DedupSnoc(s: seq<string>, x: string)
    ensures Dedup(s + [x]) == if x in Dedup(s) then Dedup(s) else Dedup(s) + [x]
  {
    assert (s + [x])[..|s|] == s;
  }

  /** The position of the first `x` in `s`. */
  function FirstIndex(s: seq<string>, x: string): (i: nat)
    requires x in s
    ensures i < |s| && s[i] == x && x !in s[..i]
  {
    if s[0] == x then 0
    else
      var i := 1 + FirstIndex(s[1..], x);
      assert s[..i] == [s[0]] + s[1..][..i - 1];
      i
  }

  lemma {:induction false} FirstIndexSnoc(s: seq<string>, y: string, x: string)
    requires x in s
    ensures FirstIndex(s + [y], x) == FirstIndex(s, x)
  {
    var i := FirstIndex(s, x);
    assert (s + [y])[..i] == s[..i];
    FirstIndexUnique(s + [y], x, i);
  }

  lemma FirstIndexUnique(s: seq<string>, x: string, i: nat)
    requires i < |s| && s[i] == x && x !in s[..i]
    ensures FirstIndex(s, x) == i
  {
    var j := FirstIndex(s, x);
  }

  /** `Array.from(new Set(s))` lists the distinct elements in the order of
      their first occurrence in `s`. */
  lemma {:induction false} DedupFirstOrder(s: seq<string>)
    ensures forall i, j :: 0 <= i < j < |Dedup(s)| ==>
      FirstIndex(s, Dedup(s)[i]) < FirstIndex(s, Dedup(s)[j])
  {
    if s != [] {
      var init, x := s[..|s| - 1], s[|s| - 1];
      assert s == init + [x];
      var d := Dedup(init);
      DedupFirstOrder(init);
      forall k | 0 <= k < |d| ensures FirstIndex(s, d[k]) == FirstIndex(init, d[k]) {
        FirstIndexSnoc(init, x, d[k]);
      }
      if x !in d {
        FirstIndexUnique(s, x, |init|);
      }
    }
  }

  /** Hence `Array.from(new Set(s))` is a subsequence of `s`. */
  lemma {:induction false} DedupIsSubseq(s: seq<string>)
    ensures IsSubseq(Dedup(s), s)
  {
    DedupFirstOrder(s);
    var d := Dedup(s);
    var idx := seq(|d|, k requires 0 <= k < |d| => FirstIndex(s, d[k]));
    IsSubseqOfIndices(d, s, idx);
  }

  /** Picking the elements of `s` at strictly increasing positions gives a
      subsequence of `s`. */
  lemma {:induction false} IsSubseqOfIndices(sub: seq<string>, s: seq<string>, idx: seq<nat>)
    requires |idx| == |sub|
    requires forall k :: 0 <= k < |idx| ==> idx[k] < |s| && s[idx[k]] == sub[k]
    requires forall k, l :: 0 <= k < l < |idx| ==> idx[k] < idx[l]
    ensures IsSubseq(sub, s)
    decreases |s|
  {
    if sub != [] {
      assert idx[0] < |s|;
      if sub[0] == s[0] {
        assert forall k :: 1 <= k < |idx| ==> idx[k] > 0;
        var rest := seq(|idx| - 1, k requires 0 <= k < |idx| - 1 => idx[k + 1] - 1);
        IsSubseqOfIndices(sub[1..], s[1..], rest);
      } else {
        assert idx[0] > 0;
        var all := seq(|idx|, k requires 0 <= k < |idx| => idx[k] - 1);
        IsSubseqOfIndices(sub, s[1..], all);
      }
    }
  }

  /** `DedupSnoc` for the prefixes of `ts` appended to `seen`. */
  lemma DedupPrefixStep(seen: seq<string>, ts: seq<string>, j: nat)
    requires j < |ts|
    ensures var d := Dedup(seen + ts[..j]);
      Dedup(seen + ts[..j + 1]) == if ts[j] in d then d else d + [ts[j]]
  {
    assert seen + ts[..j + 1] == seen + ts[..j] + [ts[j]];
    DedupSnoc(seen + ts[..j], ts[j]);
  }
}
