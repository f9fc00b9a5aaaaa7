/**
 * String helpers of app.js: `normalize`, the JavaScript `||` on strings,
 * `Array.prototype.join` and `String.prototype.includes`.
 *
 * `normalize` (app.js:148-155) lower-cases, applies NFKD, strips the
 * combining marks U+0300..U+036F, collapses every run of `\s` to one space
 * and trims. Case mapping is modelled for ASCII letters only and NFKD is
 * taken as the identity (both need Unicode tables); everything else is
 * modelled exactly, including the full JavaScript `\s` set.
 */
module Text {

  /** JavaScript's `\s`, which is also the set `trim` removes:
      ECMAScript WhiteSpace and LineTerminator code points. */
  predicate IsWhite(c: char) {
    || c == '\t' || c == '\n' || c == '\U{000B}' || c == '\U{000C}' || c == '\r'
    || c == ' ' || c == '\U{00A0}' || c == '\U{1680}'
    || ('\U{2000}' <= c <= '\U{200A}')
    || c == '\U{2028}' || c == '\U{2029}' || c == '\U{202F}' || c == '\U{205F}'
    || c == '\U{3000}' || c == '\U{FEFF}'
  }

  predicate IsUpperAscii(c: char) { 'A' <= c <= 'Z' }

  /** The range the source removes after decomposition: U+0300..U+036F. */
  predicate IsCombiningMark(c: char) { '\U{0300}' <= c <= '\U{036F}' }

  function LowerChar(c: char): char {
    if IsUpperAscii(c) then (c as int + 32) as char else c
  }

  /** `toLowerCase`, restricted to ASCII letters. */
  function ToLower(s: string): string {
    seq(|s|, i requires 0 <= i < |s| => LowerChar(s[i]))
  }

  /** `.replace(/[̀-ͯ]/g, "")`: the combining marks go, every other
      character stays where it was (see `StripMarksConcat`). */
  function StripMarks(s: string): (r: string)
    ensures forall c :: c in r <==> c in s && !IsCombiningMark(c)
    ensures |r| <= |s|
    ensures (forall c :: c in s ==> !IsCombiningMark(c)) ==> r == s
  {
    if s == [] then []
    else
      assert forall c :: c in s <==> c == s[0] || c in s[1..];
      (if IsCombiningMark(s[0]) then [] else [s[0]]) + StripMarks(s[1..])
  }

  /** Stripping works character by character: it distributes over
      concatenation, so the kept characters stay in their order. */
  lemma {:induction false} StripMarksConcat(a: string, b: string)
    ensures StripMarks(a + b) == StripMarks(a) + StripMarks(b)
  {
    if a == [] {
      assert a + b == b;
    } else {
      var ab := a + b;
      assert ab[0] == a[0];
      assert ab[1..] == a[1..] + b;
      StripMarksConcat(a[1..], b);
      var h := if IsCombiningMark(a[0]) then [] else [a[0]];
      assert StripMarks(ab) == h + StripMarks(ab[1..]);
      assert StripMarks(a) == h + StripMarks(a[1..]);
      Assoc3(h, StripMarks(a[1..]), StripMarks(b));
    }
  }

  lemma Assoc3(a: string, b: string, c: string)
    ensures a + (b + c) == a + b + c
  {
  }

  lemma ToLowerConcat(a: string, b: string)
    ensures ToLower(a + b) == ToLower(a) + ToLower(b)
  {
  }

  /** Drops the leading run of white space. */
  function SkipWhite(s: string): (r: string)
    ensures r == [] || !IsWhite(r[0])
  {
    s[LeadingWhite(s)..]
  }

  /** The length of the leading run of white space. */
  function LeadingWhite(s: string): (n: nat)
    ensures n <= |s|
    ensures forall i :: 0 <= i < n ==> IsWhite(s[i])
    ensures n < |s| ==> !IsWhite(s[n])
  {
    if s != [] && IsWhite(s[0]) then 1 + LeadingWhite(s[1..]) else 0
  }

  /** Drops the trailing run of white space. */
  function TrimEnd(s: string): (r: string)
    ensures |r| <= |s| && r == s[..|r|]
    ensures r == [] || !IsWhite(r[|r| - 1])
    ensures forall k :: |r| <= k < |s| ==> IsWhite(s[k])
  {
    if s != [] && IsWhite(s[|s| - 1]) then TrimEnd(s[..|s| - 1]) else s
  }

  /** `r` is `s[i..]` cut to `|r|` characters, with only white space around it. */
  predicate TrimmedAt(s: string, r: string, i: nat) {
    && i + |r| <= |s| && s[i..i + |r|] == r
    && (forall k :: 0 <= k < i ==> IsWhite(s[k]))
    && (forall k :: i + |r| <= k < |s| ==> IsWhite(s[k]))
  }

  /** `trim()`: `s` without the white space at its two ends. */
  function Trim(s: string): (r: string)
    ensures r == [] || (!IsWhite(r[0]) && !IsWhite(r[|r| - 1]))
    ensures TrimmedAt(s, r, LeadingWhite(s))
  {
    var n := LeadingWhite(s);
    var t := s[n..];
    var r := TrimEnd(t);
    assert TrimmedAt(s, r, n) by {
      assert s[n..n + |r|] == t[..|r|];
      forall k | n + |r| <= k < |s| ensures IsWhite(s[k]) {
        assert s[k] == t[k - n];
      }
    }
    r
  }

  /** Every white-space character is a plain space and is followed by a
      character that is not white space, if by anything. */
  predicate SingleSpaced(s: string) {
    forall i :: 0 <= i < |s| ==> SingleSpaceAt(s, i)
  }

  /** Position `i` holds no white space, or a plain space followed by
      something that is not white space (or by nothing). */
  predicate SingleSpaceAt(s: string, i: nat)
    requires i < |s|
  {
    IsWhite(s[i]) ==> s[i] == ' ' && (i + 1 < |s| ==> !IsWhite(s[i + 1]))
  }

  /** `s` with every white-space character removed. */
  function NonWhite(s: string): string {
    if s == [] then [] else (if IsWhite(s[0]) then [] else [s[0]]) + NonWhite(s[1..])
  }

  /** Dropping a white prefix does not change what `NonWhite` keeps. */
  lemma {:induction false} NonWhiteSkip(s: string, n: nat)
    requires n <= |s|
    requires forall i :: 0 <= i < n ==> IsWhite(s[i])
    ensures NonWhite(s[n..]) == NonWhite(s)
  {
    if n > 0 {
      assert s[1..][n - 1..] == s[n..];
      NonWhiteSkip(s[1..], n - 1);
    }
  }

  /** `.replace(/\s+/g, " ")`: each maximal run of white space becomes one
      space; the other characters are kept, in order, and nothing is added. */
  function Collapse(s: string): (r: string)
    ensures SingleSpaced(r)
    ensures forall c :: c in r ==> c in s || c == ' '
    ensures s != [] && !IsWhite(s[0]) ==> r != [] && r[0] == s[0]
    decreases |s|
  {
    if s == [] then []
    else if IsWhite(s[0]) then
      var n := LeadingWhite(s);
      var rest := Collapse(s[n..]);
      SingleSpacedCons(' ', rest);
      assert forall c :: c in s[n..] ==> c in s;
      [' '] + rest
    else
      var rest := Collapse(s[1..]);
      SingleSpacedCons(s[0], rest);
      [s[0]] + rest
  }

  /** `Collapse` keeps every character that is not white space, in order. */
  lemma {:induction false} CollapseNonWhite(s: string)
    ensures NonWhite(Collapse(s)) == NonWhite(s)
    decreases |s|
  {
    if s == [] {
    } else if IsWhite(s[0]) {
      var n := LeadingWhite(s);
      var rest := Collapse(s[n..]);
      CollapseNonWhite(s[n..]);
      NonWhiteSkip(s, n);
      assert ([' '] + rest)[1..] == rest;
    } else {
      var rest := Collapse(s[1..]);
      CollapseNonWhite(s[1..]);
      assert ([s[0]] + rest)[1..] == rest;
    }
  }

  /** `Collapse` never lengthens, is empty only on the empty string and keeps
      a last character that is not white space. */
  lemma {:induction false} CollapseEnds(s: string)
    ensures |Collapse(s)| <= |s| && (Collapse(s) == [] <==> s == [])
    ensures s != [] && !IsWhite(s[|s| - 1]) ==> Collapse(s)[|Collapse(s)| - 1] == s[|s| - 1]
    decreases |s|
  {
    if s == [] {
    } else if IsWhite(s[0]) {
      var n := LeadingWhite(s);
      CollapseEnds(s[n..]);
      if !IsWhite(s[|s| - 1]) { assert n < |s|; }
    } else {
      CollapseEnds(s[1..]);
    }
  }

  lemma SingleSpacedCons(c: char, t: string)
    requires SingleSpaced(t)
    requires IsWhite(c) ==> c == ' ' && (t == [] || !IsWhite(t[0]))
    ensures SingleSpaced([c] + t)
  {
    var r := [c] + t;
    forall i | 0 <= i < |r| ensures SingleSpaceAt(r, i) {
      if i > 0 {
        assert SingleSpaceAt(t, i - 1);
        assert r[i] == t[i - 1];
        if i + 1 < |r| { assert r[i + 1] == t[i]; }
      }
    }
  }

  /** Every character is ASCII. */
  predicate IsAscii(s: string) {
    forall c :: c in s ==> c < '\U{0080}'
  }

  /** What `Normalize` produces: no upper-case ASCII letter, no combining
      mark, white space only as single inner spaces. */
  predicate IsNormalized(s: string) {
    && (forall i :: 0 <= i < |s| ==> !IsUpperAscii(s[i]) && !IsCombiningMark(s[i]))
    && (forall i :: 0 <= i < |s| ==> InnerSpaceAt(s, i))
  }

  /** Position `i` holds no white space, or a plain space strictly inside
      `s` followed by something that is not white space. */
  predicate InnerSpaceAt(s: string, i: nat)
    requires i < |s|
  {
    IsWhite(s[i]) ==> s[i] == ' ' && 0 < i < |s| - 1 && !IsWhite(s[i + 1])
  }

  lemma TrimKeepsSingleSpaced(s: string)
    requires SingleSpaced(s)
    ensures SingleSpaced(Trim(s))
  {
    var r := Trim(s);
    var n := LeadingWhite(s);
    forall i | 0 <= i < |r| ensures SingleSpaceAt(r, i) {
      assert SingleSpaceAt(s, n + i);
      assert r[i] == s[n + i];
      if i + 1 < |r| { assert r[i + 1] == s[n + i + 1]; }
    }
  }

  lemma TrimChars(s: string)
    ensures forall c :: c in Trim(s) ==> c in s
  {
    var r := Trim(s);
    var n := LeadingWhite(s);
    forall c | c in r ensures c in s {
      var i :| 0 <= i < |r| && r[i] == c;
      assert s[n + i] == c;
    }
  }

  /** `normalize` of app.js:148-155 (ASCII case mapping, NFKD as the
      identity): the result is in normal form, and ASCII input gives ASCII
      output. */
  function Normalize(s: string): (r: string)
    ensures IsNormalized(r)
    ensures IsAscii(s) ==> IsAscii(r)
  {
    PipelineNormalized(s);
    PipelineAscii(s);
    Trim(Collapse(StripMarks(ToLower(s))))
  }

  /** The four steps of `normalize` leave a normalized string. */
  lemma PipelineNormalized(s: string)
    ensures IsNormalized(Trim(Collapse(StripMarks(ToLower(s)))))
  {
    var lowered := ToLower(s);
    var collapsed := Collapse(StripMarks(lowered));
    var r := Trim(collapsed);
    assert forall c :: c in lowered ==> !IsUpperAscii(c);
    TrimKeepsSingleSpaced(collapsed);
    TrimChars(collapsed);
    forall i | 0 <= i < |r| ensures !IsUpperAscii(r[i]) && !IsCombiningMark(r[i]) {
      assert r[i] in collapsed;
    }
    forall i | 0 <= i < |r| ensures InnerSpaceAt(r, i) {
      assert SingleSpaceAt(r, i);
    }
  }

  /** The four steps of `normalize` keep an ASCII string ASCII. */
  lemma PipelineAscii(s: string)
    ensures IsAscii(s) ==> IsAscii(Trim(Collapse(StripMarks(ToLower(s)))))
  {
    if IsAscii(s) {
      var lowered := ToLower(s);
      forall c | c in lowered ensures c < '\U{0080}' {
        var i :| 0 <= i < |lowered| && lowered[i] == c;
        assert s[i] in s;
      }
      TrimChars(Collapse(StripMarks(lowered)));
    }
  }

  lemma {:induction false} ToLowerFixed(s: string)
    requires forall i :: 0 <= i < |s| ==> !IsUpperAscii(s[i])
    ensures ToLower(s) == s
  {
  }

  lemma {:induction false} CollapseFixed(s: string)
    requires SingleSpaced(s)
    ensures Collapse(s) == s
    decreases |s|
  {
    if s != [] {
      assert SingleSpaced(s[1..]) by {
        forall i | 0 <= i < |s| - 1 ensures SingleSpaceAt(s[1..], i) {
          assert SingleSpaceAt(s, i + 1);
          assert s[1..][i] == s[i + 1];
        }
      }
      CollapseFixed(s[1..]);
      assert SingleSpaceAt(s, 0);
      if IsWhite(s[0]) {
        assert s[0] == ' ';
        assert LeadingWhite(s) == 1 by {
          if |s| > 1 { assert !IsWhite(s[1]); }
        }
      }
    }
  }

  /** An ASCII string already in normal form is left alone. */
  lemma NormalizeFixesNormalized(s: string)
    requires IsNormalized(s) && IsAscii(s)
    ensures Normalize(s) == s
  {
    ToLowerFixed(s);
    forall i | 0 <= i < |s| ensures SingleSpaceAt(s, i) {
      assert InnerSpaceAt(s, i);
    }
    CollapseFixed(s);
    if s != [] {
      assert InnerSpaceAt(s, 0) && InnerSpaceAt(s, |s| - 1);
      assert TrimmedAt(s, s, 0);
      TrimUnique(s, s, 0);
    }
  }

  /** `normalize(normalize(s)) === normalize(s)` for an ASCII string. */
  lemma NormalizeIdempotent(s: string)
    requires IsAscii(s)
    ensures Normalize(Normalize(s)) == Normalize(s)
  {
    NormalizeFixesNormalized(Normalize(s));
  }

  // ---------------------------------------------------------------------
  // normalizing a string that contains another

  /** `Trim` is the only way to cut white ends off: any cut whose ends are
      not white is the trimmed string. */
  lemma TrimUnique(s: string, q: string, j: nat)
    requires TrimmedAt(s, q, j)
    requires q == [] || (!IsWhite(q[0]) && !IsWhite(q[|q| - 1]))
    ensures Trim(s) == q
  {
    var i := LeadingWhite(s);
    if q != [] {
      assert s[j] == q[0];
      assert i == j;
      assert s[j + |q| - 1] == q[|q| - 1];
    }
  }

  /** Every character is white space. */
  predicate AllWhite(s: string) {
    forall i :: 0 <= i < |s| ==> IsWhite(s[i])
  }

  /** A piece with no white space at its ends is what `Trim` leaves of it
      padded with white space on both sides. */
  lemma TrimPadded(a: string, q: string, b: string)
    requires AllWhite(a) && AllWhite(b)
    requires q == [] || (!IsWhite(q[0]) && !IsWhite(q[|q| - 1]))
    ensures Trim(a + q + b) == q
  {
    var s := a + q + b;
    assert s[|a|..|a| + |q|] == q;
    forall k | 0 <= k < |a| ensures IsWhite(s[k]) { assert s[k] == a[k]; }
    forall k | |a| + |q| <= k < |s| ensures IsWhite(s[k]) { assert s[k] == b[k - |a| - |q|]; }
    TrimUnique(s, q, |a|);
  }

  /** `s` is its trimmed part with the white space it lost put back. */
  lemma TrimSplit(s: string) returns (a: string, b: string)
    ensures AllWhite(a) && AllWhite(b)
    ensures s == a + Trim(s) + b
  {
    var m := Trim(s);
    var j := LeadingWhite(s);
    a, b := s[..j], s[j + |m|..];
    assert s == s[..j] + s[j..j + |m|] + s[j + |m|..];
  }

  /** A piece that neither starts nor ends with white space survives `Trim`. */
  lemma TrimKeepsCore(u: string, q: string, v: string)
    requires q != [] && !IsWhite(q[0]) && !IsWhite(q[|q| - 1])
    ensures Includes(Trim(u + q + v), q)
  {
    var z := u + q + v;
    assert z[|u|..|u| + |q|] == q;
    TrimKeepsRange(z, |u|, |u| + |q|);
  }

  lemma TrimKeepsRange(z: string, a: nat, b: nat)
    requires a < b <= |z| && !IsWhite(z[a]) && !IsWhite(z[b - 1])
    ensures Includes(Trim(z), z[a..b])
  {
    var r := Trim(z);
    var i := LeadingWhite(z);
    assert i <= a;
    assert b <= i + |r|;
    SliceOfSlice(z, i, i + |r|, a, b);
    var k: nat := a - i;
    assert OccursAt(r, z[a..b], k);
    IncludesIff(r, z[a..b]);
  }

  lemma SliceOfSlice(z: string, i: nat, j: nat, a: nat, b: nat)
    requires i <= a <= b <= j <= |z|
    ensures z[i..j][a - i..b - i] == z[a..b]
  {
    var x := z[i..j][a - i..b - i];
    forall k | 0 <= k < b - a ensures x[k] == z[a..b][k] {
      assert x[k] == z[a + k];
    }
  }

  lemma {:induction false} LeadingWhitePadded(w: string, z: string)
    requires AllWhite(w)
    requires z == [] || !IsWhite(z[0])
    ensures LeadingWhite(w + z) == |w|
  {
    if w != [] {
      assert (w + z)[1..] == w[1..] + z;
      LeadingWhitePadded(w[1..], z);
    } else {
      assert w + z == z;
    }
  }

  /** A white run in front of a piece that does not start with white space
      collapses to one space. */
  lemma CollapseWhitePrefix(w: string, z: string)
    requires w != [] && AllWhite(w)
    requires z == [] || !IsWhite(z[0])
    ensures Collapse(w + z) == [' '] + Collapse(z)
  {
    LeadingWhitePadded(w, z);
    assert (w + z)[0] == w[0];
    assert (w + z)[|w|..] == z;
  }

  /** A white run collapses to at most one space. */
  lemma CollapseAllWhite(w: string)
    requires AllWhite(w)
    ensures Collapse(w) == [] || Collapse(w) == [' ']
  {
    if w != [] {
      CollapseWhitePrefix(w, []);
      assert w + [] == w;
    }
  }

  lemma {:induction false} LeadingWhiteConcat(y: string, z: string)
    requires y != [] && !IsWhite(y[|y| - 1])
    ensures LeadingWhite(y + z) == LeadingWhite(y) < |y|
  {
    assert (y + z)[0] == y[0];
    if IsWhite(y[0]) {
      assert |y| > 1;
      assert (y + z)[1..] == y[1..] + z;
      LeadingWhiteConcat(y[1..], z);
    }
  }

  /** Collapsing splits after a character that is not white space. */
  lemma {:induction false} CollapseSplit(y: string, z: string)
    requires y == [] || !IsWhite(y[|y| - 1])
    ensures Collapse(y + z) == Collapse(y) + Collapse(z)
    decreases |y|
  {
    var yz := y + z;
    if y == [] {
      assert yz == z;
    } else if IsWhite(y[0]) {
      var n := LeadingWhite(y);
      LeadingWhiteConcat(y, z);
      assert yz[0] == y[0];
      assert yz[n..] == y[n..] + z;
      CollapseSplit(y[n..], z);
      assert Collapse(yz) == [' '] + Collapse(yz[n..]);
      assert Collapse(y) == [' '] + Collapse(y[n..]);
      Assoc3([' '], Collapse(y[n..]), Collapse(z));
    } else {
      assert yz[0] == y[0];
      assert yz[1..] == y[1..] + z;
      CollapseSplit(y[1..], z);
      assert Collapse(yz) == [y[0]] + Collapse(yz[1..]);
      assert Collapse(y) == [y[0]] + Collapse(y[1..]);
      Assoc3([y[0]], Collapse(y[1..]), Collapse(z));
    }
  }

  lemma CollapseWhiteSuffix(m: string, b: string) returns (pb: string)
    requires AllWhite(b)
    requires m == [] || !IsWhite(m[|m| - 1])
    ensures AllWhite(pb)
    ensures Collapse(m + b) == Collapse(m) + pb
  {
    CollapseSplit(m, b);
    CollapseAllWhite(b);
    pb := Collapse(b);
  }

  /** White space before a piece that does not start with white space
      collapses to at most one space. */
  lemma CollapseWhiteLead(a: string, z: string) returns (pa: string)
    requires AllWhite(a)
    requires z == [] || !IsWhite(z[0])
    ensures AllWhite(pa)
    ensures Collapse(a + z) == pa + Collapse(z)
  {
    if a == [] {
      pa := [];
      assert a + z == z;
    } else {
      pa := [' '];
      CollapseWhitePrefix(a, z);
    }
  }

  /** Collapsing a piece with no white space at its ends, padded with white
      space: the padding becomes at most one space on each side. */
  lemma CollapsePadded(a: string, m: string, b: string) returns (pa: string, pb: string)
    requires AllWhite(a) && AllWhite(b)
    requires m != [] && !IsWhite(m[0]) && !IsWhite(m[|m| - 1])
    ensures AllWhite(pa) && AllWhite(pb)
    ensures Collapse(a + m + b) == pa + Collapse(m) + pb
  {
    pb := CollapseWhiteSuffix(m, b);
    pa := CollapseWhiteLead(a, m + b);
    Assoc3(a, m, b);
    Assoc3(pa, Collapse(m), pb);
  }

  /** Trimming after collapsing is collapsing the trimmed string. */
  lemma TrimCollapse(p: string)
    ensures Trim(Collapse(p)) == Collapse(Trim(p))
  {
    var a, b := TrimSplit(p);
    var m := Trim(p);
    if m == [] {
      assert p == a + b;
      assert AllWhite(p);
      CollapseAllWhite(p);
      TrimPadded(Collapse(p), [], []);
      assert Collapse(p) + [] + [] == Collapse(p);
    } else {
      var pa, pb := CollapsePadded(a, m, b);
      CollapseEnds(m);
      TrimPadded(pa, Collapse(m), pb);
    }
  }

  /** Collapsing a string keeps the collapsed form of any piece of it that
      neither starts nor ends with white space. */
  lemma CollapseKeepsCore(l: string, m: string, r: string) returns (u: string, v: string)
    requires m != [] && !IsWhite(m[0]) && !IsWhite(m[|m| - 1])
    ensures Collapse(l + m + r) == u + Collapse(m) + v
  {
    var l1 := TrimEnd(l);
    var w := l[|l1|..];
    assert l == l1 + w;
    var mr := m + r;
    CollapseSplit(m, r);
    var pa := CollapseWhiteLead(w, mr);
    CollapseSplit(l1, w + mr);
    Assoc4(l1, w, m, r);
    u, v := Collapse(l1) + pa, Collapse(r);
    Assoc4(Collapse(l1), pa, Collapse(m), v);
  }

  lemma Assoc4(a: string, b: string, c: string, d: string)
    ensures a + (b + (c + d)) == (a + b) + c + d
  {
  }

  /** If `hay` contains the ASCII string `needle`, the normal form of `hay`
      contains the normal form of `needle`. (For a needle beyond ASCII the
      program's context-sensitive lower-casing, such as the final sigma,
      can break this.) */
  lemma NormalizeIncludes(hay: string, needle: string)
    requires Includes(hay, needle) && IsAscii(needle)
    ensures Includes(Normalize(hay), Normalize(needle))
  {
    IncludesIff(hay, needle);
    var i: nat :| OccursAt(hay, needle, i);
    var a, b := hay[..i], hay[i + |needle|..];
    assert hay == a + needle + b;
    ToLowerConcat(a + needle, b);
    ToLowerConcat(a, needle);
    var la, ln, lb := ToLower(a), ToLower(needle), ToLower(b);
    StripMarksConcat(la + ln, lb);
    StripMarksConcat(la, ln);
    var p := StripMarks(ln);
    TrimCollapse(p);
    var m := Trim(p);
    if m != [] {
      var sa, sb := StripMarks(la), StripMarks(lb);
      assert StripMarks(ToLower(hay)) == sa + p + sb;
      var pa, pb := TrimSplit(p);
      Regroup(sa, pa, m, pb, sb);
      var u, v := CollapseKeepsCore(sa + pa, m, pb + sb);
      TrimKeepsCore(u, Collapse(m), v);
    }
  }

  lemma Regroup(a: string, b: string, c: string, d: string, e: string)
    ensures a + (b + c + d) + e == (a + b) + c + (d + e)
  {
  }

  /** JavaScript `a || b` on strings: the empty string is falsy. */
  function Or(a: string, b: string): string {
    if a != "" then a else b
  }

  /** `Array.prototype.join(sep)` on strings. */
  function Join(parts: seq<string>, sep: string): string {
    if parts == [] then ""
    else if |parts| == 1 then parts[0]
    else parts[0] + sep + Join(parts[1..], sep)
  }

  /** `hay.includes(needle)`: some position of `hay` starts with `needle`. */
  predicate Includes(hay: string, needle: string) {
    needle <= hay || (hay != [] && Includes(hay[1..], needle))
  }

  /** `needle` occurs in `hay` starting at position `i`. */
  predicate OccursAt(hay: string, needle: string, i: nat) {
    i + |needle| <= |hay| && hay[i..i + |needle|] == needle
  }

  /** An occurrence past the first position is an occurrence in the tail. */
  lemma OccursInTail(hay: string, needle: string, i: nat)
    requires 1 <= i && hay != []
    ensures OccursAt(hay, needle, i) <==> OccursAt(hay[1..], needle, i - 1)
  {
    if i + |needle| <= |hay| {
      assert hay[1..][i - 1..i - 1 + |needle|] == hay[i..i + |needle|];
    }
  }

  /** `Includes` is exactly substring containment. */
  lemma {:induction false} IncludesIff(hay: string, needle: string)
    ensures Includes(hay, needle) <==> exists i: nat :: OccursAt(hay, needle, i)
  {
    if needle <= hay {
      assert OccursAt(hay, needle, 0);
    } else if hay != [] {
      IncludesIff(hay[1..], needle);
      forall i: nat | 1 <= i
        ensures OccursAt(hay, needle, i) <==> OccursAt(hay[1..], needle, i - 1)
      {
        OccursInTail(hay, needle, i);
      }
      if Includes(hay[1..], needle) {
        var i: nat :| OccursAt(hay[1..], needle, i);
        assert OccursAt(hay, needle, i + 1);
      }
    } else {
      assert |needle| > 0;
    }
  }

  /** Containment is transitive. */
  lemma IncludesTrans(a: string, b: string, c: string)
    requires Includes(a, b) && Includes(b, c)
    ensures Includes(a, c)
  {
    IncludesIff(a, b);
    IncludesIff(b, c);
    var i: nat :| OccursAt(a, b, i);
    var j: nat :| OccursAt(b, c, j);
    SliceOfSlice(a, i, i + |b|, i + j, i + j + |c|);
    assert OccursAt(a, c, i + j);
    IncludesIff(a, c);
  }

  lemma {:induction false} IncludesSuffix(a: string, b: string, needle: string)
    requires Includes(b, needle)
    ensures Includes(a + b, needle)
  {
    if a != [] {
      assert (a + b)[1..] == a[1..] + b;
      IncludesSuffix(a[1..], b, needle);
    } else {
      assert a + b == b;
    }
  }

  /** A joined string contains each of its parts. */
  lemma {:induction false} IncludesJoinedPart(parts: seq<string>, sep: string, k: nat)
    requires k < |parts|
    ensures Includes(Join(parts, sep), parts[k])
  {
    if k == 0 {
      if |parts| > 1 {
        assert Join(parts, sep) == parts[0] + (sep + Join(parts[1..], sep));
      }
    } else {
      IncludesJoinedPart(parts[1..], sep, k - 1);
      IncludesSuffix(parts[0] + sep, Join(parts[1..], sep), parts[k]);
      assert parts[0] + sep + Join(parts[1..], sep) == (parts[0] + sep) + Join(parts[1..], sep);
    }
  }
}
