/**
 * The dataset and what app.js derives from it: one search-index record per
 * entry (`buildDerived`, app.js:322-388), the distinct prophets, topics and
 * source types, the lazily cached id lookup (`findById`, app.js:1665-1671),
 * the root-must-be-an-array check of `fetchData` (app.js:294-320) and the
 * clipboard text of `buildFullCopy` (app.js:1493-1508).
 *
 * A field the JSON lacks is the empty string, as `safeText` makes it.
 */
module Catalog {
  import opened Wrappers
  import opened Lists
  import Text

  datatype ProphetName = ProphetName(en: string, tr: string, ar: string)

  datatype SourceRef = SourceRef(kind: string, reference: string, book: string, grade: string)

  /** One element of `prayers.json`. */
  datatype Entry = Entry(
    id: string,
    prophet: ProphetName,
    topics: seq<string>,
    source: SourceRef,
    arabic: string,
    transliteration: string,
    english: string,
    turkish: string,
    notes: string,
    context: string,
    reflection: string)

  /** One element of `INDEX`. */
  datatype IndexEntry = IndexEntry(
    id: string,
    prophetKey: string,
    topics: set<string>,
    sourceType: string,
    search: string)

  /** One value of the prophets `Map`. */
  datatype ProphetInfo = ProphetInfo(en: string, tr: string, ar: string, key: string)

  /** `prophetEN || prophetTR || prophetAR`: the English name if there is
      one, else the Turkish, else the Arabic. */
  function ProphetKey(p: ProphetName): (k: string)
    ensures p.en != "" ==> k == p.en
    ensures p.en == "" && p.tr != "" ==> k == p.tr
    ensures p.en == "" && p.tr == "" ==> k == p.ar
    ensures k == "" <==> p.en == "" && p.tr == "" && p.ar == ""
  {
    Text.Or(p.en, Text.Or(p.tr, p.ar))
  }

  function InfoOf(p: ProphetName): ProphetInfo {
    ProphetInfo(p.en, p.tr, p.ar, ProphetKey(p))
  }

  /** `p.topics.filter(Boolean)` */
  function NonEmpty(ts: seq<string>): (r: seq<string>)
    ensures forall t :: t in r <==> t in ts && t != ""
  {
    if ts == [] then []
    else (if ts[0] == "" then [] else [ts[0]]) + NonEmpty(ts[1..])
  }

  /** `safeText(p?.source?.type) || "Other"` */
  function SourceType(e: Entry): (r: string)
    ensures r != ""
    ensures e.source.kind != "" ==> r == e.source.kind
  {
    Text.Or(e.source.kind, "Other")
  }

  /** The fields `buildDerived` puts into the search haystack, in order. */
  function SearchFields(e: Entry): seq<string> {
    [ e.id,
      e.prophet.en, e.prophet.tr, e.prophet.ar,
      SourceType(e), e.source.reference, e.source.book, e.source.grade,
      e.arabic, e.transliteration, e.english, e.turkish,
      Text.Join(NonEmpty(e.topics), " "),
      e.notes, e.context, e.reflection ]
  }

  /** The normalized haystack the text search runs over. */
  function SearchText(e: Entry): (r: string)
    ensures Text.IsNormalized(r)
  {
    Text.Normalize(Text.Join(SearchFields(e), " | "))
  }

  /** Text typed into the search box that occurs in one of the entry's
      search fields is found, once normalized, in the entry's haystack. */
  lemma SearchFindsText(e: Entry, k: nat, q: string)
    requires k < |SearchFields(e)| && Text.Includes(SearchFields(e)[k], q)
    requires Text.IsAscii(q)
    ensures Text.Includes(SearchText(e), Text.Normalize(q))
  {
    var joined := Text.Join(SearchFields(e), " | ");
    Text.IncludesJoinedPart(SearchFields(e), " | ", k);
    Text.IncludesTrans(joined, SearchFields(e)[k], q);
    Text.NormalizeIncludes(joined, q);
  }

  /** `new Set(topics)` of the non-empty labels. */
  function TopicSet(ts: seq<string>): (r: set<string>)
    ensures forall t :: t in r <==> t in ts && t != ""
  {
    set t | t in NonEmpty(ts)
  }

  /** The index record `buildDerived` makes for one entry. */
  function IndexOf(e: Entry): (r: IndexEntry)
    ensures r.id == e.id
    ensures r.prophetKey == ProphetKey(e.prophet)
    ensures forall t :: t in r.topics <==> t in e.topics && t != ""
    ensures r.sourceType == SourceType(e)
    ensures r.search == SearchText(e) && Text.IsNormalized(r.search)
  {
    IndexEntry(e.id, ProphetKey(e.prophet), TopicSet(e.topics), SourceType(e), SearchText(e))
  }

  /** `INDEX = DATA.map(...)`: one index record per entry, in order. */
  function IndexAll(data: seq<Entry>): seq<IndexEntry> {
    MapAll(IndexOf, data)
  }

  /** `xs.map(f)` */
  function MapAll<A, B>(f: A -> B, xs: seq<A>): seq<B> {
    seq(|xs|, i requires 0 <= i < |xs| => f(xs[i]))
  }

  lemma MapAllStep<A, B>(f: A -> B, xs: seq<A>, i: nat)
    requires i < |xs|
    ensures MapAll(f, xs[..i + 1]) == MapAll(f, xs[..i]) + [f(xs[i])]
  {
    var a, b := MapAll(f, xs[..i + 1]), MapAll(f, xs[..i]) + [f(xs[i])];
    forall k | 0 <= k < |a| ensures a[k] == b[k] {
      if k < i {
        assert a[k] == f(xs[k]);
      }
    }
  }

  // ---------------------------------------------------------------------
  // distinct prophets, topics and source types, in first-seen order

  predicate HasKey(ps: seq<ProphetInfo>, key: string) {
    exists k :: 0 <= k < |ps| && ps[k].key == key
  }

  /** `if (prophetKey && !prophetsSet.has(prophetKey)) prophetsSet.set(...)` */
  function AddProphet(prev: seq<ProphetInfo>, p: ProphetName): seq<ProphetInfo> {
    if ProphetKey(p) != "" && !HasKey(prev, ProphetKey(p)) then prev + [InfoOf(p)] else prev
  }

  /** The values of the prophets `Map` in insertion order: an entry with a
      non-empty key adds its names unless the key is already there. */
  function DistinctProphets(data: seq<Entry>): seq<ProphetInfo>
  {
    if data == [] then [] else AddProphet(DistinctProphets(data[..|data| - 1]), data[|data| - 1].prophet)
  }

  /** All non-empty topic labels of the dataset, in dataset order. */
  function AllTopics(data: seq<Entry>): seq<string> {
    if data == [] then [] else AllTopics(data[..|data| - 1]) + NonEmpty(data[|data| - 1].topics)
  }

  /** The source type of every entry, in dataset order. */
  function AllSourceTypes(data: seq<Entry>): (r: seq<string>)
    ensures |r| == |data|
    ensures forall i :: 0 <= i < |data| ==> r[i] == SourceType(data[i])
  {
    if data == [] then [] else AllSourceTypes(data[..|data| - 1]) + [SourceType(data[|data| - 1])]
  }

  predicate KeysDistinct(ps: seq<ProphetInfo>) {
    forall a, b :: 0 <= a < b < |ps| ==> ps[a].key != ps[b].key
  }

  /** No key occurs twice in the prophet list. */
  lemma {:induction false} DistinctProphetsKeys(data: seq<Entry>)
    ensures KeysDistinct(DistinctProphets(data))
  {
    if data != [] {
      var init := data[..|data| - 1];
      DistinctProphetsKeys(init);
      var prev := DistinctProphets(init);
      var p := data[|data| - 1].prophet;
      if ProphetKey(p) != "" && !HasKey(prev, ProphetKey(p)) {
        var ps := prev + [InfoOf(p)];
        assert ps == DistinctProphets(data);
        forall a, b | 0 <= a < b < |ps| ensures ps[a].key != ps[b].key {
          assert ps[a] == prev[a];
          if b < |prev| {
            assert ps[b] == prev[b];
            assert prev[a].key != prev[b].key;
          } else {
            assert ps[b].key == ProphetKey(p);
            assert prev[a].key != ProphetKey(p);
          }
        }
      }
    }
  }

  /** Every entry with a non-empty prophet key has its key in the list. */
  lemma {:induction false} DistinctProphetsCover(data: seq<Entry>)
    ensures forall i :: 0 <= i < |data| && ProphetKey(data[i].prophet) != "" ==>
      HasKey(DistinctProphets(data), ProphetKey(data[i].prophet))
  {
    if data != [] {
      var init := data[..|data| - 1];
      DistinctProphetsCover(init);
      var prev := DistinctProphets(init);
      var ps := DistinctProphets(data);
      assert prev <= ps;
      forall i | 0 <= i < |data| && ProphetKey(data[i].prophet) != "" ensures HasKey(ps, ProphetKey(data[i].prophet)) {
        if i < |data| - 1 {
          assert data[i] == init[i];
          var k :| 0 <= k < |prev| && prev[k].key == ProphetKey(data[i].prophet);
          assert ps[k] == prev[k];
        } else if !HasKey(prev, ProphetKey(data[i].prophet)) {
          assert ps[|prev|].key == ProphetKey(data[i].prophet);
        }
      }
    }
  }

  /** `data[i]` is the first entry whose prophet key is `key`. */
  predicate FirstWithKey(data: seq<Entry>, i: int, key: string) {
    && 0 <= i < |data| && ProphetKey(data[i].prophet) == key
    && forall j :: 0 <= j < i ==> ProphetKey(data[j].prophet) != key
  }

  /** Every element of `ps` has a non-empty key and the names of the first
      entry of `data` with that key. */
  predicate FromFirstEntries(data: seq<Entry>, ps: seq<ProphetInfo>) {
    forall k :: 0 <= k < |ps| ==>
      ps[k].key != "" && exists i :: 0 <= i < |data| && FirstWithKey(data, i, ps[k].key) && ps[k] == InfoOf(data[i].prophet)
  }

  /** Each element of the prophet list holds the names of the first entry
      with its (non-empty) key: the first one seen wins. */
  lemma {:induction false} DistinctProphetsFirst(data: seq<Entry>)
    ensures FromFirstEntries(data, DistinctProphets(data))
  {
    if data != [] {
      var init := data[..|data| - 1];
      DistinctProphetsFirst(init);
      var prev := DistinctProphets(init);
      var ps := DistinctProphets(data);
      forall k | 0 <= k < |ps| ensures ps[k].key != "" &&
        exists i :: 0 <= i < |data| && FirstWithKey(data, i, ps[k].key) && ps[k] == InfoOf(data[i].prophet)
      {
        if k < |prev| {
          assert ps[k] == prev[k];
          var i :| 0 <= i < |init| && FirstWithKey(init, i, prev[k].key) && prev[k] == InfoOf(init[i].prophet);
          FirstWithKeyGrow(data, i, prev[k].key);
        } else {
          FirstWithKeyLast(data);
          assert ps[k] == InfoOf(data[|data| - 1].prophet);
        }
      }
    }
  }

  /** A first occurrence in a prefix stays first in the whole sequence. */
  lemma FirstWithKeyGrow(data: seq<Entry>, i: int, key: string)
    requires data != [] && FirstWithKey(data[..|data| - 1], i, key)
    ensures FirstWithKey(data, i, key) && data[i] == data[..|data| - 1][i]
  {
    var init := data[..|data| - 1];
    forall j | 0 <= j < i ensures ProphetKey(data[j].prophet) != key {
      assert data[j] == init[j];
    }
  }

  /** The last entry, when its key is new, is the first with that key. */
  lemma FirstWithKeyLast(data: seq<Entry>)
    requires data != [] && ProphetKey(data[|data| - 1].prophet) != ""
    requires !HasKey(DistinctProphets(data[..|data| - 1]), ProphetKey(data[|data| - 1].prophet))
    ensures FirstWithKey(data, |data| - 1, ProphetKey(data[|data| - 1].prophet))
  {
    var init := data[..|data| - 1];
    var i := |data| - 1;
    var key := ProphetKey(data[i].prophet);
    DistinctProphetsCover(init);
    forall j | 0 <= j < i ensures ProphetKey(data[j].prophet) != key {
      assert data[j] == init[j];
    }
  }

  /** The topic list holds every non-empty label of the dataset exactly
      once, in order of first appearance. */
  lemma DistinctTopicsSpec(data: seq<Entry>)
    ensures NoDup(Dedup(AllTopics(data)))
    ensures forall t :: t in Dedup(AllTopics(data)) <==> t != "" && exists i :: 0 <= i < |data| && t in data[i].topics
  {
    AllTopicsMembers(data);
  }

  lemma {:induction false} AllTopicsMembers(data: seq<Entry>)
    ensures forall t :: t in AllTopics(data) <==> t != "" && exists i :: 0 <= i < |data| && t in data[i].topics
  {
    if data != [] {
      var init := data[..|data| - 1];
      AllTopicsMembers(init);
      forall t ensures t in AllTopics(data) <==> t != "" && exists i :: 0 <= i < |data| && t in data[i].topics {
        if t != "" && exists i :: 0 <= i < |data| && t in data[i].topics {
          var i :| 0 <= i < |data| && t in data[i].topics;
          if i < |data| - 1 {
            assert data[i] == init[i];
          }
        }
        if t in AllTopics(init) {
          var i :| 0 <= i < |init| && t in init[i].topics;
          assert data[i] == init[i];
        }
      }
    }
  }

  // ---------------------------------------------------------------------
  // the preferred order of source types

  /** The comparator key of the `SOURCE_TYPES` sort. */
  function Rank(x: string): nat {
    if x == "Quran" then 0 else if x == "Hadith" then 1 else 2
  }

  /** The elements of rank `k`, in their order. */
  function WithRank(s: seq<string>, k: nat): (r: seq<string>)
    ensures forall i :: 0 <= i < |r| ==> Rank(r[i]) == k
  {
    if s == [] then []
    else (if Rank(s[0]) == k then [s[0]] else []) + WithRank(s[1..], k)
  }

  /** `SOURCE_TYPES.sort(...)` by rank: Quran, then Hadith, then the rest.
      The result is ordered by rank, is a permutation of the input and, as
      `Array.prototype.sort` is stable, keeps the input order within each
      rank. */
  function RankOrder(s: seq<string>): (r: seq<string>)
    ensures forall i, j :: 0 <= i < j < |r| ==> Rank(r[i]) <= Rank(r[j])
    ensures multiset(r) == multiset(s)
    ensures forall k: nat :: WithRank(r, k) == WithRank(s, k)
  {
    var a, b, c := WithRank(s, 0), WithRank(s, 1), WithRank(s, 2);
    var r := a + b + c;
    RankSplit(s);
    assert forall i, j :: 0 <= i < j < |r| ==> Rank(r[i]) <= Rank(r[j]) by {
      forall i, j | 0 <= i < j < |r| ensures Rank(r[i]) <= Rank(r[j]) {
        if i < |a| { assert Rank(r[i]) == 0; }
        else if i < |a| + |b| {
          assert r[i] == b[i - |a|];
          assert j >= |a| + |b| ==> r[j] == c[j - |a| - |b|];
        }
        else { assert r[i] == c[i - |a| - |b|] && r[j] == c[j - |a| - |b|]; }
      }
    }
    assert forall k: nat :: WithRank(r, k) == WithRank(s, k) by {
      forall k: nat ensures WithRank(r, k) == WithRank(s, k) {
        RankPartsStable(s, k);
      }
    }
    r
  }

  lemma {:induction false} WithRankConcat(a: seq<string>, b: seq<string>, k: nat)
    ensures WithRank(a + b, k) == WithRank(a, k) + WithRank(b, k)
  {
    if a == [] {
      assert a + b == b;
    } else {
      assert (a + b)[1..] == a[1..] + b;
      WithRankConcat(a[1..], b, k);
    }
  }

  lemma {:induction false} WithRankOf(s: seq<string>, k: nat, m: nat)
    requires forall i :: 0 <= i < |s| ==> Rank(s[i]) == k
    ensures WithRank(s, m) == if m == k then s else []
  {
    if s != [] {
      WithRankOf(s[1..], k, m);
    }
  }

  /** Unfolds `WithRank` once, at the head of a non-empty sequence. */
  lemma WithRankHead(s: seq<string>, k: nat)
    requires s != []
    ensures multiset(WithRank(s, k)) == RankPart(s[0], k) + multiset(WithRank(s[1..], k))
  {
    if Rank(s[0]) == k {
      assert WithRank(s, k) == [s[0]] + WithRank(s[1..], k);
    } else {
      assert WithRank(s, k) == WithRank(s[1..], k);
    }
  }

  function RankPart(x: string, k: nat): multiset<string> {
    if Rank(x) == k then multiset{x} else multiset{}
  }

  lemma RankParts(x: string)
    ensures RankPart(x, 0) + RankPart(x, 1) + RankPart(x, 2) == multiset{x}
  {
  }

  lemma {:induction false} RankSplit(s: seq<string>)
    ensures multiset(s) == multiset(WithRank(s, 0)) + multiset(WithRank(s, 1)) + multiset(WithRank(s, 2))
  {
    if s != [] {
      var t := s[1..];
      RankSplit(t);
      assert multiset(s) == multiset{s[0]} + multiset(t) by {
        assert s == [s[0]] + t;
      }
      WithRankHead(s, 0);
      WithRankHead(s, 1);
      WithRankHead(s, 2);
      RankParts(s[0]);
    }
  }

  /** Picking rank `k` out of the three rank groups of `s` gives the
      elements of rank `k` of `s`. */
  lemma RankPartsStable(s: seq<string>, k: nat)
    ensures WithRank(WithRank(s, 0) + WithRank(s, 1) + WithRank(s, 2), k) == WithRank(s, k)
  {
    var a, b, c := WithRank(s, 0), WithRank(s, 1), WithRank(s, 2);
    WithRankConcat(a + b, c, k);
    WithRankConcat(a, b, k);
    WithRankOf(a, 0, k);
    WithRankOf(b, 1, k);
    WithRankOf(c, 2, k);
    if k > 2 {
      WithRankNone(s, k);
    }
  }

  lemma {:induction false} WithRankNone(s: seq<string>, k: nat)
    requires k > 2
    ensures WithRank(s, k) == []
  {
    if s != [] {
      WithRankNone(s[1..], k);
    }
  }

  /** The initial value of `SOURCE_TYPES`, before the data arrive. */
  const InitialSourceTypes: seq<string> := ["Quran", "Hadith", "Other"]

  // ---------------------------------------------------------------------
  // lookup by id

  /** `new Map(DATA.map(x => [safeText(x.id), x]))`: a later entry with the
      same id replaces an earlier one. */
  function ById(data: seq<Entry>): (m: map<string, Entry>)
    ensures forall id :: id in m <==> exists i :: 0 <= i < |data| && data[i].id == id
  {
    if data == [] then map[]
    else
      var init := data[..|data| - 1];
      var prev := ById(init);
      var last := data[|data| - 1];
      assert forall i :: 0 <= i < |init| ==> data[i] == init[i];
      prev[last.id := last]
  }

  /** The entry an id maps to is the last one with that id. */
  lemma {:induction false} ByIdLast(data: seq<Entry>, i: nat)
    requires i < |data|
    requires forall j :: i < j < |data| ==> data[j].id != data[i].id
    ensures data[i].id in ById(data) && ById(data)[data[i].id] == data[i]
  {
    if i < |data| - 1 {
      var init := data[..|data| - 1];
      assert init[i] == data[i];
      ByIdLast(init, i);
    }
  }

  /** `findById(id)` on a fresh cache: the entry or `null`. */
  function Lookup(data: seq<Entry>, id: string): Option<Entry> {
    if id in ById(data) then Some(ById(data)[id]) else None
  }

  // ---------------------------------------------------------------------
  // clipboard text

  /** `safeText(p?.prophet?.en) || ... || "Unknown"` */
  function DisplayName(e: Entry): (r: string)
    ensures r != ""
  {
    Text.Or(ProphetKey(e.prophet), "Unknown")
  }

  /** `${srcType}${srcRef ? " • " + srcRef : ""}` */
  function SourceLine(e: Entry): (r: string)
    ensures SourceType(e) <= r
    ensures e.source.reference == "" ==> r == SourceType(e)
  {
    SourceType(e) + (if e.source.reference != "" then " • " + e.source.reference else "")
  }

  /** The four texts of an entry, in the order they are copied. */
  function Texts(e: Entry): seq<string> {
    [e.arabic, e.transliteration, e.english, e.turkish]
  }

  /** `[...].filter(Boolean)` in `buildFullCopy`. */
  function CopyParts(e: Entry): seq<string> {
    NonEmpty([DisplayName(e), SourceLine(e)] + Texts(e))
  }

  /** `buildFullCopy(p)`: prophet name, source line and the non-empty texts,
      separated by blank lines. The copy opens with the name and the source
      line (and is just those two when there is no text) and contains each
      of the four texts. */
  function BuildFullCopy(e: Entry): (r: string)
    ensures DisplayName(e) + "\n\n" + SourceLine(e) <= r
    ensures e.arabic == "" && e.transliteration == "" && e.english == "" && e.turkish == "" ==>
      r == DisplayName(e) + "\n\n" + SourceLine(e)
    ensures forall k :: 0 <= k < 4 ==> Text.Includes(r, Texts(e)[k])
  {
    var parts := CopyParts(e);
    var r := Text.Join(parts, "\n\n");
    CopyPartsShape(e);
    JoinTwoHead(DisplayName(e), SourceLine(e), NonEmpty(Texts(e)), "\n\n");
    assert e.arabic == "" && e.transliteration == "" && e.english == "" && e.turkish == "" ==>
      NonEmpty(Texts(e)) == [] by {
      if e.arabic == "" && e.transliteration == "" && e.english == "" && e.turkish == "" {
        NonEmptyOfEmpties(Texts(e));
      }
    }
    assert forall k :: 0 <= k < 4 ==> Text.Includes(r, Texts(e)[k]) by {
      forall k | 0 <= k < 4 ensures Text.Includes(r, Texts(e)[k]) {
        var x := Texts(e)[k];
        if x == "" {
          assert "" <= r;
        } else {
          assert x in [DisplayName(e), SourceLine(e)] + Texts(e);
          assert x in parts;
          var j :| 0 <= j < |parts| && parts[j] == x;
          Text.IncludesJoinedPart(parts, "\n\n", j);
        }
      }
    }
    r
  }

  /** The name and the source line are never empty, so they always lead the parts. */
  lemma CopyPartsShape(e: Entry)
    ensures CopyParts(e) == [DisplayName(e), SourceLine(e)] + NonEmpty(Texts(e))
  {
    var name, line := DisplayName(e), SourceLine(e);
    NonEmptyConcat([name, line], Texts(e));
    assert NonEmpty([name, line]) == [name, line] by {
      assert [name, line][1..] == [line];
      assert NonEmpty([line]) == [line] by { assert [line][1..] == []; }
    }
  }

  lemma JoinTwoHead(a: string, b: string, rest: seq<string>, sep: string)
    ensures Text.Join([a, b] + rest, sep) == a + sep + (if rest == [] then b else b + sep + Text.Join(rest, sep))
  {
    assert ([a, b] + rest)[1..] == [b] + rest;
    assert ([b] + rest)[1..] == rest;
  }

  lemma NonEmptyOfEmpties(ts: seq<string>)
    requires forall i :: 0 <= i < |ts| ==> ts[i] == ""
    ensures NonEmpty(ts) == []
  {
  }

  lemma {:induction false} NonEmptyConcat(a: seq<string>, b: seq<string>)
    ensures NonEmpty(a + b) == NonEmpty(a) + NonEmpty(b)
  {
    if a == [] {
      assert a + b == b;
    } else {
      assert (a + b)[1..] == a[1..] + b;
      NonEmptyConcat(a[1..], b);
    }
  }

  // ---------------------------------------------------------------------
  // the dataset holder

  /** How the derived lists grow by one entry. */
  lemma PrefixStep(data: seq<Entry>, i: nat)
    requires i < |data|
    ensures DistinctProphets(data[..i + 1]) == AddProphet(DistinctProphets(data[..i]), data[i].prophet)
    ensures AllTopics(data[..i + 1]) == AllTopics(data[..i]) + NonEmpty(data[i].topics)
    ensures AllSourceTypes(data[..i + 1]) == AllSourceTypes(data[..i]) + [SourceType(data[i])]
  {
    assert data[..i + 1][..i] == data[..i];
  }

  /** `ts.forEach(t => topicsSet.add(t))` on the `Set` built from `seen`. */
  method AddAll(set0: seq<string>, ghost seen: seq<string>, ts: seq<string>) returns (r: seq<string>)
    requires set0 == Dedup(seen)
    ensures r == Dedup(seen + ts)
  {
    r := set0;
    var j := 0;
    assert seen + ts[..0] == seen;
    while j < |ts|
      invariant 0 <= j <= |ts|
      invariant r == Dedup(seen + ts[..j])
    {
      DedupPrefixStep(seen, ts, j);
      if ts[j] !in r {
        r := r + [ts[j]];
      }
      j := j + 1;
    }
    assert ts[..j] == ts;
  }

  /** The four globals `buildDerived` fills. */
  datatype DerivedLists = DerivedLists(
    index: seq<IndexEntry>,
    prophets: seq<ProphetInfo>,
    topics: seq<string>,
    sourceTypes: seq<string>)

  /** What `buildDerived` computes from the dataset: the index, the distinct
      prophets, the distinct topics in first-seen order and the distinct
      source types in preferred order. */
  function Derivation(data: seq<Entry>): DerivedLists {
    DerivedLists(IndexAll(data), DistinctProphets(data), Dedup(AllTopics(data)), RankOrder(Dedup(AllSourceTypes(data))))
  }

  /** The derived lists after the loop over `data` and before the sort. */
  function Unsorted(data: seq<Entry>): DerivedLists {
    DerivedLists(IndexAll(data), DistinctProphets(data), Dedup(AllTopics(data)), Dedup(AllSourceTypes(data)))
  }

  /** One turn of the `DATA.map` callback: append the index record, add the
      prophet to the `Map`, the topics to the topic `Set` and the source type
      to the source `Set`. */
  method DeriveStep(data: seq<Entry>, i: nat, acc: DerivedLists) returns (next: DerivedLists)
    requires i < |data| && acc == Unsorted(data[..i])
    ensures next == Unsorted(data[..i + 1])
  {
    var e := data[i];
    PrefixStep(data, i);
    MapAllStep(IndexOf, data, i);
    var tops := AddAll(acc.topics, AllTopics(data[..i]), NonEmpty(e.topics));
    var st := SourceType(e);
    DedupSnoc(AllSourceTypes(data[..i]), st);
    var srcs := acc.sourceTypes;
    if st !in srcs {
      srcs := srcs + [st];
    }
    next := DerivedLists(acc.index + [IndexOf(e)], AddProphet(acc.prophets, e.prophet), tops, srcs);
  }

  /** The loop of `buildDerived` over the dataset, then the sort of the
      source types. */
  method Derive(data: seq<Entry>) returns (r: DerivedLists)
    ensures r == Derivation(data)
  {
    var acc := DerivedLists([], [], [], []);
    for i := 0 to |data|
      invariant acc == Unsorted(data[..i])
    {
      acc := DeriveStep(data, i, acc);
    }
    assert data[..|data|] == data;
    r := acc.(sourceTypes := RankOrder(acc.sourceTypes));
  }

  /** What `res.json()` produced: the app accepts only an array. */
  datatype Payload = ArrayPayload(entries: seq<Entry>) | NotAnArray

  /** The module globals `DATA`, `INDEX`, `PROPHETS`, `TOPICS`,
      `SOURCE_TYPES` and the map `findById` caches on itself. */
  class Catalog {
    var data: seq<Entry>
    var index: seq<IndexEntry>
    var prophets: seq<ProphetInfo>
    var topics: seq<string>
    var sourceTypes: seq<string>
    var cache: Option<map<string, Entry>>

    /** The globals before the data arrive. */
    constructor ()
      ensures data == [] && index == [] && prophets == [] && topics == []
      ensures sourceTypes == InitialSourceTypes && cache == None
    {
      data, index, prophets, topics := [], [], [], [];
      sourceTypes, cache := InitialSourceTypes, None;
    }

    function Lists(): DerivedLists
      reads this
    {
      DerivedLists(index, prophets, topics, sourceTypes)
    }

    /** The derived globals agree with `data`. */
    predicate Derived()
      reads this
    {
      Lists() == Derivation(data)
    }

    /** The cached map, when there is one, is the map of `data`. */
    predicate CacheFresh()
      reads this
    {
      cache.None? || cache.value == ById(data)
    }

    /** `buildDerived()`, without the filter-option rendering: the
        derived values are computed from `DATA` and assigned to the globals. */
    method BuildDerived()
      modifies this`index, this`prophets, this`topics, this`sourceTypes
      ensures Derived()
    {
      var r := Derive(data);
      SetLists(r);
    }

    /** The four assignments to the derived globals. */
    method SetLists(r: DerivedLists)
      modifies this`index, this`prophets, this`topics, this`sourceTypes
      ensures Lists() == r
    {
      index, prophets, topics, sourceTypes := r.index, r.prophets, r.topics, r.sourceTypes;
    }

    /** The part of `fetchData()` after the JSON is parsed: a root that is
        not an array is an error and leaves everything as it was; an array
        becomes `DATA` and the derived globals are rebuilt. */
    method ReceiveDataset(payload: Payload) returns (ok: bool)
      modifies this`data, this`index, this`prophets, this`topics, this`sourceTypes
      ensures ok <==> payload.ArrayPayload?
      ensures ok ==> data == payload.entries && Derived()
      ensures !ok ==>
        && data == old(data) && index == old(index) && prophets == old(prophets)
        && topics == old(topics) && sourceTypes == old(sourceTypes)
    {
      if !payload.ArrayPayload? {
        return false;
      }
      data := payload.entries;
      BuildDerived();
      return true;
    }

    /** `findById(id)`: builds the map on the first call and keeps it; the
        entry for `id`, or `null`. */
    method FindById(id: string) returns (r: Option<Entry>)
      modifies this`cache
      ensures cache.Some?
      ensures old(cache).Some? ==> cache == old(cache)
      ensures old(cache).None? ==> cache == Some(ById(data))
      ensures r == if id in cache.value then Some(cache.value[id]) else None
      ensures old(CacheFresh()) ==> CacheFresh() && r == Lookup(data, id)
    {
      if cache.None? {
        var m: map<string, Entry> := map[];
        var i := 0;
        while i < |data|
          invariant 0 <= i <= |data|
          invariant m == ById(data[..i])
        {
          assert data[..i + 1][..i] == data[..i];
          m := m[data[i].id := data[i]];
          i := i + 1;
        }
        assert data[..i] == data;
        cache := Some(m);
      }
      r := if id in cache.value then Some(cache.value[id]) else None;
    }
  }
}
