/**
 * `filterData` (app.js:1273-1306): the scan over the search index that
 * yields, in dataset order, the ids of the entries that pass the favourites
 * switch and the prophet, topic, source-type and free-text criteria. Every
 * criterion is compared after `normalize`; an empty normalized criterion
 * lets everything through.
 */
module Filter {
  import opened Lists
  import Text
  import Catalog

  type IndexEntry = Catalog.IndexEntry

  /** The argument object of `filterData`. */
  datatype Criteria = Criteria(q: string, prophet: string, topic: string, source: string, favoritesOnly: bool)

  /** The topic test: no topic asked for, the label itself among the entry's
      topics, or some topic of the entry whose normal form is the asked one. */
  predicate TopicMatches(topics: set<string>, topic: string) {
    var nt := Text.Normalize(topic);
    nt == "" || topic in topics || exists t :: t in topics && Text.Normalize(t) == nt
  }

  /** One index record passes every test of the loop body. */
  predicate Matches(it: IndexEntry, favorites: seq<string>, c: Criteria) {
    var np, ns, nq := Text.Normalize(c.prophet), Text.Normalize(c.source), Text.Normalize(c.q);
    && (c.favoritesOnly ==> it.id in favorites)
    && (np == "" || Text.Normalize(it.prophetKey) == np)
    && TopicMatches(it.topics, c.topic)
    && (ns == "" || Text.Normalize(it.sourceType) == ns)
    && (nq == "" || Text.Includes(it.search, nq))
  }

  /** The ids of the records `keep` admits, in index order. */
  function Select(index: seq<IndexEntry>, keep: IndexEntry -> bool): seq<string> {
    if index == [] then []
    else (if keep(index[0]) then [index[0].id] else []) + Select(index[1..], keep)
  }

  /** The ids of the matching records, in index order. */
  function FilterSpec(index: seq<IndexEntry>, favorites: seq<string>, c: Criteria): seq<string> {
    Select(index, it => Matches(it, favorites, c))
  }

  /** All ids of the index, in order. */
  function Ids(index: seq<IndexEntry>): (r: seq<string>)
    ensures |r| == |index|
    ensures forall i :: 0 <= i < |index| ==> r[i] == index[i].id
  {
    seq(|index|, i requires 0 <= i < |index| => index[i].id)
  }

  /** The ids of `ids` that are in `keep`, in order. */
  function KeepIn(ids: seq<string>, keep: seq<string>): (r: seq<string>)
    ensures forall x :: x in r <==> x in ids && x in keep
  {
    if ids == [] then []
    else (if ids[0] in keep then [ids[0]] else []) + KeepIn(ids[1..], keep)
  }

  /** The inner `for (const t of it.topics)` loop: is there a topic whose
      normal form is `nt`? */
  method SomeTopicNormalizesTo(topics: set<string>, nt: string) returns (ok: bool)
    ensures ok <==> exists t :: t in topics && Text.Normalize(t) == nt
  {
    var rest := topics;
    while rest != {}
      invariant rest <= topics
      invariant forall t :: t in topics && t !in rest ==> Text.Normalize(t) != nt
      decreases |rest|
    {
      var t :| t in rest;
      if Text.Normalize(t) == nt {
        return true;
      }
      rest := rest - {t};
    }
    return false;
  }

  /** The body of the scan for one record: `false` where the source
      `continue`s, `true` where it pushes the id. */
  method Admit(it: IndexEntry, favorites: seq<string>, c: Criteria, nq: string, np: string, nt: string, ns: string)
    returns (keep: bool)
    requires nq == Text.Normalize(c.q) && np == Text.Normalize(c.prophet)
    requires nt == Text.Normalize(c.topic) && ns == Text.Normalize(c.source)
    ensures keep <==> Matches(it, favorites, c)
  {
    if c.favoritesOnly && it.id !in favorites {
      return false;
    }
    if np != "" && Text.Normalize(it.prophetKey) != np {
      return false;
    }
    if nt != "" && c.topic !in it.topics {
      var ok := SomeTopicNormalizesTo(it.topics, nt);
      if !ok {
        return false;
      }
    }
    if ns != "" && Text.Normalize(it.sourceType) != ns {
      return false;
    }
    if nq != "" && !Text.Includes(it.search, nq) {
      return false;
    }
    return true;
  }

  /** `filterData(...)`: the scan over `INDEX`; `favorites` is
      `state.prefs.favorites`. */
  method FilterData(index: seq<IndexEntry>, favorites: seq<string>, c: Criteria) returns (out: seq<string>)
    ensures out == FilterSpec(index, favorites, c)
  {
    var nq, np, nt, ns := NormalizeCriteria(c);
    out := [];
    for i := 0 to |index|
      invariant out == FilterSpec(index[..i], favorites, c)
    {
      out := ScanOne(index, favorites, c, nq, np, nt, ns, i, out);
    }
    assert index[..|index|] == index;
  }

  /** The four criteria in normal form, computed once before the scan. */
  method NormalizeCriteria(c: Criteria) returns (nq: string, np: string, nt: string, ns: string)
    ensures nq == Text.Normalize(c.q) && np == Text.Normalize(c.prophet)
    ensures nt == Text.Normalize(c.topic) && ns == Text.Normalize(c.source)
  {
    nq := Text.Normalize(c.q);
    np := Text.Normalize(c.prophet);
    nt := Text.Normalize(c.topic);
    ns := Text.Normalize(c.source);
  }

  /** One turn of the scan: the id of `index[i]` is pushed when the record
      passes. */
  method ScanOne(index: seq<IndexEntry>, favorites: seq<string>, c: Criteria,
                 nq: string, np: string, nt: string, ns: string, i: nat, out: seq<string>)
    returns (next: seq<string>)
    requires i < |index|
    requires nq == Text.Normalize(c.q) && np == Text.Normalize(c.prophet)
    requires nt == Text.Normalize(c.topic) && ns == Text.Normalize(c.source)
    requires out == FilterSpec(index[..i], favorites, c)
    ensures next == FilterSpec(index[..i + 1], favorites, c)
  {
    var it := index[i];
    FilterStep(index, favorites, c, i);
    var keep := Admit(it, favorites, c, nq, np, nt, ns);
    next := if keep then out + [it.id] else out;
  }

  /** How the result grows by one record. */
  lemma FilterStep(index: seq<IndexEntry>, favorites: seq<string>, c: Criteria, i: nat)
    requires i < |index|
    ensures FilterSpec(index[..i + 1], favorites, c)
         == FilterSpec(index[..i], favorites, c) + (if Matches(index[i], favorites, c) then [index[i].id] else [])
  {
    var keep := it => Matches(it, favorites, c);
    assert index[..i + 1] == index[..i] + [index[i]];
    SelectConcat(index[..i], [index[i]], keep);
    assert Select([index[i]], keep) == (if keep(index[i]) then [index[i].id] else []) + Select([], keep);
  }

  lemma {:induction false} SelectConcat(a: seq<IndexEntry>, b: seq<IndexEntry>, keep: IndexEntry -> bool)
    ensures Select(a + b, keep) == Select(a, keep) + Select(b, keep)
  {
    if a == [] {
      assert a + b == b;
    } else {
      assert (a + b)[1..] == a[1..] + b;
      SelectConcat(a[1..], b, keep);
    }
  }

  lemma {:induction false} SelectSubseq(index: seq<IndexEntry>, keep: IndexEntry -> bool)
    ensures IsSubseq(Select(index, keep), Ids(index))
  {
    if index != [] {
      SelectSubseq(index[1..], keep);
      var r := Select(index, keep);
      var rest := Select(index[1..], keep);
      var ids := Ids(index[1..]);
      assert Ids(index) == [index[0].id] + ids;
      if keep(index[0]) {
        assert r[1..] == rest;
        assert Ids(index)[1..] == ids;
      } else {
        assert r == rest;
        IsSubseqCons(rest, index[0].id, ids);
      }
    }
  }

  lemma {:induction false} SelectMembers(index: seq<IndexEntry>, keep: IndexEntry -> bool, id: string)
    ensures id in Select(index, keep) <==> exists i :: 0 <= i < |index| && index[i].id == id && keep(index[i])
  {
    if index != [] {
      SelectMembers(index[1..], keep, id);
      if exists i :: 0 <= i < |index| && index[i].id == id && keep(index[i]) {
        var i :| 0 <= i < |index| && index[i].id == id && keep(index[i]);
        if i > 0 {
          assert index[1..][i - 1] == index[i];
        }
      }
      if exists i :: 0 <= i < |index| - 1 && index[1..][i].id == id && keep(index[1..][i]) {
        var i :| 0 <= i < |index| - 1 && index[1..][i].id == id && keep(index[1..][i]);
        assert index[i + 1] == index[1..][i];
      }
    }
  }

  lemma {:induction false} SelectEverything(index: seq<IndexEntry>, keep: IndexEntry -> bool)
    requires forall i :: 0 <= i < |index| ==> keep(index[i])
    ensures Select(index, keep) == Ids(index)
  {
    if index != [] {
      assert keep(index[0]);
      SelectEverything(index[1..], keep);
      assert Ids(index) == [index[0].id] + Ids(index[1..]);
    }
  }

  lemma {:induction false} SelectSame(index: seq<IndexEntry>, keep1: IndexEntry -> bool, keep2: IndexEntry -> bool)
    requires forall i :: 0 <= i < |index| ==> keep1(index[i]) == keep2(index[i])
    ensures Select(index, keep1) == Select(index, keep2)
  {
    if index != [] {
      assert keep1(index[0]) == keep2(index[0]);
      SelectSame(index[1..], keep1, keep2);
    }
  }

  lemma {:induction false} SelectNarrow(index: seq<IndexEntry>, keep: IndexEntry -> bool, narrow: IndexEntry -> bool, ids: seq<string>)
    requires forall i :: 0 <= i < |index| ==> narrow(index[i]) == (keep(index[i]) && index[i].id in ids)
    ensures Select(index, narrow) == KeepIn(Select(index, keep), ids)
  {
    if index != [] {
      assert narrow(index[0]) == (keep(index[0]) && index[0].id in ids);
      SelectNarrow(index[1..], keep, narrow, ids);
      var all := Select(index, keep);
      var rest := Select(index[1..], keep);
      if keep(index[0]) {
        assert all == [index[0].id] + rest;
        assert all[0] == index[0].id;
        assert all[1..] == rest;
      } else {
        assert all == rest;
      }
    }
  }

  /** The result keeps the dataset order and never grows: it is the index's
      id list with some ids left out. */
  lemma {:induction false} FilterSubseq(index: seq<IndexEntry>, favorites: seq<string>, c: Criteria)
    ensures IsSubseq(FilterSpec(index, favorites, c), Ids(index))
    ensures |FilterSpec(index, favorites, c)| <= |index|
  {
    SelectSubseq(index, it => Matches(it, favorites, c));
    IsSubseqLength(FilterSpec(index, favorites, c), Ids(index));
  }

  /** An id is in the result exactly when some record with that id matches. */
  lemma {:induction false} FilterMembers(index: seq<IndexEntry>, favorites: seq<string>, c: Criteria, id: string)
    ensures id in FilterSpec(index, favorites, c) <==>
      exists i :: 0 <= i < |index| && index[i].id == id && Matches(index[i], favorites, c)
  {
    SelectMembers(index, it => Matches(it, favorites, c), id);
  }

  /** Criteria that normalize to nothing, with the favourites switch off,
      return every id of the index. */
  lemma {:induction false} FilterNoCriteria(index: seq<IndexEntry>, favorites: seq<string>, c: Criteria)
    requires !c.favoritesOnly
    requires Text.Normalize(c.q) == "" && Text.Normalize(c.prophet) == ""
    requires Text.Normalize(c.topic) == "" && Text.Normalize(c.source) == ""
    ensures FilterSpec(index, favorites, c) == Ids(index)
  {
    SelectEverything(index, it => Matches(it, favorites, c));
  }

  lemma FavoritesOnlyMatches(it: IndexEntry, favorites: seq<string>, c: Criteria)
    ensures Matches(it, favorites, c.(favoritesOnly := true))
         == (Matches(it, favorites, c.(favoritesOnly := false)) && it.id in favorites)
  {
  }

  /** With the favourites switch on, the result is the result without it,
      restricted to the favourite ids. */
  lemma {:induction false} FavoritesNarrow(index: seq<IndexEntry>, favorites: seq<string>, c: Criteria)
    ensures FilterSpec(index, favorites, c.(favoritesOnly := true))
         == KeepIn(FilterSpec(index, favorites, c.(favoritesOnly := false)), favorites)
  {
    var on, off := c.(favoritesOnly := true), c.(favoritesOnly := false);
    forall i | 0 <= i < |index|
      ensures Matches(index[i], favorites, on) == (Matches(index[i], favorites, off) && index[i].id in favorites)
    {
      FavoritesOnlyMatches(index[i], favorites, c);
    }
    SelectNarrow(index, it => Matches(it, favorites, off), it => Matches(it, favorites, on), favorites);
  }

  /** The raw-label shortcut of the topic test never changes its outcome:
      the label itself normalizes to the asked-for form. */
  lemma TopicShortcut(topics: set<string>, topic: string)
    ensures TopicMatches(topics, topic) <==>
      Text.Normalize(topic) == "" || exists t :: t in topics && Text.Normalize(t) == Text.Normalize(topic)
  {
  }

  /** Criteria with the same normal forms select the same records: the
      search ignores ASCII case, combining marks and extra white space in
      what the user typed. */
  lemma {:induction false} SameNormalForms(it: IndexEntry, favorites: seq<string>, c1: Criteria, c2: Criteria)
    requires c1.favoritesOnly == c2.favoritesOnly
    requires Text.Normalize(c1.q) == Text.Normalize(c2.q)
    requires Text.Normalize(c1.prophet) == Text.Normalize(c2.prophet)
    requires Text.Normalize(c1.topic) == Text.Normalize(c2.topic)
    requires Text.Normalize(c1.source) == Text.Normalize(c2.source)
    ensures Matches(it, favorites, c1) <==> Matches(it, favorites, c2)
  {
    TopicShortcut(it.topics, c1.topic);
    TopicShortcut(it.topics, c2.topic);
  }

  /** The criteria in normal form. */
  function NormalCriteria(c: Criteria): Criteria {
    Criteria(Text.Normalize(c.q), Text.Normalize(c.prophet), Text.Normalize(c.topic), Text.Normalize(c.source), c.favoritesOnly)
  }

  /** Filtering by the normalized criteria gives the same ids, for criteria
      typed in ASCII (beyond ASCII the program's `normalize` is not
      idempotent). */
  lemma {:induction false} FilterNormalCriteria(index: seq<IndexEntry>, favorites: seq<string>, c: Criteria)
    requires Text.IsAscii(c.q) && Text.IsAscii(c.prophet) && Text.IsAscii(c.topic) && Text.IsAscii(c.source)
    ensures FilterSpec(index, favorites, NormalCriteria(c)) == FilterSpec(index, favorites, c)
  {
    Text.NormalizeIdempotent(c.q);
    Text.NormalizeIdempotent(c.prophet);
    Text.NormalizeIdempotent(c.topic);
    Text.NormalizeIdempotent(c.source);
    forall i | 0 <= i < |index| ensures Matches(index[i], favorites, NormalCriteria(c)) == Matches(index[i], favorites, c) {
      SameNormalForms(index[i], favorites, NormalCriteria(c), c);
    }
    SelectSame(index, it => Matches(it, favorites, NormalCriteria(c)), it => Matches(it, favorites, c));
  }

  // ---------------------------------------------------------------------
  // the options of the filter selects (`fillFilterOptions`)

  /** The criteria when only one select is set. */
  function ProphetChoice(key: string): Criteria { Criteria("", key, "", "", false) }
  function TopicChoice(topic: string): Criteria { Criteria("", "", topic, "", false) }
  function SourceChoice(source: string): Criteria { Criteria("", "", "", source, false) }

  lemma NormalizeEmpty()
    ensures Text.Normalize("") == ""
  {
    assert Text.ToLower("") == "";
  }

  /** The tests of the scan are independent: a record passes exactly when
      it passes the favourites switch and each criterion set on its own. */
  lemma MatchesSplit(it: IndexEntry, favorites: seq<string>, c: Criteria)
    ensures Matches(it, favorites, c) <==>
      && (c.favoritesOnly ==> it.id in favorites)
      && Matches(it, favorites, ProphetChoice(c.prophet))
      && Matches(it, favorites, TopicChoice(c.topic))
      && Matches(it, favorites, SourceChoice(c.source))
      && Matches(it, favorites, Criteria(c.q, "", "", "", false))
  {
    NormalizeEmpty();
  }

  /** Choosing an entry's own prophet key finds that entry. */
  lemma {:induction false} FindsByProphet(data: seq<Catalog.Entry>, favorites: seq<string>, i: nat)
    requires i < |data|
    ensures data[i].id in FilterSpec(Catalog.IndexAll(data), favorites, ProphetChoice(Catalog.ProphetKey(data[i].prophet)))
  {
    var index := Catalog.IndexAll(data);
    NormalizeEmpty();
    assert index[i] == Catalog.IndexOf(data[i]);
    assert Matches(index[i], favorites, ProphetChoice(Catalog.ProphetKey(data[i].prophet)));
    FilterMembers(index, favorites, ProphetChoice(Catalog.ProphetKey(data[i].prophet)), data[i].id);
  }

  /** Typing (in ASCII) a piece of any search field of an entry finds that
      entry. */
  lemma {:induction false} FindsByText(data: seq<Catalog.Entry>, favorites: seq<string>, i: nat, k: nat, q: string)
    requires i < |data| && k < |Catalog.SearchFields(data[i])|
    requires Text.Includes(Catalog.SearchFields(data[i])[k], q) && Text.IsAscii(q)
    ensures data[i].id in FilterSpec(Catalog.IndexAll(data), favorites, Criteria(q, "", "", "", false))
  {
    var index := Catalog.IndexAll(data);
    NormalizeEmpty();
    assert index[i] == Catalog.IndexOf(data[i]);
    Catalog.SearchFindsText(data[i], k, q);
    assert Matches(index[i], favorites, Criteria(q, "", "", "", false));
    FilterMembers(index, favorites, Criteria(q, "", "", "", false), data[i].id);
  }

  /** Choosing one of an entry's topic labels finds that entry. */
  lemma {:induction false} FindsByTopic(data: seq<Catalog.Entry>, favorites: seq<string>, i: nat, t: string)
    requires i < |data| && t in data[i].topics && t != ""
    ensures data[i].id in FilterSpec(Catalog.IndexAll(data), favorites, TopicChoice(t))
  {
    var index := Catalog.IndexAll(data);
    NormalizeEmpty();
    assert index[i] == Catalog.IndexOf(data[i]);
    assert t in index[i].topics;
    assert Matches(index[i], favorites, TopicChoice(t));
    FilterMembers(index, favorites, TopicChoice(t), data[i].id);
  }

  /** Choosing an entry's source type finds that entry. */
  lemma {:induction false} FindsBySource(data: seq<Catalog.Entry>, favorites: seq<string>, i: nat)
    requires i < |data|
    ensures data[i].id in FilterSpec(Catalog.IndexAll(data), favorites, SourceChoice(Catalog.SourceType(data[i])))
  {
    var index := Catalog.IndexAll(data);
    NormalizeEmpty();
    assert index[i] == Catalog.IndexOf(data[i]);
    assert Matches(index[i], favorites, SourceChoice(Catalog.SourceType(data[i])));
    FilterMembers(index, favorites, SourceChoice(Catalog.SourceType(data[i])), data[i].id);
  }

  /** Every option of the prophet select finds at least one entry. */
  lemma {:induction false} ProphetOptionsFind(data: seq<Catalog.Entry>, favorites: seq<string>, p: Catalog.ProphetInfo)
    requires p in Catalog.Derivation(data).prophets
    ensures FilterSpec(Catalog.IndexAll(data), favorites, ProphetChoice(p.key)) != []
  {
    var ps := Catalog.DistinctProphets(data);
    Catalog.DistinctProphetsFirst(data);
    var k :| 0 <= k < |ps| && ps[k] == p;
    var i :| 0 <= i < |data| && Catalog.FirstWithKey(data, i, ps[k].key) && ps[k] == Catalog.InfoOf(data[i].prophet);
    FindsByProphet(data, favorites, i);
  }

  /** Every option of the topic select finds at least one entry. */
  lemma {:induction false} TopicOptionsFind(data: seq<Catalog.Entry>, favorites: seq<string>, t: string)
    requires t in Catalog.Derivation(data).topics
    ensures FilterSpec(Catalog.IndexAll(data), favorites, TopicChoice(t)) != []
  {
    Catalog.DistinctTopicsSpec(data);
    var i :| 0 <= i < |data| && t in data[i].topics;
    FindsByTopic(data, favorites, i, t);
  }

  /** Every option of the source select finds at least one entry. */
  lemma {:induction false} SourceOptionsFind(data: seq<Catalog.Entry>, favorites: seq<string>, s: string)
    requires s in Catalog.Derivation(data).sourceTypes
    ensures FilterSpec(Catalog.IndexAll(data), favorites, SourceChoice(s)) != []
  {
    var types := Dedup(Catalog.AllSourceTypes(data));
    assert s in multiset(Catalog.RankOrder(types));
    assert s in types;
    var i :| 0 <= i < |data| && Catalog.AllSourceTypes(data)[i] == s;
    FindsBySource(data, favorites, i);
  }
}
