/**
 * The preference record `state.prefs` of app.js and the updates the app makes
 * to it: toggling a favourite, pushing a recently opened id, and stepping the
 * two font sizes within their bounds. Writing the record to `localStorage`
 * after each update is I/O and is not part of this model.
 */
module Prefs {
  import opened Lists

  /** `.slice(0, 20)` in `pushRecentId`. */
  const MaxRecent: nat := 20

  /** The bounds the A-/A+ buttons and `applyFontSizes` clamp to. */
  const FontArabicMin := 16
  const FontArabicMax := 34
  const FontTextMin := 13
  const FontTextMax := 20
  /** `fontArabic || 20` and `fontText || 15`. */
  const FontArabicDefault := 20
  const FontTextDefault := 15
  /** `Math.min(ar + 4, 38)` */
  const ArabicBigCap := 38

  /** `clamp(n, min, max)`, that is `Math.max(min, Math.min(max, n))`. */
  function Clamp(n: int, lo: int, hi: int): (r: int)
    ensures lo <= hi ==> lo <= r <= hi
    ensures lo <= hi ==> (r == n <==> lo <= n <= hi)
    ensures lo <= hi && n < lo ==> r == lo
    ensures lo <= hi && hi < n ==> r == hi
    ensures hi < lo ==> r == lo
  {
    var m := if hi < n then hi else n;
    if lo < m then m else lo
  }

  /** The three CSS sizes `applyFontSizes` sets: `--arabic`, `--arabic-big`, `--text`. */
  datatype FontVars = FontVars(arabic: int, arabicBig: int, text: int)

  /** `applyFontSizes`: a zero (falsy) preference falls back to the default,
      then each size is clamped; `--arabic-big` is four pixels larger. */
  function CssFontSizes(fontArabic: int, fontText: int): (v: FontVars)
    ensures FontArabicMin <= v.arabic <= FontArabicMax
    ensures FontTextMin <= v.text <= FontTextMax
    ensures fontArabic == 0 ==> v.arabic == FontArabicDefault
    ensures fontText == 0 ==> v.text == FontTextDefault
    ensures FontArabicMin <= fontArabic <= FontArabicMax ==> v.arabic == fontArabic
    ensures FontTextMin <= fontText <= FontTextMax ==> v.text == fontText
    // the cap of 38 never binds, because the clamped size is at most 34
    ensures v.arabicBig == v.arabic + 4
  {
    var ar := Clamp(if fontArabic == 0 then FontArabicDefault else fontArabic, FontArabicMin, FontArabicMax);
    var txt := Clamp(if fontText == 0 then FontTextDefault else fontText, FontTextMin, FontTextMax);
    FontVars(ar, if ar + 4 < ArabicBigCap then ar + 4 else ArabicBigCap, txt)
  }

  /** The favourites after `toggleFavorite(id)`: the list goes through a
      `Set` (dropping repeats, keeping first occurrences), then `id` is
      deleted if present and appended otherwise. */
  function Toggled(favorites: seq<string>, id: string): (r: seq<string>)
    ensures id in r <==> id !in favorites
    ensures forall x :: x != id ==> (x in r <==> x in favorites)
    ensures NoDup(r)
  {
    var fav := Dedup(favorites);
    if id in fav then
      RemoveAllKeepsNoDup(fav, id);
      RemoveAll(fav, id)
    else
      assert NoDup(fav + [id]) by {
        forall i, j | 0 <= i < j < |fav| + 1 ensures (fav + [id])[i] != (fav + [id])[j] {
          if j == |fav| { assert (fav + [id])[i] == fav[i]; }
        }
      }
      fav + [id]
  }

  lemma {:induction false} RemoveAllAbsent(s: seq<string>, x: string)
    requires x !in s
    ensures RemoveAll(s, x) == s
  {
    if s != [] {
      RemoveAllAbsent(s[1..], x);
    }
  }

  lemma {:induction false} RemoveAllAppended(s: seq<string>, x: string)
    ensures RemoveAll(s + [x], x) == RemoveAll(s, x)
  {
    if s == [] {
      assert RemoveAll([x], x) == [] + RemoveAll([], x);
    } else {
      assert (s + [x])[1..] == s[1..] + [x];
      RemoveAllAppended(s[1..], x);
    }
  }

  /** Toggling the same id twice gives back the same set of favourites; the
      list itself comes back without repeats, with `id` moved to the end if it
      was a favourite. */
  lemma ToggleTwice(favorites: seq<string>, id: string)
    ensures Toggled(Toggled(favorites, id), id) ==
      if id in favorites then RemoveAll(Dedup(favorites), id) + [id] else Dedup(favorites)
    ensures forall x :: x in Toggled(Toggled(favorites, id), id) <==> x in favorites
  {
    var once := Toggled(favorites, id);
    DedupOfNoDup(once);
    if id !in favorites {
      RemoveAllAppended(Dedup(favorites), id);
      RemoveAllAbsent(Dedup(favorites), id);
    }
  }

  /** The recent list after `pushRecentId(id)`: `id` in front of the old list
      with every `id` filtered out, cut to the first 20. */
  function Pushed(recent: seq<string>, id: string): (r: seq<string>)
    ensures |r| <= MaxRecent
    ensures r != [] && r[0] == id
  {
    var next := [id] + RemoveAll(recent, id);
    if |next| <= MaxRecent then next else next[..MaxRecent]
  }

  /** After `pushRecentId(id)` the list holds `id` exactly once, in front,
      followed by the previous list without `id` in its original order and
      truncated; a list without repeats stays without repeats. */
  lemma PushedSpec(recent: seq<string>, id: string)
    ensures Count(Pushed(recent, id), id) == 1
    ensures var rest := RemoveAll(recent, id);
      Pushed(recent, id)[1..] == rest[..if |rest| < MaxRecent then |rest| else MaxRecent - 1]
    ensures forall x :: x != id && x in Pushed(recent, id) ==> x in recent
    ensures NoDup(recent) ==> NoDup(Pushed(recent, id))
  {
    var rest := RemoveAll(recent, id);
    var r := Pushed(recent, id);
    var k := if |rest| < MaxRecent then |rest| else MaxRecent - 1;
    assert r == [id] + rest[..k];
    CountRemoveAll(recent, id);
    CountOfPrefix(rest, k, id);
    assert r[1..] == rest[..k];
    forall x | x != id && x in r ensures x in recent {
      assert x in rest[..k];
    }
    if NoDup(recent) {
      RemoveAllKeepsNoDup(recent, id);
      forall i, j | 0 <= i < j < |r| ensures r[i] != r[j] {
        if i == 0 {
          assert r[j] in rest;
        } else {
          assert r[i] == rest[i - 1] && r[j] == rest[j - 1];
        }
      }
    }
  }

  /** `state.prefs`: the record that is loaded over `DEFAULT_PREFS` and written
      back after every change. */
  class Preferences {
    var theme: string
    var uiLang: string
    var showArabic: bool
    var showTranslit: bool
    var showEN: bool
    var showTR: bool
    var fontArabic: int
    var fontText: int
    var favorites: seq<string>
    var recent: seq<string>
    var lastRoute: string

    /** `DEFAULT_PREFS` */
    constructor Defaults()
      ensures theme == "auto" && uiLang == "en"
      ensures showArabic && showTranslit && showEN && showTR
      ensures fontArabic == FontArabicDefault && fontText == FontTextDefault
      ensures favorites == [] && recent == []
      ensures lastRoute == "#home"
    {
      theme, uiLang := "auto", "en";
      showArabic, showTranslit, showEN, showTR := true, true, true, true;
      fontArabic, fontText := FontArabicDefault, FontTextDefault;
      favorites, recent := [], [];
      lastRoute := "#home";
    }

    /** `toggleFavorite(id)` */
    method ToggleFavorite(id: string)
      modifies this`favorites
      ensures favorites == Toggled(old(favorites), id)
      ensures id in favorites <==> id !in old(favorites)
      ensures forall x :: x != id ==> (x in favorites <==> x in old(favorites))
      ensures NoDup(favorites)
    {
      favorites := Toggled(favorites, id);
    }

    /** `pushRecentId(id)` */
    method PushRecentId(id: string)
      modifies this`recent
      ensures recent == Pushed(old(recent), id)
      ensures |recent| <= MaxRecent && recent[0] == id && Count(recent, id) == 1
    {
      PushedSpec(recent, id);
      recent := Pushed(recent, id);
    }

    /** The A- (`up == false`) and A+ (`up == true`) buttons: both sizes move
        by one and are clamped to their bounds. */
    method StepFonts(up: bool)
      modifies this`fontArabic, this`fontText
      ensures var delta := if up then 1 else -1;
        && fontArabic == Clamp(old(fontArabic) + delta, FontArabicMin, FontArabicMax)
        && fontText == Clamp(old(fontText) + delta, FontTextMin, FontTextMax)
      ensures FontArabicMin <= fontArabic <= FontArabicMax
      ensures FontTextMin <= fontText <= FontTextMax
    {
      var delta := if up then 1 else -1;
      fontArabic := Clamp(fontArabic + delta, FontArabicMin, FontArabicMax);
      fontText := Clamp(fontText + delta, FontTextMin, FontTextMax);
    }
  }
}
