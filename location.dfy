/**
 * The browser's `location.hash` accessor pair as the URL Standard defines it,
 * which app.js writes in `setHashFromState` (app.js:265) and reads in
 * `parseHash` (app.js:219). The setter drops one leading `#`, removes ASCII
 * tabs and newlines and percent-encodes the fragment percent-encode set; the
 * getter gives `""` for a missing or empty fragment and `#` plus the fragment
 * otherwise.
 */
module Location {
  import opened Wrappers
  import Utf8
  import UrlEncoded

  /** The fragment percent-encode set: C0 controls, code points above `~`,
      space, `"`, `<`, `>` and the backquote. */
  predicate InFragmentSet(c: char) {
    c < ' ' || c > '~' || c == ' ' || c == '"' || c == '<' || c == '>' || c == '`'
  }

  /** The URL parser removes every ASCII tab or newline from its input. */
  predicate IsTabOrNewline(c: char) {
    c == '\t' || c == '\n' || c == '\r'
  }

  /** Characters that reach the fragment unchanged. */
  predicate IsInert(c: char) {
    !InFragmentSet(c) && !IsTabOrNewline(c)
  }

  predicate AllInert(s: string) {
    forall i :: 0 <= i < |s| ==> IsInert(s[i])
  }

  /** `%XX` for each byte, upper-case hexadecimal. */
  function PercentBytes(bs: seq<Utf8.byte>): (r: string)
    ensures AllInert(r)
  {
    if bs == [] then []
    else
      var b := bs[0];
      var head := ['%', UrlEncoded.HexDigit(b / 16) as char, UrlEncoded.HexDigit(b % 16) as char];
      var tail := PercentBytes(bs[1..]);
      assert forall i :: 3 <= i < 3 + |tail| ==> (head + tail)[i] == tail[i - 3];
      head + tail
  }

  function RemoveTabsAndNewlines(s: string): (r: string)
    ensures forall i :: 0 <= i < |r| ==> !IsTabOrNewline(r[i])
    ensures (forall i :: 0 <= i < |s| ==> !IsTabOrNewline(s[i])) ==> r == s
  {
    if s == [] then []
    else if IsTabOrNewline(s[0]) then RemoveTabsAndNewlines(s[1..])
    else [s[0]] + RemoveTabsAndNewlines(s[1..])
  }

  /** The fragment state of the URL parser: UTF-8 percent-encode every
      character of the fragment percent-encode set. */
  function FragmentEncode(s: string): (r: string)
    requires forall i :: 0 <= i < |s| ==> !IsTabOrNewline(s[i])
    ensures AllInert(r)
    ensures AllInert(s) ==> r == s
  {
    if s == [] then []
    else
      var head := if InFragmentSet(s[0]) then PercentBytes(Utf8.EncodeChar(s[0])) else [s[0]];
      var tail := FragmentEncode(s[1..]);
      assert forall i :: |head| <= i < |head| + |tail| ==> (head + tail)[i] == tail[i - |head|];
      head + tail
  }

  /** The fragment after `location.hash = value`: one leading `#` is
      dropped, the fragment is set to the empty string and the rest is parsed
      in the fragment state. Assigning `""` therefore leaves an empty
      fragment, not a missing one. */
  function FragmentAfterSet(value: string): (r: Option<string>)
    ensures r.Some? && AllInert(r.value)
    ensures value == "" || value == "#" ==> r == Some("")
  {
    var input := if value != [] && value[0] == '#' then value[1..] else value;
    Some(FragmentEncode(RemoveTabsAndNewlines(input)))
  }

  /** The `location.hash` getter. */
  function HashGetter(fragment: Option<string>): (r: string)
    ensures r == [] <==> fragment.None? || fragment.value == []
    ensures r != [] ==> r[0] == '#' && r[1..] == fragment.value
  {
    if fragment.None? || fragment.value == [] then [] else "#" + fragment.value
  }

  /** What `location.hash` reads after `location.hash = value`. */
  function HashAfterAssign(value: string): string {
    HashGetter(FragmentAfterSet(value))
  }

  /** A value made of inert characters and not starting with `#` reads back
      with a `#` in front (or as `""` when it is empty). */
  lemma AssignInert(s: string)
    requires AllInert(s)
    requires s == [] || s[0] != '#'
    ensures HashAfterAssign(s) == if s == [] then [] else "#" + s
  {
  }

  /** Writing back what `location.hash` reads changes nothing. */
  lemma AssignStable(value: string)
    ensures HashAfterAssign(HashAfterAssign(value)) == HashAfterAssign(value)
  {
    var h := HashAfterAssign(value);
    if h != [] {
      var f := FragmentAfterSet(value).value;
      assert h == "#" + f;
      assert h[1..] == f;
    }
  }
}
