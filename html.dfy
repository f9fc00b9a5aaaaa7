/**
 * `escapeHTML` of app.js:137-146: every `&`, `<`, `>`, `"` and `'` becomes
 * its entity and every other character is copied. `Unescape` is the
 * reference inverse the escaping is proved against.
 */
module Html {

  predicate IsSpecial(c: char) {
    c == '&' || c == '<' || c == '>' || c == '"' || c == '\''
  }

  /** The entity table of `escapeHTML`. */
  function Entity(c: char): (r: string)
    requires IsSpecial(c)
  {
    match c
    case '&' => "&amp;"
    case '<' => "&lt;"
    case '>' => "&gt;"
    case '"' => "&quot;"
    case _ => "&#039;"
  }

  function EscapeChar(c: char): string {
    if IsSpecial(c) then Entity(c) else [c]
  }

  /** `escapeHTML(str)` for a string argument (`safeText` maps `null` and
      `undefined` to the empty string first). Escaping loses nothing:
      decoding the five entities gives the input back. */
  function EscapeHTML(s: string): (r: string)
    ensures Unescape(r) == s
  {
    if s == [] then []
    else
      UnescapeStep(s[0], EscapeHTML(s[1..]));
      EscapeChar(s[0]) + EscapeHTML(s[1..])
  }

  /** Decodes exactly the five entities `EscapeHTML` produces. */
  function Unescape(s: string): string
    decreases |s|
  {
    if s == [] then []
    else if "&amp;" <= s then "&" + Unescape(s[5..])
    else if "&lt;" <= s then "<" + Unescape(s[4..])
    else if "&gt;" <= s then ">" + Unescape(s[4..])
    else if "&quot;" <= s then "\"" + Unescape(s[6..])
    else if "&#039;" <= s then "'" + Unescape(s[6..])
    else [s[0]] + Unescape(s[1..])
  }

  lemma UnescapeStep(c: char, rest: string)
    ensures Unescape(EscapeChar(c) + rest) == [c] + Unescape(rest)
  {
    if IsSpecial(c) {
      UnescapeEntity(c, rest);
    } else {
      var t := [c] + rest;
      assert t[0] == c && t[1..] == rest;
      assert !("&amp;" <= t) && !("&lt;" <= t) && !("&gt;" <= t) && !("&quot;" <= t) && !("&#039;" <= t);
    }
  }

  lemma UnescapeEntity(c: char, rest: string)
    requires IsSpecial(c)
    ensures Unescape(Entity(c) + rest) == [c] + Unescape(rest)
  {
    var t := Entity(c) + rest;
    assert t[|Entity(c)|..] == rest;
    assert t[1] == Entity(c)[1];
    if c == '<' {
      assert !("&amp;" <= t) by { assert t[1] == 'l'; }
    } else if c == '>' {
      assert !("&amp;" <= t) && !("&lt;" <= t) by { assert t[1] == 'g'; }
    } else if c == '"' {
      assert !("&amp;" <= t) && !("&lt;" <= t) && !("&gt;" <= t) by { assert t[1] == 'q'; }
    } else if c == '\'' {
      assert !("&amp;" <= t) && !("&lt;" <= t) && !("&gt;" <= t) && !("&quot;" <= t) by { assert t[1] == '#'; }
    }
  }

  /** Escaping loses nothing: unescaping gives the input back. */
  /** `t` starts with one of the five entities. */
  predicate StartsEntity(t: string) {
    "&amp;" <= t || "&lt;" <= t || "&gt;" <= t || "&quot;" <= t || "&#039;" <= t
  }

  /** One escaped character: no raw special but a leading `&` that starts an entity. */
  lemma EscapeCharInert(c: char, rest: string)
    ensures forall j :: 0 <= j < |EscapeChar(c)| ==> !IsSpecial(EscapeChar(c)[j]) || EscapeChar(c)[j] == '&'
    ensures forall j :: 0 <= j < |EscapeChar(c)| && EscapeChar(c)[j] == '&' ==> j == 0 && StartsEntity(EscapeChar(c) + rest)
  {
  }

  /** The output never holds a raw `<`, `>`, `"` or `'`, and every `&` in it
      starts one of the five entities. */
  lemma {:induction false} EscapedIsInert(s: string)
    ensures forall i :: 0 <= i < |EscapeHTML(s)| ==> !IsSpecial(EscapeHTML(s)[i]) || EscapeHTML(s)[i] == '&'
    ensures forall i :: 0 <= i < |EscapeHTML(s)| && EscapeHTML(s)[i] == '&' ==> StartsEntity(EscapeHTML(s)[i..])
  {
    if s != [] {
      EscapedIsInert(s[1..]);
      var e := EscapeChar(s[0]);
      var rest := EscapeHTML(s[1..]);
      var r := e + rest;
      EscapeCharInert(s[0], rest);
      forall i | 0 <= i < |r| ensures (!IsSpecial(r[i]) || r[i] == '&') && (r[i] == '&' ==> StartsEntity(r[i..])) {
        if i >= |e| {
          assert r[i] == rest[i - |e|];
          assert r[i..] == rest[i - |e|..];
        } else {
          assert r[i] == e[i];
          assert r[0..] == r;
        }
      }
    }
  }

  /** Escaping works character by character, so it distributes over concatenation. */
  lemma {:induction false} EscapeConcat(a: string, b: string)
    ensures EscapeHTML(a + b) == EscapeHTML(a) + EscapeHTML(b)
  {
    if a == [] {
      assert a + b == b;
    } else {
      assert (a + b)[1..] == a[1..] + b;
      EscapeConcat(a[1..], b);
    }
  }

  /** A string without the five special characters is copied unchanged. */
  lemma {:induction false} EscapePlain(s: string)
    requires forall i :: 0 <= i < |s| ==> !IsSpecial(s[i])
    ensures EscapeHTML(s) == s
  {
    if s != [] {
      EscapePlain(s[1..]);
    }
  }
}
