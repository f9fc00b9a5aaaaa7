/**
 * `URLSearchParams` as app.js uses it (app.js:218-267): `new
 * URLSearchParams(string)`, `get`, `set` and `toString`, following the WHATWG
 * URL Standard's application/x-www-form-urlencoded parser and serializer.
 * A parameter list is a sequence of (name, value) pairs.
 */
module UrlEncoded {
  import opened Wrappers
  import opened Utf8
  import Text

  type Pairs = seq<(string, string)>

  const Amp: byte := 0x26
  const Eq: byte := 0x3D
  const Plus: byte := 0x2B
  const Percent: byte := 0x25
  const Space: byte := 0x20

  // ---------------------------------------------------------------------
  // get / set

  /** Some pair is named `name`. */
  predicate HasName(ps: Pairs, name: string) {
    exists i :: 0 <= i < |ps| && ps[i].0 == name
  }

  /** Pair `i` is the first one named `name`. */
  predicate FirstNamed(ps: Pairs, name: string, i: nat) {
    i < |ps| && ps[i].0 == name && forall j :: 0 <= j < i ==> ps[j].0 != name
  }

  /** `params.get(name)`: the value of the first pair named `name`, or `null`. */
  function Get(ps: Pairs, name: string): (r: Option<string>)
    ensures r.Some? <==> HasName(ps, name)
  {
    if ps == [] then None
    else if ps[0].0 == name then Some(ps[0].1)
    else
      assert HasName(ps, name) <==> HasName(ps[1..], name) by {
        assert forall i :: 0 < i < |ps| ==> ps[i] == ps[1..][i - 1];
      }
      Get(ps[1..], name)
  }

  /** `get` returns the value of the first pair with the name. */
  lemma {:induction false} GetFirst(ps: Pairs, name: string, i: nat)
    requires FirstNamed(ps, name, i)
    ensures Get(ps, name) == Some(ps[i].1)
  {
    if i > 0 {
      assert ps[0].0 != name;
      assert FirstNamed(ps[1..], name, i - 1);
      GetFirst(ps[1..], name, i - 1);
    }
  }

  /** `ps` without the pairs named `name`. */
  function DropName(ps: Pairs, name: string): (r: Pairs)
    ensures forall i :: 0 <= i < |r| ==> r[i].0 != name
    ensures |r| <= |ps|
    ensures forall m :: m != name ==> Get(r, m) == Get(ps, m)
  {
    if ps == [] then []
    else
      var t := DropName(ps[1..], name);
      if ps[0].0 == name then
        assert forall m :: m != name ==> Get(ps, m) == Get(ps[1..], m);
        t
      else
        assert ([ps[0]] + t)[1..] == t;
        [ps[0]] + t
  }

  /** `params.set(name, value)`: the first pair named `name` takes the new
      value and the later ones are removed; without one, the pair is
      appended. */
  function Set(ps: Pairs, name: string, value: string): Pairs {
    if ps == [] then [(name, value)]
    else if ps[0].0 == name then [(name, value)] + DropName(ps[1..], name)
    else [ps[0]] + Set(ps[1..], name, value)
  }

  /** After `set` exactly one pair has the name and it holds the new value;
      a name that was absent is appended at the end, and a name that was
      present does not lengthen the list. */
  lemma {:induction false} SetShape(ps: Pairs, name: string, value: string)
    ensures var r := Set(ps, name, value);
      && (forall i :: 0 <= i < |r| && r[i].0 == name ==> r[i].1 == value)
      && (forall i, j :: 0 <= i < j < |r| && r[i].0 == name ==> r[j].0 != name)
      && (!HasName(ps, name) ==> r == ps + [(name, value)])
      && (HasName(ps, name) ==> |r| <= |ps|)
  {
    if ps != [] && ps[0].0 != name {
      SetShape(ps[1..], name, value);
      assert HasName(ps, name) <==> HasName(ps[1..], name) by {
        assert forall i :: 0 < i < |ps| ==> ps[i] == ps[1..][i - 1];
      }
      assert ps == [ps[0]] + ps[1..];
    }
  }

  /** After `set`, `get` of that name gives the new value and `get` of any
      other name is unchanged. */
  lemma {:induction false} GetSet(ps: Pairs, name: string, value: string, other: string)
    ensures Get(Set(ps, name, value), name) == Some(value)
    ensures other != name ==> Get(Set(ps, name, value), other) == Get(ps, other)
    ensures |Set(ps, name, value)| > 0
  {
    if ps != [] && ps[0].0 != name {
      GetSet(ps[1..], name, value, other);
    }
  }

  // ---------------------------------------------------------------------
  // serializer

  /** Bytes the urlencoded serializer copies: ASCII alphanumerics and `*-._`. */
  predicate IsUnreserved(b: byte) {
    || 0x30 <= b <= 0x39 || 0x41 <= b <= 0x5A || 0x61 <= b <= 0x7A
    || b == 0x2A || b == 0x2D || b == 0x2E || b == 0x5F
  }

  /** Upper-case hexadecimal digit, as a byte. */
  function HexDigit(n: int): (b: byte)
    requires 0 <= n < 16
  {
    if n < 10 then 0x30 + n else 0x41 + n - 10
  }

  predicate IsHex(b: byte) {
    0x30 <= b <= 0x39 || 0x41 <= b <= 0x46 || 0x61 <= b <= 0x66
  }

  function HexValue(b: byte): (n: int)
    requires IsHex(b)
    ensures 0 <= n < 16
  {
    if b <= 0x39 then b - 0x30 else if b <= 0x46 then b - 0x41 + 10 else b - 0x61 + 10
  }

  /** The bytes a percent-encoded component can hold. */
  predicate IsEncodedByte(b: byte) {
    IsUnreserved(b) || b == Percent || b == Plus
  }

  /** The bytes a serialized parameter list can hold. */
  predicate IsSerializedByte(b: byte) {
    IsEncodedByte(b) || b == Eq || b == Amp
  }

  /** One byte under the urlencoded byte serializer: space as `+`,
      unreserved bytes as themselves, anything else as `%XX`. */
  function EncodeByte(b: byte): (r: seq<byte>)
    ensures forall i :: 0 <= i < |r| ==> IsEncodedByte(r[i])
    ensures (|r| == 1) == (b == Space || IsUnreserved(b))
  {
    if b == Space then [Plus]
    else if IsUnreserved(b) then [b]
    else [Percent, HexDigit(b / 16), HexDigit(b % 16)]
  }

  function PercentEncode(bs: seq<byte>): (r: seq<byte>)
    ensures forall i :: 0 <= i < |r| ==> IsEncodedByte(r[i])
    ensures |bs| <= |r| <= 3 * |bs|
  {
    if bs == [] then []
    else
      var head, tail := EncodeByte(bs[0]), PercentEncode(bs[1..]);
      assert forall i :: |head| <= i < |head| + |tail| ==> (head + tail)[i] == tail[i - |head|];
      head + tail
  }

  /** A name or value as the serializer writes it (UTF-8, then percent-encoded). */
  function EncodeComponent(s: string): seq<byte> {
    PercentEncode(Utf8.Encode(s))
  }

  function SerializePair(p: (string, string)): (r: seq<byte>)
    ensures Eq in r
    ensures forall i :: 0 <= i < |r| ==> r[i] == Eq || IsEncodedByte(r[i])
  {
    var n, v := EncodeComponent(p.0), EncodeComponent(p.1);
    assert (n + [Eq] + v)[|n|] == Eq;
    n + [Eq] + v
  }

  /** The pieces joined with `&`. */
  function JoinAmp(pieces: seq<seq<byte>>): seq<byte> {
    if pieces == [] then []
    else if |pieces| == 1 then pieces[0]
    else pieces[0] + [Amp] + JoinAmp(pieces[1..])
  }

  /** Each pair serialized on its own, in list order. */
  function SerializedPairs(ps: Pairs): (r: seq<seq<byte>>)
    ensures |r| == |ps|
    ensures forall i :: 0 <= i < |ps| ==> r[i] == SerializePair(ps[i])
  {
    if ps == [] then [] else [SerializePair(ps[0])] + SerializedPairs(ps[1..])
  }

  function SerializeBytes(ps: Pairs): seq<byte> {
    JoinAmp(SerializedPairs(ps))
  }

  lemma {:induction false} JoinAmpAlphabet(pieces: seq<seq<byte>>)
    requires forall k, i :: 0 <= k < |pieces| && 0 <= i < |pieces[k]| ==> IsSerializedByte(pieces[k][i])
    ensures forall i :: 0 <= i < |JoinAmp(pieces)| ==> IsSerializedByte(JoinAmp(pieces)[i])
  {
    if |pieces| > 1 {
      JoinAmpAlphabet(pieces[1..]);
      var r := JoinAmp(pieces);
      var rest := JoinAmp(pieces[1..]);
      forall i | 0 <= i < |r| ensures IsSerializedByte(r[i]) {
        if i < |pieces[0]| { assert r[i] == pieces[0][i]; }
        else if i > |pieces[0]| { assert r[i] == rest[i - |pieces[0]| - 1]; }
      }
    }
  }

  /** The serialized bytes are ASCII letters and digits, `*-._`, `%`, `+`,
      `=` and `&` only; in particular they never hold a `#` or a `?`. */
  lemma SerializeBytesAlphabet(ps: Pairs)
    ensures forall i :: 0 <= i < |SerializeBytes(ps)| ==> IsSerializedByte(SerializeBytes(ps)[i])
  {
    JoinAmpAlphabet(SerializedPairs(ps));
  }

  /** `params.toString()` */
  function Serialize(ps: Pairs): (r: string)
    ensures |r| == |SerializeBytes(ps)|
    ensures forall i :: 0 <= i < |r| ==> r[i] as int == SerializeBytes(ps)[i]
  {
    SerializeBytesAlphabet(ps);
    Utf8.Ascii(SerializeBytes(ps))
  }

  /** The characters of a serialized list: ASCII letters and digits,
      `*-._`, `%`, `+`, `=` and `&`. */
  predicate IsSerializedChar(c: char) {
    || 'a' <= c <= 'z' || 'A' <= c <= 'Z' || '0' <= c <= '9'
    || c == '*' || c == '-' || c == '.' || c == '_'
    || c == '%' || c == '+' || c == '=' || c == '&'
  }

  lemma {:induction false} JoinAmpHead(pieces: seq<seq<byte>>)
    requires pieces != []
    ensures pieces[0] <= JoinAmp(pieces)
  {
  }

  /** A non-empty list serializes to a string of `IsSerializedChar`
      characters holding at least one `=`. */
  lemma SerializeShape(ps: Pairs)
    ensures forall i :: 0 <= i < |Serialize(ps)| ==> IsSerializedChar(Serialize(ps)[i])
    ensures ps != [] ==> '=' in Serialize(ps)
  {
    var bs := SerializeBytes(ps);
    var s := Serialize(ps);
    SerializeBytesAlphabet(ps);
    forall i | 0 <= i < |s| ensures IsSerializedChar(s[i]) {
      SerializedByteChar(bs[i]);
    }
    if ps != [] {
      var pieces := SerializedPairs(ps);
      JoinAmpHead(pieces);
      assert Eq in pieces[0];
      var k :| 0 <= k < |pieces[0]| && pieces[0][k] == Eq;
      assert bs[k] == Eq;
      assert s[k] == '=';
    }
  }

  // ---------------------------------------------------------------------
  // parser

  function IndexOfByte(bs: seq<byte>, x: byte): (i: nat)
    requires x in bs
    ensures i < |bs| && bs[i] == x && x !in bs[..i]
  {
    if bs[0] == x then 0 else 1 + IndexOfByte(bs[1..], x)
  }

  /** Splitting on `&` (the empty input is one empty piece). */
  function SplitAmp(bs: seq<byte>): (r: seq<seq<byte>>)
    ensures r != []
    decreases |bs|
  {
    if Amp !in bs then [bs]
    else
      var i := IndexOfByte(bs, Amp);
      [bs[..i]] + SplitAmp(bs[i + 1..])
  }

  /** `+` is read as a space before percent-decoding. */
  function PlusToSpace(bs: seq<byte>): seq<byte> {
    seq(|bs|, i requires 0 <= i < |bs| => if bs[i] == Plus then Space else bs[i])
  }

  /** Percent-decode: `%` followed by two hexadecimal digits is one byte;
      any other `%` is kept as it is. */
  function PercentDecode(bs: seq<byte>): seq<byte> {
    if bs == [] then []
    else if bs[0] == Percent && |bs| >= 3 && IsHex(bs[1]) && IsHex(bs[2]) then
      [HexValue(bs[1]) * 16 + HexValue(bs[2])] + PercentDecode(bs[3..])
    else [bs[0]] + PercentDecode(bs[1..])
  }

  function DecodeComponent(bs: seq<byte>): string {
    Utf8.Decode(PercentDecode(PlusToSpace(bs)))
  }

  /** One `&`-separated piece: split at its first `=` (no `=`: empty value). */
  function ParsePiece(piece: seq<byte>): (string, string) {
    if Eq in piece then
      var i := IndexOfByte(piece, Eq);
      (DecodeComponent(piece[..i]), DecodeComponent(piece[i + 1..]))
    else (DecodeComponent(piece), "")
  }

  /** Empty pieces are skipped. */
  function ParsePieces(pieces: seq<seq<byte>>): Pairs {
    if pieces == [] then []
    else (if pieces[0] == [] then [] else [ParsePiece(pieces[0])]) + ParsePieces(pieces[1..])
  }

  function ParseBytes(bs: seq<byte>): Pairs {
    ParsePieces(SplitAmp(bs))
  }

  /** `new URLSearchParams(init)` for a string `init`: a leading `?` is
      dropped, then the UTF-8 bytes are parsed. */
  function Parse(init: string): (r: Pairs)
    ensures init == "" || init == "?" ==> r == []
  {
    var s := if init != [] && init[0] == '?' then init[1..] else init;
    assert init == "" || init == "?" ==> Utf8.Encode(s) == [] && SplitAmp([]) == [[]];
    ParseBytes(Utf8.Encode(s))
  }

  // ---------------------------------------------------------------------
  // round trip

  lemma HexRoundTrip(n: int)
    requires 0 <= n < 16
    ensures IsHex(HexDigit(n)) && HexValue(HexDigit(n)) == n
  {
  }

  lemma PlusToSpaceConcat(a: seq<byte>, b: seq<byte>)
    ensures PlusToSpace(a + b) == PlusToSpace(a) + PlusToSpace(b)
  {
  }

  lemma DecodeEncodedByte(b: byte, rest: seq<byte>)
    ensures PercentDecode(PlusToSpace(EncodeByte(b)) + rest) == [b] + PercentDecode(rest)
  {
    var e := PlusToSpace(EncodeByte(b));
    if b != Space && !IsUnreserved(b) {
      HexRoundTrip(b / 16);
      HexRoundTrip(b % 16);
      assert (e + rest)[3..] == rest;
    } else {
      assert (e + rest)[1..] == rest;
    }
  }

  /** Percent-decoding (with `+` read as space) undoes percent-encoding. */
  lemma {:induction false} PercentRoundTrip(bs: seq<byte>)
    ensures PercentDecode(PlusToSpace(PercentEncode(bs))) == bs
  {
    if bs != [] {
      PlusToSpaceConcat(EncodeByte(bs[0]), PercentEncode(bs[1..]));
      DecodeEncodedByte(bs[0], PlusToSpace(PercentEncode(bs[1..])));
      PercentRoundTrip(bs[1..]);
    }
  }

  /** A name or value reads back as written. */
  lemma ComponentRoundTrip(s: string)
    ensures DecodeComponent(EncodeComponent(s)) == s
  {
    PercentRoundTrip(Utf8.Encode(s));
    Utf8.DecodeEncode(s);
  }

  lemma SplitAmpJoin(pieces: seq<seq<byte>>)
    requires pieces != []
    requires forall k :: 0 <= k < |pieces| ==> Amp !in pieces[k]
    ensures SplitAmp(JoinAmp(pieces)) == pieces
  {
    if |pieces| > 1 {
      var j := JoinAmp(pieces);
      var p0 := pieces[0];
      assert j == p0 + [Amp] + JoinAmp(pieces[1..]);
      assert j[|p0|] == Amp;
      assert Amp in j;
      var i := IndexOfByte(j, Amp);
      assert j[..|p0|] == p0;
      assert i == |p0|;
      assert j[i + 1..] == JoinAmp(pieces[1..]);
      SplitAmpJoin(pieces[1..]);
    }
  }

  lemma ParsePieceRoundTrip(p: (string, string))
    ensures ParsePiece(SerializePair(p)) == p
  {
    var n, v := EncodeComponent(p.0), EncodeComponent(p.1);
    var piece := n + [Eq] + v;
    assert piece[|n|] == Eq;
    var i := IndexOfByte(piece, Eq);
    assert piece[..|n|] == n;
    assert i == |n|;
    assert piece[..i] == n && piece[i + 1..] == v;
    ComponentRoundTrip(p.0);
    ComponentRoundTrip(p.1);
  }

  lemma {:induction false} ParsePiecesRoundTrip(ps: Pairs)
    ensures ParsePieces(SerializedPairs(ps)) == ps
  {
    if ps != [] {
      var pieces := SerializedPairs(ps);
      assert pieces[0] != [] by { assert Eq in pieces[0]; }
      ParsePieceRoundTrip(ps[0]);
      ParsePiecesRoundTrip(ps[1..]);
    }
  }

  /** The serialized bytes parse back to the list. */
  lemma ParseBytesSerialized(ps: Pairs)
    ensures ParseBytes(SerializeBytes(ps)) == ps
  {
    var pieces := SerializedPairs(ps);
    if ps == [] {
      assert ParseBytes([]) == ParsePieces([[]]);
    } else {
      forall k | 0 <= k < |pieces| ensures Amp !in pieces[k] { }
      SplitAmpJoin(pieces);
      ParsePiecesRoundTrip(ps);
    }
  }

  /** A serialized byte is an ASCII `IsSerializedChar`, never `?`. */
  lemma SerializedByteChar(b: byte)
    requires IsSerializedByte(b)
    ensures b < 0x80 && IsSerializedChar(b as char) && b as char != '?'
  {
  }

  /** `new URLSearchParams(params.toString())` has the same pairs, in the same order. */
  lemma ParseSerialize(ps: Pairs)
    ensures Parse(Serialize(ps)) == ps
  {
    var bs := SerializeBytes(ps);
    SerializeBytesAlphabet(ps);
    var s := Serialize(ps);
    if s != [] {
      SerializedByteChar(bs[0]);
    }
    forall i | 0 <= i < |bs| ensures bs[i] < 0x80 {
      SerializedByteChar(bs[i]);
    }
    Utf8.EncodeAscii(bs);
    ParseBytesSerialized(ps);
  }
}
