/**
 * The `application/x-www-form-urlencoded` format of the WHATWG URL Standard
 * (section 5: the parser and the serializer) and the `URLSearchParams`
 * operations `get` and `set` (section 6.2), which the URL-fragment language
 * widget relies on. Names and values are handled as the UTF-8 bytes of the
 * strings they stand for.
 */
module Urlencoded {
  import opened Wrappers

  type Byte = b: int | 0 <= b < 256
  type Bytes = seq<Byte>

  /** One name-value pair of a parameter list. */
  datatype Param = Param(name: Bytes, value: Bytes)

  const Amp: Byte := 0x26
  const Eq: Byte := 0x3D
  const Plus: Byte := 0x2B
  const Percent: Byte := 0x25
  const Space: Byte := 0x20
  const Question: Byte := 0x3F

  predicate IsHexDigit(b: Byte) {
    (0x30 <= b <= 0x39) || (0x41 <= b <= 0x46) || (0x61 <= b <= 0x66)
  }

  function HexValue(b: Byte): (r: nat)
    requires IsHexDigit(b)
    ensures r < 16
  {
    if b <= 0x39 then b - 0x30 else if b <= 0x46 then b - 0x41 + 10 else b - 0x61 + 10
  }

  /** The upper-case hex digit for `n`. */
  function UpperHex(n: nat): (r: Byte)
    requires n < 16
    ensures IsHexDigit(r) && HexValue(r) == n
  {
    if n < 10 then 0x30 + n else 0x41 + n - 10
  }

  /** `%XX`, the percent-encoding of one byte. */
  function PercentEscape(b: Byte): (r: Bytes)
    ensures |r| == 3 && r[0] == Percent && IsHexDigit(r[1]) && IsHexDigit(r[2])
    ensures HexValue(r[1]) * 16 + HexValue(r[2]) == b
  {
    [Percent, UpperHex(b / 16), UpperHex(b % 16)]
  }

  /** The bytes outside the urlencoded percent-encode set: ASCII alphanumerics and `*-._`. */
  predicate IsUnreserved(b: Byte) {
    || (0x30 <= b <= 0x39) || (0x41 <= b <= 0x5A) || (0x61 <= b <= 0x7A)
    || b == 0x2A || b == 0x2D || b == 0x2E || b == 0x5F
  }

  /** The bytes an encoded name or value can contain. */
  predicate IsEncodedByte(b: Byte) {
    IsUnreserved(b) || b == Plus || b == Percent
  }

  /** One byte as the serializer writes it: unchanged, `+` for a space, `%XX` otherwise. */
  function EncodeByte(b: Byte): (r: Bytes)
    ensures forall i :: 0 <= i < |r| ==> IsEncodedByte(r[i])
  {
    if IsUnreserved(b) then [b] else if b == Space then [Plus] else PercentEscape(b)
  }

  /** The urlencoded serialization of one name or value. */
  function Encode(s: Bytes): (r: Bytes)
    ensures forall i :: 0 <= i < |r| ==> IsEncodedByte(r[i])
  {
    if s == [] then [] else EncodeByte(s[0]) + Encode(s[1..])
  }

  function SerializeParam(p: Param): Bytes {
    Encode(p.name) + [Eq] + Encode(p.value)
  }

  /** The urlencoded serializer: `name=value` pairs joined by `&`. */
  function Serialize(params: seq<Param>): (r: Bytes)
    ensures forall i :: 0 <= i < |r| ==> IsEncodedByte(r[i]) || r[i] == Eq || r[i] == Amp
  {
    if params == [] then []
    else if |params| == 1 then SerializeParam(params[0])
    else SerializeParam(params[0]) + [Amp] + Serialize(params[1..])
  }

  /** Every `+` becomes a space. */
  function ReplacePlus(s: Bytes): (r: Bytes)
    ensures |r| == |s|
    ensures forall i :: 0 <= i < |s| ==> r[i] == if s[i] == Plus then Space else s[i]
  {
    if s == [] then [] else [if s[0] == Plus then Space else s[0]] + ReplacePlus(s[1..])
  }

  /** Percent-decoding: `%` and two hex digits become that byte; any other byte, a lone `%` included, is kept. */
  function PercentDecode(s: Bytes): (r: Bytes)
    decreases |s|
  {
    if s == [] then []
    else if s[0] == Percent && |s| >= 3 && IsHexDigit(s[1]) && IsHexDigit(s[2]) then
      [HexValue(s[1]) * 16 + HexValue(s[2])] + PercentDecode(s[3..])
    else [s[0]] + PercentDecode(s[1..])
  }

  /** How the parser decodes a name or a value. */
  function DecodeComponent(s: Bytes): Bytes {
    PercentDecode(ReplacePlus(s))
  }

  /** Strictly splits `s` on `sep`, keeping empty pieces. */
  function SplitOn(s: Bytes, sep: Byte): (r: seq<Bytes>)
    ensures |r| >= 1
  {
    if s == [] then [[]]
    else
      var rest := SplitOn(s[1..], sep);
      if s[0] == sep then [[]] + rest else [[s[0]] + rest[0]] + rest[1..]
  }

  /** The index of the first `b` in `s`, or `|s|` when there is none. */
  function IndexOf(s: Bytes, b: Byte): (i: nat)
    ensures i <= |s|
    ensures i < |s| ==> s[i] == b
    ensures forall j :: 0 <= j < i ==> s[j] != b
  {
    if s == [] then 0 else if s[0] == b then 0 else 1 + IndexOf(s[1..], b)
  }

  /** One non-empty piece: name and value split at the first `=`; with no `=` the value is empty. */
  function ParseParam(piece: Bytes): Param {
    var i := IndexOf(piece, Eq);
    if i < |piece| then Param(DecodeComponent(piece[..i]), DecodeComponent(piece[i + 1..]))
    else Param(DecodeComponent(piece), [])
  }

  function ParsePieces(pieces: seq<Bytes>): seq<Param> {
    if pieces == [] then []
    else (if pieces[0] == [] then [] else [ParseParam(pieces[0])]) + ParsePieces(pieces[1..])
  }

  /** The urlencoded parser: split on `&`, skip empty pieces, parse each of the others. */
  function Parse(s: Bytes): seq<Param> {
    ParsePieces(SplitOn(s, Amp))
  }

  /** `new URLSearchParams(init)` for a string `init`: a leading `?` is dropped before parsing. */
  function FromInit(init: Bytes): seq<Param> {
    if |init| > 0 && init[0] == Question then Parse(init[1..]) else Parse(init)
  }

  /** The index of the first pair named `name`, or `|params|` when there is none. */
  function IndexOfName(params: seq<Param>, name: Bytes): (i: nat)
    ensures i <= |params|
    ensures i < |params| ==> params[i].name == name
    ensures forall j :: 0 <= j < i ==> params[j].name != name
  {
    if params == [] then 0 else if params[0].name == name then 0 else 1 + IndexOfName(params[1..], name)
  }

  /** `params.get(name)`: the value of the first pair named `name`, or null. */
  function Get(params: seq<Param>, name: Bytes): (r: Option<Bytes>)
    ensures r.None? <==> forall j :: 0 <= j < |params| ==> params[j].name != name
    ensures r.Some? ==> r.value == params[IndexOfName(params, name)].value
  {
    var i := IndexOfName(params, name);
    if i < |params| then Some(params[i].value) else None
  }

  /** The pairs not named `name`, in order. */
  function RemoveName(params: seq<Param>, name: Bytes): (r: seq<Param>)
    ensures forall p :: p in r <==> p in params && p.name != name
  {
    if params == [] then []
    else if params[0].name == name then RemoveName(params[1..], name)
    else [params[0]] + RemoveName(params[1..], name)
  }

  /** How many pairs are named `name`. */
  function CountName(params: seq<Param>, name: Bytes): nat {
    if params == [] then 0 else (if params[0].name == name then 1 else 0) + CountName(params[1..], name)
  }

  /** Gives the first pair named `name` the value `value` and removes the later ones. */
  function ReplaceFirst(params: seq<Param>, name: Bytes, value: Bytes): seq<Param> {
    if params == [] then []
    else if params[0].name == name then [Param(name, value)] + RemoveName(params[1..], name)
    else [params[0]] + ReplaceFirst(params[1..], name, value)
  }

  /** `params.set(name, value)`. */
  function Set(params: seq<Param>, name: Bytes, value: Bytes): seq<Param> {
    if IndexOfName(params, name) < |params| then ReplaceFirst(params, name, value)
    else params + [Param(name, value)]
  }

  lemma ReplacePlusAppend(a: Bytes, b: Bytes)
    ensures ReplacePlus(a + b) == ReplacePlus(a) + ReplacePlus(b)
  {
    var l, r := ReplacePlus(a + b), ReplacePlus(a) + ReplacePlus(b);
    assert forall i :: 0 <= i < |a + b| ==> l[i] == r[i];
  }

  /** A byte other than `%` decodes to itself. */
  lemma PercentDecodePlain(c: Byte, rest: Bytes)
    requires c != Percent
    ensures PercentDecode([c] + rest) == [c] + PercentDecode(rest)
  {
    assert ([c] + rest)[1..] == rest;
  }

  /** `%XX` decodes to the byte it encodes. */
  lemma PercentDecodeEscape(b: Byte, rest: Bytes)
    ensures PercentDecode(PercentEscape(b) + rest) == [b] + PercentDecode(rest)
  {
    var e := PercentEscape(b);
    assert (e + rest)[0] == Percent && (e + rest)[1] == e[1] && (e + rest)[2] == e[2];
    assert (e + rest)[3..] == rest;
  }

  /** Decoding an encoded name or value gives it back. */
  lemma {:induction false} DecodeEncode(s: Bytes)
    ensures DecodeComponent(Encode(s)) == s
  {
    if s != [] {
      var b, tail := s[0], Encode(s[1..]);
      var e := EncodeByte(b);
      ReplacePlusAppend(e, tail);
      if IsUnreserved(b) {
        PercentDecodePlain(b, ReplacePlus(tail));
      } else if b == Space {
        assert ReplacePlus(e) == [Space];
        PercentDecodePlain(Space, ReplacePlus(tail));
      } else {
        assert ReplacePlus(e) == e;
        PercentDecodeEscape(b, ReplacePlus(tail));
      }
      DecodeEncode(s[1..]);
      assert s == [b] + s[1..];
    }
  }

  lemma {:induction false} SplitOnWithoutSep(a: Bytes, sep: Byte)
    requires sep !in a
    ensures SplitOn(a, sep) == [a]
  {
    if a != [] {
      SplitOnWithoutSep(a[1..], sep);
      assert [a[0]] + a[1..] == a;
    }
  }

  lemma {:induction false} SplitOnJoin(a: Bytes, b: Bytes, sep: Byte)
    requires sep !in a
    ensures SplitOn(a + [sep] + b, sep) == [a] + SplitOn(b, sep)
  {
    var s := a + [sep] + b;
    if a == [] {
      assert s[1..] == b;
    } else {
      assert s[1..] == a[1..] + [sep] + b;
      SplitOnJoin(a[1..], b, sep);
      assert [a[0]] + a[1..] == a;
    }
  }

  lemma ParseParamSerialize(p: Param)
    ensures ParseParam(SerializeParam(p)) == p
  {
    var n, v := Encode(p.name), Encode(p.value);
    var piece := n + [Eq] + v;
    assert forall i :: 0 <= i < |n| ==> piece[i] == n[i] && piece[i] != Eq;
    assert piece[|n|] == Eq;
    assert IndexOf(piece, Eq) == |n|;
    assert piece[..|n|] == n && piece[|n| + 1..] == v;
    DecodeEncode(p.name);
    DecodeEncode(p.value);
  }

  lemma ParsePiecesCons(piece: Bytes, rest: seq<Bytes>)
    requires piece != []
    ensures ParsePieces([piece] + rest) == [ParseParam(piece)] + ParsePieces(rest)
  {
    assert ([piece] + rest)[1..] == rest;
  }

  /** Parsing what the serializer wrote gives back the same list of pairs. */
  lemma {:induction false} ParseSerialize(params: seq<Param>)
    ensures Parse(Serialize(params)) == params
  {
    if params == [] {
      assert SplitOn([], Amp) == [[]];
      assert ParsePieces([[]]) == [] + ParsePieces([]);
    } else {
      var p := params[0];
      var piece := SerializeParam(p);
      assert Amp !in piece by {
        assert forall i :: 0 <= i < |piece| ==> IsEncodedByte(piece[i]) || piece[i] == Eq;
      }
      ParseParamSerialize(p);
      if |params| == 1 {
        SplitOnWithoutSep(piece, Amp);
        ParsePiecesCons(piece, []);
      } else {
        SplitOnJoin(piece, Serialize(params[1..]), Amp);
        ParsePiecesCons(piece, SplitOn(Serialize(params[1..]), Amp));
        ParseSerialize(params[1..]);
        assert [p] + params[1..] == params;
      }
    }
  }

  /** `new URLSearchParams(params.toString())` has the same pairs as `params`. */
  lemma FromInitSerialize(params: seq<Param>)
    ensures FromInit(Serialize(params)) == params
  {
    ParseSerialize(params);
  }

  /**
   * What `ReplaceFirst` does when `name` occurs: the pairs before the first
   * one named `name` are kept, that pair gets `value`, exactly one pair is
   * named `name` afterwards, and the other pairs are kept in order.
   */
  lemma {:induction false} ReplaceFirstFacts(params: seq<Param>, name: Bytes, value: Bytes)
    requires IndexOfName(params, name) < |params|
    ensures var r := ReplaceFirst(params, name, value);
      && IndexOfName(r, name) == IndexOfName(params, name) < |r|
      && r[IndexOfName(params, name)] == Param(name, value)
      && CountName(r, name) == 1
      && RemoveName(r, name) == RemoveName(params, name)
  {
    var r := ReplaceFirst(params, name, value);
    if params[0].name == name {
      var tail := RemoveName(params[1..], name);
      assert r == [Param(name, value)] + tail;
      RemoveNameFacts(params[1..], name);
      assert r[1..] == tail;
    } else {
      ReplaceFirstFacts(params[1..], name, value);
      assert r[1..] == ReplaceFirst(params[1..], name, value);
    }
  }

  lemma {:induction false} RemoveNameFacts(params: seq<Param>, name: Bytes)
    ensures CountName(RemoveName(params, name), name) == 0
    ensures RemoveName(RemoveName(params, name), name) == RemoveName(params, name)
  {
    if params != [] {
      RemoveNameFacts(params[1..], name);
      var r := RemoveName(params, name);
      if params[0].name != name {
        assert r[1..] == RemoveName(params[1..], name);
      }
    }
  }

  lemma {:induction false} RemoveNameAppend(a: seq<Param>, b: seq<Param>, name: Bytes)
    ensures RemoveName(a + b, name) == RemoveName(a, name) + RemoveName(b, name)
    ensures CountName(a + b, name) == CountName(a, name) + CountName(b, name)
  {
    if a == [] {
      assert a + b == b;
    } else {
      assert (a + b)[1..] == a[1..] + b;
      RemoveNameAppend(a[1..], b, name);
    }
  }

  lemma {:induction false} CountNameAbsent(params: seq<Param>, name: Bytes)
    requires IndexOfName(params, name) == |params|
    ensures CountName(params, name) == 0 && RemoveName(params, name) == params
  {
    if params != [] {
      CountNameAbsent(params[1..], name);
      assert [params[0]] + params[1..] == params;
    }
  }

  /**
   * `set(name, value)` leaves exactly one pair named `name`, with value
   * `value`, in place of the first one (or at the end when there was none),
   * and keeps every other pair in its order.
   */
  lemma SetFacts(params: seq<Param>, name: Bytes, value: Bytes)
    ensures var r := Set(params, name, value);
      && Get(r, name) == Some(value)
      && CountName(r, name) == 1
      && RemoveName(r, name) == RemoveName(params, name)
      && IndexOfName(r, name) == IndexOfName(params, name)
  {
    if IndexOfName(params, name) < |params| {
      ReplaceFirstFacts(params, name, value);
    } else {
      var last := [Param(name, value)];
      RemoveNameAppend(params, last, name);
      CountNameAbsent(params, name);
      assert RemoveName(last, name) == [];
      var r := params + last;
      assert r[|params|] == Param(name, value);
      assert forall j :: 0 <= j < |params| ==> r[j] == params[j];
      assert IndexOfName(r, name) == |params|;
    }
  }

  /** A name or value with no `+` and no `%` decodes to itself. */
  lemma {:induction false} DecodeLiteral(s: Bytes)
    requires forall i :: 0 <= i < |s| ==> s[i] != Plus && s[i] != Percent
    ensures DecodeComponent(s) == s
  {
    if s != [] {
      ReplacePlusAppend([s[0]], s[1..]);
      assert [s[0]] + s[1..] == s;
      assert ReplacePlus([s[0]]) == [s[0]];
      PercentDecodePlain(s[0], ReplacePlus(s[1..]));
      DecodeLiteral(s[1..]);
    }
  }
}
