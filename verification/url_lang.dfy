/**
 * The URL-fragment language switcher (src/questions-1320212): the chosen
 * language lives in component state and is mirrored into the `lang`
 * parameter of the page's URL fragment, which is read once on mount.
 *
 * The fragment is the part of the URL after `#`, without the `#`, as the URL
 * stores it (already percent-encoded). A URL with no fragment and one with an
 * empty fragment look the same to this code (`URL.hash` is `""` for both),
 * so both are the empty byte string here.
 */
module UrlLang {
  import opened Wrappers
  import opened Urlencoded

  /** `URL_HASH_PARAMETER_LANG`, the bytes of "lang". */
  const LangParam: Bytes := [0x6C, 0x61, 0x6E, 0x67]

  datatype Lang = Lang(id: Bytes, caption: Bytes)

  /** Tab, line feed and carriage return, which URL parsing removes. */
  predicate IsTabOrNewline(b: Byte) {
    b == 0x09 || b == 0x0A || b == 0x0D
  }

  /** The fragment percent-encode set: C0 controls, bytes above 0x7E, space, `"`, `<`, `>` and backquote. */
  predicate InFragmentSet(b: Byte) {
    b < 0x20 || b > 0x7E || b == 0x20 || b == 0x22 || b == 0x3C || b == 0x3E || b == 0x60
  }

  /** A byte the hash setter keeps as it is. */
  predicate IsFragmentSafe(b: Byte) {
    !InFragmentSet(b) && !IsTabOrNewline(b)
  }

  /** What assigning `"#" + s` to `URL.hash` stores: tabs and newlines dropped, the fragment set percent-encoded. */
  function FragmentEncode(s: Bytes): (r: Bytes)
    ensures forall i :: 0 <= i < |r| ==> IsFragmentSafe(r[i])
  {
    if s == [] then []
    else
      (if IsTabOrNewline(s[0]) then [] else if InFragmentSet(s[0]) then PercentEscape(s[0]) else [s[0]])
      + FragmentEncode(s[1..])
  }

  lemma {:induction false} FragmentEncodeSafe(s: Bytes)
    requires forall i :: 0 <= i < |s| ==> IsFragmentSafe(s[i])
    ensures FragmentEncode(s) == s
  {
    if s != [] {
      FragmentEncodeSafe(s[1..]);
      assert [s[0]] + s[1..] == s;
    }
  }

  /** Storing a fragment again, as `pushState` and every later URL parse do, leaves it as it is. */
  lemma FragmentEncodeIdempotent(s: Bytes)
    ensures FragmentEncode(FragmentEncode(s)) == FragmentEncode(s)
  {
    FragmentEncodeSafe(FragmentEncode(s));
  }

  lemma {:induction false} FragmentEncodeAppend(a: Bytes, b: Bytes)
    ensures FragmentEncode(a + b) == FragmentEncode(a) + FragmentEncode(b)
  {
    if a == [] {
      assert a + b == b;
    } else {
      assert (a + b)[1..] == a[1..] + b;
      FragmentEncodeAppend(a[1..], b);
    }
  }

  /** The serializer's output contains nothing the hash setter would change. */
  lemma SerializedIsFragmentSafe(params: seq<Param>)
    ensures FragmentEncode(Serialize(params)) == Serialize(params)
  {
    FragmentEncodeSafe(Serialize(params));
  }

  /** With no fragment `new URLSearchParams("")` holds no pairs. */
  lemma FromInitEmpty()
    ensures FromInit([]) == []
  {
    assert SplitOn([], Amp) == [[]];
    assert ParsePieces([[]]) == [] + ParsePieces([]);
  }

  /** `readLangFromUrl()`: the value of the first `lang` pair of the fragment, or null. */
  function ReadLangFromUrl(fragment: Bytes): (r: Option<Bytes>)
    ensures fragment == [] ==> r == None
    ensures r.Some? ==> Param(LangParam, r.value) in FromInit(fragment)
    ensures r.Some? ==> r.value == FromInit(fragment)[IndexOfName(FromInit(fragment), LangParam)].value
    ensures r.None? <==> forall p :: p in FromInit(fragment) ==> p.name != LangParam
  {
    FromInitEmpty();
    Get(FromInit(fragment), LangParam)
  }

  /**
   * `prepareUrl(nextLang)` as written: with no fragment it stores
   * `lang=<nextLang>` without urlencoding the value; otherwise it parses the
   * fragment, applies `set("lang", nextLang)` and stores the serialization.
   */
  function PrepareUrlAsWritten(fragment: Bytes, nextLang: Bytes): (r: Bytes)
    ensures fragment == [] ==> r == LangParam + [Eq] + FragmentEncode(nextLang)
    ensures fragment != [] ==> FromInit(r) == Set(FromInit(fragment), LangParam, nextLang)
    ensures r != []
  {
    if fragment == [] then
      FragmentEncodeAppend(LangParam + [Eq], nextLang);
      FragmentEncodeSafe(LangParam + [Eq]);
      FragmentEncode(LangParam + [Eq] + nextLang)
    else
      var params := Set(FromInit(fragment), LangParam, nextLang);
      SerializedIsFragmentSafe(params);
      FromInitSerialize(params);
      FromInitEmpty();
      SetFacts(FromInit(fragment), LangParam, nextLang);
      FragmentEncode(Serialize(params))
  }

  /** `prepareUrl(nextLang)` with the value urlencoded in both branches. */
  function PrepareUrl(fragment: Bytes, nextLang: Bytes): (r: Bytes)
    ensures FromInit(r) == Set(FromInit(fragment), LangParam, nextLang)
    ensures fragment != [] ==> r == PrepareUrlAsWritten(fragment, nextLang)
  {
    FromInitEmpty();
    var params := Set(FromInit(fragment), LangParam, nextLang);
    SerializedIsFragmentSafe(params);
    FromInitSerialize(params);
    if fragment == [] then FragmentEncode(Serialize([Param(LangParam, nextLang)]))
    else FragmentEncode(Serialize(params))
  }

  /**
   * Reading back what `PrepareUrl` stores gives `nextLang`; with no fragment
   * the stored pairs are just `lang=<nextLang>`.
   */
  lemma PrepareUrlRoundTrip(fragment: Bytes, nextLang: Bytes)
    ensures fragment == [] ==> FromInit(PrepareUrl(fragment, nextLang)) == [Param(LangParam, nextLang)]
    ensures ReadLangFromUrl(PrepareUrl(fragment, nextLang)) == Some(nextLang)
  {
    FromInitEmpty();
    SetFacts(FromInit(fragment), LangParam, nextLang);
  }

  /** As written, a write into an existing fragment reads back `nextLang`. */
  lemma PrepareUrlAsWrittenWithFragment(fragment: Bytes, nextLang: Bytes)
    requires fragment != []
    ensures ReadLangFromUrl(PrepareUrlAsWritten(fragment, nextLang)) == Some(nextLang)
  {
    SetFacts(FromInit(fragment), LangParam, nextLang);
  }

  /** A value the unencoded branch stores faithfully: no `&`, `+`, `%`, tab or newline. */
  predicate IsPlainValue(v: Bytes) {
    forall i :: 0 <= i < |v| ==> v[i] != Amp && v[i] != Plus && v[i] != Percent && !IsTabOrNewline(v[i])
  }

  lemma {:induction false} DecodeFragmentEncoded(v: Bytes)
    requires IsPlainValue(v)
    ensures DecodeComponent(FragmentEncode(v)) == v
  {
    if v != [] {
      var b, tail := v[0], FragmentEncode(v[1..]);
      var e := if InFragmentSet(b) then PercentEscape(b) else [b];
      assert FragmentEncode(v) == e + tail;
      ReplacePlusAppend(e, tail);
      assert ReplacePlus(e) == e;
      if InFragmentSet(b) {
        PercentDecodeEscape(b, ReplacePlus(tail));
      } else {
        PercentDecodePlain(b, ReplacePlus(tail));
      }
      DecodeFragmentEncoded(v[1..]);
      assert [b] + v[1..] == v;
    }
  }

  /** `lang=<v>` parses as one `lang` pair when `v` has no `&`. */
  lemma ParseParamLang(v: Bytes)
    requires Amp !in v
    ensures Amp !in LangParam + [Eq] + v
    ensures ParseParam(LangParam + [Eq] + v) == Param(LangParam, DecodeComponent(v))
  {
    var piece := LangParam + [Eq] + v;
    assert forall i :: 0 <= i < |piece| ==> piece[i] == if i < 4 then LangParam[i] else if i == 4 then Eq else v[i - 5];
    assert IndexOf(piece, Eq) == 4 by {
      assert piece[0] != Eq && piece[1] != Eq && piece[2] != Eq && piece[3] != Eq && piece[4] == Eq;
    }
    assert piece[..4] == LangParam && piece[5..] == v;
    DecodeLiteral(LangParam);
  }

  /** As written, a plain value survives the no-fragment branch. */
  lemma PrepareUrlAsWrittenPlainRoundTrip(nextLang: Bytes)
    requires IsPlainValue(nextLang)
    ensures ReadLangFromUrl(PrepareUrlAsWritten([], nextLang)) == Some(nextLang)
  {
    var e := FragmentEncode(nextLang);
    FragmentEncodeAppend(LangParam + [Eq], nextLang);
    FragmentEncodeSafe(LangParam + [Eq]);
    var piece := LangParam + [Eq] + e;
    assert piece == PrepareUrlAsWritten([], nextLang);
    assert Amp !in e by {
      assert forall i :: 0 <= i < |e| ==> IsFragmentSafe(e[i]);
      AmpNotInFragmentEncoded(nextLang);
    }
    ParseParamLang(e);
    SplitOnWithoutSep(piece, Amp);
    ParsePiecesCons(piece, []);
    DecodeFragmentEncoded(nextLang);
    assert FromInit(piece) == [Param(LangParam, nextLang)];
  }

  lemma {:induction false} AmpNotInFragmentEncoded(v: Bytes)
    requires Amp !in v
    ensures Amp !in FragmentEncode(v)
  {
    if v != [] {
      AmpNotInFragmentEncoded(v[1..]);
    }
  }

  /**
   * As written, the no-fragment branch does not round-trip a value with `&`:
   * choosing "a&b" stores `lang=a&b`, which reads back as "a".
   */
  lemma PrepareUrlAsWrittenLosesAmpersand()
    ensures ReadLangFromUrl(PrepareUrlAsWritten([], [0x61, 0x26, 0x62])) == Some([0x61])
  {
    var first, second := LangParam + [Eq] + [0x61], [0x62];
    var stored := first + [Amp] + second;
    FragmentEncodeSafe(stored);
    assert LangParam + [Eq] + [0x61, 0x26, 0x62] == stored;
    ParseParamLang([0x61]);
    DecodeLiteral([0x61]);
    SplitOnJoin(first, second, Amp);
    SplitOnWithoutSep(second, Amp);
    ParsePiecesCons(first, [second]);
    ParsePiecesCons(second, []);
    assert FromInit(stored) == [Param(LangParam, [0x61]), ParseParam(second)];
  }

  /**
   * `getState(props)()`: the URL's `lang` value when there is one (an empty
   * value included), otherwise the first configured language; with no
   * `lang` in the URL and no languages the source throws, so that case is
   * excluded.
   */
  function GetState(fragment: Bytes, langs: seq<Lang>): (r: Bytes)
    requires ReadLangFromUrl(fragment).Some? || |langs| > 0
    ensures ReadLangFromUrl(fragment).Some? ==> ReadLangFromUrl(fragment) == Some(r)
    ensures ReadLangFromUrl(fragment).None? ==> r == langs[0].id
  {
    match ReadLangFromUrl(fragment)
    case Some(v) => v
    case None => langs[0].id
  }

  /**
   * `useUrlState`: the `lang` state, the `isInitState` ref, and the page's
   * URL fragment with the history entries pushed so far. URLs are written
   * by `prepareUrl` as the source has it.
   */
  class UrlState {
    var lang: Bytes
    var isInitState: bool
    var fragment: Bytes
    var pushed: seq<Bytes>

    /** The component is mounted: its first effect run is behind it. */
    ghost predicate Valid()
      reads this
    {
      isInitState
    }

    /** Mounting: the state is initialised by `getState`, then the first effect run only sets the flag. */
    constructor Mount(location: Bytes, langs: seq<Lang>)
      requires ReadLangFromUrl(location).Some? || |langs| > 0
      ensures Valid()
      ensures lang == GetState(location, langs)
      ensures ReadLangFromUrl(location).Some? ==> ReadLangFromUrl(fragment) == Some(lang)
      ensures fragment == location && pushed == []
    {
      lang := GetState(location, langs);
      isInitState := false;
      fragment := location;
      pushed := [];
      new;
      Effect();
    }

    /** The effect on `lang`: skipped on its first run, otherwise the URL is rewritten and pushed. */
    method Effect()
      modifies this
      ensures lang == old(lang) && isInitState
      ensures !old(isInitState) ==> fragment == old(fragment) && pushed == old(pushed)
      ensures old(isInitState) ==>
                fragment == PrepareUrlAsWritten(old(fragment), lang) && pushed == old(pushed) + [fragment]
    {
      if !isInitState {
        isInitState := true;
        return;
      }
      fragment := PrepareUrlAsWritten(fragment, lang);
      pushed := pushed + [fragment];
    }

    /**
     * `setLang(value)`; when the value changed the component re-renders and
     * the effect writes the URL. The URL then reads back `value` whenever it
     * already had a fragment or `value` is plain.
     */
    method SetLang(value: Bytes)
      requires Valid()
      modifies this
      ensures Valid()
      ensures lang == value
      ensures value == old(lang) ==> fragment == old(fragment) && pushed == old(pushed)
      ensures value != old(lang) ==>
                fragment == PrepareUrlAsWritten(old(fragment), value) && pushed == old(pushed) + [fragment]
      ensures value != old(lang) && (old(fragment) != [] || IsPlainValue(value)) ==>
                ReadLangFromUrl(fragment) == Some(value)
    {
      if value != lang {
        lang := value;
        Effect();
        if old(fragment) != [] {
          PrepareUrlAsWrittenWithFragment(old(fragment), value);
        } else if IsPlainValue(value) {
          PrepareUrlAsWrittenPlainRoundTrip(value);
        }
      }
    }

    /** `handleSelectChange`: the select's new value becomes `lang`. */
    method HandleSelectChange(targetValue: Bytes)
      requires Valid()
      modifies this
      ensures Valid() && lang == targetValue
      ensures targetValue != old(lang) ==>
                fragment == PrepareUrlAsWritten(old(fragment), targetValue) && pushed == old(pushed) + [fragment]
      ensures targetValue != old(lang) && (old(fragment) != [] || IsPlainValue(targetValue)) ==>
                ReadLangFromUrl(fragment) == Some(targetValue)
      ensures targetValue == old(lang) ==> fragment == old(fragment) && pushed == old(pushed)
    {
      SetLang(targetValue);
    }

    /** `handleRadioInputChange(id)`: the chosen radio button's language id becomes `lang`. */
    method HandleRadioInputChange(id: Bytes)
      requires Valid()
      modifies this
      ensures Valid() && lang == id
      ensures id != old(lang) ==>
                fragment == PrepareUrlAsWritten(old(fragment), id) && pushed == old(pushed) + [fragment]
      ensures id != old(lang) && (old(fragment) != [] || IsPlainValue(id)) ==>
                ReadLangFromUrl(fragment) == Some(id)
      ensures id == old(lang) ==> fragment == old(fragment) && pushed == old(pushed)
    {
      SetLang(id);
    }

    /**
     * The browser changes the location without the component (Back, Forward,
     * an edited hash): the fragment changes, `lang` stays, nothing is pushed,
     * and the next write starts from the new fragment.
     */
    method Navigate(location: Bytes)
      requires Valid()
      modifies this
      ensures Valid()
      ensures fragment == location && lang == old(lang) && pushed == old(pushed)
    {
      fragment := location;
    }
  }
}
