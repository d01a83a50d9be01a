/**
 * The start-up script of a simulation page: it parses the page's query
 * string into a map once, installs `phet.chipper.getQueryParameter` and
 * `phet.chipper.getCacheBusterArgs` over that map, derives the two
 * assertion levels from `ea`, `eall` and whether the page is a production
 * build, and, when `postMessageOnError` is given, listens for errors and
 * posts a payload describing each one to `window.parent`.
 *
 * The browser is reduced to inputs: `location.search` and `location.href`
 * are strings, the production check is a boolean, the clock is a number,
 * and whether `window.parent` is non-null is a boolean (a top-level page is
 * its own parent, so there it holds too and the page posts to itself).
 */
module InitializeGlobals {
  import opened Wrappers
  import opened JsStrings
  import opened UriComponent

  /** The map from parameter name to decoded value. */
  type QueryMap = map<string, string>

  /** What `String(undefined)` gives, and so what `decodeURIComponent(undefined)` decodes. */
  const UndefinedText := "undefined"

  /** The `&`-separated segments of `location.search`; an empty search has none. */
  function Segments(search: string): (r: seq<string>)
    ensures search == "" ==> r == []
    ensures search != "" ==> |r| >= 1
  {
    if search == "" then [] else Split(search[1..], '&')
  }

  /** The name a segment is stored under: its text before the first `=`. */
  function SegmentKey(segment: string): (k: string)
    ensures '=' !in k
    ensures k == segment || (|k| < |segment| && segment[..|k|] == k && segment[|k|] == '=')
  {
    SplitHead(segment, '=');
    Split(segment, '=')[0]
  }

  /**
   * The value a segment stores: the decoding of its text between the first
   * and second `=`, or of the text "undefined" when it has no `=`. None when
   * the decoding throws.
   */
  function SegmentValue(segment: string): (r: Option<string>)
    ensures '=' !in segment ==> r == Some(UndefinedText)
  {
    var parts := Split(segment, '=');
    if |parts| > 1 then DecodeUriComponent(parts[1]) else Some(UndefinedText)
  }

  /** A segment without `%` never throws: its value decodes to itself. */
  lemma SegmentWithoutPercent(segment: string)
    requires '%' !in segment
    ensures SegmentValue(segment).Some?
  {
    var parts := Split(segment, '=');
    if |parts| > 1 {
      SplitKeepsOut(segment, '=', '%');
      DecodeWithoutPercent(parts[1]);
    }
  }

  /** Decoding the text "undefined" leaves it as it is, so a segment without `=` stores exactly that text. */
  lemma UndefinedDecodesToItself()
    ensures DecodeUriComponent(UndefinedText) == Some(UndefinedText)
  {
    DecodeWithoutPercent(UndefinedText);
  }

  /** Stores the segments into `m` from left to right; None as soon as a value fails to decode. */
  function AddSegments(m: QueryMap, segments: seq<string>): (r: Option<QueryMap>)
    ensures r.Some? ==> m.Keys <= r.value.Keys
    decreases |segments|
  {
    if segments == [] then Some(m)
    else
      var v :- SegmentValue(segments[0]);
      AddSegments(m[SegmentKey(segments[0]) := v], segments[1..])
  }

  /** The query map the script builds from `location.search`, or None when that throws. */
  function ParseQuery(search: string): (r: Option<QueryMap>)
    ensures search == "" ==> r == Some(map[])
  {
    AddSegments(map[], Segments(search))
  }

  /** A search without `%` has no `%` in any of its segments. */
  lemma SegmentsWithoutPercent(search: string)
    ensures '%' !in search ==> forall i :: 0 <= i < |Segments(search)| ==> '%' !in Segments(search)[i]
  {
    if search != "" && '%' !in search {
      assert forall c :: c in search[1..] ==> c in search;
      SplitKeepsOut(search[1..], '&', '%');
    }
  }

  /** The pre-population loop of the script, over a mutable map. */
  method ParseQueryString(search: string) returns (r: Option<QueryMap>)
    ensures r == ParseQuery(search)
  {
    var queryParamsMap: QueryMap := map[];
    if search != "" {
      var params := Split(search[1..], '&');
      assert params[0..] == params;
      var i := 0;
      while i < |params|
        invariant 0 <= i <= |params|
        invariant AddSegments(queryParamsMap, params[i..]) == ParseQuery(search)
      {
        var nameValuePair := Split(params[i], '=');
        var value := if |nameValuePair| > 1 then DecodeUriComponent(nameValuePair[1]) else Some(UndefinedText);
        assert value == SegmentValue(params[i]);
        AddSegmentsAt(queryParamsMap, params, i);
        if value.None? {
          return None;
        }
        assert nameValuePair[0] == SegmentKey(params[i]);
        queryParamsMap := queryParamsMap[nameValuePair[0] := value.value];
        i := i + 1;
      }
      assert params[i..] == [];
    }
    r := Some(queryParamsMap);
  }

  /** One step of the loop: segment `i` either fails to decode or is stored before the rest. */
  lemma AddSegmentsAt(m: QueryMap, segments: seq<string>, i: int)
    requires 0 <= i < |segments|
    ensures SegmentValue(segments[i]).None? ==> AddSegments(m, segments[i..]) == None
    ensures SegmentValue(segments[i]).Some? ==>
      AddSegments(m, segments[i..]) == AddSegments(m[SegmentKey(segments[i]) := SegmentValue(segments[i]).value], segments[i + 1..])
  {
    assert segments[i..][0] == segments[i] && segments[i..][1..] == segments[i + 1..];
  }

  /** `getQueryParameter(key)`: the stored value, or undefined for a key never parsed. */
  function GetQueryParameter(params: QueryMap, key: string): (r: Option<string>)
    ensures r.Some? <==> key in params
    ensures r.Some? ==> r.value == params[key]
  {
    if key in params then Some(params[key]) else None
  }

  /** Segment `i` is the last one stored under its key. */
  ghost predicate LastWithKey(segments: seq<string>, i: int)
    requires 0 <= i < |segments|
  {
    forall j :: i < j < |segments| ==> SegmentKey(segments[j]) != SegmentKey(segments[i])
  }

  ghost function SegmentKeys(segments: seq<string>): set<string>
  {
    set i | 0 <= i < |segments| :: SegmentKey(segments[i])
  }

  /**
   * What storing the segments into `m` produces: it succeeds exactly when
   * every segment's value decodes; the keys are those of `m` and one per
   * segment; each key a segment sets holds the value of the LAST segment
   * with that key; every other key keeps its value from `m`.
   */
  lemma {:induction false} AddSegmentsContents(m: QueryMap, segments: seq<string>)
    ensures AddSegments(m, segments).Some? <==> forall i :: 0 <= i < |segments| ==> SegmentValue(segments[i]).Some?
    ensures AddSegments(m, segments).Some? ==>
      var r := AddSegments(m, segments).value;
      && r.Keys == m.Keys + SegmentKeys(segments)
      && (forall k :: k in m && k !in SegmentKeys(segments) ==> r[k] == m[k])
      && (forall i :: 0 <= i < |segments| && LastWithKey(segments, i) ==>
            r[SegmentKey(segments[i])] == SegmentValue(segments[i]).value)
    decreases |segments|
  {
    if segments != [] {
      var tail := segments[1..];
      var k0 := SegmentKey(segments[0]);
      SegmentKeysCons(segments);
      match SegmentValue(segments[0])
      case None =>
      case Some(v) =>
        AddSegmentsContents(m[k0 := v], tail);
        if AddSegments(m, segments).Some? {
          var r := AddSegments(m, segments).value;
          forall i | 0 <= i < |segments| && LastWithKey(segments, i)
            ensures r[SegmentKey(segments[i])] == SegmentValue(segments[i]).value
          {
            LastWithKeyCons(segments, i);
          }
        }
    }
  }

  lemma SegmentKeysCons(segments: seq<string>)
    requires segments != []
    ensures SegmentKeys(segments) == {SegmentKey(segments[0])} + SegmentKeys(segments[1..])
  {
    var tail := segments[1..];
    forall k | k in SegmentKeys(segments) ensures k in {SegmentKey(segments[0])} + SegmentKeys(tail) {
      var i :| 0 <= i < |segments| && SegmentKey(segments[i]) == k;
      if i > 0 { assert SegmentKey(tail[i - 1]) == k; }
    }
    forall k | k in SegmentKeys(tail) ensures k in SegmentKeys(segments) {
      var i :| 0 <= i < |tail| && SegmentKey(tail[i]) == k;
      assert SegmentKey(segments[i + 1]) == k;
    }
  }

  /** The first segment is last with its key iff no later segment has it; a later one is last in the tail too. */
  lemma LastWithKeyCons(segments: seq<string>, i: int)
    requires 0 <= i < |segments| && LastWithKey(segments, i)
    ensures i == 0 ==> SegmentKey(segments[0]) !in SegmentKeys(segments[1..])
    ensures i > 0 ==> LastWithKey(segments[1..], i - 1)
  {
    var tail := segments[1..];
    if i > 0 {
      forall j | i - 1 < j < |tail| ensures SegmentKey(tail[j]) != SegmentKey(tail[i - 1]) {
        assert tail[j] == segments[j + 1];
      }
    }
  }

  /** Among the segments with the key of segment `j`, one is the last. */
  lemma {:induction false} LastSegmentWithKey(segments: seq<string>, j: int)
    requires 0 <= j < |segments|
    ensures exists i :: j <= i < |segments| && SegmentKey(segments[i]) == SegmentKey(segments[j]) && LastWithKey(segments, i)
    decreases |segments| - j
  {
    if !LastWithKey(segments, j) {
      var k :| j < k < |segments| && SegmentKey(segments[k]) == SegmentKey(segments[j]);
      LastSegmentWithKey(segments, k);
    }
  }

  /** A search without `%` never throws: every value it holds decodes. */
  lemma ParseWithoutPercent(search: string)
    requires '%' !in search
    ensures ParseQuery(search).Some?
  {
    SegmentsWithoutPercent(search);
    AddSegmentsWithoutPercent(map[], Segments(search));
  }

  /** Segments without `%` are all stored: the fold does not throw. */
  lemma {:induction false} AddSegmentsWithoutPercent(m: QueryMap, segments: seq<string>)
    requires forall i :: 0 <= i < |segments| ==> '%' !in segments[i]
    ensures AddSegments(m, segments).Some?
    decreases |segments|
  {
    if segments != [] {
      SegmentWithoutPercent(segments[0]);
      var v := SegmentValue(segments[0]).value;
      assert forall i :: 1 <= i < |segments| ==> segments[1..][i - 1] == segments[i];
      AddSegmentsWithoutPercent(m[SegmentKey(segments[0]) := v], segments[1..]);
    }
  }

  /**
   * Parsing succeeds exactly when every segment's value decodes; on success
   * there is exactly one key per segment, its text before the first `=`,
   * and each key holds the value of its last segment.
   */
  lemma ParseQueryContents(search: string)
    ensures ParseQuery(search).Some? <==>
      forall i :: 0 <= i < |Segments(search)| ==> SegmentValue(Segments(search)[i]).Some?
    ensures ParseQuery(search).Some? ==>
      var r := ParseQuery(search).value;
      var segments := Segments(search);
      && r.Keys == SegmentKeys(segments)
      && (forall i :: 0 <= i < |segments| && LastWithKey(segments, i) ==>
            r[SegmentKey(segments[i])] == SegmentValue(segments[i]).value)
  {
    AddSegmentsContents(map[], Segments(search));
  }

  /**
   * `getQueryParameter(key)` after a successful parse: undefined exactly when
   * no segment has that key, otherwise the value of the last segment that does.
   */
  lemma QueryParameterOfParse(search: string, key: string)
    requires ParseQuery(search).Some?
    ensures var segments := Segments(search);
      && (GetQueryParameter(ParseQuery(search).value, key).None? <==>
            forall i :: 0 <= i < |segments| ==> SegmentKey(segments[i]) != key)
      && (forall i :: 0 <= i < |segments| && SegmentKey(segments[i]) == key && LastWithKey(segments, i) ==>
            GetQueryParameter(ParseQuery(search).value, key) == SegmentValue(segments[i]))
  {
    ParseQueryContents(search);
    var segments := Segments(search);
    if key in SegmentKeys(segments) {
      var i :| 0 <= i < |segments| && SegmentKey(segments[i]) == key;
    }
  }

  /** A segment without `=` is stored under its whole text, with the string "undefined" as value. */
  lemma SegmentWithoutEquals(segment: string)
    requires '=' !in segment
    ensures SegmentKey(segment) == segment
    ensures SegmentValue(segment) == Some(UndefinedText)
  {
    SplitJoin([segment], '=');
    DecodeWithoutPercent(UndefinedText);
  }

  /**
   * A segment `key=value=rest` stores the decoding of `value` under `key`;
   * whatever follows the second `=` is dropped.
   */
  lemma SegmentValueBetweenEquals(key: string, value: string, rest: string)
    requires '=' !in key && '=' !in value
    ensures SegmentKey(key + "=" + value + "=" + rest) == key
    ensures SegmentValue(key + "=" + value + "=" + rest) == DecodeUriComponent(value)
  {
    var s := key + "=" + value + "=" + rest;
    assert s == key + ['='] + (value + ['='] + rest);
    SplitCons(key, '=', value + ['='] + rest);
    SplitCons(value, '=', rest);
  }

  /** A segment `key=value` with no second `=` stores the decoding of `value` under `key`. */
  lemma SegmentKeyValue(key: string, value: string)
    requires '=' !in key && '=' !in value
    ensures SegmentKey(key + "=" + value) == key
    ensures SegmentValue(key + "=" + value) == DecodeUriComponent(value)
  {
    SplitCons(key, '=', value);
    SplitJoin([value], '=');
  }

  /** The search `?` followed by segments joined with `&` has exactly those segments. */
  lemma SearchSegments(search: string, segments: seq<string>)
    requires |segments| >= 1 && forall i :: 0 <= i < |segments| ==> '&' !in segments[i]
    requires search == "?" + Join(segments, '&')
    ensures Segments(search) == segments
  {
    assert search[1..] == Join(segments, '&');
    SplitJoin(segments, '&');
  }

  lemma AddSegmentsStep(m: QueryMap, segments: seq<string>, v: string)
    requires segments != [] && SegmentValue(segments[0]) == Some(v)
    ensures AddSegments(m, segments) == AddSegments(m[SegmentKey(segments[0]) := v], segments[1..])
  {
  }

  /** A search with one segment stores that segment's value under its key. */
  lemma OneSegmentSearch(search: string, segment: string, v: string)
    requires search == "?" + segment
    requires '&' !in segment && SegmentValue(segment) == Some(v)
    ensures ParseQuery(search) == Some(map[SegmentKey(segment) := v])
  {
    SearchSegments(search, [segment]);
    AddSegmentsStep(map[], [segment], v);
  }

  /** A search whose one segment throws while decoding stops the script: nothing is parsed. */
  lemma ThrowingSegmentSearch(search: string, segment: string)
    requires search == "?" + segment
    requires '&' !in segment && SegmentValue(segment) == None
    ensures ParseQuery(search) == None
  {
    SearchSegments(search, [segment]);
  }

  /** `?key=%` throws a URIError while the map is being filled. */
  lemma MalformedEscapeSearchThrows(key: string)
    requires '=' !in key && '&' !in key
    ensures ParseQuery("?" + (key + "=%")) == None
  {
    var segment := key + "=" + "%";
    assert segment == key + "=%";
    assert '&' !in segment;
    SegmentKeyValue(key, "%");
    MalformedEscapeThrows("", "");
    assert "" + "%" + "" == "%";
    ThrowingSegmentSearch("?" + segment, segment);
  }

  /** The query `?k=%` is one such search. */
  lemma LoneEscapeThrows()
    ensures ParseQuery("?k=%") == None
  {
    MalformedEscapeSearchThrows("k");
    assert "?" + ("k" + "=%") == "?k=%";
  }

  /** A search with two segments stores them in order, the second overwriting the first on a shared key. */
  lemma TwoSegmentSearch(search: string, first: string, second: string, v1: string, v2: string)
    requires search == "?" + first + "&" + second
    requires '&' !in first && SegmentValue(first) == Some(v1)
    requires '&' !in second && SegmentValue(second) == Some(v2)
    ensures ParseQuery(search) == Some(map[SegmentKey(first) := v1][SegmentKey(second) := v2])
  {
    var segments := [first, second];
    assert Join(segments, '&') == first + "&" + second;
    SearchSegments(search, segments);
    AddTwoSegments(map[], first, second, v1, v2);
  }

  /** Storing two decodable segments stores the first, then the second. */
  lemma AddTwoSegments(m: QueryMap, first: string, second: string, v1: string, v2: string)
    requires SegmentValue(first) == Some(v1) && SegmentValue(second) == Some(v2)
    ensures AddSegments(m, [first, second]) == Some(m[SegmentKey(first) := v1][SegmentKey(second) := v2])
  {
    var m1 := m[SegmentKey(first) := v1];
    AddSegmentsStep(m, [first, second], v1);
    assert [first, second][1..] == [second];
    AddSegmentsStep(m1, [second], v2);
    assert [second][1..] == [];
  }

  /** A segment `key=value` whose value has no escapes stores `value` itself under `key`. */
  lemma PlainSegment(segment: string, key: string, value: string)
    requires segment == key + "=" + value
    requires '=' !in key && '=' !in value && '%' !in value
    ensures SegmentKey(segment) == key
    ensures SegmentValue(segment) == Some(value)
  {
    SegmentKeyValue(key, value);
    DecodeWithoutPercent(value);
  }

  /** `?eall` stores the truthy string "undefined". */
  lemma EallSearchParses()
    ensures ParseQuery("?eall") == Some(map["eall" := UndefinedText])
  {
    SegmentWithoutEquals("eall");
    OneSegmentSearch("?eall", "eall", UndefinedText);
  }

  /** `?ea` stores the truthy string "undefined". */
  lemma EaSearchParses()
    ensures ParseQuery("?ea") == Some(map["ea" := UndefinedText])
  {
    SegmentWithoutEquals("ea");
    OneSegmentSearch("?ea", "ea", UndefinedText);
  }

  /** `?ea=` stores the falsy empty string. */
  lemma EmptyEaSearchParses()
    ensures ParseQuery("?ea=") == Some(map["ea" := ""])
  {
    PlainSegment("ea=", "ea", "");
    OneSegmentSearch("?ea=", "ea=", "");
  }

  /** The escape `%20` decodes to a space: `bar%20baz` to `bar baz`, and likewise around any text without `%`. */
  lemma DecodeSpaceEscape(a: string, b: string)
    requires '%' !in a && '%' !in b
    ensures DecodeUriComponent(a + "%20" + b) == Some(a + " " + b)
  {
    DecodeWithoutPercent(b);
    var e := "%20" + b;
    assert EscapedByte(e) == Some(0x20);
    assert e[3..] == b;
    DecodeCons(e, Decoded(' ', 3), b);
    DecodePlainPrefix(a, e, " " + b);
    assert a + "%20" + b == a + e;
    assert a + " " + b == a + (" " + b);
  }

  /**
   * `?flag&key=raw`, as in `?ea&foo=bar%20baz`: the flag stores "undefined"
   * and the key stores the decoding of `raw`.
   */
  lemma FlagAndPairSearch(flag: string, key: string, raw: string, decoded: string)
    requires '=' !in flag && '&' !in flag
    requires '=' !in key && '&' !in key && '=' !in raw && '&' !in raw
    requires DecodeUriComponent(raw) == Some(decoded)
    ensures ParseQuery("?" + flag + "&" + (key + "=" + raw)) == Some(map[flag := UndefinedText][key := decoded])
  {
    var pair := key + "=" + raw;
    SegmentWithoutEquals(flag);
    SegmentKeyValue(key, raw);
    assert '&' !in pair;
    TwoSegmentSearch("?" + flag + "&" + pair, flag, pair, UndefinedText, decoded);
  }

  /**
   * `?key=v1&key=v2`, as in `?a=1&a=2`: the later segment overwrites the
   * earlier one although the lookup's documentation speaks of the first.
   */
  lemma RepeatedKeyLastWins(key: string, v1: string, v2: string)
    requires '=' !in key && '&' !in key
    requires '=' !in v1 && '&' !in v1 && '%' !in v1
    requires '=' !in v2 && '&' !in v2 && '%' !in v2
    ensures ParseQuery("?" + (key + "=" + v1) + "&" + (key + "=" + v2)) == Some(map[key := v2])
  {
    var first, second := key + "=" + v1, key + "=" + v2;
    assert ParseQuery("?" + first + "&" + second) == Some(map[key := v1][key := v2]) by {
      PlainSegment(first, key, v1);
      PlainSegment(second, key, v2);
      assert '&' !in first && '&' !in second;
      TwoSegmentSearch("?" + first + "&" + second, first, second, v1, v2);
    }
    assert map[key := v1][key := v2] == map[key := v2];
  }

  /**
   * The values `phet.chipper.getCacheBusterArgs` can hold: the one this
   * script installs, which reads the query map, and the stand-in the build
   * installs, which always answers ''.
   */
  datatype CacheBusterFn = BustUnlessDisabled(params: QueryMap) | AlwaysEmpty

  /**
   * Calling `getCacheBusterArgs()` at time `now`: '' exactly when the
   * `cacheBuster` parameter is the string 'false' (or for the build's
   * stand-in), otherwise 'bust=' followed by the decimal digits of `now`.
   */
  function CacheBusterArgs(f: CacheBusterFn, now: nat): (r: string)
    ensures r == "" <==> f.AlwaysEmpty? || GetQueryParameter(f.params, "cacheBuster") == Some("false")
    ensures r != "" ==> |r| > 5 && r[..5] == "bust=" && IsDecimal(r[5..]) && DecimalValue(r[5..]) == now
    ensures r != "" ==> (r[5] == '0' <==> now == 0)
  {
    DecimalRoundTrip(now);
    match f
    case AlwaysEmpty => ""
    case BustUnlessDisabled(params) =>
      if GetQueryParameter(params, "cacheBuster") != Some("false") then "bust=" + NatToDecimal(now) else ""
  }

  /**
   * After a successful parse the cache buster is off exactly when the last
   * `cacheBuster` segment stores the string 'false'.
   */
  lemma CacheBusterOfSearch(search: string, now: nat)
    requires ParseQuery(search).Some?
    ensures var segments := Segments(search);
      (CacheBusterArgs(BustUnlessDisabled(ParseQuery(search).value), now) == "") <==>
      exists i :: 0 <= i < |segments| && SegmentKey(segments[i]) == "cacheBuster" && LastWithKey(segments, i) &&
        SegmentValue(segments[i]) == Some("false")
  {
    var segments := Segments(search);
    QueryParameterOfParse(search, "cacheBuster");
    if GetQueryParameter(ParseQuery(search).value, "cacheBuster").Some? {
      var j :| 0 <= j < |segments| && SegmentKey(segments[j]) == "cacheBuster";
      LastSegmentWithKey(segments, j);
    }
  }

  /** So `?cacheBuster=false` turns the cache buster off, and `?cacheBuster` alone leaves it on. */
  lemma CacheBusterSwitch(now: nat)
    ensures CacheBusterArgs(BustUnlessDisabled(map["cacheBuster" := "false"]), now) == ""
    ensures CacheBusterArgs(BustUnlessDisabled(map["cacheBuster" := UndefinedText]), now) == "bust=" + NatToDecimal(now)
  {
  }

  /** The two assertion levels the script enables. */
  datatype AssertionFlags = AssertionFlags(enableBasic: bool, enableAll: bool)

  /**
   * `enableAllAssertions` and `enableBasicAssertions`: off in production;
   * otherwise all assertions follow a truthy `eall`, and basic assertions a
   * truthy `eall` or `ea`.
   */
  function AssertionFlagsFor(params: QueryMap, isProduction: bool): (r: AssertionFlags)
    ensures r.enableAll ==> r.enableBasic
    ensures isProduction ==> !r.enableBasic && !r.enableAll
    ensures r.enableAll <==> !isProduction && Truthy(GetQueryParameter(params, "eall"))
    ensures r.enableBasic <==>
      !isProduction && (Truthy(GetQueryParameter(params, "eall")) || Truthy(GetQueryParameter(params, "ea")))
  {
    var enableAllAssertions := !isProduction && Truthy(GetQueryParameter(params, "eall"));
    var enableBasicAssertions := enableAllAssertions || (!isProduction && Truthy(GetQueryParameter(params, "ea")));
    AssertionFlags(enableBasicAssertions, enableAllAssertions)
  }

  /** A truthy `ea` without a truthy `eall` enables basic assertions only. */
  lemma EaAloneEnablesBasicOnly(params: QueryMap)
    requires Truthy(GetQueryParameter(params, "ea")) && !Truthy(GetQueryParameter(params, "eall"))
    ensures AssertionFlagsFor(params, false) == AssertionFlags(true, false)
  {
  }

  /**
   * Outside production, the maps `?eall`, `?ea` and `?ea=` parse to enable
   * both levels, only the basic one, and neither.
   */
  lemma AssertionFlagsOfSearches()
    ensures AssertionFlagsFor(map["eall" := UndefinedText], false) == AssertionFlags(true, true)
    ensures AssertionFlagsFor(map["ea" := UndefinedText], false) == AssertionFlags(true, false)
    ensures AssertionFlagsFor(map["ea" := ""], false) == AssertionFlags(false, false)
  {
  }

  /** The value thrown, as seen through the event's `error` property. */
  datatype ThrownValue = ThrownValue(stack: Option<string>)

  /** The first argument the `error` listener receives; its absent properties are None. */
  datatype ErrorEvent = ErrorEvent(message: Option<string>, error: Option<ThrownValue>)

  /** The object posted to `window.parent`; `kind` is its `type` property. */
  datatype ErrorPayload = ErrorPayload(kind: string, url: string, message: string, stack: string)

  /**
   * The payload for one error: `type` is always 'error', `url` is the page's
   * address, `message` is the event's message when it has a non-empty one,
   * else '', and `stack` is the thrown value's stack when it has a non-empty
   * one, else ''.
   */
  function ErrorPayloadFor(event: Option<ErrorEvent>, href: string): (p: ErrorPayload)
    ensures p.kind == "error" && p.url == href
    ensures p.message != "" <==> event.Some? && Truthy(event.value.message)
    ensures p.message != "" ==> Some(p.message) == event.value.message
    ensures p.stack != "" <==>
      event.Some? && event.value.error.Some? && Truthy(event.value.error.value.stack)
    ensures p.stack != "" ==> Some(p.stack) == event.value.error.value.stack
  {
    var message := if event.Some? && Truthy(event.value.message) then event.value.message.value else "";
    var stack :=
      if event.Some? && event.value.error.Some? && Truthy(event.value.error.value.stack)
      then event.value.error.value.stack.value
      else "";
    ErrorPayload("error", href, message, stack)
  }

  /**
   * The globals of one page that the script sets: the query map the two
   * installed functions read, the installed `getCacheBusterArgs`, whether
   * `enableAssert` and `enableAssertSlow` have been called, and whether the
   * `error` listener is installed.
   */
  class Window {
    var queryParams: Option<QueryMap>
    var cacheBusterArgs: Option<CacheBusterFn>
    var assertEnabled: bool
    var assertSlowEnabled: bool
    var errorListenerInstalled: bool

    constructor ()
      ensures queryParams == None && cacheBusterArgs == None
      ensures !assertEnabled && !assertSlowEnabled && !errorListenerInstalled
    {
      queryParams := None;
      cacheBusterArgs := None;
      assertEnabled := false;
      assertSlowEnabled := false;
      errorListenerInstalled := false;
    }

    /**
     * Runs the script on a page whose `location.search` is `search`. When a
     * value fails to decode the script throws before installing anything, and
     * `ok` is false; otherwise the functions are installed over the parsed
     * map, the assertion levels are enabled as the flags say, and the error
     * listener is installed when `postMessageOnError` is truthy.
     */
    method Initialize(search: string, isProduction: bool) returns (ok: bool)
      modifies this
      ensures ok <==> ParseQuery(search).Some?
      ensures !ok ==> queryParams == old(queryParams) && cacheBusterArgs == old(cacheBusterArgs)
      ensures !ok ==> assertEnabled == old(assertEnabled) && assertSlowEnabled == old(assertSlowEnabled)
      ensures !ok ==> errorListenerInstalled == old(errorListenerInstalled)
      ensures ok ==>
        var m := ParseQuery(search).value;
        var flags := AssertionFlagsFor(m, isProduction);
        && queryParams == Some(m)
        && cacheBusterArgs == Some(BustUnlessDisabled(m))
        && assertEnabled == (old(assertEnabled) || flags.enableBasic)
        && assertSlowEnabled == (old(assertSlowEnabled) || flags.enableAll)
        && errorListenerInstalled == (old(errorListenerInstalled) || Truthy(GetQueryParameter(m, "postMessageOnError")))
    {
      var parsed := ParseQueryString(search);
      if parsed.None? {
        return false;
      }
      var m := parsed.value;
      queryParams := Some(m);
      cacheBusterArgs := Some(BustUnlessDisabled(m));
      var flags := AssertionFlagsFor(m, isProduction);
      if flags.enableBasic {
        assertEnabled := true;
      }
      if flags.enableAll {
        assertSlowEnabled := true;
      }
      if Truthy(GetQueryParameter(m, "postMessageOnError")) {
        errorListenerInstalled := true;
      }
      ok := true;
    }

    /**
     * What is posted to `window.parent` when an error occurs: the payload for
     * the event when the listener is installed and `window.parent` is
     * non-null (`hasParent`), which includes a top-level page, whose parent
     * is the page itself; nothing when either is missing.
     */
    function PostedOnError(event: Option<ErrorEvent>, href: string, hasParent: bool): (r: Option<ErrorPayload>)
      reads this
      ensures r.Some? <==> errorListenerInstalled && hasParent
      ensures r.Some? ==> r.value.kind == "error" && r.value == ErrorPayloadFor(event, href)
    {
      if errorListenerInstalled && hasParent then Some(ErrorPayloadFor(event, href)) else None
    }
  }
}
