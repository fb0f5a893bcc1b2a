/** The encoder object: its configuration fields, the one mutator, the
    lookups, and the two conversion entry points that write the source
    encoding back to the caller. */
module Encoder {
  import opened Outcomes
  import opened Utf8
  import opened Registry
  import opened Detection
  import opened Conversion

  class Encoder {
    var encodingGroupDefault: string
    var encodingGroups: map<string, Group>
    const encodingList: map<string, string> := ENCODING_LIST

    /** The configuration the encoder's operations read. */
    function State(): Config
      reads this
    {
      Config(encodingGroups, encodingGroupDefault)
    }

    ghost predicate Valid()
      reads this
    {
      ValidConfig(State())
    }

    /** Allocation with the built-in group table; `Create` checks the group. */
    constructor (encGroupDefault: string)
      requires encGroupDefault in INITIAL_GROUPS
      ensures Valid()
      ensures encodingGroups == INITIAL_GROUPS && encodingGroupDefault == encGroupDefault
    {
      encodingGroups := INITIAL_GROUPS;
      encodingGroupDefault := encGroupDefault;
      new;
      InitialGroupsValid(encGroupDefault);
    }

    /** `new Encoder(encGroupDefault)`: fails with 1001 unless the default
      group is in the group table. */
    static method Create(encGroupDefault: string) returns (r: Result<Encoder>)
      ensures r.Err? <==> encGroupDefault !in INITIAL_GROUPS
      ensures r.Err? ==> r.error == UnknownDefaultGroup && r.error.Code() == 1001
      ensures r.Ok? ==> fresh(r.value) && r.value.Valid() && r.value.State() == Initial(encGroupDefault).value
    {
      if encGroupDefault !in INITIAL_GROUPS {
        return Err(UnknownDefaultGroup);
      }
      var e := new Encoder(encGroupDefault);
      return Ok(e);
    }

    /** Replaces the default encoding of a supported group by any catalog
      encoding; answers whether it did. */
    method SetDefaultEncoding(encGroup: string, encoding: string) returns (ok: bool)
      requires Valid()
      modifies this
      ensures Valid()
      ensures (ok, State()) == SetDefault(old(State()), encGroup, encoding)
    {
      if !IsGroupSupported(encGroup) {
        return false;
      }
      if encoding !in encodingList {
        return false;
      }
      encodingGroups := encodingGroups[encGroup := encodingGroups[encGroup].(defaultEncoding := encoding)];
      ok := true;
      SetDefaultKeepsValid(old(State()), encGroup, encoding);
    }

    /** Exactly the three built-in groups are supported; GLOBAL and the
      `_default_` marker are not. */
    function IsGroupSupported(encGroup: string): (supported: bool)
      reads this
      requires Valid()
      ensures supported <==> encGroup in [GROUP_LATIN, GROUP_CYRILLIC, GROUP_KOI8]
      ensures encGroup == GROUP_GLOBAL || encGroup == GROUP_DEFAULT ==> !supported
    {
      encGroup in encodingGroups
    }

    /** The supported groups, each once, in table order. */
    function GetEncodingGroups(): (groups: seq<string>)
      reads this
      requires Valid()
      ensures groups == [GROUP_LATIN, GROUP_CYRILLIC, GROUP_KOI8]
      ensures forall g :: g in groups <==> g in encodingGroups
    {
      GROUP_ORDER
    }

    /** The member encodings of a supported group, each of which the catalog
      files under that group; nothing for an unknown group. */
    function GetEncodingsByGroup(encGroup: string): (encodings: seq<string>)
      reads this
      requires Valid()
      ensures encGroup !in encodingGroups ==> encodings == []
      ensures encGroup in encodingGroups ==> encodings == INITIAL_GROUPS[encGroup].encodings
      ensures forall e :: e in encodings ==> e in encodingList && encodingList[e] == encGroup
    {
      if !IsGroupSupported(encGroup) then []
      else
        ValidConfigFacts(State(), encGroup);
        encodingGroups[encGroup].encodings
    }

    /** `convertString`: the by-reference hint comes in as `decodeWith` and goes
      back out as `decodeWithOut`. */
    method ConvertString(s: Bytes, encodingTo: string, decodeWith: Hint, encGroup: string,
                         matcher: Matcher, transcode: Transcoder)
      returns (r: Result<Bytes>, decodeWithOut: Hint)
      ensures Converted(r, decodeWithOut)
           == Conversion.ConvertString(Request(State(), encodingTo, encGroup, matcher, transcode), s, decodeWith)
    {
      decodeWithOut := decodeWith;
      if s == [] {
        return Ok(s), decodeWithOut;
      }
      if encodingTo !in encodingList {
        return Err(UnsupportedTarget), decodeWithOut;
      }
      var group := encGroup;
      if group == GROUP_DEFAULT {
        group := encodingGroupDefault;
      }
      if group !in encodingGroups {
        return Err(UnknownGroup), decodeWithOut;
      }
      if Falsy(decodeWithOut) {
        var detected := Detect(State(), s, group, true, matcher);
        if detected.Err? {
          return Err(detected.error), decodeWithOut;
        }
        decodeWithOut := Some(detected.value);
      }
      if decodeWithOut.value !in encodingList {
        return Err(UnsupportedSourceHint), decodeWithOut;
      }
      r := Ok(transcode(s, decodeWithOut.value, encodingTo));
    }

    /** One iteration of the loop of `convertArray`: convert the key (when
      asked), then the value, recursing into a nested array with key
      conversion on; scalars other than strings are skipped. */
    method ConvertEntry(e: Entry, encodingTo: string, decodeWith: Hint, encGroup: string,
                        convertKeys: bool, matcher: Matcher, transcode: Transcoder)
      returns (v: Visit)
      ensures v == VisitEntry(Request(State(), encodingTo, encGroup, matcher, transcode), e, decodeWith, convertKeys)
      decreases e.value, 1
    {
      var k := e.key;
      var hint := decodeWith;
      if convertKeys {
        var converted;
        converted, hint := ConvertString(k, encodingTo, hint, encGroup, matcher, transcode);
        if converted.Err? {
          return Visit(Err(converted.error), hint);
        }
        k := converted.value;
      }
      match e.value {
        case Arr(children) =>
          var sub;
          sub, hint := ConvertArray(children, encodingTo, hint, encGroup, true, matcher, transcode);
          if sub.Err? {
            return Visit(Err(sub.error), hint);
          }
          v := Visit(Ok(Some(Entry(k, Arr(sub.value)))), hint);
        case Str(b) =>
          var converted;
          converted, hint := ConvertString(b, encodingTo, hint, encGroup, matcher, transcode);
          if converted.Err? {
            return Visit(Err(converted.error), hint);
          }
          v := Visit(Ok(Some(Entry(k, Str(converted.value)))), hint);
        case Other(_) =>
          v := Visit(Ok(None), hint);
      }
    }

    /** `convertArray`: a loop over the entries of the original array that
      writes converted values into a working copy under converted keys,
      threading the hint through every key, value and nested call. */
    method ConvertArray(arr: seq<Entry>, encodingTo: string, decodeWith: Hint, encGroup: string,
                        convertKeys: bool, matcher: Matcher, transcode: Transcoder)
      returns (r: Result<seq<Entry>>, decodeWithOut: Hint)
      ensures Converted(r, decodeWithOut)
           == Conversion.ConvertArray(Request(State(), encodingTo, encGroup, matcher, transcode), arr, decodeWith, convertKeys)
      decreases Arr(arr), 0
    {
      ghost var rq := Request(State(), encodingTo, encGroup, matcher, transcode);
      var result := arr;
      decodeWithOut := decodeWith;
      var i := 0;
      while i < |arr|
        invariant 0 <= i <= |arr|
        invariant Walk(rq, arr, i, decodeWith, convertKeys) == Converted(Ok(result), decodeWithOut)
      {
        assert arr[i] in arr;
        var v := ConvertEntry(arr[i], encodingTo, decodeWithOut, encGroup, convertKeys, matcher, transcode);
        decodeWithOut := v.hint;
        if v.outcome.Err? {
          WalkStopsAtError(rq, arr, i + 1, |arr|, decodeWith, convertKeys);
          return Err(v.outcome.error), decodeWithOut;
        }
        if v.outcome.value.Some? {
          result := Put(result, v.outcome.value.value.key, v.outcome.value.value.value);
        }
        i := i + 1;
      }
      r := Ok(result);
    }
  }
}
