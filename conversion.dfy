/** `convertString` and `convertArray` as functions of the configuration.

    The source-encoding hint is passed by reference in the source: a call may
    write the detected encoding back to the caller. Here every conversion
    returns the hint as the caller holds it afterwards, next to its outcome. */
module Conversion {
  import opened Outcomes
  import opened Utf8
  import opened Registry
  import opened Detection

  /** The caller's source-encoding hint; None is PHP null. */
  type Hint = Option<string>

  /** `!$decodeWith`: null, the empty string and "0" are falsy. No encoding
      name of the catalog is, so a detected hint once written back stops any
      further detection. */
  predicate Falsy(h: Hint)
    ensures h.Some? && h.value in ENCODING_LIST ==> !Falsy(h)
    ensures Falsy(h) ==> h.None? || |h.value| <= 1
  {
    h.None? || h.value == "" || h.value == "0"
  }

  /** Stands for `mb_convert_encoding`: bytes, source encoding, target encoding. */
  type Transcoder = (Bytes, string, string) -> Bytes

  /** What stays the same across one conversion call and all the calls it makes. */
  datatype Request = Request(
    config: Config,
    encodingTo: string,
    encGroup: string,
    matcher: Matcher,
    transcode: Transcoder)

  /** The outcome of a conversion and the hint as the caller holds it afterwards. */
  datatype Converted<T> = Converted(outcome: Result<T>, hint: Hint)

  /** A hint that every further conversion of the request uses unchanged and
      that none of them can fail with. */
  ghost predicate Settled(rq: Request, h: Hint) {
    && !Falsy(h)
    && h.value in ENCODING_LIST
    && rq.encodingTo in ENCODING_LIST
    && ResolveGroup(rq.config, rq.encGroup) in rq.config.groups
  }

  /** `convertString(s, encodingTo, &decodeWith, encGroup)`. */
  function ConvertString(rq: Request, s: Bytes, hint: Hint): (r: Converted<Bytes>)
    ensures s == [] ==> r == Converted(Ok(s), hint)
    ensures !Falsy(hint) ==> r.hint == hint
    ensures r.outcome.Ok? && s != [] ==>
              && rq.encodingTo in ENCODING_LIST
              && r.hint.Some? && r.hint.value in ENCODING_LIST
              && r.outcome.value == rq.transcode(s, r.hint.value, rq.encodingTo)
    ensures ValidConfig(rq.config) && r.outcome.Err? ==> r.hint == hint
    ensures ValidConfig(rq.config) && r.hint != hint ==> Settled(rq, r.hint)
    ensures Settled(rq, hint) ==> r.outcome.Ok?
  {
    if s == [] then Converted(Ok(s), hint)
    else if rq.encodingTo !in ENCODING_LIST then Converted(Err(UnsupportedTarget), hint)
    else
      var g := ResolveGroup(rq.config, rq.encGroup);
      if g !in rq.config.groups then Converted(Err(UnknownGroup), hint)
      else
        var detected := if Falsy(hint) then Detect(rq.config, s, g, true, rq.matcher) else Ok(hint.value);
        if detected.Err? then Converted(Err(detected.error), hint)
        else
          var decodeWith := if Falsy(hint) then Some(detected.value) else hint;
          if decodeWith.value !in ENCODING_LIST then Converted(Err(UnsupportedSourceHint), decodeWith)
          else Converted(Ok(rq.transcode(s, decodeWith.value, rq.encodingTo)), decodeWith)
  }

  /** The checks run in a fixed order: an empty input passes before any check,
      an unknown target fails with 5001 whatever the group, and only then an
      unknown group fails with 6001. */
  lemma CheckOrder(rq: Request, s: Bytes, hint: Hint)
    ensures s == [] ==> ConvertString(rq, s, hint) == Converted(Ok([]), hint)
    ensures s != [] && rq.encodingTo !in ENCODING_LIST ==>
              ConvertString(rq, s, hint) == Converted(Err(UnsupportedTarget), hint) && UnsupportedTarget.Code() == 5001
    ensures s != [] && rq.encodingTo in ENCODING_LIST && ResolveGroup(rq.config, rq.encGroup) !in rq.config.groups ==>
              ConvertString(rq, s, hint) == Converted(Err(UnknownGroup), hint) && UnknownGroup.Code() == 6001
  {
  }

  /** A falsy hint is replaced by the encoding detected for the resolved group
      with the malformed check on, and that encoding is written back; when
      detection fails its error is the outcome and the hint is left alone. */
  lemma DetectedHintWrittenBack(rq: Request, s: Bytes, hint: Hint)
    requires ValidConfig(rq.config) && Falsy(hint) && s != []
    requires rq.encodingTo in ENCODING_LIST && ResolveGroup(rq.config, rq.encGroup) in rq.config.groups
    ensures var d := Detect(rq.config, s, ResolveGroup(rq.config, rq.encGroup), true, rq.matcher);
            && (d.Ok? ==> ConvertString(rq, s, hint) == Converted(Ok(rq.transcode(s, d.value, rq.encodingTo)), Some(d.value)))
            && (d.Err? ==> ConvertString(rq, s, hint) == Converted(Err(d.error), hint))
  {
  }

  /** A truthy hint is used as it is: no detection takes place, so the matcher
      does not matter, and a hint outside the catalog fails with 6002. */
  lemma GivenHintUsedAsIs(rq: Request, s: Bytes, hint: Hint, other: Matcher)
    requires !Falsy(hint) && s != []
    requires rq.encodingTo in ENCODING_LIST && ResolveGroup(rq.config, rq.encGroup) in rq.config.groups
    ensures hint.value !in ENCODING_LIST ==>
              ConvertString(rq, s, hint) == Converted(Err(UnsupportedSourceHint), hint) && UnsupportedSourceHint.Code() == 6002
    ensures hint.value in ENCODING_LIST ==>
              ConvertString(rq, s, hint) == Converted(Ok(rq.transcode(s, hint.value, rq.encodingTo)), hint)
    ensures ConvertString(rq.(matcher := other), s, hint) == ConvertString(rq, s, hint)
  {
  }

  /** Test suite: "äöüß" in UTF-8 converted to Windows-1252 with the hint
      UTF-8 is what the transcoder makes of it, 0xE4 0xF6 0xFC 0xDF. */
  lemma ConvertUmlautsScenario(rq: Request)
    requires ValidConfig(rq.config) && rq.encodingTo == WINDOWS_1252 && rq.encGroup == GROUP_DEFAULT
    requires rq.transcode([0xC3, 0xA4, 0xC3, 0xB6, 0xC3, 0xBC, 0xC3, 0x9F], UTF_8, WINDOWS_1252) == [0xE4, 0xF6, 0xFC, 0xDF]
    ensures ConvertString(rq, [0xC3, 0xA4, 0xC3, 0xB6, 0xC3, 0xBC, 0xC3, 0x9F], Some(UTF_8))
         == Converted(Ok([0xE4, 0xF6, 0xFC, 0xDF]), Some(UTF_8))
  {
  }

  // ---------------------------------------------------------------------
  // Nested arrays

  /** A value held in a PHP array: a nested array, a byte string, or any other
      scalar (integer, float, boolean, null), which the walk leaves alone. */
  datatype Node = Arr(entries: seq<Entry>) | Str(bytes: Bytes) | Other(scalar: int)

  /** One key-value pair of an ordered PHP array. */
  datatype Entry = Entry(key: Bytes, value: Node)

  function Keys(arr: seq<Entry>): set<Bytes> {
    set i | 0 <= i < |arr| :: arr[i].key
  }

  lemma KeysCons(e: Entry, rest: seq<Entry>)
    ensures Keys([e] + rest) == {e.key} + Keys(rest)
  {
    var arr := [e] + rest;
    forall k | k in Keys(rest) ensures k in Keys(arr) {
      var i :| 0 <= i < |rest| && rest[i].key == k;
      assert arr[i + 1].key == k;
    }
    assert arr[0].key == e.key;
  }

  /** A PHP array holds each key once. */
  predicate DistinctKeys(arr: seq<Entry>) {
    forall i, j :: 0 <= i < j < |arr| ==> arr[i].key != arr[j].key
  }

  /** `$arr[$k]`: the value under the key (its first occurrence, which in an
      array with distinct keys is its only one). */
  function Lookup(arr: seq<Entry>, k: Bytes): (r: Option<Node>)
    ensures r.Some? <==> k in Keys(arr)
  {
    if arr == [] then None
    else if arr[0].key == k then Some(arr[0].value)
    else
      KeysCons(arr[0], arr[1..]);
      assert arr == [arr[0]] + arr[1..];
      Lookup(arr[1..], k)
  }

  /** `$arr[$k] = $v`: an existing key keeps its position and gets the new
      value, a new key is appended; nothing else changes. */
  function Put(arr: seq<Entry>, k: Bytes, v: Node): (r: seq<Entry>)
    ensures Keys(r) == Keys(arr) + {k}
    ensures Lookup(r, k) == Some(v)
    ensures forall k' :: k' != k ==> Lookup(r, k') == Lookup(arr, k')
    ensures k in Keys(arr) ==> |r| == |arr| && forall i :: 0 <= i < |arr| ==> r[i].key == arr[i].key
    ensures k !in Keys(arr) ==> r == arr + [Entry(k, v)]
    ensures DistinctKeys(arr) ==> DistinctKeys(r)
  {
    if arr == [] then
      KeysCons(Entry(k, v), []);
      [Entry(k, v)]
    else if arr[0].key == k then
      KeysCons(arr[0], arr[1..]);
      KeysCons(Entry(k, v), arr[1..]);
      assert arr == [arr[0]] + arr[1..];
      [Entry(k, v)] + arr[1..]
    else
      var rest := Put(arr[1..], k, v);
      KeysCons(arr[0], arr[1..]);
      KeysCons(arr[0], rest);
      assert arr == [arr[0]] + arr[1..];
      assert k !in Keys(arr) ==> [arr[0]] + rest == arr + [Entry(k, v)];
      [arr[0]] + rest
  }

  /** The entry count of an array node plus one, and zero for any other node:
      it exceeds every step count of the walk over the node's entries, so the
      visit of a node orders before that walk. */
  function Width(v: Node): nat {
    if v.Arr? then |v.entries| + 1 else 0
  }

  /** What visiting one entry of the array yields: the entry it writes, if any. */
  datatype Visit = Visit(outcome: Result<Option<Entry>>, hint: Hint)

  /** One iteration of the loop of `convertArray` over entry `e`: the key is
      converted when `convertKeys` holds; an array value is walked with keys
      converted, a string value is converted, and either is written under the
      (converted) key; any other value writes nothing. */
  function VisitEntry(rq: Request, e: Entry, hint: Hint, convertKeys: bool): (v: Visit)
    ensures !Falsy(hint) ==> v.hint == hint
    ensures ValidConfig(rq.config) && v.outcome.Err? ==> v.hint == hint
    ensures ValidConfig(rq.config) && v.hint != hint ==> Settled(rq, v.hint)
    ensures Settled(rq, hint) ==> v.outcome.Ok?
    ensures v.outcome.Ok? ==> (v.outcome.value.None? <==> e.value.Other?)
    decreases e.value, Width(e.value)
  {
    var key := if convertKeys then ConvertString(rq, e.key, hint) else Converted(Ok(e.key), hint);
    if key.outcome.Err? then Visit(Err(key.outcome.error), key.hint)
    else
      match e.value
      case Arr(children) =>
        var sub := Walk(rq, children, |children|, key.hint, true);
        if sub.outcome.Err? then Visit(Err(sub.outcome.error), sub.hint)
        else Visit(Ok(Some(Entry(key.outcome.value, Arr(sub.outcome.value)))), sub.hint)
      case Str(b) =>
        var value := ConvertString(rq, b, key.hint);
        if value.outcome.Err? then Visit(Err(value.outcome.error), value.hint)
        else Visit(Ok(Some(Entry(key.outcome.value, Str(value.outcome.value)))), value.hint)
      case Other(_) => Visit(Ok(None), key.hint)
  }

  /** The first `n` iterations of the loop of `convertArray` over `orig`,
      starting from `orig` itself and the caller's hint. */
  function Walk(rq: Request, orig: seq<Entry>, n: nat, hint: Hint, convertKeys: bool): (w: Converted<seq<Entry>>)
    requires n <= |orig|
    ensures !Falsy(hint) ==> w.hint == hint
    ensures ValidConfig(rq.config) && w.outcome.Err? ==> w.hint == hint
    ensures ValidConfig(rq.config) && w.hint != hint ==> Settled(rq, w.hint)
    ensures Settled(rq, hint) ==> w.outcome.Ok?
    ensures w.outcome.Ok? ==> Keys(orig) <= Keys(w.outcome.value)
    decreases Arr(orig), n
  {
    if n == 0 then Converted(Ok(orig), hint)
    else
      var w := Walk(rq, orig, n - 1, hint, convertKeys);
      if w.outcome.Err? then w
      else
        assert orig[n - 1] in orig;
        var v := VisitEntry(rq, orig[n - 1], w.hint, convertKeys);
        if v.outcome.Err? then Converted(Err(v.outcome.error), v.hint)
        else if v.outcome.value.None? then Converted(w.outcome, v.hint)
        else
          var put := v.outcome.value.value;
          Converted(Ok(Put(w.outcome.value, put.key, put.value)), v.hint)
  }

  /** `convertArray(orig, encodingTo, &decodeWith, encGroup, convertKeys)`. */
  function ConvertArray(rq: Request, orig: seq<Entry>, hint: Hint, convertKeys: bool): (w: Converted<seq<Entry>>)
    ensures !Falsy(hint) ==> w.hint == hint
    ensures ValidConfig(rq.config) && w.outcome.Err? ==> w.hint == hint
    ensures ValidConfig(rq.config) && w.hint != hint ==> Settled(rq, w.hint)
    ensures Settled(rq, hint) ==> w.outcome.Ok?
    ensures w.outcome.Ok? ==> Keys(orig) <= Keys(w.outcome.value)
    ensures w.outcome.Ok? && DistinctKeys(orig) ==> DistinctKeys(w.outcome.value)
  {
    var w := Walk(rq, orig, |orig|, hint, convertKeys);
    if w.outcome.Ok? && DistinctKeys(orig) then
      WalkKeepsDistinct(rq, orig, |orig|, hint, convertKeys);
      w
    else w
  }

  /** The entry that iteration `i` of the walk over `orig` writes, if the walk
      gets that far and the iteration writes one. */
  function WrittenAt(rq: Request, orig: seq<Entry>, i: nat, hint: Hint, convertKeys: bool): Option<Entry>
    requires i < |orig|
  {
    var w := Walk(rq, orig, i, hint, convertKeys);
    if w.outcome.Err? then None
    else
      var v := VisitEntry(rq, orig[i], w.hint, convertKeys);
      if v.outcome.Err? then None else v.outcome.value
  }

  predicate WritesKey(rq: Request, orig: seq<Entry>, i: nat, hint: Hint, convertKeys: bool, k: Bytes)
    requires i < |orig|
  {
    var written := WrittenAt(rq, orig, i, hint, convertKeys);
    written.Some? && written.value.key == k
  }

  /** A successful walk over an array with distinct keys yields one with
      distinct keys: colliding converted keys overwrite, never duplicate. */
  lemma {:induction false} WalkKeepsDistinct(rq: Request, orig: seq<Entry>, n: nat, hint: Hint, convertKeys: bool)
    requires n <= |orig| && DistinctKeys(orig)
    requires Walk(rq, orig, n, hint, convertKeys).outcome.Ok?
    ensures DistinctKeys(Walk(rq, orig, n, hint, convertKeys).outcome.value)
  {
    if n > 0 {
      PrefixOk(rq, orig, n - 1, n, hint, convertKeys);
      WalkKeepsDistinct(rq, orig, n - 1, hint, convertKeys);
    }
  }

  /** A walk that succeeds got through every shorter prefix too. */
  lemma {:induction false} PrefixOk(rq: Request, orig: seq<Entry>, i: nat, n: nat, hint: Hint, convertKeys: bool)
    requires i <= n <= |orig|
    requires Walk(rq, orig, n, hint, convertKeys).outcome.Ok?
    ensures Walk(rq, orig, i, hint, convertKeys).outcome.Ok?
    decreases n - i
  {
    if i < n {
      PrefixOk(rq, orig, i + 1, n, hint, convertKeys);
    }
  }

  /** The first failing iteration ends the walk: nothing after it runs. */
  lemma {:induction false} WalkStopsAtError(rq: Request, orig: seq<Entry>, n: nat, m: nat, hint: Hint, convertKeys: bool)
    requires n <= m <= |orig|
    requires Walk(rq, orig, n, hint, convertKeys).outcome.Err?
    ensures Walk(rq, orig, m, hint, convertKeys) == Walk(rq, orig, n, hint, convertKeys)
  {
    if n < m {
      WalkStopsAtError(rq, orig, n, m - 1, hint, convertKeys);
    }
  }

  /** A successful step of the walk applies what its iteration writes to the
      result of the previous step. */
  lemma WalkStep(rq: Request, orig: seq<Entry>, n: nat, hint: Hint, convertKeys: bool)
    requires 0 < n <= |orig|
    requires Walk(rq, orig, n, hint, convertKeys).outcome.Ok?
    ensures Walk(rq, orig, n - 1, hint, convertKeys).outcome.Ok?
    ensures var prev := Walk(rq, orig, n - 1, hint, convertKeys).outcome.value;
            var written := WrittenAt(rq, orig, n - 1, hint, convertKeys);
            Walk(rq, orig, n, hint, convertKeys).outcome.value
              == if written.Some? then Put(prev, written.value.key, written.value.value) else prev
  {
  }

  /** Colliding keys are last-write-wins: after a successful walk, a key holds
      the value of the last iteration that wrote it. */
  lemma {:induction false} LastWriteWins(rq: Request, orig: seq<Entry>, n: nat, hint: Hint, convertKeys: bool, i: nat, k: Bytes, value: Node)
    requires i < n <= |orig|
    requires Walk(rq, orig, n, hint, convertKeys).outcome.Ok?
    requires WrittenAt(rq, orig, i, hint, convertKeys) == Some(Entry(k, value))
    requires forall j :: i < j < n ==> !WritesKey(rq, orig, j, hint, convertKeys, k)
    ensures Lookup(Walk(rq, orig, n, hint, convertKeys).outcome.value, k) == Some(value)
  {
    WalkStep(rq, orig, n, hint, convertKeys);
    if n - 1 > i {
      LastWriteWins(rq, orig, n - 1, hint, convertKeys, i, k, value);
      assert !WritesKey(rq, orig, n - 1, hint, convertKeys, k);
    }
  }

  /** A key that no iteration wrote keeps the value it had in the original
      array (or stays absent): the walk removes no key, and an entry whose
      value is neither a string nor an array is not copied anywhere. */
  lemma {:induction false} UnwrittenKeyUntouched(rq: Request, orig: seq<Entry>, n: nat, hint: Hint, convertKeys: bool, k: Bytes)
    requires n <= |orig|
    requires Walk(rq, orig, n, hint, convertKeys).outcome.Ok?
    requires forall j :: 0 <= j < n ==> !WritesKey(rq, orig, j, hint, convertKeys, k)
    ensures Lookup(Walk(rq, orig, n, hint, convertKeys).outcome.value, k) == Lookup(orig, k)
  {
    if n > 0 {
      PrefixOk(rq, orig, n - 1, n, hint, convertKeys);
      UnwrittenKeyUntouched(rq, orig, n - 1, hint, convertKeys, k);
      assert !WritesKey(rq, orig, n - 1, hint, convertKeys, k);
    }
  }

  /** What one iteration writes: a string or array value goes under the key
      as converted with the hint in force (the key itself when keys are not
      converted); a non-empty string becomes its transcoding with the hint
      the iteration ends with; an array is walked with keys converted, even
      when the outer walk leaves keys alone. */
  lemma VisitWrites(rq: Request, e: Entry, hint: Hint, convertKeys: bool)
    requires VisitEntry(rq, e, hint, convertKeys).outcome.Ok? && !e.value.Other?
    ensures var v := VisitEntry(rq, e, hint, convertKeys);
            var key := if convertKeys then ConvertString(rq, e.key, hint) else Converted(Ok(e.key), hint);
            && key.outcome.Ok?
            && v.outcome.value.Some?
            && v.outcome.value.value.key == key.outcome.value
            && (e.value.Str? && e.value.bytes != [] ==>
                  v.hint.Some? && v.outcome.value.value.value == Str(rq.transcode(e.value.bytes, v.hint.value, rq.encodingTo)))
            && (e.value.Str? && e.value.bytes == [] ==> v.outcome.value.value.value == Str([]))
            && (e.value.Arr? ==>
                  v.outcome.value.value.value == Arr(Walk(rq, e.value.entries, |e.value.entries|, key.hint, true).outcome.value))
  {
  }

  /** Once the hint is truthy it is the hint of every later iteration. */
  lemma {:induction false} HintStaysOnceTruthy(rq: Request, orig: seq<Entry>, n: nat, m: nat, hint: Hint, convertKeys: bool)
    requires n <= m <= |orig|
    requires !Falsy(Walk(rq, orig, n, hint, convertKeys).hint)
    ensures Walk(rq, orig, m, hint, convertKeys).hint == Walk(rq, orig, n, hint, convertKeys).hint
  {
    if n < m {
      HintStaysOnceTruthy(rq, orig, n, m - 1, hint, convertKeys);
    }
  }

  /** With a truthy hint no detection takes place anywhere in the walk, nested
      arrays included, so the matcher makes no difference. */
  lemma {:induction false} WalkIgnoresMatcher(rq: Request, orig: seq<Entry>, n: nat, hint: Hint, convertKeys: bool, other: Matcher)
    requires n <= |orig| && !Falsy(hint)
    ensures Walk(rq.(matcher := other), orig, n, hint, convertKeys) == Walk(rq, orig, n, hint, convertKeys)
    decreases Arr(orig), n
  {
    if n > 0 {
      WalkIgnoresMatcher(rq, orig, n - 1, hint, convertKeys, other);
      var w := Walk(rq, orig, n - 1, hint, convertKeys);
      if w.outcome.Ok? {
        assert orig[n - 1] in orig;
        VisitIgnoresMatcher(rq, orig[n - 1], w.hint, convertKeys, other);
      }
    }
  }

  lemma {:induction false} VisitIgnoresMatcher(rq: Request, e: Entry, hint: Hint, convertKeys: bool, other: Matcher)
    requires !Falsy(hint)
    ensures VisitEntry(rq.(matcher := other), e, hint, convertKeys) == VisitEntry(rq, e, hint, convertKeys)
    decreases e.value, Width(e.value)
  {
    var rq' := rq.(matcher := other);
    assert ConvertString(rq', e.key, hint) == ConvertString(rq, e.key, hint);
    if e.value.Arr? {
      WalkIgnoresMatcher(rq, e.value.entries, |e.value.entries|, hint, true, other);
    } else if e.value.Str? {
      assert ConvertString(rq', e.value.bytes, hint) == ConvertString(rq, e.value.bytes, hint);
    }
  }

  /** With the hint UTF-8, a request to Windows-1252 with the `_default_` group converts
      every non-empty string by transcoding it from UTF-8. */
  lemma ConvertFromUtf8(rq: Request, s: Bytes)
    requires ValidConfig(rq.config) && rq.encodingTo == WINDOWS_1252 && rq.encGroup == GROUP_DEFAULT
    requires s != []
    ensures ConvertString(rq, s, Some(UTF_8)) == Converted(Ok(rq.transcode(s, UTF_8, WINDOWS_1252)), Some(UTF_8))
  {
    GivenHintUsedAsIs(rq, s, Some(UTF_8), rq.matcher);
  }

  /** Test suite: {"äö": "üß", "ab": "ac"} in UTF-8 converted to Windows-1252
      with the hint UTF-8 holds 0xE4 0xF6 => 0xFC 0xDF and "ab" => "ac"; the
      original UTF-8 key "äö" stays in place with its unconverted value. */
  lemma ConvertArrayScenario(rq: Request)
    requires ValidConfig(rq.config) && rq.encodingTo == WINDOWS_1252 && rq.encGroup == GROUP_DEFAULT
    requires rq.transcode([0xC3, 0xA4, 0xC3, 0xB6], UTF_8, WINDOWS_1252) == [0xE4, 0xF6]
    requires rq.transcode([0xC3, 0xBC, 0xC3, 0x9F], UTF_8, WINDOWS_1252) == [0xFC, 0xDF]
    requires rq.transcode([0x61, 0x62], UTF_8, WINDOWS_1252) == [0x61, 0x62]
    requires rq.transcode([0x61, 0x63], UTF_8, WINDOWS_1252) == [0x61, 0x63]
    ensures var orig := [Entry([0xC3, 0xA4, 0xC3, 0xB6], Str([0xC3, 0xBC, 0xC3, 0x9F])), Entry([0x61, 0x62], Str([0x61, 0x63]))];
            var w := ConvertArray(rq, orig, Some(UTF_8), true);
            && w.hint == Some(UTF_8)
            && w.outcome == Ok(orig + [Entry([0xE4, 0xF6], Str([0xFC, 0xDF]))])
            && Lookup(w.outcome.value, [0xE4, 0xF6]) == Some(Str([0xFC, 0xDF]))
            && Lookup(w.outcome.value, [0x61, 0x62]) == Some(Str([0x61, 0x63]))
  {
    var orig := [Entry([0xC3, 0xA4, 0xC3, 0xB6], Str([0xC3, 0xBC, 0xC3, 0x9F])), Entry([0x61, 0x62], Str([0x61, 0x63]))];
    var hint := Some(UTF_8);
    var converted := Entry([0xE4, 0xF6], Str([0xFC, 0xDF]));
    ConvertFromUtf8(rq, orig[0].key);
    ConvertFromUtf8(rq, orig[0].value.bytes);
    assert VisitEntry(rq, orig[0], hint, true) == Visit(Ok(Some(converted)), hint);
    ConvertFromUtf8(rq, orig[1].key);
    ConvertFromUtf8(rq, orig[1].value.bytes);
    assert VisitEntry(rq, orig[1], hint, true) == Visit(Ok(Some(orig[1])), hint);
    assert Walk(rq, orig, 0, hint, true) == Converted(Ok(orig), hint);
    assert converted.key != orig[0].key && converted.key != orig[1].key;
    assert converted.key !in Keys(orig);
    var arr1 := orig + [converted];
    assert Walk(rq, orig, 1, hint, true) == Converted(Ok(arr1), hint);
    assert arr1[1] == orig[1] && 1 < |arr1|;
    assert Put(arr1, orig[1].key, orig[1].value) == arr1 by {
      assert arr1 == [arr1[0]] + arr1[1..];
      assert arr1[1..] == [arr1[1]] + arr1[2..];
    }
  }
}
