/** `detectEncoding`: resolve the group, ask the candidate matcher, then
    override a doubtful UTF-8 answer and disambiguate an ISO-8859-1 answer by
    the bytes in the input. */
module Detection {
  import opened Outcomes
  import opened Utf8
  import opened Registry

  /** A matcher answers for a byte string and an ordered list of candidate
      encodings: it fails, or it names one of the candidates. It stands for
      the strict-mode `mb_detect_encoding` of the PHP runtime, whose choice
      among the candidates is left open. */
  ghost predicate AnswersFromCandidates(m: (Bytes, seq<string>) -> Option<string>) {
    forall s, order :: m(s, order).Some? ==> m(s, order).value in order
  }

  type Matcher = m: (Bytes, seq<string>) -> Option<string> | AnswersFromCandidates(m)
    witness NeverMatches

  function NeverMatches(s: Bytes, order: seq<string>): Option<string> {
    None
  }

  /** Some byte of `s` lies in `lo..hi`: the byte-class match of PCRE. A
      one-byte class is plain membership, and an empty class never matches. */
  predicate HasByteIn(s: Bytes, lo: Byte, hi: Byte)
    ensures lo == hi ==> (HasByteIn(s, lo, hi) <==> lo in s)
    ensures hi < lo ==> !HasByteIn(s, lo, hi)
  {
    exists i :: 0 <= i < |s| && lo <= s[i] <= hi
  }

  /** `detectEncoding(s, encGroup, malFormCheck)` against configuration `c`. */
  function Detect(c: Config, s: Bytes, encGroup: string, malFormCheck: bool, matcher: Matcher): (r: Result<string>)
    ensures ResolveGroup(c, encGroup) !in c.groups ==> r == Err(UnknownGroup)
    ensures ResolveGroup(c, encGroup) in c.groups ==>
              var group := c.groups[ResolveGroup(c, encGroup)];
              && (r == Err(DetectionFailed) <==> matcher(s, group.detectOrder).None?)
              && (r.Ok? ==> || r.value in group.detectOrder
                            || r.value == group.defaultEncoding
                            || r.value == WINDOWS_1252
                            || r.value == ISO_8859_15)
    ensures ValidConfig(c) && r.Ok? ==> r.value in ENCODING_LIST
  {
    var g := ResolveGroup(c, encGroup);
    if g !in c.groups then Err(UnknownGroup)
    else
      var group := c.groups[g];
      match matcher(s, group.detectOrder)
      case None => Err(DetectionFailed)
      case Some(detected) =>
        if detected == UTF_8 then
          if malFormCheck && !WellFormed(s) then Ok(group.defaultEncoding) else Ok(detected)
        else if detected == ISO_8859_1 && !group.detectOrderModified then
          if HasByteIn(s, 0x7F, 0x9F) then Ok(WINDOWS_1252)
          else if HasByteIn(s, 0xA4, 0xA4) then Ok(ISO_8859_15)
          else Ok(detected)
        else Ok(detected)
  }

  /** `_default_` detects exactly as the instance default group does, and the
      group names outside the table (GLOBAL among them) fail with 6001. */
  lemma GroupResolution(c: Config, s: Bytes, malFormCheck: bool, matcher: Matcher)
    requires ValidConfig(c)
    ensures Detect(c, s, GROUP_DEFAULT, malFormCheck, matcher) == Detect(c, s, c.defaultGroup, malFormCheck, matcher)
    ensures Detect(c, s, GROUP_GLOBAL, malFormCheck, matcher) == Err(UnknownGroup)
    ensures forall g :: g != GROUP_DEFAULT && g !in c.groups ==> Detect(c, s, g, malFormCheck, matcher) == Err(UnknownGroup)
    ensures UnknownGroup.Code() == 6001 && DetectionFailed.Code() == 6002
  {
  }

  /** A UTF-8 answer is replaced by the group default exactly when the
      malformed check is on and the input is not well-formed UTF-8. */
  lemma Utf8Override(c: Config, s: Bytes, g: string, malFormCheck: bool, matcher: Matcher)
    requires g in c.groups && g != GROUP_DEFAULT
    requires matcher(s, c.groups[g].detectOrder) == Some(UTF_8)
    ensures malFormCheck && !WellFormed(s) ==> Detect(c, s, g, malFormCheck, matcher) == Ok(c.groups[g].defaultEncoding)
    ensures WellFormed(s) || !malFormCheck ==> Detect(c, s, g, malFormCheck, matcher) == Ok(UTF_8)
  {
  }

  /** ASCII input that the matcher calls UTF-8 stays UTF-8 whatever the
      malformed check says. */
  lemma AsciiStaysUtf8(c: Config, s: Bytes, g: string, malFormCheck: bool, matcher: Matcher)
    requires g in c.groups && g != GROUP_DEFAULT
    requires matcher(s, c.groups[g].detectOrder) == Some(UTF_8)
    requires forall i :: 0 <= i < |s| ==> s[i] < 0x80
    ensures Detect(c, s, g, malFormCheck, matcher) == Ok(UTF_8)
  {
    AsciiIsWellFormed(s);
  }

  /** Input that the matcher calls UTF-8 but that holds an octet UTF-8 never
      uses falls back to the group default under the malformed check. */
  lemma ForbiddenOctetFallsBack(c: Config, s: Bytes, i: nat, g: string, matcher: Matcher)
    requires g in c.groups && g != GROUP_DEFAULT
    requires matcher(s, c.groups[g].detectOrder) == Some(UTF_8)
    requires i < |s| && Forbidden(s[i])
    ensures Detect(c, s, g, true, matcher) == Ok(c.groups[g].defaultEncoding)
  {
    ForbiddenOctetIsIllFormed(s, i);
  }

  /** An ISO-8859-1 answer is disambiguated in every valid configuration: a
      byte in 0x7F..0x9F means Windows-1252 (whether or not 0xA4 occurs too),
      otherwise a byte 0xA4 means ISO-8859-15, otherwise it stays ISO-8859-1. */
  lemma Latin1Disambiguation(c: Config, s: Bytes, g: string, malFormCheck: bool, matcher: Matcher)
    requires ValidConfig(c) && g in c.groups && g != GROUP_DEFAULT
    requires matcher(s, c.groups[g].detectOrder) == Some(ISO_8859_1)
    ensures HasByteIn(s, 0x7F, 0x9F) ==> Detect(c, s, g, malFormCheck, matcher) == Ok(WINDOWS_1252)
    ensures !HasByteIn(s, 0x7F, 0x9F) && 0xA4 in s ==> Detect(c, s, g, malFormCheck, matcher) == Ok(ISO_8859_15)
    ensures !HasByteIn(s, 0x7F, 0x9F) && 0xA4 !in s ==> Detect(c, s, g, malFormCheck, matcher) == Ok(ISO_8859_1)
  {
    ValidConfigFacts(c, g);
    if 0xA4 in s {
      var i :| 0 <= i < |s| && s[i] == 0xA4;
      assert 0xA4 <= s[i] <= 0xA4;
    }
  }

  /** Any other answer of the matcher is returned as it is. */
  lemma OtherAnswersKept(c: Config, s: Bytes, g: string, malFormCheck: bool, matcher: Matcher, detected: string)
    requires g in c.groups && g != GROUP_DEFAULT
    requires matcher(s, c.groups[g].detectOrder) == Some(detected)
    requires detected != UTF_8 && detected != ISO_8859_1
    ensures Detect(c, s, g, malFormCheck, matcher) == Ok(detected)
  {
  }

  /** The candidate list of LATIN, which every scenario below detects against. */
  const LATIN_ORDER: seq<string> := [ASCII, UTF_8, ISO_8859_1]

  /** Test suite: "öääüß" in UTF-8, detected with the instance default group
      LATIN by a matcher that calls it UTF-8, is UTF-8. */
  lemma DetectUtf8Umlauts(c: Config, matcher: Matcher)
    requires ValidConfig(c) && c.defaultGroup == GROUP_LATIN
    requires matcher([0xC3, 0xB6, 0xC3, 0xA4, 0xC3, 0xA4, 0xC3, 0xBC, 0xC3, 0x9F], LATIN_ORDER) == Some(UTF_8)
    ensures Detect(c, [0xC3, 0xB6, 0xC3, 0xA4, 0xC3, 0xA4, 0xC3, 0xBC, 0xC3, 0x9F], GROUP_DEFAULT, true, matcher) == Ok(UTF_8)
  {
    ValidConfigFacts(c, GROUP_LATIN);
    var text: Bytes := [0xC3, 0xB6, 0xC3, 0xA4, 0xC3, 0xA4, 0xC3, 0xBC, 0xC3, 0x9F];
    TwoOctetChar(0xC3, 0x9F, []);
    TwoOctetChar(0xC3, 0xBC, text[8..]);
    TwoOctetChar(0xC3, 0xA4, text[6..]);
    TwoOctetChar(0xC3, 0xA4, text[4..]);
    TwoOctetChar(0xC3, 0xB6, text[2..]);
  }

  /** Test suite: the same text in Latin-1 bytes, which the matcher calls
      ISO-8859-1, stays ISO-8859-1. */
  lemma DetectLatin1Umlauts(c: Config, matcher: Matcher)
    requires ValidConfig(c)
    requires matcher([0xF6, 0xE4, 0xE4, 0xFC, 0xDF], LATIN_ORDER) == Some(ISO_8859_1)
    ensures Detect(c, [0xF6, 0xE4, 0xE4, 0xFC, 0xDF], GROUP_LATIN, true, matcher) == Ok(ISO_8859_1)
  {
    ValidConfigFacts(c, GROUP_LATIN);
    var text: Bytes := [0xF6, 0xE4, 0xE4, 0xFC, 0xDF];
    assert !HasByteIn(text, 0x7F, 0x9F);
    Latin1Disambiguation(c, text, GROUP_LATIN, true, matcher);
  }

  /** Test suite: the Euro sign in Windows-1252 (0x80), which the matcher
      calls ISO-8859-1, is Windows-1252. */
  lemma DetectEuroWindows1252(c: Config, matcher: Matcher)
    requires ValidConfig(c)
    requires matcher([0x80], LATIN_ORDER) == Some(ISO_8859_1)
    ensures Detect(c, [0x80], GROUP_LATIN, true, matcher) == Ok(WINDOWS_1252)
  {
    ValidConfigFacts(c, GROUP_LATIN);
    var text: Bytes := [0x80];
    assert 0x7F <= text[0] <= 0x9F;
    Latin1Disambiguation(c, text, GROUP_LATIN, true, matcher);
  }

  /** Test suite: the Euro sign in ISO-8859-15 (0xA4), which the matcher
      calls ISO-8859-1, is ISO-8859-15. */
  lemma DetectEuroIso885915(c: Config, matcher: Matcher)
    requires ValidConfig(c)
    requires matcher([0xA4], LATIN_ORDER) == Some(ISO_8859_1)
    ensures Detect(c, [0xA4], GROUP_LATIN, true, matcher) == Ok(ISO_8859_15)
  {
    ValidConfigFacts(c, GROUP_LATIN);
    var text: Bytes := [0xA4];
    assert text[0] == 0xA4;
    Latin1Disambiguation(c, text, GROUP_LATIN, true, matcher);
  }
}
