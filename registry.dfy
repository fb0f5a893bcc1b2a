/** The encoder's configuration: the encoding catalog, the group table and the
    instance default group.

    The group table is the only mutable configuration; its one mutation
    (`setDefaultEncoding`) replaces the default encoding of one group. */
module Registry {
  import opened Outcomes

  const ASCII := "ASCII"
  const UTF_8 := "UTF-8"
  const ISO_8859_1 := "ISO-8859-1"
  const ISO_8859_15 := "ISO-8859-15"
  const ISO_8859_5 := "ISO-8859-5"
  const WINDOWS_1251 := "Windows-1251"
  const WINDOWS_1252 := "Windows-1252"
  const KOI8_R := "KOI8-R"
  const KOI8_U := "KOI8-U"

  /** The marker that stands for the instance default group. */
  const GROUP_DEFAULT := "_default_"
  const GROUP_GLOBAL := "GLOBAL"
  const GROUP_LATIN := "LATIN"
  const GROUP_CYRILLIC := "CYRILLIC"
  const GROUP_KOI8 := "KOI8"

  /** One record of the group table. */
  datatype Group = Group(
    defaultEncoding: string,
    detectOrder: seq<string>,
    detectOrderModified: bool,
    encodings: seq<string>)

  /** The group table as the encoder is created with it. */
  const INITIAL_GROUPS: map<string, Group> := map[
    GROUP_LATIN := Group(WINDOWS_1252, [ASCII, UTF_8, ISO_8859_1], false, [ISO_8859_1, ISO_8859_15, WINDOWS_1252]),
    GROUP_CYRILLIC := Group(ISO_8859_5, [ASCII, ISO_8859_5, KOI8_R, KOI8_U], false, [ISO_8859_5]),
    GROUP_KOI8 := Group(KOI8_R, [ASCII, UTF_8, KOI8_R, KOI8_U], false, [KOI8_R, KOI8_U])
  ]

  /** The keys of the group table in the order the table declares them. */
  const GROUP_ORDER: seq<string> := [GROUP_LATIN, GROUP_CYRILLIC, GROUP_KOI8]

  /** The catalog: every supported encoding and the group it belongs to. */
  const ENCODING_LIST: map<string, string> := map[
    UTF_8 := GROUP_GLOBAL,
    ASCII := GROUP_GLOBAL,
    ISO_8859_1 := GROUP_LATIN,
    ISO_8859_15 := GROUP_LATIN,
    WINDOWS_1252 := GROUP_LATIN,
    ISO_8859_5 := GROUP_CYRILLIC,
    WINDOWS_1251 := GROUP_CYRILLIC,
    KOI8_R := GROUP_KOI8,
    KOI8_U := GROUP_KOI8
  ]

  /** The state an encoder instance reads: its group table and its default group. */
  datatype Config = Config(groups: map<string, Group>, defaultGroup: string)

  /** The invariant of every encoder instance: the group table has the
      built-in groups, each as built in except for a default encoding that is
      a catalog key, and the default group is one of them. */
  ghost predicate ValidConfig(c: Config)
    ensures ValidConfig(c) ==> c.groups.Keys == {GROUP_LATIN, GROUP_CYRILLIC, GROUP_KOI8}
    ensures ValidConfig(c) ==> GROUP_DEFAULT !in c.groups && GROUP_GLOBAL !in c.groups
  {
    && c.groups.Keys == INITIAL_GROUPS.Keys
    && c.defaultGroup in c.groups
    && forall g :: g in c.groups ==>
         && c.groups[g].defaultEncoding in ENCODING_LIST
         && c.groups[g] == INITIAL_GROUPS[g].(defaultEncoding := c.groups[g].defaultEncoding)
  }

  /** `_default_` stands for the instance default group; any other name
      stands for itself. In a valid instance the marker therefore always
      resolves to a group of the table. */
  function ResolveGroup(c: Config, encGroup: string): (g: string)
    ensures encGroup != GROUP_DEFAULT ==> g == encGroup
    ensures encGroup == GROUP_DEFAULT ==> g == c.defaultGroup
    ensures ValidConfig(c) ==> (g in c.groups <==> encGroup == GROUP_DEFAULT || encGroup in c.groups)
  {
    if encGroup == GROUP_DEFAULT then c.defaultGroup else encGroup
  }

  /** The configuration of a fresh encoder, or 1001 when the requested
      default group is not in the group table. */
  function Initial(encGroupDefault: string): (r: Result<Config>)
    ensures r.Ok? <==> encGroupDefault in {GROUP_LATIN, GROUP_CYRILLIC, GROUP_KOI8}
    ensures r.Err? ==> r.error.Code() == 1001
    ensures r.Ok? ==> ValidConfig(r.value) && r.value.defaultGroup == encGroupDefault
  {
    if encGroupDefault !in INITIAL_GROUPS then Err(UnknownDefaultGroup)
    else
      InitialGroupsValid(encGroupDefault);
      Ok(Config(INITIAL_GROUPS, encGroupDefault))
  }

  /** The built-in tables satisfy the instance invariant. */
  lemma InitialGroupsValid(g: string)
    requires g in INITIAL_GROUPS
    ensures ValidConfig(Config(INITIAL_GROUPS, g))
  {
  }

  /** `setDefaultEncoding` on the configuration: accepted exactly when the
      group is in the table and the encoding is any catalog key; on acceptance
      only that group's default encoding changes, otherwise nothing does. */
  function SetDefault(c: Config, encGroup: string, encoding: string): (r: (bool, Config))
    ensures r.0 <==> encGroup in c.groups && encoding in ENCODING_LIST
    ensures r.1.defaultGroup == c.defaultGroup && r.1.groups.Keys == c.groups.Keys
    ensures forall g :: g in c.groups && g != encGroup ==> r.1.groups[g] == c.groups[g]
    ensures r.0 ==> r.1.groups[encGroup].defaultEncoding == encoding
    ensures encGroup in c.groups ==>
              r.1.groups[encGroup] == c.groups[encGroup].(defaultEncoding := r.1.groups[encGroup].defaultEncoding)
    ensures !r.0 ==> r.1 == c
  {
    if encGroup !in c.groups then (false, c)
    else if encoding !in ENCODING_LIST then (false, c)
    else (true, c.(groups := c.groups[encGroup := c.groups[encGroup].(defaultEncoding := encoding)]))
  }

  /** `setDefaultEncoding` keeps the instance invariant. */
  lemma SetDefaultKeepsValid(c: Config, encGroup: string, encoding: string)
    requires ValidConfig(c)
    ensures ValidConfig(SetDefault(c, encGroup, encoding).1)
  {
  }

  /** The default encoding of a group is not checked against the group's own
      encodings: a Cyrillic encoding, or UTF-8, is accepted for LATIN. */
  lemma SetDefaultAcceptsAnyCatalogEncoding(c: Config)
    requires ValidConfig(c)
    ensures SetDefault(c, GROUP_LATIN, WINDOWS_1251).0
    ensures SetDefault(c, GROUP_LATIN, UTF_8).0
    ensures WINDOWS_1251 !in INITIAL_GROUPS[GROUP_LATIN].encodings
  {
  }

  /** What the invariant gives every consumer of the configuration: default
      encodings and detect-order candidates are catalog keys, and the
      detect order of a group is never marked as modified. */
  lemma ValidConfigFacts(c: Config, g: string)
    requires ValidConfig(c) && g in c.groups
    ensures c.groups[g].defaultEncoding in ENCODING_LIST
    ensures forall e :: e in c.groups[g].detectOrder ==> e in ENCODING_LIST
    ensures !c.groups[g].detectOrderModified
    ensures c.groups[g].detectOrder == INITIAL_GROUPS[g].detectOrder
    ensures c.groups[g].encodings == INITIAL_GROUPS[g].encodings
  {
  }
}
