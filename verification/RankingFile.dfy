/** The shared ranking file: comment lines of metadata, then one expert per line. */
module RankingFile {
  import opened Results
  import opened Text

  datatype Kind = Analyze | MicroAnalyze
  datatype Origin = LocalFullAnalyze | LocalMicroAnalyze | PeerImport | LegacyCache
  datatype Scope = First | All

  datatype Artifact = Artifact(kind: Kind, origin: Origin, ranking: seq<nat>, promptCount: Option<nat>,
                               tokens: Option<nat>, scope: Option<Scope>)

  // Elements and tokens are 32-bit, the prompt count 64-bit.
  predicate Representable(a: Artifact) {
    && (forall i :: 0 <= i < |a.ranking| ==> a.ranking[i] < U32_LIMIT)
    && (a.promptCount.Some? ==> a.promptCount.value < U64_LIMIT)
    && (a.tokens.Some? ==> a.tokens.value < U32_LIMIT)
  }

  function KindLabel(k: Kind): string {
    match k case Analyze => "analyze" case MicroAnalyze => "micro-analyze"
  }

  function OriginLabel(o: Origin): string {
    match o
    case LocalFullAnalyze => "local-full-analyze"
    case LocalMicroAnalyze => "local-micro-analyze"
    case PeerImport => "peer-import"
    case LegacyCache => "legacy-cache"
  }

  function OriginFrom(text: string): Option<Origin> {
    if text == "local-full-analyze" then Some(LocalFullAnalyze)
    else if text == "local-micro-analyze" then Some(LocalMicroAnalyze)
    else if text == "peer-import" then Some(PeerImport)
    else if text == "legacy-cache" then Some(LegacyCache)
    else None
  }

  function ScopeLabel(s: Scope): string {
    match s case First => "first" case All => "all"
  }

  function ScopeFrom(text: string): Option<Scope> {
    if text == "all" then Some(All) else if text == "first" then Some(First) else None
  }

  /* ----- lines ----- */

  // `str::lines`: every LF ends a line, with a CR before it; a last line without LF counts.
  function Lines(text: string): seq<string>
    decreases |text|
  {
    if text == "" then []
    else
      var i := IndexOf(text, '\n');
      if i == |text| then [text]
      else [if i > 0 && text[i - 1] == '\r' then text[..i - 1] else text[..i]] + Lines(text[i + 1..])
  }

  // Every line followed by LF, which is what joining with LF and adding one gives.
  function Unlines(lines: seq<string>): string {
    if lines == [] then "" else lines[0] + "\n" + Unlines(lines[1..])
  }

  predicate IsLine(line: string) {
    '\n' !in line && (line != "" ==> line[|line| - 1] != '\r')
  }

  lemma {:induction false} LinesRoundTrip(lines: seq<string>)
    requires forall i :: 0 <= i < |lines| ==> IsLine(lines[i])
    ensures Lines(Unlines(lines)) == lines
    decreases |lines|
  {
    if lines != [] {
      var rest := Unlines(lines[1..]);
      assert Unlines(lines) == lines[0] + ['\n'] + rest;
      CutAt(lines[0], '\n', rest);
      LinesRoundTrip(lines[1..]);
      assert lines == [lines[0]] + lines[1..];
    }
  }

  /* ----- loading ----- */

  datatype Meta = Meta(origin: Option<Origin>, promptCount: Option<nat>, tokens: Option<nat>, scope: Option<Scope>)

  const NO_META := Meta(None, None, None, None)

  function Stored(meta: Meta, key: string, value: string): Meta {
    if key == "ranking_origin" then meta.(origin := OriginFrom(value))
    else if key == "micro_prompt_count" then meta.(promptCount := ParseUnsigned(value, 10, U64_LIMIT))
    else if key == "micro_tokens" then meta.(tokens := ParseUnsigned(value, 10, U32_LIMIT))
    else if key == "micro_layer_scope" then meta.(scope := ScopeFrom(value))
    else meta
  }

  // A comment line `# key = value`.
  function MetaLine(meta: Meta, line: string): Meta {
    if line == "" || line[0] != '#' then meta
    else
      var rest := Trim(line[1..]);
      var i := IndexOf(rest, '=');
      if i == |rest| then meta else Stored(meta, Trim(rest[..i]), Trim(rest[i + 1..]))
  }

  // The expert a data line names; None for a blank line, a comment, a heading or no number.
  function Expert(line: string): Option<nat> {
    if line == "" || line[0] == '#' || HasPrefix(line, "expert") then None
    else ParseUnsigned(Trim(BeforeFirst(line, ',')), 10, U32_LIMIT)
  }

  datatype Loaded = Loaded(ranking: seq<nat>, meta: Meta)

  function LoadLine(l: Loaded, line: string): Loaded {
    Loaded(l.ranking + if Expert(line).Some? then [Expert(line).value] else [], MetaLine(l.meta, line))
  }

  function LoadLines(l: Loaded, lines: seq<string>): Loaded
    decreases |lines|
  {
    if lines == [] then l else LoadLines(LoadLine(l, lines[0]), lines[1..])
  }

  function Load(text: string, kind: Kind, fallbackOrigin: Origin, promptCount: Option<nat>, tokens: Option<nat>,
                scope: Option<Scope>): Option<Artifact>
  {
    var l := LoadLines(Loaded([], NO_META), Lines(text));
    if l.ranking == [] then None
    else
      Some(Artifact(kind, l.meta.origin.GetOr(fallbackOrigin), l.ranking, l.meta.promptCount.Or(promptCount),
                    l.meta.tokens.Or(tokens), l.meta.scope.Or(scope)))
  }

  // The metadata a scan fills in.
  class CachedRankingMetadata {
    var rankingOrigin: Option<Origin>
    var microPromptCount: Option<nat>
    var microTokens: Option<nat>
    var microLayerScope: Option<Scope>

    constructor ()
      ensures Value() == NO_META
    {
      rankingOrigin, microPromptCount, microTokens, microLayerScope := None, None, None, None;
    }

    function Value(): Meta
      reads this
    {
      Meta(rankingOrigin, microPromptCount, microTokens, microLayerScope)
    }

    method Parse(line: string)
      modifies this
      ensures Value() == MetaLine(old(Value()), line)
    {
      hide Trim;
      hide ParseUnsigned;
      hide OriginFrom;
      if line == "" || line[0] != '#' {
        return;
      }
      var rest := Trim(line[1..]);
      var i := IndexOf(rest, '=');
      if i == |rest| {
        return;
      }
      var key, value := Trim(rest[..i]), Trim(rest[i + 1..]);
      if key == "ranking_origin" {
        rankingOrigin := OriginFrom(value);
      } else if key == "micro_prompt_count" {
        microPromptCount := ParseUnsigned(value, 10, U64_LIMIT);
      } else if key == "micro_tokens" {
        microTokens := ParseUnsigned(value, 10, U32_LIMIT);
      } else if key == "micro_layer_scope" {
        microLayerScope := ScopeFrom(value);
      }
    }
  }

  method LoadSharedRankingArtifact(text: string, kind: Kind, fallbackOrigin: Origin, promptCount: Option<nat>,
                                   tokens: Option<nat>, scope: Option<Scope>) returns (r: Option<Artifact>)
    ensures r == Load(text, kind, fallbackOrigin, promptCount, tokens, scope)
  {
    hide MetaLine;
    hide Trim;
    hide ParseUnsigned;
    hide HasPrefix;
    hide BeforeFirst;
    var metadata := new CachedRankingMetadata();
    var ranking: seq<nat> := [];
    var lines := Lines(text);
    for i := 0 to |lines|
      invariant fresh(metadata)
      invariant LoadLines(Loaded(ranking, metadata.Value()), lines[i..]) == LoadLines(Loaded([], NO_META), lines)
    {
      assert lines[i..][0] == lines[i] && lines[i..][1..] == lines[i + 1..];
      var line := lines[i];
      ghost var before := Loaded(ranking, metadata.Value());
      NoMeta(metadata.Value(), line);
      if line == "" {
      } else if line[0] == '#' {
        metadata.Parse(line);
      } else if !HasPrefix(line, "expert") {
        var expert := ParseUnsigned(Trim(BeforeFirst(line, ',')), 10, U32_LIMIT);
        if expert.Some? {
          ranking := ranking + [expert.value];
        }
      }
      assert ranking + [] == ranking;
      assert Loaded(ranking, metadata.Value()) == LoadLine(before, line);
    }
    var l := metadata.Value();
    r := if ranking == [] then None
         else Some(Artifact(kind, l.origin.GetOr(fallbackOrigin), ranking, l.promptCount.Or(promptCount),
                            l.tokens.Or(tokens), l.scope.Or(scope)));
  }

  lemma NoMeta(meta: Meta, line: string)
    ensures line == "" || line[0] != '#' ==> MetaLine(meta, line) == meta
  {}

  /* ----- writing ----- */

  function MetaText(key: string, value: string): string {
    "# " + key + "=" + value
  }

  function FixedLines(a: Artifact): seq<string> {
    [MetaText("senda-moe-ranking", "v1"), MetaText("ranking_kind", KindLabel(a.kind)),
     MetaText("ranking_origin", OriginLabel(a.origin))]
  }

  function PromptCountLines(a: Artifact): seq<string> {
    if a.promptCount.Some? then [MetaText("micro_prompt_count", Decimal(a.promptCount.value))] else []
  }

  function TokenLines(a: Artifact): seq<string> {
    if a.tokens.Some? then [MetaText("micro_tokens", Decimal(a.tokens.value))] else []
  }

  function ScopeLines(a: Artifact): seq<string> {
    if a.scope.Some? then [MetaText("micro_layer_scope", ScopeLabel(a.scope.value))] else []
  }

  function HeaderLines(a: Artifact): seq<string> {
    FixedLines(a) + PromptCountLines(a) + TokenLines(a) + ScopeLines(a)
  }

  function ExpertLines(ranking: seq<nat>): (r: seq<string>)
    ensures |r| == |ranking|
  {
    seq(|ranking|, i requires 0 <= i < |ranking| => Decimal(ranking[i]))
  }

  // None for an empty ranking, which is refused.
  function Written(a: Artifact): Option<string> {
    if a.ranking == [] then None else Some(Unlines(HeaderLines(a) + ExpertLines(a.ranking)))
  }

  method WriteSharedRankingArtifact(a: Artifact) returns (r: Option<string>)
    ensures r == Written(a)
  {
    hide MetaText;
    hide Decimal;
    if a.ranking == [] {
      return None;
    }
    var lines := [MetaText("senda-moe-ranking", "v1"), MetaText("ranking_kind", KindLabel(a.kind)),
                  MetaText("ranking_origin", OriginLabel(a.origin))];
    if a.promptCount.Some? {
      lines := lines + [MetaText("micro_prompt_count", Decimal(a.promptCount.value))];
    }
    if a.tokens.Some? {
      lines := lines + [MetaText("micro_tokens", Decimal(a.tokens.value))];
    }
    if a.scope.Some? {
      lines := lines + [MetaText("micro_layer_scope", ScopeLabel(a.scope.value))];
    }
    assert lines == HeaderLines(a);
    lines := lines + ExpertLines(a.ranking);
    r := Some(Unlines(lines));
  }

  /* ----- round trip ----- */

  // Metadata texts: not empty, no space at the ends, no line break, and no `=` in a key.
  predicate PlainText(s: string) {
    s != "" && Trimmed(s) && forall c :: c in s ==> c >= ' '
  }

  lemma MetaTextIsLine(key: string, value: string)
    requires PlainText(key) && PlainText(value)
    ensures IsLine(MetaText(key, value))
  {
    var line := MetaText(key, value);
    assert line[|line| - 1] == value[|value| - 1];
    assert value[|value| - 1] in value;
  }

  lemma MetaTextLoads(meta: Meta, key: string, value: string)
    requires PlainText(key) && PlainText(value) && '=' !in key
    ensures MetaLine(meta, MetaText(key, value)) == Stored(meta, key, value)
  {
    hide Stored;
    hide IndexOf;
    hide IsSpace;
    var line := MetaText(key, value);
    var pair := key + ['='] + value;
    assert line[1..] == [' '] + pair;
    TrimPair(pair);
    CutAt(key, '=', value);
    TrimNoSpace(key);
    TrimNoSpace(value);
  }

  lemma TrimPair(pair: string)
    requires pair != "" && Trimmed(pair)
    ensures Trim([' '] + pair) == pair
  {
    assert ([' '] + pair)[1..] == pair;
    assert IsSpace(' ');
    assert TrimStart([' '] + pair) == TrimStart(pair) == pair;
  }

  lemma LabelsArePlain()
    ensures forall k: Kind :: PlainText(KindLabel(k))
    ensures forall s: Scope :: PlainText(ScopeLabel(s))
    ensures PlainText("v1")
  {}

  lemma OriginLabelIsPlain(o: Origin)
    ensures PlainText(OriginLabel(o))
  {
    match o {
      case LocalFullAnalyze => assert PlainText("local-full-analyze");
      case LocalMicroAnalyze => assert PlainText("local-micro-analyze");
      case PeerImport => assert PlainText("peer-import");
      case LegacyCache => assert PlainText("legacy-cache");
    }
  }

  lemma LabelsRoundTrip(o: Origin, s: Scope)
    ensures OriginFrom(OriginLabel(o)) == Some(o)
    ensures ScopeFrom(ScopeLabel(s)) == Some(s)
  {}

  predicate IsKey(key: string) {
    PlainText(key) && '=' !in key
  }

  lemma MicroKeys()
    ensures IsKey("micro_prompt_count") && IsKey("micro_tokens")
  {}

  lemma ScopeKey()
    ensures IsKey("micro_layer_scope")
  {}

  lemma RankingKeys()
    ensures IsKey("ranking_kind") && IsKey("ranking_origin")
  {}

  lemma VersionKey()
    ensures IsKey("senda-moe-ranking")
  {}

  lemma NumberIsPlain(n: nat)
    ensures PlainText(Decimal(n)) && IsLine(Decimal(n))
  {
    hide Decimal;
    var s := Decimal(n);
    assert s[0] in s && s[|s| - 1] in s;
  }

  predicate AllLines(lines: seq<string>) {
    forall i :: 0 <= i < |lines| ==> IsLine(lines[i])
  }

  // A metadata line that is a line of its own and stores `value` under `key`.
  ghost predicate Stores(line: string, key: string, value: string) {
    IsLine(line) && forall l: Loaded :: LoadLine(l, line) == l.(meta := Stored(l.meta, key, value))
  }

  lemma MetaTextStores(key: string, value: string)
    requires IsKey(key) && PlainText(value)
    ensures Stores(MetaText(key, value), key, value)
  {
    hide Stored;
    hide PlainText;
    var line := MetaText(key, value);
    MetaTextIsLine(key, value);
    forall l: Loaded
      ensures LoadLine(l, line) == l.(meta := Stored(l.meta, key, value))
    {
      MetaTextLoads(l.meta, key, value);
      hide MetaLine;
      hide MetaText;
      assert l.ranking + [] == l.ranking;
    }
  }

  lemma {:induction false} LoadAppend(l: Loaded, a: seq<string>, b: seq<string>)
    ensures LoadLines(l, a + b) == LoadLines(LoadLines(l, a), b)
    decreases |a|
  {
    hide LoadLine;
    if a == [] {
      assert a + b == b;
    } else {
      assert (a + b)[1..] == a[1..] + b;
      LoadAppend(LoadLine(l, a[0]), a[1..], b);
    }
  }

  lemma ThreeLinesLoad(l: Loaded, x: string, y: string, z: string)
    ensures LoadLines(l, [x, y, z]) == LoadLine(LoadLine(LoadLine(l, x), y), z)
  {
    hide LoadLine;
    LoadAppend(l, [x], [y] + [z]);
    LoadAppend(LoadLine(l, x), [y], [z]);
    assert [x, y, z] == [x] + ([y] + [z]);
    assert [x][1..] == [] && [y][1..] == [] && [z][1..] == [];
  }

  lemma OnlyTheOriginIsStored(meta: Meta, value: string, o: Origin)
    ensures Stored(meta, "senda-moe-ranking", value) == meta
    ensures Stored(meta, "ranking_kind", value) == meta
    ensures Stored(meta, "ranking_origin", OriginLabel(o)) == meta.(origin := Some(o))
  {
    LabelsRoundTrip(o, First);
    hide OriginFrom;
    hide OriginLabel;
    hide ParseUnsigned;
    hide ScopeFrom;
  }

  lemma VersionLineLoads(l: Loaded)
    ensures var line := MetaText("senda-moe-ranking", "v1"); IsLine(line) && LoadLine(l, line) == l
  {
    hide Stored;
    hide PlainText;
    VersionKey();
    LabelsArePlain();
    MetaTextStores("senda-moe-ranking", "v1");
    OnlyTheOriginIsStored(l.meta, "v1", LegacyCache);
    hide MetaText;
    hide LoadLine;
    hide IsLine;
  }

  lemma KindLineLoads(l: Loaded, k: Kind)
    ensures var line := MetaText("ranking_kind", KindLabel(k)); IsLine(line) && LoadLine(l, line) == l
  {
    hide Stored;
    hide PlainText;
    hide KindLabel;
    RankingKeys();
    LabelsArePlain();
    MetaTextStores("ranking_kind", KindLabel(k));
    OnlyTheOriginIsStored(l.meta, KindLabel(k), LegacyCache);
    hide MetaText;
    hide LoadLine;
    hide IsLine;
  }

  lemma OriginLineLoads(l: Loaded, o: Origin)
    ensures var line := MetaText("ranking_origin", OriginLabel(o));
            IsLine(line) && LoadLine(l, line) == l.(meta := l.meta.(origin := Some(o)))
  {
    hide Stored;
    hide PlainText;
    hide OriginLabel;
    RankingKeys();
    OriginLabelIsPlain(o);
    MetaTextStores("ranking_origin", OriginLabel(o));
    OnlyTheOriginIsStored(l.meta, "v1", o);
    hide MetaText;
    hide LoadLine;
    hide IsLine;
  }

  lemma FixedLinesLoad(a: Artifact)
    ensures AllLines(FixedLines(a))
    ensures LoadLines(Loaded([], NO_META), FixedLines(a)) == Loaded([], NO_META.(origin := Some(a.origin)))
  {
    hide LoadLines;
    hide LoadLine;
    hide KindLabel;
    hide OriginLabel;
    hide IsLine;
    hide MetaText;
    var l := Loaded([], NO_META);
    VersionLineLoads(l);
    KindLineLoads(l, a.kind);
    OriginLineLoads(l, a.origin);
    ThreeLinesLoad(l, MetaText("senda-moe-ranking", "v1"), MetaText("ranking_kind", KindLabel(a.kind)),
                   MetaText("ranking_origin", OriginLabel(a.origin)));
  }

  // An optional metadata line: none, or one that stores `value` under `key`.
  ghost predicate StoresIf(lines: seq<string>, present: bool, key: string, value: string) {
    if present then |lines| == 1 && Stores(lines[0], key, value) else lines == []
  }

  lemma OptionalLineLoads(l: Loaded, lines: seq<string>, present: bool, key: string, value: string)
    requires StoresIf(lines, present, key, value)
    ensures AllLines(lines)
    ensures LoadLines(l, lines) == if present then l.(meta := Stored(l.meta, key, value)) else l
  {
    hide LoadLine;
    hide Stored;
    hide IsLine;
    if present {
      assert lines[1..] == [];
    }
  }

  lemma OptionalLines(a: Artifact)
    requires Representable(a)
    ensures a.promptCount.Some? ==>
              var count := Decimal(a.promptCount.value);
              Stores(MetaText("micro_prompt_count", count), "micro_prompt_count", count)
    ensures a.tokens.Some? ==>
              var tokens := Decimal(a.tokens.value);
              Stores(MetaText("micro_tokens", tokens), "micro_tokens", tokens)
    ensures a.scope.Some? ==>
              var scope := ScopeLabel(a.scope.value);
              Stores(MetaText("micro_layer_scope", scope), "micro_layer_scope", scope)
  {
    hide PlainText;
    hide Stores;
    hide Decimal;
    MicroKeys();
    ScopeKey();
    LabelsArePlain();
    hide IsKey;
    if a.promptCount.Some? {
      NumberIsPlain(a.promptCount.value);
      MetaTextStores("micro_prompt_count", Decimal(a.promptCount.value));
    }
    if a.tokens.Some? {
      NumberIsPlain(a.tokens.value);
      MetaTextStores("micro_tokens", Decimal(a.tokens.value));
    }
    if a.scope.Some? {
      MetaTextStores("micro_layer_scope", ScopeLabel(a.scope.value));
    }
  }

  lemma StoredNumbers(meta: Meta, n: nat)
    ensures n < U64_LIMIT ==> Stored(meta, "micro_prompt_count", Decimal(n)) == meta.(promptCount := Some(n))
    ensures n < U32_LIMIT ==> Stored(meta, "micro_tokens", Decimal(n)) == meta.(tokens := Some(n))
  {
    hide ParseUnsigned;
    hide Decimal;
    if n < U64_LIMIT {
      DecimalRoundTrip(n, U64_LIMIT);
    }
    if n < U32_LIMIT {
      DecimalRoundTrip(n, U32_LIMIT);
    }
  }

  lemma StoredScope(meta: Meta, s: Scope)
    ensures Stored(meta, "micro_layer_scope", ScopeLabel(s)) == meta.(scope := Some(s))
  {}

  lemma HeaderLinesLoad(a: Artifact)
    requires Representable(a)
    ensures AllLines(HeaderLines(a))
    ensures LoadLines(Loaded([], NO_META), HeaderLines(a))
         == Loaded([], Meta(Some(a.origin), a.promptCount, a.tokens, a.scope))
  {
    hide LoadLines;
    hide FixedLines;
    hide Stored;
    hide Stores;
    hide IsLine;
    hide MetaText;
    hide Decimal;
    hide ScopeLabel;
    OptionalLines(a);
    FixedLinesLoad(a);
    var l0 := Loaded([], NO_META);
    var l1 := l0.(meta := NO_META.(origin := Some(a.origin)));
    var l2 := l1.(meta := l1.meta.(promptCount := a.promptCount));
    var l3 := l2.(meta := l2.meta.(tokens := a.tokens));
    LoadAppend(l0, FixedLines(a) + PromptCountLines(a) + TokenLines(a), ScopeLines(a));
    LoadAppend(l0, FixedLines(a) + PromptCountLines(a), TokenLines(a));
    LoadAppend(l0, FixedLines(a), PromptCountLines(a));
    if a.promptCount.Some? {
      StoredNumbers(l1.meta, a.promptCount.value);
    }
    OptionalLineLoads(l1, PromptCountLines(a), a.promptCount.Some?, "micro_prompt_count",
                      Decimal(a.promptCount.GetOr(0)));
    if a.tokens.Some? {
      StoredNumbers(l2.meta, a.tokens.value);
    }
    OptionalLineLoads(l2, TokenLines(a), a.tokens.Some?, "micro_tokens", Decimal(a.tokens.GetOr(0)));
    if a.scope.Some? {
      StoredScope(l3.meta, a.scope.value);
    }
    OptionalLineLoads(l3, ScopeLines(a), a.scope.Some?, "micro_layer_scope", ScopeLabel(a.scope.GetOr(First)));
  }

  lemma NumberLoads(l: Loaded, n: nat)
    requires n < U32_LIMIT
    ensures LoadLine(l, Decimal(n)) == l.(ranking := l.ranking + [n])
    ensures IsLine(Decimal(n))
  {
    hide Decimal;
    hide ParseUnsigned;
    hide Trim;
    var s := Decimal(n);
    assert s[0] in s;
    NumberIsPlain(n);
    DecimalTrimmed(n);
    DecimalRoundTrip(n, U32_LIMIT);
    assert s[..|s|] == s;
    assert ',' !in s;
    IndexOfIs(s, ',', |s|);
    assert "expert"[0] == 'e';
  }

  lemma {:induction false} ExpertLinesLoad(l: Loaded, ranking: seq<nat>)
    requires forall i :: 0 <= i < |ranking| ==> ranking[i] < U32_LIMIT
    ensures AllLines(ExpertLines(ranking))
    ensures LoadLines(l, ExpertLines(ranking)) == l.(ranking := l.ranking + ranking)
    decreases |ranking|
  {
    hide LoadLine;
    hide Decimal;
    hide IsLine;
    var lines := ExpertLines(ranking);
    if ranking == [] {
      assert l.ranking + ranking == l.ranking;
    } else {
      NumberLoads(l, ranking[0]);
      assert lines[1..] == ExpertLines(ranking[1..]);
      var next := l.(ranking := l.ranking + [ranking[0]]);
      ExpertLinesLoad(next, ranking[1..]);
      assert next.ranking + ranking[1..] == l.ranking + ranking;
      forall i | 0 <= i < |lines|
        ensures IsLine(lines[i])
      {
        NumberLoads(l, ranking[i]);
      }
    }
  }

  // Loading a written artifact gives back its origin, its ranking and every optional field it
  // holds; exactly the absent fields take the caller's values, and the fallback origin is unused.
  lemma WrittenLoads(a: Artifact, kind: Kind, fallbackOrigin: Origin, promptCount: Option<nat>, tokens: Option<nat>,
                     scope: Option<Scope>)
    requires Representable(a) && a.ranking != []
    ensures Written(a).Some?
    ensures Load(Written(a).value, kind, fallbackOrigin, promptCount, tokens, scope)
         == Some(Artifact(kind, a.origin, a.ranking, a.promptCount.Or(promptCount), a.tokens.Or(tokens),
                          a.scope.Or(scope)))
  {
    hide LoadLines;
    hide HeaderLines;
    hide ExpertLines;
    hide Lines;
    hide Unlines;
    hide IsLine;
    var lines := HeaderLines(a) + ExpertLines(a.ranking);
    HeaderLinesLoad(a);
    var header := Loaded([], Meta(Some(a.origin), a.promptCount, a.tokens, a.scope));
    ExpertLinesLoad(header, a.ranking);
    LoadAppend(Loaded([], NO_META), HeaderLines(a), ExpertLines(a.ranking));
    LinesRoundTrip(lines);
    assert [] + a.ranking == a.ranking;
  }

  // With the same kind and no values of the caller's own, the artifact comes back unchanged, and
  // writing it again gives the same text.
  lemma RankingFileRoundTrip(a: Artifact, fallbackOrigin: Origin)
    requires Representable(a) && a.ranking != []
    ensures Written(a).Some?
    ensures var back := Load(Written(a).value, a.kind, fallbackOrigin, None, None, None);
            back == Some(a) && Written(back.value) == Written(a)
  {
    hide Written;
    hide Load;
    WrittenLoads(a, a.kind, fallbackOrigin, None, None, None);
  }

  /* ----- files written by others ----- */

  predicate Blanks(s: string) {
    forall i :: 0 <= i < |s| ==> s[i] == ' ' || s[i] == '\t'
  }

  // The first line of a text, by its end.
  lemma FirstLine(text: string, ended: string, rest: string)
    requires text == ended + ['\n'] + rest && '\n' !in ended
    ensures Lines(text)
         == [if ended != "" && ended[|ended| - 1] == '\r' then ended[..|ended| - 1] else ended] + Lines(rest)
  {
    CutAt(ended, '\n', rest);
    hide IndexOf;
    var n := |ended|;
    assert text != "" && text[..n] == ended && text[n + 1..] == rest;
    assert n > 0 ==> text[n - 1] == ended[n - 1] && text[..n - 1] == ended[..n - 1];
  }

  // A line may end in CR LF, and the last one in nothing.
  lemma LineEnds(line: string, rest: string)
    requires '\n' !in line && (line != "" ==> line[|line| - 1] != '\r')
    ensures Lines(line + "\r\n" + rest) == [line] + Lines(rest)
    ensures Lines(line + "\n" + rest) == [line] + Lines(rest)
  {
    hide Lines;
    var cr := line + ['\r'];
    assert line + "\r\n" + rest == cr + ['\n'] + rest && cr[..|cr| - 1] == line;
    FirstLine(line + "\r\n" + rest, cr, rest);
    assert line + "\n" + rest == line + ['\n'] + rest;
    FirstLine(line + "\n" + rest, line, rest);
  }

  lemma LastLine(line: string)
    requires '\n' !in line && line != ""
    ensures Lines(line) == [line]
  {
    assert line[..|line|] == line;
    IndexOfIs(line, '\n', |line|);
    hide IndexOf;
  }

  // A data line: a number, blanks around it, and whatever follows a comma.
  lemma DataLineLoads(l: Loaded, n: nat, before: string, after: string, columns: string)
    requires n < U32_LIMIT && Blanks(before) && Blanks(after) && (columns == "" || columns[0] == ',')
    ensures LoadLine(l, before + Decimal(n) + after + columns) == l.(ranking := l.ranking + [n])
  {
    hide Decimal;
    hide ParseUnsigned;
    hide Trim;
    hide IndexOf;
    var s := Decimal(n);
    var cell := before + s + after;
    var line := cell + columns;
    assert s[0] in s && s[|s| - 1] in s && line[0] == cell[0];
    forall c | c in cell
      ensures c != ',' && c != '#' && c != 'e'
    {}
    assert cell[0] in cell;
    assert line[..|cell|] == cell;
    IndexOfIs(line, ',', |cell|);
    TrimIs(before, s, after);
    DecimalRoundTrip(n, U32_LIMIT);
    assert "expert"[0] == 'e';
  }

  // Blank lines, comments and the heading name no expert, nor does a line whose first cell is no
  // number.
  lemma OtherLines(line: string)
    ensures line == "" || line[0] == '#' || "expert" <= line ==> Expert(line) == None
    ensures ParseUnsigned(Trim(BeforeFirst(line, ',')), 10, U32_LIMIT) == None ==> Expert(line) == None
  {}

  // A comment with a key and a value, blanks anywhere between them.
  lemma CommentLoads(l: Loaded, a: string, key: string, b: string, c: string, value: string, d: string)
    requires Blanks(a) && Blanks(b) && Blanks(c) && Blanks(d)
    requires key != "" && value != "" && Trimmed(key) && Trimmed(value) && '=' !in key
    ensures LoadLine(l, "#" + (a + (key + b + "=" + c + value) + d)) == l.(meta := Stored(l.meta, key, value))
  {
    hide Stored;
    hide IndexOf;
    hide Trim;
    var pair := key + b + "=" + c + value;
    var line := "#" + (a + pair + d);
    assert line[1..] == a + pair + d && line[0] == '#';
    assert pair[0] == key[0] && pair[|pair| - 1] == value[|value| - 1];
    TrimIs(a, pair, d);
    assert pair == key + b + ['='] + (c + value);
    CutAt(key + b, '=', c + value);
    assert [] + key + b == key + b && c + value + [] == c + value;
    TrimIs([], key, b);
    TrimIs(c, value, []);
    assert l.ranking + [] == l.ranking;
  }

  // What is stored under which key; a value that cannot be read takes the field away.
  lemma StoredIs(meta: Meta, value: string)
    ensures Stored(meta, "ranking_origin", value)
         == meta.(origin := if value == "local-full-analyze" then Some(LocalFullAnalyze)
                            else if value == "local-micro-analyze" then Some(LocalMicroAnalyze)
                            else if value == "peer-import" then Some(PeerImport)
                            else if value == "legacy-cache" then Some(LegacyCache) else None)
    ensures Stored(meta, "micro_layer_scope", value)
         == meta.(scope := if value == "first" then Some(First) else if value == "all" then Some(All) else None)
    ensures Stored(meta, "micro_prompt_count", value)
         == meta.(promptCount := ParseUnsigned(value, 10, 0x1_0000_0000_0000_0000))
    ensures Stored(meta, "micro_tokens", value) == meta.(tokens := ParseUnsigned(value, 10, 0x1_0000_0000))
  {
    hide ParseUnsigned;
  }

  lemma MetaTextIs(key: string, value: string, line: string)
    requires |line| == 3 + |key| + |value| && line[..2] == "# " && line[2..2 + |key|] == key
    requires line[2 + |key|] == '=' && line[3 + |key|..] == value
    ensures MetaText(key, value) == line
  {
    assert line == line[..2] + line[2..2 + |key|] + [line[2 + |key|]] + line[3 + |key|..];
  }

  lemma KnownLines()
    ensures MetaText("senda-moe-ranking", "v1") == "# senda-moe-ranking=v1"
    ensures MetaText("ranking_kind", "analyze") == "# ranking_kind=analyze"
    ensures MetaText("ranking_kind", "micro-analyze") == "# ranking_kind=micro-analyze"
  {
    hide MetaText;
    MetaTextIs("senda-moe-ranking", "v1", "# senda-moe-ranking=v1");
    MetaTextIs("ranking_kind", "analyze", "# ranking_kind=analyze");
    MetaTextIs("ranking_kind", "micro-analyze", "# ranking_kind=micro-analyze");
  }

  lemma KnownImport()
    ensures MetaText("ranking_origin", "peer-import") == "# ranking_origin=peer-import"
  {
    assert "# " + "ranking_origin" + "=" == "# ranking_origin=";
  }

  lemma KnownLegacy()
    ensures MetaText("ranking_origin", "legacy-cache") == "# ranking_origin=legacy-cache"
  {
    assert "# " + "ranking_origin" + "=" == "# ranking_origin=";
  }

  lemma KnownOptions()
    ensures MetaText("micro_prompt_count", "3") == "# micro_prompt_count=3"
    ensures MetaText("micro_tokens", "8") == "# micro_tokens=8"
    ensures MetaText("micro_layer_scope", "all") == "# micro_layer_scope=all"
  {
    hide MetaText;
    MetaTextIs("micro_prompt_count", "3", "# micro_prompt_count=3");
    MetaTextIs("micro_tokens", "8", "# micro_tokens=8");
    MetaTextIs("micro_layer_scope", "all", "# micro_layer_scope=all");
  }

  // A written file, to the letter: its lines, each ended by a line feed.
  lemma KnownFile()
    ensures Written(Artifact(MicroAnalyze, PeerImport, [7, 1], Some(3), Some(8), Some(All)))
         == Some(Unlines(["# senda-moe-ranking=v1", "# ranking_kind=micro-analyze", "# ranking_origin=peer-import",
                          "# micro_prompt_count=3", "# micro_tokens=8", "# micro_layer_scope=all", "7", "1"]))
    ensures Written(Artifact(Analyze, LegacyCache, [2], None, None, None))
         == Some(Unlines(["# senda-moe-ranking=v1", "# ranking_kind=analyze", "# ranking_origin=legacy-cache", "2"]))
    ensures Unlines(["7", "1"]) == "7\n1\n"
  {
    KnownLines();
    KnownImport();
    KnownLegacy();
    KnownOptions();
    hide MetaText;
    assert Unlines(["7", "1"]) == "7\n1\n" by { assert ["7", "1"][1..] == ["1"] && ["1"][1..] == []; }
    hide Unlines;
    var a := Artifact(MicroAnalyze, PeerImport, [7, 1], Some(3), Some(8), Some(All));
    assert ExpertLines(a.ranking) == ["7", "1"];
    assert ExpertLines([2]) == ["2"];
    assert Decimal(3) == "3" && Decimal(8) == "8";
    hide Decimal;
    hide ExpertLines;
    assert HeaderLines(a) + ["7", "1"]
        == ["# senda-moe-ranking=v1", "# ranking_kind=micro-analyze", "# ranking_origin=peer-import",
            "# micro_prompt_count=3", "# micro_tokens=8", "# micro_layer_scope=all", "7", "1"];
    var b := Artifact(Analyze, LegacyCache, [2], None, None, None);
    assert HeaderLines(b) + ["2"]
        == ["# senda-moe-ranking=v1", "# ranking_kind=analyze", "# ranking_origin=legacy-cache", "2"];
  }
}
