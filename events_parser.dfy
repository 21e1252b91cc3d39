/**
 * The event-feed parser: `GitHubEventsParser.parse` cuts the raw response
 * body into entries at every `},{`, reads five fields out of each entry by
 * literal prefix/terminator search, drops entries lacking a type, repository
 * or creation date, and builds one event record per remaining entry, in
 * input order.
 */
module EventsParser {
  import opened Wrappers
  import opened JavaText

  /** `java.time.Instant`: seconds since the epoch and the nanosecond adjustment. */
  datatype Instant = Instant(epochSecond: int, nano: nat)

  /** The record built for one kept entry. */
  datatype Event = Event(eventType: string, repo: string, createdAt: Instant, commitCount: int32, action: Option<string>)

  /** The exceptions `parse` lets escape: from `Instant.parse` and from `Integer.parseInt`. */
  datatype ParseError = DateTimeParseError(text: string) | NumberFormatError(text: string)

  /** What one entry contributes. */
  datatype EntryOutcome = Skipped | Kept(event: Event) | Failed(error: ParseError)

  const EntryDelimiter: string := "},{"
  const TypeKey: string := "\"type\":\""
  /** Written like a regular expression, but searched for as literal text. */
  const RepoPatternKey: string := "\"repo\":\\{[^}]*\"name\":\""
  const DateKey: string := "\"created_at\":\""
  const ActionKey: string := "\"action\":\""
  const SizeKey: string := "\"size\":"
  const Quote: string := "\""
  const Comma: string := ","
  /** The keys the repaired repository rule looks for: the opening of the repository object and its name. */
  const RepoKey: string := "\"repo\":{"
  const NameKey: string := "\"name\":\""

  /**
   * `v` is the text after the first `prefix` (which starts at `start`) and
   * before the first `end` that follows it.
   */
  ghost predicate ExtractedAt(source: string, prefix: string, end: string, start: int, v: string) {
    && FirstFrom(source, prefix, 0, start)
    && FirstFrom(source, end, start + |prefix|, start + |prefix| + |v|)
    && v == source[start + |prefix|..start + |prefix| + |v|]
  }

  /**
   * `extract(source, prefix, end)`: the text between the first occurrence of
   * `prefix` and the first occurrence of `end` after it; absent exactly when
   * `prefix` is missing or no `end` follows its first occurrence.
   */
  function Extract(source: string, prefix: string, end: string): (r: Option<string>)
    ensures r.None? <==>
      AbsentFrom(source, prefix, 0) || AbsentFrom(source, end, IndexOf(source, prefix, 0) + |prefix|)
    ensures r.Some? ==> ExtractedAt(source, prefix, end, IndexOf(source, prefix, 0), r.value)
  {
    var start := IndexOf(source, prefix, 0);
    if start == -1 then None
    else
      var begin := start + |prefix|;
      var finish := IndexOf(source, end, begin);
      if finish == -1 then None else Some(source[begin..finish])
  }

  /**
   * A present extraction cuts the source into the text before the first
   * `prefix`, the prefix, the value, the terminator and the rest.
   */
  lemma ExtractSplitsSource(source: string, prefix: string, end: string)
    requires Extract(source, prefix, end).Some?
    ensures var v, start := Extract(source, prefix, end).value, IndexOf(source, prefix, 0);
      && 0 <= start && start + |prefix| + |v| + |end| <= |source|
      && (forall j :: 0 <= j < start ==> !OccursAt(source, prefix, j))
      && source == source[..start] + prefix + v + end + source[start + |prefix| + |v| + |end|..]
  {
    var v := Extract(source, prefix, end).value;
    ExtractedLayout(source, prefix, v, end, IndexOf(source, prefix, 0));
  }

  lemma ExtractedLayout(source: string, prefix: string, v: string, end: string, start: int)
    requires OccursAt(source, prefix, start) && OccursAt(source, end, start + |prefix| + |v|)
    requires v == source[start + |prefix|..start + |prefix| + |v|]
    ensures source == source[..start] + prefix + v + end + source[start + |prefix| + |v| + |end|..]
  {
    var finish := start + |prefix| + |v|;
    CutAtOccurrence(source, prefix, start);
    CutAtOccurrence(source, end, finish);
    assert source[..finish] == source[..start] + prefix + v;
  }

  /** Because the first terminator is used, the value never contains it. */
  lemma ExtractValueAvoidsEnd(source: string, prefix: string, end: string)
    requires |end| > 0 && Extract(source, prefix, end).Some?
    ensures !Contains(Extract(source, prefix, end).value, end)
  {
    var v := Extract(source, prefix, end).value;
    var begin := IndexOf(source, prefix, 0) + |prefix|;
    BeforeFirstAvoids(source, end, begin, begin + |v|);
  }

  // ---- One entry ----

  /**
   * How the repository name is located: as the source does, by a literal
   * search for the regex-looking key; or as the key evidently intends, by
   * finding `"repo":{` and then a `"name":"` that no `}` separates from it.
   */
  datatype RepoRule = LiteralPattern | RepoThenName

  /**
   * The repository name of an entry under either rule. Like every value read
   * up to a closing quote, it holds no quote and is shorter than the entry.
   */
  function RepoField(entry: string, rule: RepoRule): (r: Option<string>)
    ensures r.Some? ==> '"' !in r.value && |r.value| < |entry|
  {
    match rule
    case LiteralPattern =>
      var v := Extract(entry, RepoPatternKey, Quote);
      if v.None? then None else QuotedValueBounds(entry, RepoPatternKey); v
    case RepoThenName =>
      var at := IndexOf(entry, RepoKey, 0);
      if at == -1 then None
      else
        var scope := at + |RepoKey|;
        var nameAt := IndexOf(entry, NameKey, scope);
        if nameAt == -1 || '}' in entry[scope..nameAt] then None
        else
          var v := Extract(entry[nameAt..], NameKey, Quote);
          if v.None? then None else QuotedValueBounds(entry[nameAt..], NameKey); v
  }

  /** A value read up to the first quote holds no quote and is shorter than its source. */
  lemma QuotedValueBounds(source: string, prefix: string)
    requires Extract(source, prefix, Quote).Some?
    ensures var v := Extract(source, prefix, Quote).value; '"' !in v && |v| < |source|
  {
    var v := Extract(source, prefix, Quote).value;
    var begin := IndexOf(source, prefix, 0) + |prefix|;
    assert FirstFrom(source, Quote, begin, begin + |v|);
    if '"' in v {
      var k :| 0 <= k < |v| && v[k] == '"';
      assert source[begin + k..begin + k + 1] == Quote;
      assert OccursAt(source, Quote, begin + k);
    }
  }

  /**
   * The body of the loop in `parse` for one entry: skipped when type,
   * repository or date is missing; otherwise the date must parse (else
   * `DateTimeParseException`) and a present size must be an `int` (else
   * `NumberFormatException`); an absent size counts as 0 commits.
   */
  function ProcessEntry(entry: string, rule: RepoRule, parseInstant: string -> Option<Instant>): (o: EntryOutcome)
    ensures var eventType, repo, date := Extract(entry, TypeKey, Quote), RepoField(entry, rule), Extract(entry, DateKey, Quote);
      o.Skipped? <==> eventType.None? || repo.None? || date.None?
    ensures var date, size := Extract(entry, DateKey, Quote), Extract(entry, SizeKey, Comma);
      && (o.Failed? <==> !o.Skipped? && (parseInstant(date.value).None? || (size.Some? && ParseInt(size.value).None?)))
      && (o.Failed? ==> o.error == if parseInstant(date.value).None? then DateTimeParseError(date.value) else NumberFormatError(size.value))
    ensures o.Kept? ==>
      && Some(o.event.eventType) == Extract(entry, TypeKey, Quote)
      && Some(o.event.repo) == RepoField(entry, rule)
      && Some(o.event.createdAt) == parseInstant(Extract(entry, DateKey, Quote).value)
      && o.event.action == Extract(entry, ActionKey, Quote)
    ensures o.Kept? ==> var size := Extract(entry, SizeKey, Comma);
      && (size.None? ==> o.event.commitCount == 0)
      && (size.Some? ==> ParseInt(size.value) == Some(o.event.commitCount))
  {
    var eventType := Extract(entry, TypeKey, Quote);
    var repo := RepoField(entry, rule);
    var date := Extract(entry, DateKey, Quote);
    var action := Extract(entry, ActionKey, Quote);
    var size := Extract(entry, SizeKey, Comma);
    if eventType.None? || repo.None? || date.None? then Skipped
    else match parseInstant(date.value)
      case None => Failed(DateTimeParseError(date.value))
      case Some(createdAt) =>
        var commitCount := if size.Some? then ParseInt(size.value) else Some(0);
        match commitCount
        case None => Failed(NumberFormatError(size.value))
        case Some(n) => Kept(Event(eventType.value, repo.value, createdAt, n, action))
  }

  // ---- The whole body ----

  /**
   * The loop of `parse` as a left fold over the outcomes of its entries: the
   * events of the kept entries in order, or the exception of the first entry
   * that throws.
   */
  function Gather(outcomes: seq<EntryOutcome>): (r: Result<seq<Event>, ParseError>)
    ensures r.Success? ==> |r.value| <= |outcomes|
    decreases |outcomes|
  {
    if |outcomes| == 0 then Success([])
    else
      var before := Gather(outcomes[..|outcomes| - 1]);
      if before.Failure? then before
      else match outcomes[|outcomes| - 1]
        case Skipped => before
        case Kept(event) => Success(before.value + [event])
        case Failed(error) => Failure(error)
  }

  /** The outcome of each entry, in order. */
  function Outcomes(entries: seq<string>, rule: RepoRule, parseInstant: string -> Option<Instant>): (os: seq<EntryOutcome>)
    ensures |os| == |entries|
    ensures forall k :: 0 <= k < |entries| ==> os[k] == ProcessEntry(entries[k], rule, parseInstant)
  {
    seq(|entries|, k requires 0 <= k < |entries| => ProcessEntry(entries[k], rule, parseInstant))
  }

  /** The entries `parse` loops over. */
  function Entries(json: string): (entries: seq<string>)
    ensures forall k :: 0 <= k < |entries| ==> !Contains(entries[k], EntryDelimiter)
  {
    SplitPiecesAvoidDelimiter(json, EntryDelimiter);
    Split(json, EntryDelimiter)
  }

  /** What `parse(json)` returns or throws, for a given repository rule. */
  function ParseSpec(json: string, rule: RepoRule, parseInstant: string -> Option<Instant>): Result<seq<Event>, ParseError> {
    Gather(Outcomes(Entries(json), rule, parseInstant))
  }

  /**
   * `parse(json)` with the source's literal repository search. Calls into
   * `Instant.parse` are the parameter `parseInstant` (`None` where it throws).
   */
  method Parse(json: string, parseInstant: string -> Option<Instant>) returns (r: Result<seq<Event>, ParseError>)
    ensures r == ParseSpec(json, LiteralPattern, parseInstant)
    ensures r.Success? ==> |r.value| <= |Entries(json)|
  {
    r := ParseWith(json, LiteralPattern, parseInstant);
  }

  /** The loop of `parse`, for either rule of locating the repository. */
  method ParseWith(json: string, rule: RepoRule, parseInstant: string -> Option<Instant>) returns (r: Result<seq<Event>, ParseError>)
    ensures r == ParseSpec(json, rule, parseInstant)
  {
    var entries := Split(json, EntryDelimiter);
    ghost var outcomes := Outcomes(entries, rule, parseInstant);
    var events: seq<Event> := [];
    for i := 0 to |entries|
      invariant Gather(outcomes[..i]) == Success(events)
    {
      var entry := entries[i];
      GatherStep(outcomes, i);
      var eventType := Extract(entry, TypeKey, Quote);
      var repo := RepoField(entry, rule);
      var date := Extract(entry, DateKey, Quote);
      var action := Extract(entry, ActionKey, Quote);
      var size := Extract(entry, SizeKey, Comma);

      if eventType.None? || repo.None? || date.None? {
        continue;
      }

      var createdAt := parseInstant(date.value);
      if createdAt.None? {
        r := Failure(DateTimeParseError(date.value));
        FailureIsFinal(outcomes, i + 1);
        return;
      }
      var commitCount: int32 := 0;
      if size.Some? {
        var n := ParseInt(size.value);
        if n.None? {
          r := Failure(NumberFormatError(size.value));
          FailureIsFinal(outcomes, i + 1);
          return;
        }
        commitCount := n.value;
      }

      events := events + [Event(eventType.value, repo.value, createdAt.value, commitCount, action)];
    }
    assert outcomes[..|entries|] == outcomes;
    r := Success(events);
  }

  /** One more entry: what the fold does with its outcome. */
  lemma GatherStep(outcomes: seq<EntryOutcome>, i: nat)
    requires i < |outcomes|
    ensures Gather(outcomes[..i + 1]) ==
      var before := Gather(outcomes[..i]);
      if before.Failure? then before
      else match outcomes[i]
        case Skipped => before
        case Kept(event) => Success(before.value + [event])
        case Failed(error) => Failure(error)
  {
    assert outcomes[..i + 1][..i] == outcomes[..i];
  }

  /** Once the entries so far have thrown, the later ones change nothing. */
  lemma {:induction false} FailureIsFinal(outcomes: seq<EntryOutcome>, i: nat)
    requires i <= |outcomes| && Gather(outcomes[..i]).Failure?
    ensures Gather(outcomes) == Gather(outcomes[..i])
    decreases |outcomes|
  {
    if i < |outcomes| {
      var init := outcomes[..|outcomes| - 1];
      assert init[..i] == outcomes[..i];
      FailureIsFinal(init, i);
    } else {
      assert outcomes[..i] == outcomes;
    }
  }

  // ---- What the fold promises ----

  /**
   * `origin[k]` is the entry that produced event `k`: the origins are
   * increasing, each produced its event, and every other entry was skipped.
   */
  ghost predicate Provenance(outcomes: seq<EntryOutcome>, events: seq<Event>, origin: seq<nat>) {
    && |origin| == |events|
    && (forall k :: 0 <= k < |origin| ==> origin[k] < |outcomes| && outcomes[origin[k]] == Kept(events[k]))
    && (forall k, l :: 0 <= k < l < |origin| ==> origin[k] < origin[l])
    && (forall j :: 0 <= j < |outcomes| && j !in origin ==> outcomes[j].Skipped?)
  }

  /**
   * A successful parse keeps exactly the entries that yield an event, in
   * their input order, and skips all the others.
   */
  lemma {:induction false} GatherKeepsOrder(outcomes: seq<EntryOutcome>)
    requires Gather(outcomes).Success?
    ensures exists origin :: Provenance(outcomes, Gather(outcomes).value, origin)
    decreases |outcomes|
  {
    var events := Gather(outcomes).value;
    if |outcomes| == 0 {
      assert Provenance(outcomes, events, []);
    } else {
      var n := |outcomes| - 1;
      GatherKeepsOrder(outcomes[..n]);
      var before := Gather(outcomes[..n]).value;
      var origin0 :| Provenance(outcomes[..n], before, origin0);
      ProvenanceExtends(outcomes, before, origin0);
      if outcomes[n].Skipped? {
        assert events == before;
      } else {
        assert events == before + [outcomes[n].event];
      }
    }
  }

  /** Provenance survives one more entry that does not throw. */
  lemma ProvenanceExtends(outcomes: seq<EntryOutcome>, before: seq<Event>, origin0: seq<nat>)
    requires |outcomes| > 0 && Provenance(outcomes[..|outcomes| - 1], before, origin0)
    requires !outcomes[|outcomes| - 1].Failed?
    ensures var last := outcomes[|outcomes| - 1];
      && (last.Skipped? ==> Provenance(outcomes, before, origin0))
      && (last.Kept? ==> Provenance(outcomes, before + [last.event], origin0 + [|outcomes| - 1]))
  {
    var n := |outcomes| - 1;
    var init := outcomes[..n];
    assert forall j :: 0 <= j < n ==> outcomes[j] == init[j];
    if outcomes[n].Kept? {
      var origin := origin0 + [n];
      forall j | 0 <= j < |outcomes| && j !in origin
        ensures outcomes[j].Skipped?
      {
        assert j != n && j !in origin0;
      }
    }
  }

  /**
   * A skipped entry leaves no trace: removing it from anywhere in the list
   * gives the same result.
   */
  lemma {:induction false} SkippedEntryIsInvisible(before: seq<EntryOutcome>, after: seq<EntryOutcome>)
    ensures Gather(before + [Skipped] + after) == Gather(before + after)
    decreases |after|
  {
    if |after| == 0 {
      assert before + [Skipped] + after == before + [Skipped];
      assert (before + [Skipped])[..|before|] == before;
      assert before + after == before;
    } else {
      var init := after[..|after| - 1];
      SkippedEntryIsInvisible(before, init);
      assert (before + [Skipped] + after)[..|before| + 1 + |init|] == before + [Skipped] + init;
      assert (before + after)[..|before| + |init|] == before + init;
    }
  }

  /** The parse throws exactly when some entry throws. */
  lemma {:induction false} GatherFailsIffSomeEntryFails(outcomes: seq<EntryOutcome>)
    ensures Gather(outcomes).Failure? <==> exists i :: 0 <= i < |outcomes| && outcomes[i].Failed?
    decreases |outcomes|
  {
    if |outcomes| > 0 {
      var n := |outcomes| - 1;
      var init := outcomes[..n];
      GatherFailsIffSomeEntryFails(init);
      if exists i :: 0 <= i < n && init[i].Failed? {
        var i :| 0 <= i < n && init[i].Failed?;
        assert outcomes[i] == init[i];
      }
      if exists i :: 0 <= i < |outcomes| && outcomes[i].Failed? {
        var i :| 0 <= i < |outcomes| && outcomes[i].Failed?;
        if i < n {
          assert init[i] == outcomes[i];
        }
      }
    }
  }

  /** The exception reported is that of the first entry that throws. */
  lemma GatherReportsFirstFailure(outcomes: seq<EntryOutcome>, i: nat)
    requires i < |outcomes| && outcomes[i].Failed?
    requires forall j :: 0 <= j < i ==> !outcomes[j].Failed?
    ensures Gather(outcomes) == Failure(outcomes[i].error)
  {
    var init := outcomes[..i];
    GatherFailsIffSomeEntryFails(init);
    GatherStep(outcomes, i);
    FailureIsFinal(outcomes, i + 1);
  }

  // ---- The repository key ----

  /**
   * The literal search for the regex-looking key can only succeed where the
   * entry holds a backslash: the key's eighth character is one.
   */
  lemma LiteralRepoKeyNeedsBackslash(entry: string)
    requires '\\' !in entry
    ensures RepoField(entry, LiteralPattern) == None
  {
    assert RepoPatternKey[7] == '\\';
  }

  /** A fold over entries that are all skipped yields no events. */
  lemma {:induction false} GatherAllSkipped(outcomes: seq<EntryOutcome>)
    requires forall k :: 0 <= k < |outcomes| ==> outcomes[k].Skipped?
    ensures Gather(outcomes) == Success([])
    decreases |outcomes|
  {
    if |outcomes| > 0 {
      GatherAllSkipped(outcomes[..|outcomes| - 1]);
    }
  }

  /**
   * As written, `parse` returns an empty list for every body without a
   * backslash, whatever types, repositories and dates its entries carry.
   */
  lemma AsWrittenParseFindsNothing(json: string, parseInstant: string -> Option<Instant>)
    requires '\\' !in json
    ensures ParseSpec(json, LiteralPattern, parseInstant) == Success([])
  {
    var entries := Entries(json);
    var outcomes := Outcomes(entries, LiteralPattern, parseInstant);
    forall k | 0 <= k < |outcomes|
      ensures outcomes[k].Skipped?
    {
      if '\\' in entries[k] {
        SplitPieceChars(json, EntryDelimiter, k, '\\');
      }
      LiteralRepoKeyNeedsBackslash(entries[k]);
    }
    GatherAllSkipped(outcomes);
  }

  /**
   * With the repaired rule, the repository is the value of the first
   * `"name":"` key after the first `"repo":{`, up to the closing quote,
   * provided no `}` closes the repository object before that key.
   */
  lemma RepoThenNameFindsName(entry: string, at: nat, nameAt: nat, name: string)
    requires FirstFrom(entry, RepoKey, 0, at)
    requires FirstFrom(entry, NameKey, at + |RepoKey|, nameAt)
    requires '}' !in entry[at + |RepoKey|..nameAt]
    requires OccursAt(entry, name + Quote, nameAt + |NameKey|)
    requires '"' !in name
    ensures RepoField(entry, RepoThenName) == Some(name)
  {
    IndexOfIs(entry, RepoKey, 0, at);
    IndexOfIs(entry, NameKey, at + |RepoKey|, nameAt);
    var rest := entry[nameAt..];
    assert OccursAt(rest, NameKey, 0);
    assert rest[|NameKey|..|NameKey| + |name| + 1] == entry[nameAt + |NameKey|..nameAt + |NameKey| + |name| + 1];
    QuoteClosesValue(rest, |NameKey|, name);
    ExtractFinds(rest, NameKey, Quote, 0, name);
  }

  /**
   * With the repaired rule, a `}` that closes the repository object before
   * any `"name":"` key leaves the entry without a repository, even when a
   * later object has a name.
   */
  lemma RepoThenNameStaysInRepoObject(entry: string, at: nat, close: nat)
    requires FirstFrom(entry, RepoKey, 0, at)
    requires at + |RepoKey| <= close < |entry| && entry[close] == '}'
    requires forall j :: at + |RepoKey| <= j < close ==> !OccursAt(entry, NameKey, j)
    ensures RepoField(entry, RepoThenName) == None
  {
    IndexOfIs(entry, RepoKey, 0, at);
    var scope := at + |RepoKey|;
    var nameAt := IndexOf(entry, NameKey, scope);
    if nameAt != -1 {
      assert entry[scope..nameAt][close - scope] == '}';
    }
  }

  /** A value free of quotes, followed by a quote, ends at that quote. */
  lemma QuoteClosesValue(s: string, begin: nat, v: string)
    requires OccursAt(s, v + Quote, begin) && '"' !in v
    ensures FirstFrom(s, Quote, begin, begin + |v|) && s[begin..begin + |v|] == v
  {
    assert s[begin..begin + |v|] == s[begin..begin + |v| + 1][..|v|];
    assert (v + Quote)[..|v|] == v;
    assert s[begin + |v|..begin + |v| + 1] == [(v + Quote)[|v|]];
    forall j | begin <= j < begin + |v|
      ensures !OccursAt(s, Quote, j)
    {
      assert s[j] == v[j - begin];
    }
  }

  /** Where the first `prefix` and the first `end` after it are known, so is the extraction. */
  lemma ExtractFinds(source: string, prefix: string, end: string, start: int, v: string)
    requires FirstFrom(source, prefix, 0, start)
    requires FirstFrom(source, end, start + |prefix|, start + |prefix| + |v|)
    requires source[start + |prefix|..start + |prefix| + |v|] == v
    ensures Extract(source, prefix, end) == Some(v)
  {
    IndexOfIs(source, prefix, 0, start);
    IndexOfIs(source, end, start + |prefix|, start + |prefix| + |v|);
    ExtractAtIndices(source, prefix, end, start, start + |prefix| + |v|);
  }

  lemma ExtractAtIndices(source: string, prefix: string, end: string, start: int, finish: int)
    requires 0 <= start && start + |prefix| <= finish <= |source|
    requires IndexOf(source, prefix, 0) == start
    requires IndexOf(source, end, start + |prefix|) == finish
    ensures Extract(source, prefix, end) == Some(source[start + |prefix|..finish])
  {
  }
}
